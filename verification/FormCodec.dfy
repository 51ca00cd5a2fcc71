/**
`URLParser::urlDecode` and `MemeHandler::parseRequestBody`: percent-decoding (section 2.1 of RFC 3986) and
form-decoding (section 8.2.1 of RFC 1866) as the server does them.
*/
module FormCodec {
  import opened Text
  import opened HtmlCodec

  // ---- Percent-decoding ----

  predicate IsHex(c: char) {
    '0' <= c <= '9' || 'a' <= c <= 'f' || 'A' <= c <= 'F'
  }

  function HexValue(c: char): (v: nat)
    requires IsHex(c)
    ensures v < 16
  {
    if c <= '9' then (c - '0') as nat
    else if c <= 'F' then (c - 'A') as nat + 10
    else (c - 'a') as nat + 10
  }

  /** The character two hexadecimal digits stand for. */
  function HexChar(a: char, b: char): char
    requires IsHex(a) && IsHex(b)
  {
    (16 * HexValue(a) + HexValue(b)) as char
  }

  /** Two hexadecimal digits follow every percent sign that is read; `urlDecode` is undefined otherwise. */
  predicate WellEscaped(s: string)
    decreases |s|
  {
    s == "" ||
    if s[0] == '%' then |s| >= 3 && IsHex(s[1]) && IsHex(s[2]) && WellEscaped(s[3..]) else WellEscaped(s[1..])
  }

  function UrlDecode(s: string): string
    requires WellEscaped(s)
    decreases |s|
  {
    if s == "" then ""
    else if s[0] == '%' then [HexChar(s[1], s[2])] + UrlDecode(s[3..])
    else [s[0]] + UrlDecode(s[1..])
  }

  /** Every escape, in either case of its digits: the 256 codes. */
  lemma EscapeDecodes(i: nat, j: nat, a: char, b: char, rest: string)
    requires i < 16 && j < 16
    requires a == "0123456789abcdef"[i] || a == "0123456789ABCDEF"[i]
    requires b == "0123456789abcdef"[j] || b == "0123456789ABCDEF"[j]
    ensures WellEscaped("%" + [a, b] + rest) <==> WellEscaped(rest)
    ensures WellEscaped(rest) ==> UrlDecode("%" + [a, b] + rest) == [(16 * i + j) as char] + UrlDecode(rest)
  {
    HexDigit(i, a);
    HexDigit(j, b);
    hide IsHex, HexValue, WellEscaped, UrlDecode;
    EscapeStep(a, b, rest);
  }

  lemma EscapeStep(a: char, b: char, rest: string)
    requires IsHex(a) && IsHex(b)
    ensures WellEscaped("%" + [a, b] + rest) <==> WellEscaped(rest)
    ensures WellEscaped(rest) ==> UrlDecode("%" + [a, b] + rest) == [HexChar(a, b)] + UrlDecode(rest)
  {
    hide IsHex, HexChar;
    var s := "%" + [a, b] + rest;
    assert s[0] == '%' && s[1] == a && s[2] == b && s[3..] == rest;
  }

  lemma HexDigit(i: nat, a: char)
    requires i < 16 && (a == "0123456789abcdef"[i] || a == "0123456789ABCDEF"[i])
    ensures IsHex(a) && HexValue(a) == i
  {
  }

  /** Any other character stands for itself. */
  lemma PlainDecodes(c: char, rest: string)
    requires c != '%'
    ensures WellEscaped([c] + rest) <==> WellEscaped(rest)
    ensures WellEscaped(rest) ==> UrlDecode([c] + rest) == [c] + UrlDecode(rest)
  {
    assert ([c] + rest)[1..] == rest;
  }

  method DecodeUrl(eString: string) returns (ret: string)
    requires WellEscaped(eString)
    ensures ret == UrlDecode(eString)
  {
    ret := "";
    var i := 0;
    assert eString[0..] == eString;
    while i < |eString|
      invariant 0 <= i <= |eString|
      invariant WellEscaped(eString[i..])
      invariant ret + UrlDecode(eString[i..]) == UrlDecode(eString)
    {
      if eString[i] == '%' {
        assert eString[i..][3..] == eString[i + 3..];
        ret := ret + [HexChar(eString[i + 1], eString[i + 2])];
        i := i + 2;
      } else {
        assert eString[i..][1..] == eString[i + 1..];
        ret := ret + [eString[i]];
      }
      i := i + 1;
    }
  }

  // ---- Decoding one form value ----

  /** The first `%2F` that percent-decoding leaves becomes a slash. */
  function SlashFirst(s: string): string {
    match Find(s, "%2F")
    case None => s
    case Some(k) =>
      FindLeast(s, "%2F");
      s[..k] + "/" + s[k + 3..]
  }

  function PlusToSpace(s: string): string {
    seq(|s|, i requires 0 <= i < |s| => if s[i] == '+' then ' ' else s[i])
  }

  function DecodeValue(e: string): string
    requires WellEscaped(e)
  {
    PlusToSpace(SlashFirst(UrlDecode(e)))
  }

  /** `e` is a form encoding of `s`: a space is `+` or escaped, the delimiters and the percent sign are escaped,
      and any other character stands for itself or is escaped. */
  predicate Encodes(e: string, s: string)
    decreases |s|
  {
    if s == "" then e == ""
    else
      e != "" &&
      ((e[0] == s[0] && s[0] !in {'%', '&', '=', '+', ' '} && Encodes(e[1..], s[1..])) ||
       (e[0] == '+' && s[0] == ' ' && Encodes(e[1..], s[1..])) ||
       (e[0] == '%' && |e| >= 3 && IsHex(e[1]) && IsHex(e[2]) && HexChar(e[1], e[2]) == s[0] &&
        Encodes(e[3..], s[1..])))
  }

  /** `t` is `s` with some of its spaces written as plus signs. */
  predicate PlusForSpace(t: string, s: string) {
    |t| == |s| && forall i :: 0 <= i < |s| ==> t[i] == s[i] || (s[i] == ' ' && t[i] == '+')
  }

  lemma {:induction false} DecodeEncoding(e: string, s: string)
    requires Encodes(e, s)
    ensures WellEscaped(e) && PlusForSpace(UrlDecode(e), s)
    ensures '&' !in e && '=' !in e
    decreases |s|
  {
    if s != "" {
      var n := if e[0] == '%' then 3 else 1;
      DecodeEncoding(e[n..], s[1..]);
      var t := UrlDecode(e[n..]);
      assert UrlDecode(e) == [UrlDecode(e)[0]] + t;
      forall i | 0 <= i < |s| ensures UrlDecode(e)[i] == s[i] || (s[i] == ' ' && UrlDecode(e)[i] == '+') {
        if i > 0 {
          assert UrlDecode(e)[i] == t[i - 1] && s[i] == s[1..][i - 1];
        }
      }
      assert e == e[..n] + e[n..];
    }
  }

  lemma SameEscapes(t: string, s: string)
    requires PlusForSpace(t, s)
    ensures Find(t, "%2F") == Find(s, "%2F")
    decreases |s|
  {
    if s != "" {
      assert PlusForSpace(t[1..], s[1..]);
      SameEscapes(t[1..], s[1..]);
      assert "%2F" <= t <==> |t| >= 3 && t[0] == '%' && t[1] == '2' && t[2] == 'F';
      assert "%2F" <= s <==> |s| >= 3 && s[0] == '%' && s[1] == '2' && s[2] == 'F';
    }
  }

  /** No plus sign, and no `%2F` written out. */
  predicate Clean(s: string) {
    '+' !in s && !Contains(s, "%2F")
  }

  /** One value survives encoding and decoding exactly when it has no plus sign and no literal `%2F`. */
  lemma DecodeValueIff(e: string, s: string)
    requires Encodes(e, s)
    ensures WellEscaped(e) && (DecodeValue(e) == s <==> Clean(s))
  {
    DecodeEncoding(e, s);
    var t := UrlDecode(e);
    SameEscapes(t, s);
    FindLeast(t, "%2F");
    if Contains(s, "%2F") {
      assert |DecodeValue(e)| < |s|;
    } else if '+' in s {
      var i :| 0 <= i < |s| && s[i] == '+';
      assert DecodeValue(e)[i] == ' ';
    } else {
      assert forall i :: 0 <= i < |s| ==> s[i] in s;
      assert DecodeValue(e) == s;
    }
  }

  /** `r` is `x` with its plus signs turned into spaces. */
  predicate Spaced(r: string, x: string) {
    |r| == |x| && forall i :: 0 <= i < |x| ==> r[i] == if x[i] == '+' then ' ' else x[i]
  }

  /** What any encoded value is decoded to: its plus signs become spaces, and only the first `%2F` a slash. */
  lemma DecodedIs(e: string, s: string, a: string, b: string)
    requires Encodes(e, s)
    ensures WellEscaped(e)
    ensures !Contains(s, "%2F") ==> Spaced(DecodeValue(e), s)
    ensures s == a + "%2F" + b && Find(s, "%2F") == Some(|a|) ==> Spaced(DecodeValue(e), a + "/" + b)
  {
    DecodeEncoding(e, s);
    var t := UrlDecode(e);
    SameEscapes(t, s);
    hide UrlDecode, WellEscaped, Encodes, Find;
    if s == a + "%2F" + b && Find(s, "%2F") == Some(|a|) {
      FirstSlash(t, s, a, b);
    }
  }

  lemma FirstSlash(t: string, s: string, a: string, b: string)
    requires PlusForSpace(t, s) && s == a + "%2F" + b && Find(t, "%2F") == Some(|a|)
    ensures Spaced(PlusToSpace(SlashFirst(t)), a + "/" + b)
  {
    hide Find;
    FindLeast(t, "%2F");
    var r, x := t[..|a|] + "/" + t[|a| + 3..], a + "/" + b;
    assert SlashFirst(t) == r;
    forall i | 0 <= i < |x| ensures r[i] == x[i] || (x[i] == ' ' && r[i] == '+') {
      if i < |a| {
        assert r[i] == t[i] && x[i] == s[i];
      } else if i > |a| {
        assert r[i] == t[i + 2] && x[i] == b[i - |a| - 1] == s[i + 2];
      }
    }
  }

  /** A plus sign comes back as a space, and a literal `%2F` as a slash. */
  lemma LostExamples()
    ensures Encodes("%2B", "+") && DecodeValue("%2B") == " "
    ensures Encodes("%252F", "%2F") && DecodeValue("%252F") == "/"
  {
    PlusText();
    SlashText();
  }

  lemma PlusText()
    ensures Encodes("%2B", "+") && DecodeValue("%2B") == " "
  {
    assert "%2B"[3..] == "" && "+"[1..] == "";
    assert UrlDecode("%2B") == "+";
    assert Find("+", "%2F").None?;
  }

  lemma SlashText()
    ensures Encodes("%252F", "%2F") && DecodeValue("%252F") == "/"
  {
    assert "%252F"[3..] == "2F" && "2F"[1..] == "F" && "F"[1..] == "" && "%2F"[1..] == "2F";
    assert Encodes("2F", "2F");
    assert UrlDecode("2F") == "2F";
    assert UrlDecode("%252F") == "%2F";
    assert "%2F"[..0] + "/" + "%2F"[3..] == "/";
  }

  // ---- The whole body ----

  type FormMap = map<string, string>

  /** `memeMap[k]`: the value, or the empty string that the access creates. */
  function Field(m: FormMap, k: string): string {
    if k in m then m[k] else ""
  }

  datatype Scan = Scan(fields: FormMap, deepfry: bool, complete: bool)

  function KeyValue(item: string): (kv: seq<string>)
    ensures kv != []
  {
    Split(item, {'='})
  }

  /** Every item that is read has an equals sign and a well escaped value; the reading stops behind an item
      with more than one. */
  predicate Readable(items: seq<string>) {
    items == [] ||
    (var kv := KeyValue(items[0]);
     |kv| >= 2 && WellEscaped(kv[1]) && (|kv| == 2 ==> Readable(items[1..])))
  }

  function ScanItems(items: seq<string>, m: FormMap, deepfry: bool): Scan
    requires Readable(items)
    decreases |items|
  {
    if items == [] then Scan(m, deepfry, true)
    else
      var kv := KeyValue(items[0]);
      if |kv| != 2 then Scan(m, deepfry, false)
      else
        var value := DecodeValue(kv[1]);
        ScanItems(items[1..], m[kv[0] := value], deepfry || (kv[0] == "deepfry" && value == "True"))
  }

  /** What is done to the fields at the end. */
  function Finish(m: FormMap, deepfry: bool): FormMap {
    var m1 := if deepfry then m["image" := "df-" + Field(m, "image")] else m;
    var m2 := m1["image" := "meme_templates/" + Field(m1, "image")];
    var m3 := m2["name" := HtmlEncode(Field(m2, "name"))];
    var m4 := m3["top" := HtmlEncode(Field(m3, "top"))];
    m4["bottom" := HtmlEncode(Field(m4, "bottom"))]
  }

  /** The bodies `parseRequestBody` has defined results for. */
  predicate BodyDefined(body: string) {
    var items := Split(body, {'&'});
    if |items| < 3 then Contains(body, "access") ==> |KeyValue(items[0])| >= 2 else Readable(items)
  }

  function ParseBody(body: string): FormMap
    requires BodyDefined(body)
  {
    var items := Split(body, {'&'});
    if |items| < 3 then
      if Contains(body, "access") then map[KeyValue(items[0])[0] := KeyValue(items[0])[1]] else map[]
    else
      var scan := ScanItems(items, map[], false);
      if scan.complete then Finish(scan.fields, scan.deepfry) else scan.fields
  }

  /** A body of one or two items gives no fields if "access" does not occur in it. */
  lemma ShortWithoutAccess(a: string, b: string)
    requires '&' !in a && '&' !in b
    ensures !Contains(a, "access") ==> BodyDefined(a) && ParseBody(a) == map[]
    ensures !Contains(a + "&" + b, "access") ==> BodyDefined(a + "&" + b) && ParseBody(a + "&" + b) == map[]
  {
    ShortItems(a, b);
  }

  /** If it does, the first item is the one field, its value not decoded. */
  lemma ShortWithAccess(key: string, value: string, b: string)
    requires Free(key, {'&', '='}) && Free(value, {'&', '='}) && '&' !in b
    ensures var a := key + "=" + value;
            && (Contains(a, "access") ==> BodyDefined(a) && ParseBody(a) == map[key := value])
            && (Contains(a + "&" + b, "access") ==>
                  BodyDefined(a + "&" + b) && ParseBody(a + "&" + b) == map[key := value])
  {
    ItemPieces(key, value);
    hide Find;
    ShortItems(key + "=" + value, b);
  }

  lemma ShortItems(a: string, b: string)
    requires '&' !in a && '&' !in b
    ensures Split(a, {'&'}) == [a] && Split(a + "&" + b, {'&'}) == [a, b]
  {
    SplitWhole(a, {'&'});
    SplitWhole(b, {'&'});
    assert b != "" ==> b[0] in b;
    SplitPiece(a, "&", b, {'&'});
  }

  method ParseRequestBody(body: string) returns (memeMap: FormMap)
    requires BodyDefined(body)
    ensures memeMap == ParseBody(body)
  {
    memeMap := map[];
    var items := Split(body, {'&'});
    var deepfry := false;
    if |items| < 3 {
      if Contains(body, "access") {
        var keyValue := Split(items[0], {'='});
        memeMap := memeMap[keyValue[0] := keyValue[1]];
      }
      return;
    }
    var i := 0;
    hide Split, UrlDecode, SlashFirst, PlusToSpace, HtmlEncode, WellEscaped;
    while i < |items|
      invariant 0 <= i <= |items|
      invariant Readable(items[i..])
      invariant ScanItems(items[i..], memeMap, deepfry) == ScanItems(items, map[], false)
    {
      assert items[i..][1..] == items[i + 1..];
      var keyValue := Split(items[i], {'='});
      var value := DecodeUrl(keyValue[1]);
      if |keyValue| != 2 {
        return;
      }
      value := ReplaceSlash(value);
      value := ReplacePlus(value);
      if keyValue[0] == "deepfry" && value == "True" {
        deepfry := true;
      }
      memeMap := memeMap[keyValue[0] := value];
      i := i + 1;
    }
    if deepfry {
      memeMap := memeMap["image" := "df-" + Field(memeMap, "image")];
    }
    memeMap := memeMap["image" := "meme_templates/" + Field(memeMap, "image")];
    var encoded := EncodeHtml(Field(memeMap, "name"));
    memeMap := memeMap["name" := encoded];
    encoded := EncodeHtml(Field(memeMap, "top"));
    memeMap := memeMap["top" := encoded];
    encoded := EncodeHtml(Field(memeMap, "bottom"));
    memeMap := memeMap["bottom" := encoded];
  }

  /** The one replacement of a `%2F`. */
  method ReplaceSlash(s: string) returns (r: string)
    ensures r == SlashFirst(s)
  {
    var found := Find(s, "%2F");
    FindLeast(s, "%2F");
    r := if found.None? then s else s[..found.value] + "/" + s[found.value + 3..];
  }

  /** The loop that turns every plus sign into a space. */
  method ReplacePlus(s: string) returns (r: string)
    ensures r == PlusToSpace(s)
  {
    r := s;
    var n := 0;
    while n < |r|
      invariant 0 <= n <= |r| == |s|
      invariant forall i :: 0 <= i < n ==> r[i] == PlusToSpace(s)[i]
      invariant forall i :: n <= i < |s| ==> r[i] == s[i]
    {
      var found := Find(r[n..], "+");
      FindLeast(r[n..], "+");
      ghost var k := if found.None? then |r| - n else found.value;
      forall i | n <= i < n + k ensures r[i] != '+' {
        if r[i] == '+' {
          assert OccursAt(r[n..], "+", i - n);
        }
      }
      if found.None? {
        break;
      }
      n := n + found.value;
      r := r[n := ' '];
      n := n + 1;
    }
    assert r == PlusToSpace(s);
  }

  // ---- End to end ----

  /** `key=value` pairs joined by ampersands. */
  function FormBody(keys: seq<string>, encoded: seq<string>): string
    requires |keys| == |encoded| > 0
    decreases |keys|
  {
    var first := keys[0] + "=" + encoded[0];
    if |keys| == 1 then first else first + "&" + FormBody(keys[1..], encoded[1..])
  }

  function FormItems(keys: seq<string>, encoded: seq<string>): seq<string>
    requires |keys| == |encoded|
  {
    seq(|keys|, i requires 0 <= i < |keys| => keys[i] + "=" + encoded[i])
  }

  predicate Encoded(keys: seq<string>, values: seq<string>, encoded: seq<string>) {
    && |keys| == |values| == |encoded|
    && (forall i :: 0 <= i < |keys| ==> Free(keys[i], {'&', '='}))
    && (forall i :: 0 <= i < |keys| ==> Encodes(encoded[i], values[i]))
  }

  lemma ItemPieces(key: string, e: string)
    requires Free(key, {'&', '='}) && Free(e, {'&', '='})
    ensures KeyValue(key + "=" + e) == [key, e]
    ensures Free(key + "=" + e, {'&'}) && (key + "=" + e)[0] != '&'
  {
    assert key != "" ==> key[0] in key;
    SplitWhole(e, {'='});
    SplitPiece(key, "=", e, {'='});
  }

  lemma {:induction false} BodyItems(keys: seq<string>, values: seq<string>, encoded: seq<string>)
    requires Encoded(keys, values, encoded) && keys != []
    ensures Split(FormBody(keys, encoded), {'&'}) == FormItems(keys, encoded)
    ensures FormBody(keys, encoded) != "" && FormBody(keys, encoded)[0] != '&'
    decreases |keys|
  {
    DecodeEncoding(encoded[0], values[0]);
    var first := keys[0] + "=" + encoded[0];
    ItemPieces(keys[0], encoded[0]);
    ItemsStep(keys, encoded);
    hide Split, Encodes, FormItems;
    if |keys| == 1 {
      SplitWhole(first, {'&'});
    } else {
      BodyItems(keys[1..], values[1..], encoded[1..]);
      SplitPiece(first, ['&'], FormBody(keys[1..], encoded[1..]), {'&'});
    }
  }

  lemma ItemsStep(keys: seq<string>, encoded: seq<string>)
    requires |keys| == |encoded| > 0
    ensures FormItems(keys, encoded) == [keys[0] + "=" + encoded[0]] + FormItems(keys[1..], encoded[1..])
    ensures |keys| == 1 ==> FormItems(keys, encoded) == [keys[0] + "=" + encoded[0]]
  {
  }

  /** The fields of the pairs, later ones over earlier ones. */
  function Pairs(keys: seq<string>, values: seq<string>, m: FormMap): FormMap
    requires |keys| == |values|
    decreases |keys|
  {
    if keys == [] then m else Pairs(keys[1..], values[1..], m[keys[0] := values[0]])
  }

  /** One of the pairs is `deepfry=True`. */
  predicate Fried(keys: seq<string>, values: seq<string>)
    requires |keys| == |values|
  {
    exists i :: 0 <= i < |keys| && keys[i] == "deepfry" && values[i] == "True"
  }

  lemma FriedStep(keys: seq<string>, values: seq<string>)
    requires |keys| == |values| > 0
    ensures Fried(keys, values) <==> (keys[0] == "deepfry" && values[0] == "True") || Fried(keys[1..], values[1..])
  {
    if Fried(keys, values) {
      var i :| 0 <= i < |keys| && keys[i] == "deepfry" && values[i] == "True";
      if i > 0 {
        assert keys[1..][i - 1] == keys[i] && values[1..][i - 1] == values[i];
      }
    }
    if Fried(keys[1..], values[1..]) {
      var i :| 0 <= i < |keys[1..]| && keys[1..][i] == "deepfry" && values[1..][i] == "True";
      assert keys[i + 1] == "deepfry" && values[i + 1] == "True";
    }
  }

  lemma {:induction false} ScanPairs(keys: seq<string>, values: seq<string>, encoded: seq<string>,
                                     m: FormMap, deepfry: bool)
    requires Encoded(keys, values, encoded) && forall i :: 0 <= i < |values| ==> Clean(values[i])
    ensures Readable(FormItems(keys, encoded))
    ensures ScanItems(FormItems(keys, encoded), m, deepfry) ==
            Scan(Pairs(keys, values, m), deepfry || Fried(keys, values), true)
    decreases |keys|
  {
    if keys != [] {
      var items := FormItems(keys, encoded);
      ItemsStep(keys, encoded);
      hide FormItems, Encodes, Split, UrlDecode, Fried;
      DecodeEncoding(encoded[0], values[0]);
      ItemPieces(keys[0], encoded[0]);
      DecodeValueIff(encoded[0], values[0]);
      FriedStep(keys, values);
      ScanPairs(keys[1..], values[1..], encoded[1..], m[keys[0] := values[0]],
                deepfry || (keys[0] == "deepfry" && values[0] == "True"));
    }
  }

  /** A body that comes to an item with a second equals sign gives the fields before that item as they are: no text is
      html-encoded and the image is not put in its folder. */
  lemma CutOffBody(keys: seq<string>, values: seq<string>, encoded: seq<string>, key: string, e: string, x: string,
                   more: seq<string>, body: string)
    requires Encoded(keys, values, encoded) && forall i :: 0 <= i < |values| ==> Clean(values[i])
    requires Free(key, {'='}) && Free(e, {'='}) && e != "" && WellEscaped(e)
    requires Split(body, {'&'}) == FormItems(keys, encoded) + ([key + "=" + e + "=" + x] + more)
    requires |keys| + 1 + |more| >= 3
    ensures BodyDefined(body) && ParseBody(body) == Pairs(keys, values, map[])
  {
    CutOffItem(key, e, x);
    ScanCutOff(keys, values, encoded, map[], false, key + "=" + e + "=" + x, more);
    hide FormItems, ScanItems, Readable, Split, Encoded;
  }

  lemma CutOffItem(key: string, e: string, x: string)
    requires Free(key, {'='}) && Free(e, {'='}) && e != ""
    ensures var kv := KeyValue(key + "=" + e + "=" + x); |kv| >= 3 && kv[1] == e
  {
    assert e[0] in e;
    var rest := "=" + x;
    assert rest[0] == '=';
    HeadOf(e, rest, {'='});
    SplitHead(e, rest, {'='});
    assert key + "=" + e + "=" + x == key + "=" + (e + rest);
    SplitPiece(key, "=", e + rest, {'='});
  }

  lemma {:induction false} ScanCutOff(keys: seq<string>, values: seq<string>, encoded: seq<string>, m: FormMap,
                                      deepfry: bool, item: string, more: seq<string>)
    requires Encoded(keys, values, encoded) && forall i :: 0 <= i < |values| ==> Clean(values[i])
    requires |KeyValue(item)| >= 3 && WellEscaped(KeyValue(item)[1])
    ensures Readable(FormItems(keys, encoded) + ([item] + more))
    ensures ScanItems(FormItems(keys, encoded) + ([item] + more), m, deepfry).fields == Pairs(keys, values, m)
    ensures !ScanItems(FormItems(keys, encoded) + ([item] + more), m, deepfry).complete
    decreases |keys|
  {
    var tail := [item] + more;
    if keys == [] {
      assert FormItems(keys, encoded) + tail == tail;
    } else {
      var items := FormItems(keys, encoded);
      ItemsStep(keys, encoded);
      hide FormItems, Encodes, Split, UrlDecode;
      DecodeEncoding(encoded[0], values[0]);
      ItemPieces(keys[0], encoded[0]);
      DecodeValueIff(encoded[0], values[0]);
      assert (items + tail)[1..] == FormItems(keys[1..], encoded[1..]) + tail;
      ScanCutOff(keys[1..], values[1..], encoded[1..], m[keys[0] := values[0]],
                 deepfry || (keys[0] == "deepfry" && values[0] == "True"), item, more);
    }
  }

  predicate Distinct(keys: seq<string>) {
    forall i, j :: 0 <= i < j < |keys| ==> keys[i] != keys[j]
  }

  lemma {:induction false} PairsLookup(keys: seq<string>, values: seq<string>, m: FormMap)
    requires |keys| == |values| && Distinct(keys)
    ensures forall i :: 0 <= i < |keys| ==>
              keys[i] in Pairs(keys, values, m) && Pairs(keys, values, m)[keys[i]] == values[i]
    ensures forall k :: k !in keys ==> (k in Pairs(keys, values, m) <==> k in m) &&
                                       (k in m ==> Pairs(keys, values, m)[k] == m[k])
    decreases |keys|
  {
    if keys != [] {
      PairsLookup(keys[1..], values[1..], m[keys[0] := values[0]]);
      assert keys[0] !in keys[1..];
      forall i | 0 < i < |keys| ensures keys[i] == keys[1..][i - 1] && values[i] == values[1..][i - 1] {
      }
      assert forall k :: k !in keys ==> k !in keys[1..] && k != keys[0];
    }
  }

  /** What the page asked to be stored under a key. */
  function Submitted(keys: seq<string>, values: seq<string>, k: string): string
    requires |keys| == |values|
  {
    Field(Pairs(keys, values, map[]), k)
  }

  /** Form decoding end to end: any body of at least three pairs with distinct plain keys and form-encoded clean
      values decodes to those values, the three texts html-encoded and the image put in its folder, with the
      `df-` prefix exactly when `deepfry` is `True`. */
  lemma FormRoundTrip(keys: seq<string>, values: seq<string>, encoded: seq<string>)
    requires Encoded(keys, values, encoded) && |keys| >= 3 && Distinct(keys)
    requires forall i :: 0 <= i < |values| ==> Clean(values[i])
    ensures var body := FormBody(keys, encoded);
            && BodyDefined(body)
            && var m := ParseBody(body);
               var fried := if exists i :: 0 <= i < |keys| && keys[i] == "deepfry" && values[i] == "True"
                            then "df-" else "";
               && m.Keys == (set k | k in keys) + {"name", "top", "bottom", "image"}
               && (forall i :: 0 <= i < |keys| && keys[i] !in {"name", "top", "bottom", "image"} ==>
                     m[keys[i]] == values[i])
               && m["name"] == HtmlEncode(Submitted(keys, values, "name"))
               && m["top"] == HtmlEncode(Submitted(keys, values, "top"))
               && m["bottom"] == HtmlEncode(Submitted(keys, values, "bottom"))
               && m["image"] == "meme_templates/" + fried + Submitted(keys, values, "image")
    ensures forall i :: 0 <= i < |keys| ==> Submitted(keys, values, keys[i]) == values[i]
    ensures forall k :: k !in keys ==> Submitted(keys, values, k) == ""
  {
    ParsedPairs(keys, values, encoded);
    hide BodyDefined, ParseBody, Finish, Pairs, HtmlEncode, Encoded, Clean;
    PairsLookup(keys, values, map[]);
    var p := Pairs(keys, values, map[]);
    FinishFields(p, Fried(keys, values));
    assert p.Keys == (set k | k in keys);
  }

  lemma ParsedPairs(keys: seq<string>, values: seq<string>, encoded: seq<string>)
    requires Encoded(keys, values, encoded) && |keys| >= 3
    requires forall i :: 0 <= i < |values| ==> Clean(values[i])
    ensures var body := FormBody(keys, encoded);
            BodyDefined(body) && ParseBody(body) == Finish(Pairs(keys, values, map[]), Fried(keys, values))
  {
    assert |keys| == |values| == |encoded|;
    hide Split, Encoded, Clean, ScanItems, Readable, Finish, BodyDefined, ParseBody, Pairs, Fried, FormBody;
    BodyItems(keys, values, encoded);
    ScanPairs(keys, values, encoded, map[], false);
    LongBody(FormBody(keys, encoded), FormItems(keys, encoded));
  }

  lemma LongBody(body: string, items: seq<string>)
    requires Split(body, {'&'}) == items && |items| >= 3 && Readable(items)
    ensures BodyDefined(body)
    ensures var scan := ScanItems(items, map[], false);
            ParseBody(body) == if scan.complete then Finish(scan.fields, scan.deepfry) else scan.fields
  {
  }

  lemma FinishFields(p: FormMap, deepfry: bool)
    ensures var m := Finish(p, deepfry);
            && m.Keys == p.Keys + {"name", "top", "bottom", "image"}
            && (forall k :: k in p && k !in {"name", "top", "bottom", "image"} ==> m[k] == p[k])
            && m["name"] == HtmlEncode(Field(p, "name"))
            && m["top"] == HtmlEncode(Field(p, "top"))
            && m["bottom"] == HtmlEncode(Field(p, "bottom"))
            && m["image"] == "meme_templates/" + (if deepfry then "df-" else "") + Field(p, "image")
  {
    hide HtmlEncode;
    var image := if deepfry then "df-" + Field(p, "image") else Field(p, "image");
    assert "meme_templates/" + image == "meme_templates/" + (if deepfry then "df-" else "") + Field(p, "image");
  }
}
