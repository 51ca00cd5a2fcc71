/**
Reading settings back out of printed config text: `PeekURL`, which gives the routing key, and
`GetAttribute`, which gives a handler its own settings.
*/
module ConfigAttributes {
  import opened Text
  import opened ConfigTree

  /** Where the first semicolon at or after `from` is; the length if there is none. */
  function SemicolonFrom(s: string, from: nat): (k: nat)
    requires from <= |s|
    ensures from <= k <= |s|
    ensures k < |s| ==> s[k] == ';'
    ensures forall i :: from <= i < k ==> s[i] != ';'
    decreases |s| - from
  {
    if from == |s| || s[from] == ';' then from else SemicolonFrom(s, from + 1)
  }

  /** The position just behind the first occurrence of `attr`. */
  function BehindFirst(s: string, attr: string): (k: nat)
    requires Contains(s, attr)
    ensures |attr| <= k <= |s|
  {
    FindLeast(s, attr);
    Find(s, attr).value + |attr|
  }

  /** A semicolon follows the first occurrence of `attr`. */
  predicate Terminated(s: string, attr: string)
    requires Contains(s, attr)
  {
    SemicolonFrom(s, BehindFirst(s, attr)) < |s|
  }

  /** PeekURL reads past the end of the text unless this holds. */
  predicate PeekDefined(s: string) {
    Contains(s, "url") ==> Terminated(s, "url")
  }

  function PeekedURL(s: string): string
    requires PeekDefined(s)
  {
    if Contains(s, "url") then
      var i := BehindFirst(s, "url");
      var j := SemicolonFrom(s, i) - i;
      Substr(s, i + 1, j - 1)
    else ""
  }

  /** The text as a C string: what precedes the first NUL. */
  function CString(s: string): string {
    Head(s, {'\0'})
  }

  function Attribute(s: string, attr: string): string
    requires Contains(s, attr)
  {
    if !Terminated(s, attr) then ""
    else
      var i := BehindFirst(s, attr);
      CString(Substr(s, i + 1, SemicolonFrom(s, i) - i - 1))
  }

  /** What GetRoot reads from the printed first statement: unlike GetAttribute it takes the semicolon too. */
  function RootOf(s: string): string {
    if !Contains(s, "root") || !Terminated(s, "root") then ""
    else
      var i := BehindFirst(s, "root");
      CString(Substr(s, i + 1, SemicolonFrom(s, i) - i))
  }

  lemma {:induction false} HeadFree(s: string, seps: set<char>)
    requires Free(s, seps)
    ensures Head(s, seps) == s
  {
    HeadOf(s, "", seps);
    assert s + "" == s;
  }

  /** The dispatcher's key for a block and the url its handler reads from the same block are one string
      exactly when the key has no NUL character, at which the handler's C string ends. */
  lemma RoutingKeyIsHandlerKey(ss: seq<Statement>)
    requires Contains(Print(ss, 0), "url") && Terminated(Print(ss, 0), "url")
    ensures PeekedURL(Print(ss, 0)) == Attribute(Print(ss, 0), "url") <==> '\0' !in PeekedURL(Print(ss, 0))
  {
    hide Print, Find;
    var key := PeekedURL(Print(ss, 0));
    if '\0' !in key {
      HeadFree(key, {'\0'});
    }
  }

  /** The root is the attribute with a semicolon behind it, exactly when something stands before the semicolon and
      no NUL character ends the C string sooner. */
  lemma RootKeepsSemicolon(s: string)
    requires Contains(s, "root") && Terminated(s, "root")
    ensures var i := BehindFirst(s, "root");
            var j := SemicolonFrom(s, i);
            RootOf(s) == Attribute(s, "root") + ";" <==> j > i && '\0' !in s[i + 1..j]
  {
    var i := BehindFirst(s, "root");
    var j := SemicolonFrom(s, i);
    if j > i {
      RootCut(s, i, j);
      hide RootOf, Attribute, Contains, Terminated, SemicolonFrom, BehindFirst, CString;
      CStringEnd(s[i + 1..j]);
    } else {
      NoRoot(s, i);
    }
  }

  /** It is the attribute itself only if a NUL comes before the semicolon, or for a bare `root;` with nothing or a
      NUL behind it. */
  lemma RootIsAttributeIff(s: string)
    requires Contains(s, "root") && Terminated(s, "root")
    ensures var i := BehindFirst(s, "root");
            var j := SemicolonFrom(s, i);
            RootOf(s) == Attribute(s, "root") <==>
            if j > i then '\0' in s[i + 1..j] else i + 1 == |s| || s[i + 1] == '\0'
  {
    var i := BehindFirst(s, "root");
    var j := SemicolonFrom(s, i);
    if j > i {
      RootCut(s, i, j);
      CStringSame(s[i + 1..j]);
    } else {
      NoRoot(s, i);
      BareAttribute(s, i);
    }
  }

  lemma CStringSame(value: string)
    requires ';' !in value
    ensures CString(value + ";") == CString(value) <==> '\0' in value
  {
    CStringEnd(value);
    if '\0' in value {
      HeadShort(value, ";", {'\0'});
    }
  }

  /** With nothing between "root" and the semicolon, GetAttribute returns all that follows the semicolon. */
  lemma BareAttribute(s: string, i: nat)
    requires Contains(s, "root") && Terminated(s, "root")
    requires i == BehindFirst(s, "root") && SemicolonFrom(s, i) == i
    ensures Attribute(s, "root") == "" <==> i + 1 == |s| || s[i + 1] == '\0'
  {
    hide Contains, BehindFirst, SemicolonFrom;
    assert Substr(s, i + 1, -1) == s[i + 1..];
  }

  lemma RootCut(s: string, i: nat, j: nat)
    requires Contains(s, "root") && Terminated(s, "root")
    requires i == BehindFirst(s, "root") && j == SemicolonFrom(s, i) && j > i
    ensures RootOf(s) == CString(s[i + 1..j] + ";") && Attribute(s, "root") == CString(s[i + 1..j])
  {
    hide Contains, BehindFirst, SemicolonFrom, CString, Substr;
    SubstrTo(s, i + 1, j);
  }

  lemma NoRoot(s: string, i: nat)
    requires Contains(s, "root") && Terminated(s, "root")
    requires i == BehindFirst(s, "root") && SemicolonFrom(s, i) == i
    ensures RootOf(s) == ""
  {
    hide Contains, BehindFirst, SemicolonFrom;
    assert Substr(s, i + 1, 0) == "";
  }

  lemma SubstrTo(s: string, a: nat, b: nat)
    requires a <= b < |s| && s[b] == ';'
    ensures Substr(s, a, b - a) == s[a..b] && Substr(s, a, b + 1 - a) == s[a..b] + ";"
  {
    assert s[a..b + 1] == s[a..b] + ";";
    assert s[a..] == s[a..b] + s[b..];
  }

  lemma CStringEnd(value: string)
    ensures CString(value + ";") == CString(value) + ";" <==> '\0' !in value
  {
    if '\0' in value {
      HeadShort(value, ";", {'\0'});
    } else {
      HeadFree(value, {'\0'});
      HeadFree(value + ";", {'\0'});
    }
  }

  /** What follows the first separator does not matter. */
  lemma {:induction false} HeadShort(a: string, b: string, seps: set<char>)
    requires !Free(a, seps)
    ensures Head(a + b, seps) == Head(a, seps)
  {
    if a[0] !in seps {
      assert (a + b)[1..] == a[1..] + b;
      assert !Free(a[1..], seps) by {
        var c :| c in a && c in seps;
        assert c in a[1..];
      }
      HeadShort(a[1..], b, seps);
    }
  }

  /** So the statement `root v` gives the root `v;`. */
  lemma RootOfStatement(v: string)
    requires ';' !in v && '\0' !in v
    ensures RootOf(PrintStatement(Simple(["root", v]), 0)) == v + ";"
  {
    var a, s := "root", PrintStatement(Simple(["root", v]), 0);
    JoinedTwo("root", v);
    assert s == a + (" " + v) + ";" + "\n";
    SemicolonBehind(a, " " + v, "\n");
    assert Find(s, "root") == Some(0);
    assert s[5..5 + |v| + 1] == v + ";";
    HeadFree(v + ";", {'\0'});
  }

  lemma SemicolonBehind(a: string, v: string, rest: string)
    requires ';' !in v
    ensures SemicolonFrom(a + v + ";" + rest, |a|) == |a + v|
  {
    var s := a + v + ";" + rest;
    assert s[|a + v|] == ';';
    assert forall i :: 0 <= i < |v| ==> v[i] in v && s[|a| + i] == v[i];
  }

  lemma {:induction false} PrintConcat(a: seq<Statement>, b: seq<Statement>, depth: nat)
    ensures Print(a + b, depth) == Print(a, depth) + Print(b, depth)
  {
    if a == [] {
      assert a + b == b;
    } else {
      assert (a + b)[1..] == a[1..] + b;
      PrintConcat(a[1..], b, depth);
    }
  }

  // ---- Where a statement stands in a configuration ----

  /** A gap in a configuration: between the statements of one block, at the top or inside a child block. */
  datatype Place =
    | Here(before: seq<Statement>, after: seq<Statement>)
    | Inside(before: seq<Statement>, words: seq<string>, inner: Place, after: seq<Statement>)

  /** The configuration with `st` in the gap. */
  function Filled(place: Place, st: Statement): seq<Statement> {
    match place
    case Here(before, after) => before + [st] + after
    case Inside(before, words, inner, after) => before + [Block(words, Filled(inner, st))] + after
  }

  /** What is printed before the words of the statement in the gap. */
  function TextBefore(place: Place, depth: nat): string
    decreases place
  {
    match place
    case Here(before, _) => Print(before, depth) + Indent(depth)
    case Inside(before, words, inner, _) =>
      Print(before, depth) + Indent(depth) + Joined(words) + " {\n" + TextBefore(inner, depth + 1)
  }

  /** What is printed behind its semicolon. */
  function TextAfter(place: Place, depth: nat): string
    decreases place
  {
    match place
    case Here(_, after) => "\n" + Print(after, depth)
    case Inside(_, _, inner, after) =>
      TextAfter(inner, depth + 1) + Indent(depth) + "}" + "\n" + Print(after, depth)
  }

  lemma PrintBetween(before: seq<Statement>, st: Statement, after: seq<Statement>, depth: nat)
    ensures Print(before + [st] + after, depth) ==
            Print(before, depth) + PrintStatement(st, depth) + Print(after, depth)
  {
    PrintConcat(before + [st], after, depth);
    PrintAppend(before, st, depth);
  }

  /** A block whose body prints as `a + text + b`, in the pieces it is printed in. */
  lemma Pieces(p: string, i: string, j: string, a: string, text: string, b: string, q: string)
    ensures p + (i + j + (" {\n" + (a + text + b) + i + "}") + "\n") + q ==
            (p + i + j + " {\n" + a) + text + (b + i + "}" + "\n" + q)
  {
  }

  /** Printing a configuration prints the statement in the gap between the two texts around it. */
  lemma {:induction false} PrintFilled(place: Place, words: seq<string>, depth: nat)
    ensures Print(Filled(place, Simple(words)), depth) ==
            TextBefore(place, depth) + (Joined(words) + ";") + TextAfter(place, depth)
    decreases place
  {
    hide Print, Joined, Indent;
    match place
    case Here(before, after) =>
      PrintBetween(before, Simple(words), after, depth);
    case Inside(before, outer, inner, after) =>
      var body := Filled(inner, Simple(words));
      PrintBetween(before, Block(outer, body), after, depth);
      PrintFilled(inner, words, depth + 1);
      Pieces(Print(before, depth), Indent(depth), Joined(outer), TextBefore(inner, depth + 1), Joined(words) + ";",
             TextAfter(inner, depth + 1), Print(after, depth));
  }

  lemma PeekedURLOf(p: string, v: string, rest: string)
    requires ';' !in v
    requires Find(p + "url" + (" " + v) + ";" + rest, "url") == Some(|p|)
    ensures var s := p + "url" + (" " + v) + ";" + rest;
            PeekDefined(s) && PeekedURL(s) == v
  {
    var a := p + "url";
    var s := a + (" " + v) + ";" + rest;
    SemicolonBehind(a, " " + v, rest);
    assert BehindFirst(s, "url") == |a|;
    assert s[|a| + 1..|a| + 1 + |v|] == v;
  }

  /** When the first "url" printed is the first token of a statement `url v`, at whatever depth, the key is `v`. */
  lemma PeekedURLIsValue(place: Place, v: string)
    requires ';' !in v
    requires Find(Print(Filled(place, Simple(["url", v])), 0), "url") == Some(|TextBefore(place, 0)|)
    ensures var printed := Print(Filled(place, Simple(["url", v])), 0);
            PeekDefined(printed) && PeekedURL(printed) == v
  {
    hide Filled, TextBefore, TextAfter, Print, Find, PeekDefined, PeekedURL;
    var p, rest := TextBefore(place, 0), TextAfter(place, 0);
    PrintFilled(place, ["url", v], 0);
    JoinedTwo("url", v);
    assert p + (Joined(["url", v]) + ";") + rest == p + "url" + (" " + v) + ";" + rest by {
      hide Joined;
    }
    PeekedURLOf(p, v, rest);
  }

  // ---- The three readers, by the text around what they read ----

  /** `s` has `attr` first behind `before`, and the next semicolon behind `mid`. */
  predicate Around(s: string, attr: string, before: string, mid: string, rest: string) {
    && s == before + attr + mid + ";" + rest
    && ';' !in mid
    && Find(s, attr) == Some(|before|)
  }

  lemma AroundIs(s: string, attr: string, before: string, mid: string, rest: string)
    requires Around(s, attr, before, mid, rest)
    ensures Contains(s, attr) && Terminated(s, attr)
    ensures var i := BehindFirst(s, attr);
            i == |before + attr| && SemicolonFrom(s, i) == i + |mid| && s[i..] == mid + ";" + rest
  {
    SemicolonBehind(before + attr, mid, rest);
  }

  lemma ReadBetween(s: string, i: nat, mid: string, rest: string)
    requires i <= |s| && s[i..] == mid + ";" + rest
    ensures Substr(s, i + 1, |mid| - 1) == if mid == "" then rest else mid[1..]
    ensures Substr(s, i + 1, |mid|) == if mid == "" then "" else mid[1..] + ";"
  {
    assert s[i + 1..] == (mid + ";" + rest)[1..];
    if mid == "" {
      assert (mid + ";" + rest)[1..] == rest;
    } else {
      assert (mid + ";" + rest)[1..] == mid[1..] + ";" + rest;
      SubstrTo(s, i + 1, i + |mid|);
      assert s[i + 1..i + |mid|] == mid[1..];
    }
  }

  /** PeekURL: what stands between the first "url" and the next semicolon, without its first character; all behind the
      semicolon if nothing stands there; and nothing if there is no "url". */
  lemma PeekedURLMeans(s: string, before: string, mid: string, rest: string)
    ensures Around(s, "url", before, mid, rest) ==>
              PeekDefined(s) && PeekedURL(s) == if mid == "" then rest else mid[1..]
    ensures Find(s, "url").None? ==> PeekDefined(s) && PeekedURL(s) == ""
  {
    if Around(s, "url", before, mid, rest) {
      AroundIs(s, "url", before, mid, rest);
      ReadBetween(s, |before + "url"|, mid, rest);
      hide Substr, Find, BehindFirst, SemicolonFrom;
    }
  }

  /** GetAttribute: the same up to the first NUL, and nothing if no semicolon follows. */
  lemma AttributeMeans(s: string, attr: string, before: string, mid: string, rest: string)
    ensures Around(s, attr, before, mid, rest) ==>
              Contains(s, attr) && Attribute(s, attr) == Head(if mid == "" then rest else mid[1..], {'\0'})
    ensures Find(s, attr) == Some(|before|) && s == before + attr + mid && ';' !in mid ==> Attribute(s, attr) == ""
  {
    if Around(s, attr, before, mid, rest) {
      AroundIs(s, attr, before, mid, rest);
      ReadBetween(s, |before + attr|, mid, rest);
      hide Substr, Find, BehindFirst, SemicolonFrom;
    } else if Find(s, attr) == Some(|before|) && s == before + attr + mid && ';' !in mid {
      NoSemicolon(before + attr, mid);
    }
  }

  lemma NoSemicolon(a: string, mid: string)
    requires ';' !in mid
    ensures SemicolonFrom(a + mid, |a|) == |a + mid|
  {
    assert forall i :: |a| <= i < |a + mid| ==> (a + mid)[i] == mid[i - |a|] && mid[i - |a|] in mid;
  }

  /** GetRoot: the semicolon too, and nothing without "root" or a semicolon behind it. */
  lemma RootMeans(s: string, before: string, mid: string, rest: string)
    ensures Around(s, "root", before, mid, rest) ==>
              RootOf(s) == Head(if mid == "" then "" else mid[1..] + ";", {'\0'})
    ensures Find(s, "root").None? ==> RootOf(s) == ""
    ensures Find(s, "root") == Some(|before|) && s == before + "root" + mid && ';' !in mid ==> RootOf(s) == ""
  {
    if Around(s, "root", before, mid, rest) {
      AroundIs(s, "root", before, mid, rest);
      ReadBetween(s, |before + "root"|, mid, rest);
      hide Substr, Find, BehindFirst, SemicolonFrom;
    } else if Find(s, "root") == Some(|before|) && s == before + "root" + mid && ';' !in mid {
      NoSemicolon(before + "root", mid);
    }
  }
}
