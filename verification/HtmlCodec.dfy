/**
`URLParser::htmlEncode` and `htmlDecode`, and on which strings the second undoes the first.

Six characters have an entity. Kind 0 is the ampersand, whose entity `htmlDecode` replaces first.
*/
module HtmlCodec {
  import opened Text

  const KINDS: nat := 6

  function CharOf(k: nat): char
    requires k < KINDS
  {
    if k == 0 then '&' else if k == 1 then '"' else if k == 2 then '\''
    else if k == 3 then '<' else if k == 4 then '>' else ' '
  }

  /** The name of an entity, with its semicolon. */
  function Name(k: nat): string
    requires k < KINDS
  {
    if k == 0 then "amp;" else if k == 1 then "quot;" else if k == 2 then "apos;"
    else if k == 3 then "lt;" else if k == 4 then "gt;" else "nbsp;"
  }

  function Entity(k: nat): string
    requires k < KINDS
  {
    "&" + Name(k)
  }

  /** The kind of a character, KINDS for one that stands for itself. */
  function Kind(c: char): (k: nat)
    ensures k <= KINDS && (k < KINDS ==> CharOf(k) == c)
    ensures k == KINDS ==> forall j: nat :: j < KINDS ==> CharOf(j) != c
  {
    if c == '&' then 0 else if c == '"' then 1 else if c == '\'' then 2
    else if c == '<' then 3 else if c == '>' then 4 else if c == ' ' then 5 else KINDS
  }

  function EncodeChar(c: char): string {
    if Kind(c) < KINDS then Entity(Kind(c)) else [c]
  }

  function HtmlEncode(s: string): string {
    if s == "" then "" else EncodeChar(s[0]) + HtmlEncode(s[1..])
  }

  /** Replace the entities of kinds `k` and up, one kind after the other. */
  function DecodeFrom(k: nat, s: string): string
    requires k <= KINDS
    decreases KINDS - k
  {
    if k == KINDS then s else DecodeFrom(k + 1, ReplaceAll(s, Entity(k), [CharOf(k)]))
  }

  function HtmlDecode(s: string): string {
    DecodeFrom(0, s)
  }

  // ---- The encoder is a homomorphism, bounded and injective ----

  lemma {:induction false} EncodeConcat(a: string, b: string)
    ensures HtmlEncode(a + b) == HtmlEncode(a) + HtmlEncode(b)
  {
    if a == "" {
      assert a + b == b;
    } else {
      assert (a + b)[1..] == a[1..] + b;
      EncodeConcat(a[1..], b);
      assert EncodeChar(a[0]) + (HtmlEncode(a[1..]) + HtmlEncode(b)) == HtmlEncode(a) + HtmlEncode(b);
    }
  }

  lemma {:induction false} EncodeLength(s: string)
    ensures |s| <= |HtmlEncode(s)| <= 6 * |s|
  {
    if s != "" {
      EncodeLength(s[1..]);
    }
  }

  /** No encoding of a character begins another's. */
  lemma EncodePrefixFree(a: char, b: char, x: string, y: string)
    requires EncodeChar(a) + x == EncodeChar(b) + y
    ensures a == b && x == y
  {
    var u, v := EncodeChar(a), EncodeChar(b);
    assert (u + x)[0] == u[0] && (v + y)[0] == v[0];
    if Kind(a) < KINDS && Kind(b) < KINDS {
      assert (u + x)[1] == u[1] && (v + y)[1] == v[1];
      assert (u + x)[2] == u[2] && (v + y)[2] == v[2];
    }
    assert x == (u + x)[|u|..] && y == (v + y)[|v|..];
  }

  lemma {:induction false} EncodeInjective(a: string, b: string)
    requires HtmlEncode(a) == HtmlEncode(b)
    ensures a == b
  {
    EncodeLength(a);
    EncodeLength(b);
    if a != "" && b != "" {
      EncodePrefixFree(a[0], b[0], HtmlEncode(a[1..]), HtmlEncode(b[1..]));
      EncodeInjective(a[1..], b[1..]);
      assert a == [a[0]] + a[1..] && b == [b[0]] + b[1..];
    }
  }

  // ---- What the decoder makes of an encoded string ----

  /** Which entity of the kinds from 1 to below `j` the string begins with; 0 if none. */
  function LiteralKind(s: string, j: nat): (k: nat)
    requires j <= KINDS
    ensures k > 0 ==> k < j && Entity(k) <= s
    ensures k == 0 ==> forall i: nat :: 1 <= i < j ==> !(Entity(i) <= s)
  {
    if j <= 1 then 0 else if Entity(j - 1) <= s then j - 1 else LiteralKind(s, j - 1)
  }

  /** The string with every literal entity but `&amp;` replaced, in one pass from the left. */
  function Unescape(s: string): string
    decreases |s|
  {
    if s == "" then ""
    else
      var k := LiteralKind(s, KINDS);
      if k > 0 then [CharOf(k)] + Unescape(s[|Entity(k)|..]) else [s[0]] + Unescape(s[1..])
  }

  /** The encoded string once the kinds below `j` are replaced: their characters stand bare, their literal
      entities in `s` are gone, and the kinds from `j` up are still encoded. */
  function Partial(j: nat, s: string): string
    requires 1 <= j <= KINDS
    decreases |s|
  {
    if s == "" then ""
    else
      var k := LiteralKind(s, j);
      if k > 0 then [CharOf(k)] + Partial(j, s[|Entity(k)|..])
      else (if j <= Kind(s[0]) < KINDS then Entity(Kind(s[0])) else [s[0]]) + Partial(j, s[1..])
  }

  /** Names are made of characters that stand for themselves. */
  predicate Bare(x: string) {
    forall c :: c in x ==> Kind(c) == KINDS
  }

  lemma NameBare(k: nat)
    requires k < KINDS
    ensures Bare(Name(k))
  {
    if k == 0 {
      assert Name(k) == ['a', 'm', 'p', ';'];
    } else if k == 1 {
      assert Name(k) == ['q', 'u', 'o', 't', ';'];
    } else if k == 2 {
      assert Name(k) == ['a', 'p', 'o', 's', ';'];
    } else if k == 3 {
      assert Name(k) == ['l', 't', ';'];
    } else if k == 4 {
      assert Name(k) == ['g', 't', ';'];
    } else {
      assert Name(k) == ['n', 'b', 's', 'p', ';'];
    }
  }

  /** No entity begins with another. */
  lemma EntitiesApart(i: nat, j: nat, x: string)
    requires i < KINDS && j < KINDS && i != j
    ensures !(Entity(j) <= Entity(i) + x)
  {
    var s := Entity(i) + x;
    assert s[1] == Entity(i)[1] && s[2] == Entity(i)[2];
    assert Entity(i)[1] != Entity(j)[1] || Entity(i)[2] != Entity(j)[2];
  }

  /** Only an ampersand begins an entity. */
  lemma NoEntityAt(s: string, j: nat)
    requires s != "" && s[0] != '&' && j <= KINDS
    ensures LiteralKind(s, j) == 0
    ensures forall k: nat :: k < KINDS ==> !(Entity(k) <= s)
  {
    forall k: nat | k < KINDS ensures !(Entity(k) <= s) {
      assert Entity(k)[0] == '&';
    }
  }

  lemma HeadTail(x: string, rest: string)
    requires x != ""
    ensures x + rest == [x[0]] + (x[1..] + rest)
  {
  }

  lemma ReplaceOne(c: char, rest: string, k: nat)
    requires k < KINDS && c != '&'
    ensures ReplaceAll([c] + rest, Entity(k), [CharOf(k)]) == [c] + ReplaceAll(rest, Entity(k), [CharOf(k)])
  {
    NoEntityAt([c] + rest, KINDS);
    assert ([c] + rest)[1..] == rest;
  }

  lemma PartialOne(c: char, rest: string, j: nat)
    requires 1 <= j <= KINDS && Kind(c) == KINDS
    ensures Partial(j, [c] + rest) == [c] + Partial(j, rest)
  {
    NoEntityAt([c] + rest, j);
    assert ([c] + rest)[1..] == rest;
  }

  /** Replacing entities passes over text without ampersands. */
  lemma {:induction false} ReplacePast(x: string, rest: string, k: nat)
    requires k < KINDS && '&' !in x
    ensures ReplaceAll(x + rest, Entity(k), [CharOf(k)]) == x + ReplaceAll(rest, Entity(k), [CharOf(k)])
    decreases |x|
  {
    if x == "" {
      assert x + rest == rest;
    } else {
      hide ReplaceAll;
      assert x[0] in x;
      HeadTail(x, rest);
      ReplaceOne(x[0], x[1..] + rest, k);
      ReplacePast(x[1..], rest, k);
      HeadTail(x, ReplaceAll(rest, Entity(k), [CharOf(k)]));
    }
  }

  /** An ampersand that does not begin the entity looked for stays. */
  lemma ReplaceAmpersand(x: string, rest: string, k: nat)
    requires k < KINDS && '&' !in x
    requires !(Entity(k) <= "&" + x + rest)
    ensures ReplaceAll("&" + x + rest, Entity(k), [CharOf(k)]) ==
            "&" + x + ReplaceAll(rest, Entity(k), [CharOf(k)])
  {
    assert ("&" + x + rest)[1..] == x + rest;
    ReplacePast(x, rest, k);
  }

  lemma ReplaceOther(i: nat, rest: string, k: nat)
    requires i < KINDS && k < KINDS && i != k
    ensures ReplaceAll(Entity(i) + rest, Entity(k), [CharOf(k)]) ==
            Entity(i) + ReplaceAll(rest, Entity(k), [CharOf(k)])
  {
    EntitiesApart(i, k, rest);
    NameBare(i);
    assert '&' !in Name(i);
    ReplaceAmpersand(Name(i), rest, k);
  }

  lemma ReplaceHere(k: nat, rest: string)
    requires k < KINDS
    ensures ReplaceAll(Entity(k) + rest, Entity(k), [CharOf(k)]) ==
            [CharOf(k)] + ReplaceAll(rest, Entity(k), [CharOf(k)])
  {
    assert (Entity(k) + rest)[|Entity(k)|..] == rest;
    assert Entity(k) <= Entity(k) + rest;
  }

  /** Bare text is left alone by every stage. */
  lemma {:induction false} PartialBare(j: nat, x: string, rest: string)
    requires 1 <= j <= KINDS && Bare(x)
    ensures Partial(j, x + rest) == x + Partial(j, rest)
    decreases |x|
  {
    if x == "" {
      assert x + rest == rest;
    } else {
      hide Partial;
      assert x[0] in x;
      HeadTail(x, rest);
      PartialOne(x[0], x[1..] + rest, j);
      PartialBare(j, x[1..], rest);
      HeadTail(x, Partial(j, rest));
    }
  }

  /** Bare text found at the front of a stage was there in the string. */
  lemma {:induction false} PartialReflects(j: nat, p: string, s: string)
    requires 1 <= j <= KINDS && Bare(p)
    requires p <= Partial(j, s)
    ensures p <= s
    decreases |p|
  {
    if p != "" {
      var k, c := LiteralKind(s, j), Partial(j, s)[0];
      assert p[0] == c && p[0] in p;
      assert k == 0;
      assert s[0] == p[0];
      assert Partial(j, s)[1..] == Partial(j, s[1..]);
      assert p[1..] <= Partial(j, s[1..]);
      PartialReflects(j, p[1..], s[1..]);
    }
  }

  /** The first replacement, of `&amp;`. */
  lemma {:induction false} FirstStage(s: string)
    ensures ReplaceAll(HtmlEncode(s), Entity(0), [CharOf(0)]) == Partial(1, s)
  {
    if s != "" {
      var c, rest := s[0], HtmlEncode(s[1..]);
      FirstStage(s[1..]);
      if Kind(c) == 0 {
        ReplaceHere(0, rest);
      } else if Kind(c) < KINDS {
        ReplaceOther(Kind(c), rest, 0);
      } else {
        ReplacePast([c], rest, 0);
      }
    }
  }

  /** A literal entity of the kind being replaced. */
  lemma StageLiteral(j: nat, rest: string)
    requires 1 <= j < KINDS
    ensures Partial(j, Entity(j) + rest) == Entity(j) + Partial(j, rest)
    ensures Partial(j + 1, Entity(j) + rest) == [CharOf(j)] + Partial(j + 1, rest)
  {
    LiteralKindOf(j, rest);
    PartialTakes(j, rest);
    hide Partial, LiteralKind, Name;
    Grouped("&", Name(j), rest);
    NameBare(j);
    PartialBare(j, Name(j), rest);
    PartialAmpersand(j, Name(j) + rest);
    Grouped("&", Name(j), Partial(j, rest));
  }

  lemma Grouped(a: string, b: string, c: string)
    ensures a + b + c == a + (b + c)
  {
  }

  lemma PartialTakes(j: nat, rest: string)
    requires 1 <= j < KINDS && LiteralKind(Entity(j) + rest, j + 1) == j
    ensures Partial(j + 1, Entity(j) + rest) == [CharOf(j)] + Partial(j + 1, rest)
  {
    assert (Entity(j) + rest)[|Entity(j)|..] == rest;
  }

  lemma PartialAmpersand(j: nat, t: string)
    requires 1 <= j < KINDS && LiteralKind("&" + t, j) == 0
    ensures Partial(j, "&" + t) == "&" + Partial(j, t)
  {
    assert ("&" + t)[1..] == t;
  }

  lemma LiteralKindOf(j: nat, rest: string)
    requires 1 <= j < KINDS
    ensures LiteralKind(Entity(j) + rest, j) == 0 && LiteralKind(Entity(j) + rest, j + 1) == j
  {
    forall k: nat | 1 <= k < j ensures !(Entity(k) <= Entity(j) + rest) {
      EntitiesApart(j, k, rest);
    }
  }

  /** The replacement of kind `j` takes one stage to the next. */
  lemma {:induction false} NextStage(j: nat, s: string)
    requires 1 <= j < KINDS
    ensures ReplaceAll(Partial(j, s), Entity(j), [CharOf(j)]) == Partial(j + 1, s)
    decreases |s|
  {
    if s == "" {
    } else if LiteralKind(s, j) > 0 {
      var k := LiteralKind(s, j);
      var rest := s[|Entity(k)|..];
      assert s == Entity(k) + rest;
      EntitiesApart(k, j, rest);
      assert LiteralKind(s, j + 1) == k;
      ReplacePast([CharOf(k)], Partial(j, rest), j);
      NextStage(j, rest);
    } else if Entity(j) <= s {
      var rest := s[|Entity(j)|..];
      assert s == Entity(j) + rest;
      StageLiteral(j, rest);
      ReplaceHere(j, Partial(j, rest));
      NextStage(j, rest);
    } else {
      NextStage(j, s[1..]);
      StageChar(j, s);
    }
  }

  /** A stage brings no new entity about behind a bare ampersand. */
  lemma AmpersandStays(j: nat, t: string)
    requires 1 <= j < KINDS
    ensures Entity(j) <= "&" + Partial(j, t) ==> Entity(j) <= "&" + t
  {
    var rest := Partial(j, t);
    NameBare(j);
    if Entity(j) <= "&" + rest {
      assert ("&" + rest)[1..|Entity(j)|] == Entity(j)[1..];
      assert Name(j) <= rest;
      PartialReflects(j, Name(j), t);
    }
  }

  /** A character that begins no literal entity of the kinds up to `j`. */
  lemma StageChar(j: nat, s: string)
    requires 1 <= j < KINDS && s != "" && LiteralKind(s, j) == 0 && !(Entity(j) <= s)
    requires ReplaceAll(Partial(j, s[1..]), Entity(j), [CharOf(j)]) == Partial(j + 1, s[1..])
    ensures ReplaceAll(Partial(j, s), Entity(j), [CharOf(j)]) == Partial(j + 1, s)
  {
    var c, rest := s[0], Partial(j, s[1..]);
    assert LiteralKind(s, j + 1) == 0;
    if Kind(c) == j {
      ReplaceHere(j, rest);
    } else if j < Kind(c) < KINDS {
      ReplaceOther(Kind(c), rest, j);
    } else if c != '&' {
      ReplacePast([c], rest, j);
    } else {
      BareAmpersand(j, s[1..]);
      assert s == "&" + s[1..];
    }
  }

  /** An ampersand that begins no entity is passed over. */
  lemma BareAmpersand(j: nat, t: string)
    requires 1 <= j < KINDS && !(Entity(j) <= "&" + t)
    ensures ReplaceAll("&" + Partial(j, t), Entity(j), [CharOf(j)]) ==
            "&" + ReplaceAll(Partial(j, t), Entity(j), [CharOf(j)])
  {
    var rest := Partial(j, t);
    AmpersandStays(j, t);
    assert "&" + "" + rest == "&" + rest;
    ReplaceAmpersand("", rest, j);
  }

  lemma {:induction false} DecodeStages(j: nat, s: string)
    requires 1 <= j <= KINDS
    ensures DecodeFrom(j, Partial(j, s)) == Partial(KINDS, s)
    decreases KINDS - j
  {
    if j < KINDS {
      hide *;
      DecodeStep(j, Partial(j, s));
      NextStage(j, s);
      DecodeStages(j + 1, s);
    }
  }

  lemma DecodeStep(j: nat, s: string)
    requires j < KINDS
    ensures DecodeFrom(j, s) == DecodeFrom(j + 1, ReplaceAll(s, Entity(j), [CharOf(j)]))
  {
  }

  lemma {:induction false} LastStage(s: string)
    ensures Partial(KINDS, s) == Unescape(s)
    decreases |s|
  {
    if s != "" {
      var k := LiteralKind(s, KINDS);
      LastStage(if k > 0 then s[|Entity(k)|..] else s[1..]);
    }
  }

  /** Encoding and then decoding replaces the literal entities other than `&amp;`, and does nothing else. */
  lemma DecodeEncode(s: string)
    ensures HtmlDecode(HtmlEncode(s)) == Unescape(s)
  {
    FirstStage(s);
    DecodeStages(1, s);
    LastStage(s);
  }

  // ---- Where decoding undoes encoding ----

  /** None of `&quot;`, `&apos;`, `&lt;`, `&gt;`, `&nbsp;` occurs. */
  predicate LiteralFree(s: string) {
    forall k: nat :: 1 <= k < KINDS ==> !Contains(s, Entity(k))
  }

  lemma {:induction false} UnescapeExact(s: string)
    ensures |Unescape(s)| <= |s|
    ensures LiteralFree(s) ==> Unescape(s) == s
    ensures !LiteralFree(s) ==> |Unescape(s)| < |s|
    decreases |s|
  {
    if s != "" {
      var k := LiteralKind(s, KINDS);
      if k > 0 {
        UnescapeExact(s[|Entity(k)|..]);
        assert Contains(s, Entity(k));
      } else {
        LiteralFreeTail(s);
        hide Entity, LiteralFree;
        UnescapeExact(s[1..]);
      }
    }
  }

  lemma LiteralFreeTail(s: string)
    requires s != "" && LiteralKind(s, KINDS) == 0
    ensures LiteralFree(s) <==> LiteralFree(s[1..])
  {
    hide Entity;
    forall i: nat | 1 <= i < KINDS ensures Contains(s, Entity(i)) == Contains(s[1..], Entity(i)) {
    }
  }

  /** Exact inverse domain: decoding undoes encoding if and only if the string contains none of the literal
      entities other than `&amp;`. */
  lemma DecodeUndoesEncodeIff(s: string)
    ensures HtmlDecode(HtmlEncode(s)) == s <==> LiteralFree(s)
  {
    DecodeEncode(s);
    UnescapeExact(s);
  }

  /** A literal `&amp;` survives, a literal `&quot;` does not. */
  lemma LiteralExamples()
    ensures HtmlDecode(HtmlEncode("&amp;")) == "&amp;"
    ensures HtmlDecode(HtmlEncode("&quot;")) == "\""
  {
    EntityText();
    DecodeEncode("&quot;");
    LastStage("&quot;");
    LiteralStands(1);
    DecodeEncode("&amp;");
    UnescapeExact("&amp;");
    LiteralStands(0);
  }

  /** An entity on its own: gone after the last stage, unless it is `&amp;`. */
  lemma LiteralStands(k: nat)
    requires k < KINDS
    ensures k > 0 ==> Unescape(Entity(k)) == [CharOf(k)]
    ensures k == 0 ==> Unescape(Entity(k)) == Entity(k)
  {
    var s := Entity(k);
    forall i: nat | 1 <= i < KINDS && i != k ensures !(Entity(i) <= s) {
      EntitiesApart(k, i, "");
      assert s + "" == s;
    }
    if k > 0 {
      assert s[|s|..] == "";
      assert LiteralKind(s, KINDS) == k;
    } else {
      NameBare(0);
      PartialBare(KINDS, Name(0), "");
      LastStage(Name(0));
      assert s[1..] == Name(0) == Name(0) + "";
    }
  }

  // ---- The functions as they run ----

  lemma EntityText()
    ensures Entity(0) == "&amp;" && Entity(1) == "&quot;" && Entity(2) == "&apos;"
    ensures Entity(3) == "&lt;" && Entity(4) == "&gt;" && Entity(5) == "&nbsp;"
  {
  }

  /** The six encodings; every other character stands for itself. With EncodeConcat this is the encoder. */
  lemma EncodeLiterals(c: char)
    ensures HtmlEncode("") == "" && HtmlEncode("&") == "&amp;" && HtmlEncode("\"") == "&quot;"
    ensures HtmlEncode("'") == "&apos;" && HtmlEncode("<") == "&lt;" && HtmlEncode(">") == "&gt;"
    ensures HtmlEncode(" ") == "&nbsp;"
    ensures c !in ['&', '"', '\'', '<', '>', ' '] ==> HtmlEncode([c]) == [c]
  {
    EntityText();
    forall d: char ensures HtmlEncode([d]) == EncodeChar(d) {
      assert [d][1..] == "";
    }
    hide HtmlEncode, Entity;
    assert ['&'] == "&" && ['"'] == "\"" && ['\''] == "'" && ['<'] == "<" && ['>'] == ">" && [' '] == " ";
  }

  /** The six decodings; a text without ampersands stands for itself. */
  lemma DecodeLiterals(s: string)
    ensures HtmlDecode("&amp;") == "&" && HtmlDecode("&quot;") == "\"" && HtmlDecode("&apos;") == "'"
    ensures HtmlDecode("&lt;") == "<" && HtmlDecode("&gt;") == ">" && HtmlDecode("&nbsp;") == " "
    ensures '&' !in s ==> HtmlDecode(s) == s
  {
    DecodedLetter("&");
    DecodedLetter("\"");
    DecodedLetter("'");
    DecodedLetter("<");
    DecodedLetter(">");
    DecodedLetter(" ");
    EncodeLiterals(' ');
    if '&' !in s {
      DecodePlain(0, s);
    }
  }

  /** A single character is not the beginning of an entity, so its encoding is decoded. */
  lemma DecodedLetter(s: string)
    requires |s| == 1
    ensures HtmlDecode(HtmlEncode(s)) == s
  {
    DecodeUndoesEncodeIff(s);
    hide HtmlDecode, HtmlEncode, Find, Entity;
    forall j: nat | 1 <= j < KINDS ensures !Contains(s, Entity(j)) {
      EntityLong(j);
      FindLeast(s, Entity(j));
    }
  }

  lemma EntityLong(k: nat)
    requires k < KINDS
    ensures |Entity(k)| > 1
  {
  }

  lemma {:induction false} ReplaceNone(s: string, k: nat)
    requires k < KINDS && '&' !in s
    ensures ReplaceAll(s, Entity(k), [CharOf(k)]) == s
    decreases |s|
  {
    if s != "" {
      assert s[0] in s && Entity(k)[0] == '&';
      assert s == [s[0]] + s[1..];
      ReplaceNone(s[1..], k);
    }
  }

  lemma {:induction false} DecodePlain(k: nat, s: string)
    requires k <= KINDS && '&' !in s
    ensures DecodeFrom(k, s) == s
    decreases KINDS - k
  {
    if k < KINDS {
      ReplaceNone(s, k);
      DecodePlain(k + 1, s);
    }
  }

  lemma EncodeNext(data: string, pos: nat)
    requires pos < |data|
    ensures HtmlEncode(data[..pos + 1]) == HtmlEncode(data[..pos]) + EncodeChar(data[pos])
  {
    EncodeConcat(data[..pos], [data[pos]]);
    assert data[..pos + 1] == data[..pos] + [data[pos]];
    assert HtmlEncode([data[pos]]) == EncodeChar(data[pos]) + HtmlEncode("");
  }

  method EncodeHtml(data: string) returns (buffer: string)
    ensures buffer == HtmlEncode(data)
  {
    EntityText();
    buffer := "";
    var pos := 0;
    while pos != |data|
      invariant 0 <= pos <= |data|
      invariant buffer == HtmlEncode(data[..pos])
      decreases |data| - pos
    {
      hide HtmlEncode, Entity;
      EncodeNext(data, pos);
      match data[pos] {
      case '&' => buffer := buffer + "&amp;";
      case '"' => buffer := buffer + "&quot;";
      case '\'' => buffer := buffer + "&apos;";
      case '<' => buffer := buffer + "&lt;";
      case '>' => buffer := buffer + "&gt;";
      case ' ' => buffer := buffer + "&nbsp;";
      case c => buffer := buffer + [c];
      }
      pos := pos + 1;
    }
    assert data[..pos] == data;
  }

  method DecodeHtml(data: string) returns (buffer: string)
    ensures buffer == HtmlDecode(data)
  {
    EntityText();
    hide ReplaceAll, Entity;
    buffer := data;
    buffer := ReplaceAll(buffer, "&amp;", "&");
    assert DecodeFrom(0, data) == DecodeFrom(1, buffer);
    buffer := ReplaceAll(buffer, "&quot;", "\"");
    assert DecodeFrom(0, data) == DecodeFrom(2, buffer);
    buffer := ReplaceAll(buffer, "&apos;", "'");
    assert DecodeFrom(0, data) == DecodeFrom(3, buffer);
    buffer := ReplaceAll(buffer, "&lt;", "<");
    assert DecodeFrom(0, data) == DecodeFrom(4, buffer);
    buffer := ReplaceAll(buffer, "&gt;", ">");
    assert DecodeFrom(0, data) == DecodeFrom(5, buffer);
    buffer := ReplaceAll(buffer, "&nbsp;", " ");
    assert DecodeFrom(0, data) == DecodeFrom(6, buffer);
  }
}
