/**
The term encoding of `SearchFromDatabase`: names are stored html-encoded, so the search term is encoded too
and wrapped in `%` for a LIKE pattern.
*/
module MemeSearch {
  import opened Text
  import opened HtmlCodec

  // ---- The characters of a text ----

  /** A byte inside a UTF-8 character, behind its first. */
  predicate Continuation(c: char) {
    '\U{80}' <= c <= '\U{BF}'
  }

  /** A byte that takes the continuation bytes behind it into its character. */
  predicate Lead(c: char) {
    '\U{C0}' <= c
  }

  /** The text does not begin inside a character. */
  predicate Starts(s: string) {
    s == "" || !Continuation(s[0])
  }

  function Tail(s: string): (n: nat)
    ensures n <= |s| && Starts(s[n..])
    ensures forall c :: c in s[..n] ==> Continuation(c)
  {
    if Starts(s) then 0 else 1 + Tail(s[1..])
  }

  function Width(s: string): (n: nat)
    requires s != ""
    ensures 1 <= n <= |s| && forall c :: c in s[1..n] ==> Continuation(c)
  {
    if Lead(s[0]) then 1 + Tail(s[1..]) else 1
  }

  /** The characters that LIKE compares: those before the first NUL. */
  function Characters(s: string): seq<string>
    decreases |s|
  {
    if s == "" || s[0] == '\0' then [] else [s[..Width(s)]] + Characters(s[Width(s)..])
  }

  lemma {:induction false} TailConcat(a: string, b: string)
    requires Starts(b)
    ensures Tail(a + b) == Tail(a)
  {
    if a == "" {
      assert a + b == b;
    } else {
      assert (a + b)[1..] == a[1..] + b;
      if Continuation(a[0]) {
        TailConcat(a[1..], b);
      }
    }
  }

  lemma WidthConcat(a: string, b: string)
    requires a != "" && Starts(b)
    ensures var n := Width(a);
            Width(a + b) == n && (a + b)[..n] == a[..n] && (a + b)[n..] == a[n..] + b
  {
    assert (a + b)[1..] == a[1..] + b;
    TailConcat(a[1..], b);
  }

  lemma {:induction false} CharactersConcat(a: string, b: string)
    requires '\0' !in a && Starts(b)
    ensures Characters(a + b) == Characters(a) + Characters(b)
    decreases |a|
  {
    if a == "" {
      assert a + b == b;
    } else {
      hide Width, Starts;
      var n := Width(a);
      WidthConcat(a, b);
      assert a[0] in a && forall c :: c in a[n..] ==> c in a;
      CharactersConcat(a[n..], b);
    }
  }

  /** What a text says behind its first NUL is not read. */
  lemma {:induction false} CharactersCut(a: string, b: string)
    requires '\0' in a && Starts(b)
    ensures Characters(a + b) == Characters(a)
    decreases |a|
  {
    if a[0] != '\0' {
      var n := Width(a);
      WidthConcat(a, b);
      NulBehind(a);
      hide Width, Starts;
      CharactersCut(a[n..], b);
    }
  }

  lemma NulBehind(a: string)
    requires '\0' in a && a[0] != '\0'
    ensures '\0' in a[Width(a)..]
  {
    var n := Width(a);
    assert a == [a[0]] + a[1..n] + a[n..];
    assert '\0' !in a[1..n];
  }

  lemma OneCharacter(c: char)
    requires c != '\0'
    ensures Characters([c]) == [[c]]
  {
    assert [c][..1] == [c] && [c][1..] == "";
  }

  /** Two bytes are one character exactly when the first is from C0 on and the second between 80 and BF. */
  lemma CharacterBytes(a: char, b: char)
    requires a != '\0' && b != '\0'
    ensures Characters([a, b]) == if 0xC0 <= a as int && 0x80 <= b as int <= 0xBF then [[a, b]] else [[a], [b]]
  {
    var s := [a, b];
    assert s[1..] == [b] && [b][1..] == "" && s[..1] == [a] && s[..2] == s && s[2..] == "";
    OneCharacter(b);
  }

  // ---- LIKE ----

  /** ASCII case folding, which LIKE applies to both sides. */
  function Fold(c: string): string {
    if |c| == 1 && 'A' <= c[0] <= 'Z' then [c[0] - 'A' + 'a'] else c
  }

  /** SQL LIKE: `%` stands for any text, `_` for any one character, letters match in either case. */
  predicate Matched(pattern: seq<string>, text: seq<string>)
    decreases |pattern| + |text|
  {
    if pattern == [] then text == []
    else if pattern[0] == "%" then Matched(pattern[1..], text) || (text != [] && Matched(pattern, text[1..]))
    else
      && text != []
      && (pattern[0] == "_" || Fold(pattern[0]) == Fold(text[0]))
      && Matched(pattern[1..], text[1..])
  }

  predicate Like(pattern: string, text: string) {
    Matched(Characters(pattern), Characters(text))
  }

  function SearchPattern(term: string): string {
    "%" + HtmlEncode(term) + "%"
  }

  /** A text matches itself as a pattern, wildcards and all. */
  lemma {:induction false} MatchedSelf(t: seq<string>, pattern: seq<string>, text: seq<string>)
    requires Matched(pattern, text)
    ensures Matched(t + pattern, t + text)
    decreases |t|
  {
    if t == [] {
      assert t + pattern == pattern && t + text == text;
    } else {
      var p, s := t + pattern, t + text;
      assert p[1..] == t[1..] + pattern && s[1..] == t[1..] + text;
      MatchedSelf(t[1..], pattern, text);
      if t[0] == "%" {
        assert Matched(p, s[1..]);
      }
    }
  }

  lemma {:induction false} MatchedAfter(before: seq<string>, pattern: seq<string>, text: seq<string>)
    requires Matched(["%"] + pattern, text)
    ensures Matched(["%"] + pattern, before + text)
    decreases |before|
  {
    if before == [] {
      assert before + text == text;
    } else {
      MatchedAfter(before[1..], pattern, text);
      assert (before + text)[1..] == before[1..] + text;
    }
  }

  lemma {:induction false} MatchedAny(text: seq<string>)
    ensures Matched(["%"], text)
  {
    if text != [] {
      MatchedAny(text[1..]);
    }
  }

  lemma MatchedAround(before: seq<string>, t: seq<string>, after: seq<string>)
    ensures Matched(["%"] + (t + ["%"]), before + (t + after))
  {
    MatchedAny(after);
    MatchedSelf(t, ["%"], after);
    var pattern := t + ["%"];
    assert (["%"] + pattern)[1..] == pattern;
    MatchedAfter(before, pattern, t + after);
  }

  // ---- LIKE by its laws: joining patterns, and patterns of one character ----

  /** One character, or one letter in both cases. */
  predicate SameLetter(c: string, d: string) {
    c == d ||
    (|c| == 1 && |d| == 1 && (('A' <= c[0] <= 'Z' && d[0] == c[0] - 'A' + 'a') ||
                              ('A' <= d[0] <= 'Z' && c[0] == d[0] - 'A' + 'a')))
  }

  lemma FoldSame(c: string, d: string)
    ensures Fold(c) == Fold(d) <==> SameLetter(c, d)
  {
  }

  /** What a pattern of at most one character matches; `_` is any one character. */
  lemma MatchedOne(c: string, text: seq<string>)
    ensures Matched([], text) <==> text == []
    ensures Matched(["%"], text)
    ensures Matched(["_"], text) <==> |text| == 1
    ensures c != "%" && c != "_" ==> (Matched([c], text) <==> |text| == 1 && SameLetter(c, text[0]))
  {
    MatchedAny(text);
    assert ["_"][1..] == [] && [c][1..] == [];
    if text != [] {
      FoldSame(c, text[0]);
    }
  }

  /** A pattern in two parts matches a text that splits into what the parts match. */
  lemma {:induction false} MatchedConcat(p: seq<string>, q: seq<string>, text: seq<string>)
    ensures Matched(p + q, text) <==>
            exists k :: 0 <= k <= |text| && Matched(p, text[..k]) && Matched(q, text[k..])
    decreases |p| + |text|
  {
    if p == [] {
      assert p + q == q && text[..0] == [] && text[0..] == text;
    } else {
      assert (p + q)[1..] == p[1..] + q;
      if p[0] == "%" {
        MatchedConcat(p[1..], q, text);
      } else if text != [] {
        MatchedConcat(p[1..], q, text[1..]);
      }
      if p[0] == "%" && text != [] {
        MatchedConcat(p, q, text[1..]);
      }
      ConcatStep(p, q, text);
    }
  }

  /** Where a pattern that is not empty splits a text, in terms of its first character. */
  lemma ConcatStep(p: seq<string>, q: seq<string>, text: seq<string>)
    requires p != []
    ensures (exists k :: 0 <= k <= |text| && Matched(p, text[..k]) && Matched(q, text[k..])) <==>
            if p[0] == "%" then
              (exists k :: 0 <= k <= |text| && Matched(p[1..], text[..k]) && Matched(q, text[k..])) ||
              (text != [] &&
               exists k :: 0 <= k <= |text[1..]| && Matched(p, text[1..][..k]) && Matched(q, text[1..][k..]))
            else
              text != [] && (p[0] == "_" || Fold(p[0]) == Fold(text[0])) &&
              exists k :: 0 <= k <= |text[1..]| && Matched(p[1..], text[1..][..k]) && Matched(q, text[1..][k..])
  {
    forall k | 1 <= k <= |text| ensures text[..k][1..] == text[1..][..k - 1] && text[k..] == text[1..][k - 1..] {
    }
    if exists k :: 0 <= k <= |text| && Matched(p, text[..k]) && Matched(q, text[k..]) {
      var k :| 0 <= k <= |text| && Matched(p, text[..k]) && Matched(q, text[k..]);
      if k > 0 {
        assert text[..k][0] == text[0];
        assert 0 <= k - 1 <= |text[1..]|;
      }
    }
    if text != [] {
      forall k | 0 <= k <= |text[1..]|
        ensures text[..k + 1][1..] == text[1..][..k] && text[k + 1..] == text[1..][k..]
      {
      }
    }
  }

  // ---- What the search cannot miss ----

  lemma {:induction false} EncodeStarts(s: string)
    ensures Starts(HtmlEncode(s)) <==> Starts(s)
    ensures '\0' in HtmlEncode(s) <==> '\0' in s
    decreases |s|
  {
    if s != "" {
      EncodeStarts(s[1..]);
      assert s == [s[0]] + s[1..];
      if Kind(s[0]) < KINDS {
        EntityPlain(Kind(s[0]));
      }
    }
  }

  /** An entity is plain ASCII, without wildcards. */
  lemma EntityPlain(k: nat)
    requires k < KINDS
    ensures Entity(k) != "" && Entity(k)[0] == '&'
    ensures '\0' !in Entity(k) && '%' !in Entity(k) && '_' !in Entity(k)
  {
    if k == 0 {
      assert Entity(0) == ['&', 'a', 'm', 'p', ';'];
    } else if k == 1 {
      assert Entity(1) == ['&', 'q', 'u', 'o', 't', ';'];
    } else if k == 2 {
      assert Entity(2) == ['&', 'a', 'p', 'o', 's', ';'];
    } else if k == 3 {
      assert Entity(3) == ['&', 'l', 't', ';'];
    } else if k == 4 {
      assert Entity(4) == ['&', 'g', 't', ';'];
    } else {
      assert Entity(5) == ['&', 'n', 'b', 's', 'p', ';'];
    }
  }

  /** The pattern is a wildcard, the characters of the term, and another wildcard unless a NUL ends it sooner. */
  lemma PatternCharacters(term: string)
    ensures Characters(SearchPattern(term)) ==
            ["%"] + (Characters(HtmlEncode(term)) + if '\0' in term then [] else ["%"])
  {
    var t := HtmlEncode(term);
    EncodeStarts(term);
    OneCharacter('%');
    assert "%" + t + "%" == "%" + (t + "%");
    FirstCharacter(t + "%");
    if '\0' in term {
      CharactersCut(t, "%");
    } else {
      CharactersConcat(t, "%");
    }
  }

  lemma FirstCharacter(s: string)
    ensures Characters("%" + s) == ["%"] + Characters(s)
  {
    assert ("%" + s)[..1] == "%" && ("%" + s)[1..] == s;
  }

  /** The term occurs in the name at position `k`, as whole characters and before any NUL. */
  predicate OccursWhole(name: string, term: string, k: nat) {
    && k + |term| <= |name|
    && name[k..k + |term|] == term
    && '\0' !in name[..k + |term|]
    && Starts(name[k..])
    && Starts(name[k + |term|..])
  }

  ghost predicate Holds(name: string, term: string) {
    exists k: nat :: OccursWhole(name, term, k)
  }

  /** The search cannot miss: if the raw name holds the raw term, the pattern matches the stored name. */
  lemma SearchCannotMiss(term: string, name: string)
    requires Holds(name, term)
    ensures Like(SearchPattern(term), HtmlEncode(name))
  {
    var k: nat :| OccursWhole(name, term, k);
    var before, after := name[..k], name[k + |term|..];
    assert name == before + (term + after) && name[k..] == term + after;
    assert name[..k + |term|] == before + term;
    EncodedCharacters(term, after);
    EncodedCharacters(before, term + after);
    assert Starts(term);
    PatternCharacters(term);
    MatchedAround(Characters(HtmlEncode(before)), Characters(HtmlEncode(term)), Characters(HtmlEncode(after)));
  }

  lemma EncodedCharacters(a: string, b: string)
    requires '\0' !in a && Starts(b)
    ensures Characters(HtmlEncode(a + b)) == Characters(HtmlEncode(a)) + Characters(HtmlEncode(b))
  {
    EncodeConcat(a, b);
    EncodeStarts(a);
    EncodeStarts(b);
    CharactersConcat(HtmlEncode(a), HtmlEncode(b));
  }

  // ---- Whole texts in UTF-8 ----

  /** How many bytes the character beginning with this byte has. */
  function Length(c: char): nat {
    if c < '\U{80}' then 1 else if c < '\U{E0}' then 2 else if c < '\U{F0}' then 3 else 4
  }

  predicate Utf8(s: string)
    decreases |s|
  {
    s == "" ||
    (!Continuation(s[0]) && Length(s[0]) <= |s| && (forall i :: 1 <= i < Length(s[0]) ==> Continuation(s[i])) &&
     Utf8(s[Length(s[0])..]))
  }

  /** Where a character of a text begins, the rest is a text. */
  lemma {:induction false} Utf8From(s: string, k: nat)
    requires Utf8(s) && k <= |s| && Starts(s[k..])
    ensures Utf8(s[k..])
    decreases |s|
  {
    if k == 0 {
      assert s[0..] == s;
    } else {
      var n := Length(s[0]);
      assert k < |s| ==> s[k..][0] == s[k];
      assert s[n..][k - n..] == s[k..];
      Utf8From(s[n..], k - n);
    }
  }

  /** What follows a text in a text is a text. */
  lemma {:induction false} Utf8Behind(a: string, b: string)
    requires Utf8(a) && Utf8(a + b)
    ensures Utf8(b)
    decreases |a|
  {
    if a == "" {
      assert a + b == b;
    } else {
      assert (a + b)[Length(a[0])..] == a[Length(a[0])..] + b;
      Utf8Behind(a[Length(a[0])..], b);
    }
  }

  /** Of texts in UTF-8 without NUL, a name that contains a term holds it. */
  lemma ContainedHolds(name: string, term: string)
    requires Utf8(name) && Utf8(term) && '\0' !in name && Contains(name, term)
    ensures Holds(name, term)
  {
    FindLeast(name, term);
    var k := if term == "" then 0 else Find(name, term).value;
    assert name[0..] == name;
    assert name[k..] == term + name[k + |term|..];
    assert term != "" ==> name[k..][0] == term[0];
    Utf8From(name, k);
    Utf8Behind(term, name[k + |term|..]);
    assert OccursWhole(name, term, k);
  }

  // ---- And what it finds, when the term has no wildcards ----

  predicate NoWildcards(s: string) {
    '%' !in s && '_' !in s
  }

  function Folded(s: seq<string>): seq<string> {
    seq(|s|, i requires 0 <= i < |s| => Fold(s[i]))
  }

  /** `p` is somewhere in `t`. */
  predicate Within(p: seq<string>, t: seq<string>) {
    exists k :: 0 <= k <= |t| && p <= t[k..]
  }

  /** `p` is the end of `t`. */
  predicate Ends(p: seq<string>, t: seq<string>) {
    |p| <= |t| && p == t[|t| - |p|..]
  }

  /** Without wildcards, a pattern and a final `%` match what begins with the pattern in either case. */
  lemma {:induction false} MatchedPrefix(t: seq<string>, text: seq<string>)
    requires "%" !in t && "_" !in t
    ensures Matched(t + ["%"], text) <==> Folded(t) <= Folded(text)
    ensures Matched(t, text) <==> Folded(t) == Folded(text)
    decreases |t|
  {
    if t == [] {
      assert t + ["%"] == ["%"];
      MatchedAny(text);
    } else {
      var p := t + ["%"];
      assert p[0] == t[0] && t[0] in t && p[1..] == t[1..] + ["%"];
      assert Folded(t) == [Fold(t[0])] + Folded(t[1..]);
      if text != [] {
        MatchedPrefix(t[1..], text[1..]);
        assert Folded(text) == [Fold(text[0])] + Folded(text[1..]);
        ConsPrefix(Fold(t[0]), Folded(t[1..]), Fold(text[0]), Folded(text[1..]));
      }
    }
  }

  lemma ConsPrefix(a: string, x: seq<string>, b: string, y: seq<string>)
    ensures [a] + x <= [b] + y <==> a == b && x <= y
    ensures [a] + x == [b] + y <==> a == b && x == y
  {
    assert ([a] + x)[1..] == x && ([b] + y)[1..] == y;
    if [a] + x <= [b] + y {
      assert a == ([a] + x)[0] == ([b] + y)[0];
      assert forall i :: 0 <= i < |x| ==> y[i] == ([b] + y)[i + 1] && x[i] == ([a] + x)[i + 1];
    }
  }

  lemma {:induction false} MatchedWithin(t: seq<string>, text: seq<string>)
    requires "%" !in t && "_" !in t
    ensures Matched(["%"] + (t + ["%"]), text) <==> Within(Folded(t), Folded(text))
    ensures Matched(["%"] + t, text) <==> Ends(Folded(t), Folded(text))
    decreases |text|
  {
    MatchedPrefix(t, text);
    assert (["%"] + (t + ["%"]))[1..] == t + ["%"] && (["%"] + t)[1..] == t;
    WithinNext(Folded(t), Folded(text));
    if text != [] {
      MatchedWithin(t, text[1..]);
      assert Folded(text)[1..] == Folded(text[1..]);
    }
  }

  lemma WithinNext(p: seq<string>, t: seq<string>)
    ensures Within(p, t) <==> p <= t || (t != [] && Within(p, t[1..]))
    ensures Ends(p, t) <==> p == t || (t != [] && Ends(p, t[1..]))
  {
    assert t[0..] == t;
    if t != [] {
      forall k | 0 <= k < |t| ensures t[1..][k..] == t[k + 1..] {
      }
    }
    if Within(p, t) {
      var k :| 0 <= k <= |t| && p <= t[k..];
      if k > 0 {
        assert p <= t[1..][k - 1..];
      }
    }
  }

  lemma {:induction false} CharactersOf(s: string)
    requires NoWildcards(s)
    ensures "%" !in Characters(s) && "_" !in Characters(s)
    decreases |s|
  {
    if s != "" && s[0] != '\0' {
      var n := Width(s);
      assert s[0] in s && s[..n][0] == s[0];
      assert forall c :: c in s[n..] ==> c in s;
      CharactersOf(s[n..]);
    }
  }

  lemma {:induction false} EncodeNoWildcards(s: string)
    requires NoWildcards(s)
    ensures NoWildcards(HtmlEncode(s))
  {
    if s != "" {
      assert s[0] in s && forall c :: c in s[1..] ==> c in s;
      EncodeNoWildcards(s[1..]);
      if Kind(s[0]) < KINDS {
        EntityPlain(Kind(s[0]));
      }
    }
  }

  /** A term without wildcards matches exactly the stored names that contain its characters, encoded, in either
      case; a NUL in it drops what follows and ties what precedes to the end of the name. */
  lemma SearchExact(term: string, name: string)
    requires NoWildcards(term)
    ensures var t, text := Folded(Characters(HtmlEncode(term))), Folded(Characters(HtmlEncode(name)));
            Like(SearchPattern(term), HtmlEncode(name)) <==> if '\0' in term then Ends(t, text) else Within(t, text)
  {
    var t := Characters(HtmlEncode(term));
    EncodeNoWildcards(term);
    CharactersOf(HtmlEncode(term));
    PatternCharacters(term);
    assert t + [] == t;
    hide HtmlEncode, Characters, Matched, Within, Ends, Folded, SearchPattern, NoWildcards;
    MatchedWithin(t, Characters(HtmlEncode(name)));
  }

  /** A NUL in the name hides what follows it, and a term that is a part of a character is not found. */
  lemma MissedExamples()
    ensures Contains("a\0b", "b") && !Like(SearchPattern("b"), HtmlEncode("a\0b"))
    ensures var e, part := ['\U{C3}', '\U{A9}'], ['\U{A9}'];
            Contains(e, part) && !Like(SearchPattern(part), HtmlEncode(e))
  {
    NulText();
    OneCharacter('b');
    Missed("a\0b", "b", "a", "b");
    PartText();
    OneCharacter('\U{A9}');
    Missed(['\U{C3}', '\U{A9}'], ['\U{A9}'], ['\U{C3}', '\U{A9}'], ['\U{A9}']);
  }

  /** A term of one character is not found in a name of one other character. */
  lemma Missed(name: string, term: string, a: string, b: string)
    requires NoWildcards(term) && '\0' !in term
    requires Characters(HtmlEncode(name)) == [a] && Characters(HtmlEncode(term)) == [b] && Fold(a) != Fold(b)
    ensures !Like(SearchPattern(term), HtmlEncode(name))
  {
    SearchExact(term, name);
    NotWithin(a, b);
    hide *;
  }

  lemma NotWithin(a: string, b: string)
    requires Fold(a) != Fold(b)
    ensures !Within(Folded([b]), Folded([a]))
  {
    var p, t := [Fold(b)], [Fold(a)];
    assert Folded([a]) == t && Folded([b]) == p;
    WithinNext(p, t);
    WithinNext(p, []);
    assert t[1..] == [];
  }

  lemma NulText()
    ensures Contains("a\0b", "b") && HtmlEncode("b") == "b"
    ensures Characters(HtmlEncode("a\0b")) == ["a"]
  {
    assert "a\0b"[1..] == "\0b" && "\0b"[1..] == "b" && "b"[1..] == "";
    assert HtmlEncode("b") == "b";
    assert HtmlEncode("\0b") == "\0b";
    assert HtmlEncode("a\0b") == "a\0b";
  }

  lemma PartText()
    ensures var e, part := ['\U{C3}', '\U{A9}'], ['\U{A9}'];
            Contains(e, part) && HtmlEncode(part) == part && Characters(HtmlEncode(e)) == [e]
  {
    var e, part := ['\U{C3}', '\U{A9}'], ['\U{A9}'];
    assert e[1..] == part && part[1..] == "";
    assert HtmlEncode(part) == part && HtmlEncode(e) == e;
    assert e[..2] == e && e[2..] == "";
  }

  // ---- Case ----

  predicate SameButCase(a: string, b: string) {
    |a| == |b| && forall i :: 0 <= i < |a| ==> SameLetter([a[i]], [b[i]])
  }

  lemma {:induction false} TailSame(a: string, b: string)
    requires SameButCase(a, b)
    ensures Tail(a) == Tail(b) && a[..Tail(a)] == b[..Tail(a)]
  {
    StartsSame(a, b);
    if !Starts(a) {
      assert SameButCase(a[1..], b[1..]);
      hide SameButCase, SameLetter, Continuation;
      TailSame(a[1..], b[1..]);
      var n := Tail(a[1..]);
      assert a[..n + 1] == [a[0]] + a[1..][..n] && b[..n + 1] == [b[0]] + b[1..][..n];
    }
  }

  lemma StartsSame(a: string, b: string)
    requires SameButCase(a, b)
    ensures Starts(a) <==> Starts(b)
    ensures !Starts(a) ==> a[0] == b[0]
  {
    if a != "" {
      assert SameLetter([a[0]], [b[0]]);
    }
  }

  lemma CharactersStep(a: string)
    requires a != "" && a[0] != '\0'
    ensures var n := Width(a); Folded(Characters(a)) == [Fold(a[..n])] + Folded(Characters(a[n..]))
  {
  }

  lemma {:induction false} CharactersSame(a: string, b: string)
    requires SameButCase(a, b)
    ensures Folded(Characters(a)) == Folded(Characters(b))
    decreases |a|
  {
    if a != "" && a[0] != '\0' {
      assert SameLetter([a[0]], [b[0]]);
      TailSame(a[1..], b[1..]);
      var n := Width(a);
      FirstFolds(a, b, n);
      CharactersStep(a);
      CharactersStep(b);
      hide Fold, Characters, Width, Folded;
      CharactersSame(a[n..], b[n..]);
    } else if a != "" {
      assert SameLetter([a[0]], [b[0]]);
    }
  }

  lemma FirstFolds(a: string, b: string, n: nat)
    requires a != "" && |a| == |b| && n == Width(a) == Width(b)
    requires SameLetter([a[0]], [b[0]]) && a[1..][..n - 1] == b[1..][..n - 1]
    ensures Fold(a[..n]) == Fold(b[..n])
  {
    assert a[..n] == [a[0]] + a[1..][..n - 1] && b[..n] == [b[0]] + b[1..][..n - 1];
    FoldSame([a[0]], [b[0]]);
    if a[0] != b[0] {
      assert n == 1;
      assert a[..1] == [a[0]] && b[..1] == [b[0]];
    }
  }

  lemma {:induction false} MatchedFold(p: seq<string>, q: seq<string>, text: seq<string>, other: seq<string>)
    requires Folded(p) == Folded(q) && Folded(text) == Folded(other)
    requires forall i :: 0 <= i < |p| ==> (p[i] in {"%", "_"} ==> p[i] == q[i]) && (q[i] in {"%", "_"} ==> p[i] == q[i])
    ensures Matched(p, text) <==> Matched(q, other)
    decreases |p| + |text|
  {
    assert |p| == |Folded(p)| == |q| && |text| == |Folded(text)| == |other|;
    if p != [] {
      assert Fold(p[0]) == Folded(p)[0] == Fold(q[0]);
      assert Folded(p[1..]) == Folded(p)[1..] && Folded(q[1..]) == Folded(q)[1..];
      if text != [] {
        assert Fold(text[0]) == Folded(text)[0] == Fold(other[0]);
        assert Folded(text[1..]) == Folded(text)[1..] && Folded(other[1..]) == Folded(other)[1..];
        MatchedFold(p, q, text[1..], other[1..]);
        MatchedFold(p[1..], q[1..], text[1..], other[1..]);
      }
      MatchedFold(p[1..], q[1..], text, other);
    }
  }

  lemma {:induction false} EncodeSame(a: string, b: string)
    requires SameButCase(a, b)
    ensures SameButCase(HtmlEncode(a), HtmlEncode(b))
    decreases |a|
  {
    if a != "" {
      assert SameLetter([a[0]], [b[0]]);
      EncodeSame(a[1..], b[1..]);
      EncodeCharSame(a[0], b[0]);
      var x, y := EncodeChar(a[0]), EncodeChar(b[0]);
      forall i | 0 <= i < |HtmlEncode(a)| ensures SameLetter([HtmlEncode(a)[i]], [HtmlEncode(b)[i]]) {
        if i >= |x| {
          assert HtmlEncode(a)[i] == HtmlEncode(a[1..])[i - |x|] && HtmlEncode(b)[i] == HtmlEncode(b[1..])[i - |x|];
        }
      }
    }
  }

  lemma EncodeCharSame(c: char, d: char)
    requires SameLetter([c], [d])
    ensures |EncodeChar(c)| == |EncodeChar(d)|
    ensures forall i :: 0 <= i < |EncodeChar(c)| ==> SameLetter([EncodeChar(c)[i]], [EncodeChar(d)[i]])
  {
  }

  lemma WildcardsSame(p: seq<string>, q: seq<string>)
    requires Folded(p) == Folded(q)
    ensures forall i :: 0 <= i < |p| ==> (p[i] in {"%", "_"} ==> p[i] == q[i]) && (q[i] in {"%", "_"} ==> p[i] == q[i])
  {
    assert |p| == |Folded(p)| == |q|;
    forall i | 0 <= i < |p|
      ensures (p[i] in {"%", "_"} ==> p[i] == q[i]) && (q[i] in {"%", "_"} ==> p[i] == q[i])
    {
      assert Fold(p[i]) == Folded(p)[i] == Fold(q[i]);
      FoldSame(p[i], q[i]);
    }
  }

  /** The case of ASCII letters does not matter, neither in the term nor in the name, wildcards or not. */
  lemma CaseBlind(term: string, other: string, name: string, named: string)
    requires SameButCase(term, other) && SameButCase(name, named)
    ensures Like(SearchPattern(term), HtmlEncode(name)) <==> Like(SearchPattern(other), HtmlEncode(named))
  {
    EncodeSame(term, other);
    EncodeSame(name, named);
    SurroundSame(HtmlEncode(term), HtmlEncode(other));
    CharactersSame(HtmlEncode(name), HtmlEncode(named));
    CharactersSame(SearchPattern(term), SearchPattern(other));
    WildcardsSame(Characters(SearchPattern(term)), Characters(SearchPattern(other)));
    MatchedFold(Characters(SearchPattern(term)), Characters(SearchPattern(other)),
                Characters(HtmlEncode(name)), Characters(HtmlEncode(named)));
  }

  lemma SurroundSame(a: string, b: string)
    requires SameButCase(a, b)
    ensures SameButCase("%" + a + "%", "%" + b + "%")
  {
    var s, t := "%" + a + "%", "%" + b + "%";
    forall i | 0 <= i < |s| ensures SameLetter([s[i]], [t[i]]) {
      if 1 <= i < |s| - 1 {
        assert s[i] == a[i - 1] && t[i] == b[i - 1];
      }
    }
  }
}
