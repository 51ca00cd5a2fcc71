/**
Operations of the C++ and Boost string libraries that the server's text code is written in.
*/
module Text {

  datatype Option<+T> = None | Some(value: T)

  const CRLF: string := "\r\n"

  /** `std::string::find`: the first position at which `pat` occurs. */
  function Find(s: string, pat: string): Option<nat> {
    if pat <= s then Some(0)
    else if s == "" then None
    else
      match Find(s[1..], pat)
      case None => None
      case Some(k) => Some(k + 1)
  }

  predicate Contains(s: string, pat: string) {
    Find(s, pat).Some?
  }

  /** `pat` occurs at position `k`. */
  predicate OccursAt(s: string, pat: string, k: nat) {
    k <= |s| && pat <= s[k..]
  }

  /** Find gives the least position of an occurrence, and none only when there is none. */
  lemma {:induction false} FindLeast(s: string, pat: string)
    ensures Find(s, pat).Some? ==> OccursAt(s, pat, Find(s, pat).value) &&
                                   forall k: nat :: k < Find(s, pat).value ==> !OccursAt(s, pat, k)
    ensures Find(s, pat).None? ==> forall k: nat :: !OccursAt(s, pat, k)
    decreases |s|
  {
    assert s[0..] == s;
    if !(pat <= s) && s != "" {
      FindLeast(s[1..], pat);
      forall k: nat | 0 < k <= |s| ensures OccursAt(s, pat, k) == OccursAt(s[1..], pat, k - 1) {
        assert s[1..][k - 1..] == s[k..];
      }
    }
  }

  /** The least occurrence is what Find gives. */
  lemma FindIs(s: string, pat: string, k: nat)
    requires OccursAt(s, pat, k)
    requires forall j: nat :: j < k ==> !OccursAt(s, pat, j)
    ensures Find(s, pat) == Some(k)
  {
    FindLeast(s, pat);
    if Find(s, pat).Some? && Find(s, pat).value > k {
      assert false;
    }
  }

  /** `std::string::substr`; a count of -1 is `npos`, the rest of the string. */
  function Substr(s: string, pos: nat, count: int): string
    requires pos <= |s|
  {
    if count < 0 || |s| - pos <= count then s[pos..] else s[pos..pos + count]
  }

  // ---- boost::replace_all: one pass from the left, over occurrences that do not overlap ----

  function ReplaceAll(s: string, pat: string, format: string): string
    requires pat != ""
    decreases |s|
  {
    if s == "" then ""
    else if pat <= s then format + ReplaceAll(s[|pat|..], pat, format)
    else [s[0]] + ReplaceAll(s[1..], pat, format)
  }

  // ---- boost::split with token_compress_on: runs of separators count as one ----

  predicate Free(s: string, seps: set<char>) {
    forall c :: c in s ==> c !in seps
  }

  /** The text before the first separator. */
  function Head(s: string, seps: set<char>): (h: string)
    ensures |h| <= |s| && h == s[..|h|] && Free(h, seps)
    ensures |h| < |s| ==> s[|h|] in seps
  {
    if s == "" || s[0] in seps then "" else [s[0]] + Head(s[1..], seps)
  }

  function DropSeps(s: string, seps: set<char>): (r: string)
    ensures |r| <= |s|
    ensures r == "" || r[0] !in seps
  {
    if s != "" && s[0] in seps then DropSeps(s[1..], seps) else s
  }

  function Split(s: string, seps: set<char>): (pieces: seq<string>)
    ensures pieces != []
    ensures forall p :: p in pieces ==> Free(p, seps)
    decreases |s|
  {
    var h := Head(s, seps);
    if |h| == |s| then [s] else [h] + Split(DropSeps(s[|h| + 1..], seps), seps)
  }

  lemma {:induction false} HeadOf(a: string, rest: string, seps: set<char>)
    requires Free(a, seps)
    requires rest != "" ==> rest[0] in seps
    ensures Head(a + rest, seps) == a
    decreases |a|
  {
    if a == "" {
      assert a + rest == rest;
    } else {
      assert (a + rest)[1..] == a[1..] + rest;
      assert a[0] in a;
      HeadOf(a[1..], rest, seps);
    }
  }

  lemma {:induction false} DropSepsOf(run: string, rest: string, seps: set<char>)
    requires forall c :: c in run ==> c in seps
    requires rest != "" ==> rest[0] !in seps
    ensures DropSeps(run + rest, seps) == rest
    decreases |run|
  {
    if run == "" {
      assert run + rest == rest;
    } else {
      assert (run + rest)[1..] == run[1..] + rest;
      assert run[0] in run;
      DropSepsOf(run[1..], rest, seps);
    }
  }

  /** One piece off the front. */
  lemma SplitHead(a: string, rest: string, seps: set<char>)
    requires Head(a + rest, seps) == a && rest != ""
    ensures Split(a + rest, seps) == [a] + Split(DropSeps(rest[1..], seps), seps)
  {
    assert (a + rest)[|a| + 1..] == rest[1..];
  }

  /** A piece without separators, a run of separators, and what follows it. */
  lemma SplitPiece(a: string, run: string, rest: string, seps: set<char>)
    requires Free(a, seps)
    requires run != "" && forall c :: c in run ==> c in seps
    requires rest != "" ==> rest[0] !in seps
    ensures Split(a + run + rest, seps) == [a] + Split(rest, seps)
  {
    hide Split;
    assert a + run + rest == a + (run + rest);
    assert run[0] in run;
    HeadOf(a, run + rest, seps);
    SplitHead(a, run + rest, seps);
    assert (run + rest)[1..] == run[1..] + rest;
    DropSepsOf(run[1..], rest, seps);
  }

  lemma {:induction false} DropSepsParts(s: string, seps: set<char>) returns (run: string)
    ensures s == run + DropSeps(s, seps) && forall c :: c in run ==> c in seps
  {
    if s != "" && s[0] in seps {
      var r := DropSepsParts(s[1..], seps);
      run := [s[0]] + r;
      assert s == [s[0]] + s[1..];
    } else {
      run := "";
    }
  }

  /** And back: a text of more than one piece is its first piece, a run of separators, and what the other pieces
      come from. */
  lemma SplitParts(s: string, seps: set<char>) returns (run: string, rest: string)
    requires |Split(s, seps)| > 1
    ensures var a := Split(s, seps)[0];
            && s == a + run + rest
            && run != "" && (forall c :: c in run ==> c in seps)
            && (rest != "" ==> rest[0] !in seps)
            && Split(s, seps) == [a] + Split(rest, seps)
            && (a == "" ==> s[0] in seps)
  {
    var h := Head(s, seps);
    var tail := s[|h| + 1..];
    var r := DropSepsParts(tail, seps);
    run, rest := [s[|h|]] + r, DropSeps(tail, seps);
    hide Split, DropSeps;
    Rejoined(s, |h|, r, rest);
  }

  lemma Rejoined(s: string, n: nat, r: string, rest: string)
    requires n < |s| && s[n + 1..] == r + rest
    ensures s == s[..n] + ([s[n]] + r) + rest
  {
    assert s == s[..n] + [s[n]] + s[n + 1..];
  }

  lemma SplitOne(s: string, seps: set<char>)
    requires |Split(s, seps)| == 1
    ensures Split(s, seps) == [s] && Free(s, seps)
  {
    assert Split(s, seps)[0] in Split(s, seps);
  }

  lemma SplitWhole(a: string, seps: set<char>)
    requires Free(a, seps)
    ensures Split(a, seps) == [a]
  {
    HeadOf(a, "", seps);
    assert a + "" == a;
  }

  // ---- Lines, and header fields written as lines ----

  const NEWLINES: set<char> := {'\r', '\n'}

  predicate OneLine(s: string) {
    Free(s, NEWLINES)
  }

  /** Lines with something in them. */
  predicate SolidLines(lines: seq<string>) {
    forall l :: l in lines ==> l != "" && OneLine(l)
  }

  /** Lines, each ended by CRLF. */
  function LinesText(lines: seq<string>): string {
    if lines == [] then "" else lines[0] + CRLF + LinesText(lines[1..])
  }

  lemma {:induction false} LinesTextAppend(lines: seq<string>, line: string)
    ensures LinesText(lines + [line]) == LinesText(lines) + (line + CRLF)
  {
    if lines == [] {
      assert lines + [line] == [line];
      assert LinesText([line]) == line + CRLF + "";
    } else {
      assert (lines + [line])[1..] == lines[1..] + [line];
      LinesTextAppend(lines[1..], line);
    }
  }

  type Headers = seq<(string, string)>

  function LineOf(h: (string, string)): string {
    h.0 + ": " + h.1
  }

  function LineTexts(headers: Headers): seq<string> {
    seq(|headers|, i requires 0 <= i < |headers| => LineOf(headers[i]))
  }

  function HeaderText(headers: Headers): string {
    LinesText(LineTexts(headers))
  }

  lemma HeaderTextAppend(headers: Headers, h: (string, string))
    ensures HeaderText(headers + [h]) == HeaderText(headers) + (LineOf(h) + CRLF)
  {
    assert LineTexts(headers + [h]) == LineTexts(headers) + [LineOf(h)];
    LinesTextAppend(LineTexts(headers), LineOf(h));
  }

  lemma HeaderLinesFilled(headers: Headers)
    requires forall h :: h in headers ==> OneLine(h.0) && OneLine(h.1)
    ensures SolidLines(LineTexts(headers))
  {
    assert OneLine(": ");
    forall l | l in LineTexts(headers) ensures l != "" && OneLine(l) {
      var i :| 0 <= i < |headers| && LineOf(headers[i]) == l;
      assert headers[i] in headers;
    }
  }

  // ---- Decimal numerals: std::to_string and std::stoi ----

  predicate Digit(c: char) {
    '0' <= c <= '9'
  }

  predicate Numeral(s: string) {
    s != "" && forall c :: c in s ==> Digit(c)
  }

  function DigitChar(d: nat): char
    requires d < 10
  {
    '0' + d as char
  }

  function DigitValue(c: char): (d: nat)
    requires Digit(c)
    ensures d < 10 && DigitChar(d) == c
  {
    (c - '0') as nat
  }

  /** The largest int of 32 bits. */
  const INT_MAX: nat := 2147483647

  /** The value of a string of digits; the empty string counts as zero. */
  function ToNat(s: string): nat
    requires forall c :: c in s ==> Digit(c)
  {
    if s == "" then 0
    else
      var n := |s| - 1;
      assert s[n] in s && forall c :: c in s[..n] ==> c in s;
      10 * ToNat(s[..n]) + DigitValue(s[n])
  }

  function FromNat(n: nat): (s: string)
    ensures Numeral(s)
  {
    if n < 10 then [DigitChar(n)] else FromNat(n / 10) + [DigitChar(n % 10)]
  }

  lemma {:induction false} ToNatAppend(s: string, c: char)
    requires (forall d :: d in s ==> Digit(d)) && Digit(c)
    ensures (forall d :: d in s + [c] ==> Digit(d)) && ToNat(s + [c]) == 10 * ToNat(s) + DigitValue(c)
  {
    assert (s + [c])[..|s|] == s;
  }

  lemma {:induction false} ToFromNat(n: nat)
    ensures ToNat(FromNat(n)) == n
  {
    if n < 10 {
      assert [DigitChar(n)][..0] == "";
    } else {
      ToFromNat(n / 10);
      ToNatAppend(FromNat(n / 10), DigitChar(n % 10));
    }
  }

  /** Numerals without leading zeros, which is what to_string writes. */
  predicate Canonical(s: string) {
    Numeral(s) && (|s| > 1 ==> s[0] != '0')
  }

  lemma {:induction false} FromNatCanonical(n: nat)
    ensures Canonical(FromNat(n)) && (n > 0 ==> FromNat(n)[0] != '0')
  {
    if n >= 10 {
      FromNatCanonical(n / 10);
    }
  }

  lemma FromNatAppend(n: nat, d: nat)
    requires n > 0 && d < 10
    ensures FromNat(10 * n + d) == FromNat(n) + [DigitChar(d)]
  {
    assert (10 * n + d) / 10 == n && (10 * n + d) % 10 == d;
  }

  lemma {:induction false} FromToNat(s: string)
    requires Canonical(s)
    ensures FromNat(ToNat(s)) == s && (s[0] != '0' ==> ToNat(s) > 0)
    decreases |s|
  {
    var n := |s| - 1;
    assert s[n] in s;
    assert s == s[..n] + [s[n]];
    if n == 0 {
      assert s[..0] == "";
    } else {
      assert forall c :: c in s[..n] ==> c in s;
      FromToNat(s[..n]);
      FromNatAppend(ToNat(s[..n]), DigitValue(s[n]));
    }
  }
}
