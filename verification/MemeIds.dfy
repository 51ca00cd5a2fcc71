/**
Meme ids: decimal numerals kept as TEXT, the next one being the textual maximum plus one.
*/
module MemeIds {
  import opened Text

  // ---- Byte-wise string order, which MAX uses on a TEXT column ----

  predicate LexLe(a: string, b: string) {
    a == "" || (b != "" && (a[0] < b[0] || (a[0] == b[0] && LexLe(a[1..], b[1..]))))
  }

  /** The first difference is at `k`, and there `a` is smaller. */
  predicate SmallerAt(a: string, b: string, k: nat) {
    k < |a| && k < |b| && a[..k] == b[..k] && a[k] < b[k]
  }

  lemma SmallerNext(a: string, b: string, k: nat)
    requires a != "" && b != "" && a[0] == b[0]
    ensures SmallerAt(a, b, k + 1) <==> SmallerAt(a[1..], b[1..], k)
    ensures !SmallerAt(a, b, 0)
  {
    if k < |a[1..]| && k < |b[1..]| {
      assert a[..k + 1] == [a[0]] + a[1..][..k] && b[..k + 1] == [b[0]] + b[1..][..k];
      assert a[1..][..k] == a[..k + 1][1..] && b[1..][..k] == b[..k + 1][1..];
    }
  }

  /** The order of texts: the beginning of a text comes before it, else the first difference decides. */
  lemma {:induction false} LexMeans(a: string, b: string)
    ensures LexLe(a, b) <==> a <= b || exists k: nat :: SmallerAt(a, b, k)
  {
    if a != "" && b != "" && a[0] == b[0] {
      LexMeans(a[1..], b[1..]);
      assert a == [a[0]] + a[1..] && b == [b[0]] + b[1..];
      assert a <= b <==> a[1..] <= b[1..];
      hide SmallerAt;
      if exists k: nat :: SmallerAt(a, b, k) {
        var k: nat :| SmallerAt(a, b, k);
        SmallerNext(a, b, if k == 0 then 0 else k - 1);
      }
      if exists k: nat :: SmallerAt(a[1..], b[1..], k) {
        var k: nat :| SmallerAt(a[1..], b[1..], k);
        SmallerNext(a, b, k);
      }
    } else if a != "" && b != "" && a[0] < b[0] {
      assert SmallerAt(a, b, 0);
    }
  }

  lemma {:induction false} LexTotal(a: string, b: string)
    ensures LexLe(a, b) || LexLe(b, a)
    ensures LexLe(a, b) && LexLe(b, a) ==> a == b
  {
    if a != "" && b != "" && a[0] == b[0] {
      LexTotal(a[1..], b[1..]);
      assert a == [a[0]] + a[1..] && b == [b[0]] + b[1..];
    }
  }

  lemma {:induction false} LexTransitive(a: string, b: string, c: string)
    requires LexLe(a, b) && LexLe(b, c)
    ensures LexLe(a, c)
  {
    if a != "" && a[0] == b[0] && b[0] == c[0] {
      LexTransitive(a[1..], b[1..], c[1..]);
    }
  }

  ghost predicate IsMax(m: string, ids: set<string>) {
    m in ids && forall k :: k in ids ==> LexLe(k, m)
  }

  lemma {:induction false} MaxExists(ids: set<string>) returns (m: string)
    requires ids != {}
    ensures IsMax(m, ids)
    decreases ids
  {
    var x :| x in ids;
    LexTotal(x, x);
    var others := ids - {x};
    if others == {} {
      assert ids == {x};
      m := x;
    } else {
      var y := MaxExists(others);
      LexTotal(x, y);
      m := if LexLe(x, y) then y else x;
      forall k | k in ids ensures LexLe(k, m) {
        if k != x {
          assert k in others;
          if m == x {
            LexTransitive(k, y, x);
          }
        }
      }
    }
  }

  lemma HasMax(ids: set<string>)
    requires ids != {}
    ensures exists m :: IsMax(m, ids)
  {
    var m := MaxExists(ids);
  }

  /** `SELECT MAX(MEME_ID)`. */
  ghost function MaxId(ids: set<string>): (m: string)
    requires ids != {}
    ensures IsMax(m, ids)
  {
    HasMax(ids);
    var m :| IsMax(m, ids);
    m
  }

  lemma MaxUnique(m: string, ids: set<string>)
    requires ids != {} && IsMax(m, ids)
    ensures m == MaxId(ids)
  {
    LexTotal(m, MaxId(ids));
  }

  // ---- String order and numeric order ----

  lemma {:induction false} LexAppend(a: string, c: char, b: string, d: char)
    requires |a| == |b|
    ensures LexLe(a + [c], b + [d]) <==> if a == b then c <= d else LexLe(a, b)
  {
    var x, y := a + [c], b + [d];
    if a != "" {
      assert x[1..] == a[1..] + [c] && y[1..] == b[1..] + [d];
      assert a == [a[0]] + a[1..] && b == [b[0]] + b[1..];
      LexAppend(a[1..], c, b[1..], d);
    } else {
      assert x[1..] == "";
    }
  }

  predicate Digits(s: string) {
    forall c :: c in s ==> Digit(c)
  }

  /** On numerals of one length, string order is numeric order. */
  lemma {:induction false} LexIsNumeric(a: string, b: string)
    requires Digits(a) && Digits(b) && |a| == |b|
    ensures LexLe(a, b) <==> ToNat(a) <= ToNat(b)
    ensures ToNat(a) == ToNat(b) ==> a == b
    decreases |a|
  {
    if a != "" {
      var n := |a| - 1;
      var x, y := a[..n], b[..n];
      assert a == x + [a[n]] && b == y + [b[n]];
      assert a[n] in a && b[n] in b;
      assert Digits(x) && Digits(y);
      LexIsNumeric(x, y);
      LexAppend(x, a[n], y, b[n]);
      if x != y {
        LexTotal(x, y);
      }
    }
  }

  /** On numerals of different lengths it compares the shorter one with the beginning of the longer: the number
      of digits left over does not matter. */
  lemma {:induction false} LexAcrossLengths(a: string, b: string)
    requires Digits(a) && Digits(b) && |a| < |b|
    ensures Digits(b[..|a|])
    ensures LexLe(a, b) <==> ToNat(a) <= ToNat(b[..|a|])
  {
    assert forall c :: c in b[..|a|] ==> c in b;
    LexPrefix(a, b);
    LexIsNumeric(a, b[..|a|]);
  }

  lemma {:induction false} LexPrefix(a: string, b: string)
    requires |a| <= |b|
    ensures LexLe(a, b) <==> LexLe(a, b[..|a|])
    decreases |a|
  {
    if a != "" {
      LexPrefix(a[1..], b[1..]);
      assert b[..|a|][1..] == b[1..][..|a| - 1];
    }
  }

  // ---- Counting up ----

  /** Adding one to a numeral, digit by digit. */
  function Increment(s: string): string
    requires Digits(s)
  {
    if s == "" then "1"
    else
      var n := |s| - 1;
      assert s[n] in s && Digits(s[..n]);
      if s[n] == '9' then Increment(s[..n]) + "0" else s[..n] + [DigitChar(DigitValue(s[n]) + 1)]
  }

  function Zeros(n: nat): string {
    if n == 0 then "" else Zeros(n - 1) + "0"
  }

  predicate AllNines(s: string) {
    forall c :: c in s ==> c == '9'
  }

  lemma AllNinesAppend(s: string, c: char)
    ensures AllNines(s + [c]) <==> AllNines(s) && c == '9'
  {
    assert c in s + [c];
    assert forall d :: d in s ==> d in s + [c];
  }

  lemma DigitsInit(s: string)
    requires Digits(s) && s != ""
    ensures var n := |s| - 1; Digit(s[n]) && Digits(s[..n]) && s == s[..n] + [s[n]]
  {
    assert s[|s| - 1] in s;
  }

  lemma {:induction false} IncrementAdds(s: string)
    requires Digits(s)
    ensures Numeral(Increment(s)) && ToNat(Increment(s)) == ToNat(s) + 1
  {
    if s == "" {
      assert Increment(s)[..0] == "";
    } else {
      var n := |s| - 1;
      var init := s[..n];
      DigitsInit(s);
      ToNatAppend(init, s[n]);
      if s[n] == '9' {
        IncrementAdds(init);
        ToNatAppend(Increment(init), '0');
      } else {
        ToNatAppend(init, DigitChar(DigitValue(s[n]) + 1));
      }
    }
  }

  /** Only a numeral that is all nines gets longer. */
  lemma {:induction false} IncrementShape(s: string)
    requires Digits(s)
    ensures Increment(s) != "" && (s == "" || s[0] != '0' || |s| == 1 ==> Increment(s)[0] != '0')
    ensures AllNines(s) ==> Increment(s) == "1" + Zeros(|s|)
    ensures !AllNines(s) ==> |Increment(s)| == |s|
  {
    if s != "" {
      var n := |s| - 1;
      var init := s[..n];
      DigitsInit(s);
      AllNinesAppend(init, s[n]);
      if s[n] == '9' {
        IncrementShape(init);
        assert "1" + Zeros(n) + "0" == "1" + (Zeros(n) + "0");
      }
    }
  }

  /** What `std::to_string(stoi(id) + 1)` writes for an id without leading zeros. */
  lemma SuccessorText(m: string)
    requires Canonical(m)
    ensures FromNat(ToNat(m) + 1) == Increment(m)
  {
    IncrementAdds(m);
    IncrementShape(m);
    FromToNat(Increment(m));
  }

  // ---- The id a new meme gets ----

  const FIRST_ID: string := "10000"

  ghost predicate Numerals(ids: set<string>) {
    forall k :: k in ids ==> Numeral(k)
  }

  /** The ids are numerals, and `stoi(id) + 1` is an int for the textual maximum. */
  ghost predicate Countable(ids: set<string>) {
    Numerals(ids) && (ids != {} ==> ToNat(MaxId(ids)) < INT_MAX)
  }

  ghost function NextId(ids: set<string>): (id: string)
    requires Numerals(ids)
    ensures Numeral(id)
  {
    if ids == {} then FIRST_ID else FromNat(ToNat(MaxId(ids)) + 1)
  }

  ghost predicate SameLength(ids: set<string>) {
    forall a, b :: a in ids && b in ids ==> |a| == |b|
  }

  /** While all ids have one length, the next id is new. */
  lemma FreshAtOneLength(ids: set<string>)
    requires Numerals(ids) && SameLength(ids)
    ensures NextId(ids) !in ids
  {
    if ids != {} && NextId(ids) in ids {
      var m := MaxId(ids);
      ToFromNat(ToNat(m) + 1);
      LexIsNumeric(NextId(ids), m);
      assert false;
    }
  }

  /** The textual maximum is all nines, and the id that it rolls over to is taken. */
  ghost predicate RollsOver(ids: set<string>) {
    ids != {} && AllNines(MaxId(ids)) && "1" + Zeros(|MaxId(ids)|) in ids
  }

  /** An id with leading zeros comes before every number that is not zero. */
  lemma LeadingZerosLess(m: string, n: nat)
    requires Numeral(m) && !Canonical(m) && n > 0
    ensures !LexLe(FromNat(n), m) && !AllNines(m)
  {
    FromNatCanonical(n);
    assert FromNat(n)[0] in FromNat(n) && m[0] in m;
  }

  /** Exactly when the next id is already taken. */
  lemma TakenIff(ids: set<string>)
    requires Numerals(ids)
    ensures NextId(ids) in ids <==> RollsOver(ids)
  {
    if ids != {} {
      var m := MaxId(ids);
      var n := ToNat(m) + 1;
      if !Canonical(m) {
        LeadingZerosLess(m, n);
      } else {
        SuccessorText(m);
        IncrementShape(m);
        if !AllNines(m) {
          ToFromNat(n);
          LexIsNumeric(NextId(ids), m);
        }
      }
    }
  }

  lemma NextCanonical(ids: set<string>)
    requires Numerals(ids)
    ensures Canonical(NextId(ids))
  {
    if ids != {} {
      FromNatCanonical(ToNat(MaxId(ids)) + 1);
    }
  }
}
