/**
`StatusObject`: how often each url has been answered with each response code.
*/
module StatusCounters {
  import opened Text

  type Call = (string, string)

  datatype Entry = Entry(count: nat, url: string, code: string)

  const UNSIGNED: nat := 0x1_0000_0000

  // ---- What a history of calls should leave ----

  /** The calls without repetitions, in the order in which each was first made. */
  function FirstSeen(history: seq<Call>): seq<Call> {
    if history == [] then []
    else
      var n := |history| - 1;
      var seen := FirstSeen(history[..n]);
      if history[n] in seen then seen else seen + [history[n]]
  }

  function Counted(history: seq<Call>): seq<Entry> {
    var seen := FirstSeen(history);
    seq(|seen|, i requires 0 <= i < |seen| => Entry(multiset(history)[seen[i]], seen[i].0, seen[i].1))
  }

  function Total(es: seq<Entry>): nat {
    if es == [] then 0 else Total(es[..|es| - 1]) + es[|es| - 1].count
  }

  lemma {:induction false} FirstSeenSound(history: seq<Call>)
    ensures forall c :: c in FirstSeen(history) <==> c in history
    ensures forall i, j :: 0 <= i < j < |FirstSeen(history)| ==> FirstSeen(history)[i] != FirstSeen(history)[j]
  {
    if history != [] {
      var n := |history| - 1;
      FirstSeenSound(history[..n]);
      assert history == history[..n] + [history[n]];
    }
  }

  /** Where a call stands among the first seen: before every call first made later. */
  lemma {:induction false} FirstSeenOrder(history: seq<Call>, i: nat, j: nat)
    requires i < j < |FirstSeen(history)|
    ensures exists k :: 0 <= k <= |history| && FirstSeen(history)[i] in history[..k] &&
                        FirstSeen(history)[j] !in history[..k]
  {
    var n, seen := |history| - 1, FirstSeen(history);
    var before := FirstSeen(history[..n]);
    if j < |before| {
      FirstSeenOrder(history[..n], i, j);
      var k :| 0 <= k <= n && before[i] in history[..n][..k] && before[j] !in history[..n][..k];
      assert history[..n][..k] == history[..k];
    } else {
      FirstSeenSound(history[..n]);
      assert seen[i] == before[i] && before[i] in before;
      assert seen[i] in history[..n] && seen[j] !in history[..n];
    }
  }

  /** The counts add up to the number of calls. */
  lemma {:induction false} TotalIsLength(history: seq<Call>)
    ensures Total(Counted(history)) == |history|
  {
    if history != [] {
      var n := |history| - 1;
      var init, last := history[..n], history[n];
      TotalIsLength(init);
      CountedNext(init, last);
      assert history == init + [last];
      FirstSeenSound(init);
      if last in init {
        var i :| 0 <= i < |FirstSeen(init)| && FirstSeen(init)[i] == last;
        TotalBump(Counted(init), i);
      } else {
        var e := Entry(1, last.0, last.1);
        assert (Counted(init) + [e])[..|Counted(init)|] == Counted(init);
      }
    } else {
      assert Counted(history) == [];
    }
  }

  lemma {:induction false} TotalBump(es: seq<Entry>, i: nat)
    requires i < |es|
    ensures Total(es[i := es[i].(count := es[i].count + 1)]) == Total(es) + 1
    decreases |es|
  {
    var n := |es| - 1;
    var fs := es[i := es[i].(count := es[i].count + 1)];
    if i < n {
      TotalBump(es[..n], i);
      assert fs[..n] == es[..n][i := es[i].(count := es[i].count + 1)];
    } else {
      assert fs[..n] == es[..n];
    }
  }

  lemma FirstSeenNext(history: seq<Call>, c: Call)
    ensures FirstSeen(history + [c]) ==
            if c in history then FirstSeen(history) else FirstSeen(history) + [c]
    ensures forall d :: multiset(history + [c])[d] == multiset(history)[d] + (if d == c then 1 else 0)
  {
    FirstSeenSound(history);
    assert (history + [c])[..|history|] == history;
  }

  /** One more call: the entry of a call seen before goes up by one, a new call is entered at the end. */
  lemma CountedNext(history: seq<Call>, c: Call)
    ensures c !in history ==> Counted(history + [c]) == Counted(history) + [Entry(1, c.0, c.1)]
    ensures forall i :: 0 <= i < |FirstSeen(history)| && FirstSeen(history)[i] == c ==>
              var e := Counted(history)[i];
              Counted(history + [c]) == Counted(history)[i := e.(count := e.count + 1)]
  {
    FirstSeenSound(history);
    if c !in history {
      CountedNew(history, c);
    }
    forall i | 0 <= i < |FirstSeen(history)| && FirstSeen(history)[i] == c
      ensures var e := Counted(history)[i];
              Counted(history + [c]) == Counted(history)[i := e.(count := e.count + 1)]
    {
      CountedSeen(history, c, i);
    }
  }

  lemma CountedNew(history: seq<Call>, c: Call)
    requires c !in history
    ensures Counted(history + [c]) == Counted(history) + [Entry(1, c.0, c.1)]
  {
    FirstSeenSound(history);
    FirstSeenNext(history, c);
    hide FirstSeen;
    assert multiset(history)[c] == 0;
    var seen := FirstSeen(history);
    assert forall i :: 0 <= i < |seen| ==> seen[i] in seen;
  }

  lemma CountedSeen(history: seq<Call>, c: Call, i: nat)
    requires i < |FirstSeen(history)| && FirstSeen(history)[i] == c
    ensures var e := Counted(history)[i];
            Counted(history + [c]) == Counted(history)[i := e.(count := e.count + 1)]
  {
    FirstSeenSound(history);
    FirstSeenNext(history, c);
    hide FirstSeen;
    var seen := FirstSeen(history);
    assert c in seen;
    assert forall j :: 0 <= j < |seen| && j != i ==> seen[j] != c;
  }

  /** The two's complement value of an unsigned word, as the conversion to int gives it. */
  function AsInt(u: nat): int
    requires u < UNSIGNED
  {
    if u <= INT_MAX then u else u - UNSIGNED
  }

  lemma AsIntMeans(u: nat)
    requires u < 4294967296
    ensures -2147483648 <= AsInt(u) <= 2147483647
    ensures AsInt(u) == u || AsInt(u) == u - 4294967296
  {
  }

  lemma WrapAdd(a: nat, b: nat)
    ensures (a % UNSIGNED + b) % UNSIGNED == (a + b) % UNSIGNED
  {
    var q := a / UNSIGNED;
    assert a == q * UNSIGNED + a % UNSIGNED;
    WrapMany(a % UNSIGNED + b, q);
  }

  lemma {:induction false} WrapMany(x: nat, q: nat)
    ensures (q * UNSIGNED + x) % UNSIGNED == x % UNSIGNED
    decreases q
  {
    if q > 0 {
      WrapMany(x, q - 1);
      assert q * UNSIGNED + x == ((q - 1) * UNSIGNED + x) + UNSIGNED;
    }
  }

  // ---- The counters ----

  class StatusObject {
    var statusEntries: seq<Entry>
    ghost var history: seq<Call>

    /** The entries are the distinct calls in first-seen order, each with its multiplicity. */
    ghost predicate Valid()
      reads this
    {
      statusEntries == Counted(history)
    }

    constructor ()
      ensures Valid() && history == []
    {
      statusEntries, history := [], [];
    }

    /** `addStatusEntry`; fewer than 2^31 calls keep every count an int. */
    method AddStatusEntry(url: string, code: string)
      requires Valid() && |history| < INT_MAX
      modifies this
      ensures Valid() && history == old(history) + [(url, code)]
    {
      ghost var call := (url, code);
      FirstSeenSound(history);
      CountedNext(history, call);
      history := history + [call];
      var i := 0;
      while i < |statusEntries|
        invariant 0 <= i <= |statusEntries|
        invariant statusEntries == old(statusEntries) && history == old(history) + [call]
        invariant forall j :: 0 <= j < i ==> FirstSeen(old(history))[j] != call
      {
        var e := statusEntries[i];
        if e.url == url && e.code == code {
          assert FirstSeen(old(history))[i] == call;
          statusEntries := statusEntries[i := e.(count := e.count + 1)];
          return;
        }
        i := i + 1;
      }
      assert call !in old(history);
      statusEntries := statusEntries + [Entry(1, url, code)];
    }

    method GetStatusEntries() returns (entries: seq<Entry>)
      requires Valid()
      ensures entries == Counted(history)
    {
      entries := statusEntries;
    }

    /** `getStatusCalls`: an unsigned sum returned as an int; the number of calls while that fits. */
    method GetStatusCalls() returns (calls: int)
      requires Valid()
      ensures calls == AsInt(|history| % UNSIGNED)
      ensures |history| <= INT_MAX ==> calls == |history|
    {
      var count := 0;
      var i := 0;
      while i < |statusEntries|
        invariant 0 <= i <= |statusEntries|
        invariant 0 <= count < UNSIGNED && count == Total(statusEntries[..i]) % UNSIGNED
      {
        assert statusEntries[..i + 1][..i] == statusEntries[..i];
        assert Total(statusEntries[..i + 1]) == Total(statusEntries[..i]) + statusEntries[i].count;
        WrapAdd(Total(statusEntries[..i]), statusEntries[i].count);
        count := (count + statusEntries[i].count) % UNSIGNED;
        i := i + 1;
      }
      assert statusEntries[..i] == statusEntries;
      TotalIsLength(history);
      calls := AsInt(count);
    }
  }
}
