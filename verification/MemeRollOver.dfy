/**
The life of a table that only grows: which ids creates give out from an empty table, and when they run out.
*/
module MemeRollOver {
  import opened Text
  import opened MemeIds
  import opened MemeProtocol

  /** How many creates an empty table takes before one of them overwrites a row: ids 10000 to 100000. */
  const CAPACITY: nat := 90001

  /** A create by some thread, with its texts and what rand returns. */
  datatype Post = Post(thread: nat, texts: Texts, draws: seq<nat>)

  /** Six digits at most need twelve draws. */
  predicate Drawn(posts: seq<Post>) {
    forall p :: p in posts ==> |p.draws| >= 12
  }

  function CreateEvents(p: Post): seq<Event> {
    [Lock(p.thread, Create(p.texts)), Select(p.thread, p.draws), Insert(p.thread), Unlock(p.thread)]
  }

  /** The creates one after the other, undisturbed. */
  function Undisturbed(posts: seq<Post>): seq<Event> {
    if posts == [] then []
    else Undisturbed(posts[..|posts| - 1]) + CreateEvents(posts[|posts| - 1])
  }

  /** The first `n` ids from 10000 on. */
  ghost function Ids(n: nat): set<string> {
    set k | 10000 <= k < 10000 + n :: FromNat(k)
  }

  // ---- The ids given out so far, and the next one ----

  lemma FiveLong(k: nat)
    requires 10000 <= k <= 99999
    ensures |FromNat(k)| == 5
  {
    assert |FromNat(k / 10000)| == 1;
    assert k / 10 / 10 / 10 / 10 == k / 10000;
    assert |FromNat(k / 10 / 10 / 10)| == 2;
    assert |FromNat(k / 10 / 10)| == 3;
    assert |FromNat(k / 10)| == 4;
  }

  lemma IdsMember(n: nat, k: nat)
    ensures FromNat(k) in Ids(n) <==> 10000 <= k < 10000 + n
  {
    if FromNat(k) in Ids(n) {
      var j :| 10000 <= j < 10000 + n && FromNat(j) == FromNat(k);
      ToFromNat(j);
      ToFromNat(k);
    }
  }

  lemma IdsNext(n: nat)
    ensures Ids(n + 1) == Ids(n) + {FromNat(10000 + n)}
  {
    IdsMember(n + 1, 10000 + n);
    var more := Ids(n) + {FromNat(10000 + n)};
    forall id | id in Ids(n + 1) ensures id in more {
      var k :| 10000 <= k < 10000 + (n + 1) && FromNat(k) == id;
      IdsMember(n, k);
    }
    forall id | id in Ids(n) ensures id in Ids(n + 1) {
      var k :| 10000 <= k < 10000 + n && FromNat(k) == id;
      IdsMember(n + 1, k);
    }
  }

  /** Up to 99999 the largest id is the textual maximum; 100000 does not exceed 99999. */
  lemma LargestIsMax(n: nat)
    requires 1 <= n <= CAPACITY
    ensures Ids(n) != {}
    ensures var top := if n == CAPACITY then 99999 else 10000 + n - 1;
            MaxId(Ids(n)) == FromNat(top)
  {
    var top := if n == CAPACITY then 99999 else 10000 + n - 1;
    IdsMember(n, top);
    forall id | id in Ids(n) ensures LexLe(id, FromNat(top)) {
      var k :| 10000 <= k < 10000 + n && FromNat(k) == id;
      FiveLong(top);
      if k <= 99999 {
        FiveLong(k);
        ToFromNat(k);
        ToFromNat(top);
        LexIsNumeric(id, FromNat(top));
      } else {
        SixDigitsFirst();
      }
    }
    MaxUnique(FromNat(top), Ids(n));
  }

  lemma SixDigitsFirst()
    ensures FromNat(100000) == "100000" && FromNat(99999) == "99999" && LexLe("100000", "99999")
  {
  }

  lemma FirstNumber()
    ensures FIRST_ID == FromNat(10000)
  {
  }

  lemma IdsNumerals(n: nat)
    ensures Numerals(Ids(n))
  {
    forall id | id in Ids(n) ensures Numeral(id) {
      var k :| 10000 <= k < 10000 + n && FromNat(k) == id;
    }
  }

  /** The number of the next id. */
  function NextNumber(n: nat): nat {
    if n == CAPACITY then 100000 else 10000 + n
  }

  lemma NextIdAfter(n: nat)
    requires n <= CAPACITY
    ensures Countable(Ids(n)) && NextId(Ids(n)) == FromNat(NextNumber(n))
  {
    IdsNumerals(n);
    hide LexLe, FromNat, MaxId;
    if n == 0 {
      assert Ids(n) == {};
      FirstNumber();
    } else {
      LargestIsMax(n);
      ToFromNat(NextNumber(n) - 1);
    }
  }

  lemma NextLength(n: nat)
    requires n <= CAPACITY
    ensures |FromNat(NextNumber(n))| <= 6
  {
    SixDigitsFirst();
    hide FromNat;
    if NextNumber(n) < 100000 {
      FiveLong(NextNumber(n));
    }
  }

  /** While fewer than 90001 ids are given out the next is the following number, which is new; after that it is
      100000 again. */
  lemma NextAfter(n: nat)
    requires n <= CAPACITY
    ensures Countable(Ids(n)) && NextId(Ids(n)) == FromNat(NextNumber(n))
    ensures |NextId(Ids(n))| <= 6
    ensures RollsOver(Ids(n)) <==> n == CAPACITY
  {
    NextIdAfter(n);
    NextLength(n);
    TakenIff(Ids(n));
    IdsMember(n, NextNumber(n));
  }

  // ---- The runs ----

  lemma {:induction false} RunConcat(w: World, a: seq<Event>, b: seq<Event>)
    requires ProperRun(w, a) && ProperRun(After(w, a), b)
    ensures ProperRun(w, a + b) && After(w, a + b) == After(After(w, a), b)
    decreases |a|
  {
    if a == [] {
      assert a + b == b;
    } else {
      assert (a + b)[0] == a[0] && (a + b)[1..] == a[1..] + b;
      RunConcat(Next(w, a[0]), a[1..], b);
    }
  }

  lemma RunFirst(w: World, e: Event, rest: seq<Event>)
    requires Proper(w, e) && ProperRun(Next(w, e), rest)
    ensures ProperRun(w, [e] + rest) && After(w, [e] + rest) == After(Next(w, e), rest)
  {
    assert ([e] + rest)[1..] == rest;
  }

  lemma FourEvents(w: World, a: Event, b: Event, c: Event, d: Event)
    requires Proper(w, a)
    requires Proper(Next(w, a), b)
    requires Proper(Next(Next(w, a), b), c)
    requires Proper(Next(Next(Next(w, a), b), c), d)
    ensures ProperRun(w, [a, b, c, d])
    ensures After(w, [a, b, c, d]) == Next(Next(Next(Next(w, a), b), c), d)
  {
    var w1 := Next(w, a);
    var w2 := Next(w1, b);
    var w3 := Next(w2, c);
    assert ProperRun(Next(w3, d), []) && After(Next(w3, d), []) == Next(w3, d);
    hide Proper, ProperRun, After, Next;
    assert [d] + [] == [d] && [c] + [d] == [c, d] && [b] + [c, d] == [b, c, d] && [a] + [b, c, d] == [a, b, c, d];
    RunFirst(w3, d, []);
    RunFirst(w2, c, [d]);
    RunFirst(w1, b, [c, d]);
    RunFirst(w, a, [b, c, d]);
  }

  lemma OneCreate(w: World, p: Post, n: nat)
    requires w.mutex.None? && PhaseOf(w, p.thread).Idle? && w.table.Keys == Ids(n)
    requires n < CAPACITY && |p.draws| >= 12
    ensures ProperRun(w, CreateEvents(p))
    ensures var u := After(w, CreateEvents(p));
            && u.mutex.None?
            && u.table.Keys == Ids(n + 1)
            && forall t: nat :: PhaseOf(w, t).Idle? ==> PhaseOf(u, t).Idle?
  {
    NextAfter(n);
    IdsNext(n);
    LockedSequence(w, p.thread, Create(p.texts), p.draws);
    hide Ids, NextId, FromNat, RollsOver, Countable;
    var e := CreateEvents(p);
    FourEvents(w, e[0], e[1], e[2], e[3]);
  }

  /** From an empty table the first n creates, n up to 90001, get the ids 10000 to 10000 + n - 1, and none of them
      overwrites a row. */
  lemma {:induction false} CreatesCountUp(posts: seq<Post>)
    requires Drawn(posts) && |posts| <= CAPACITY
    ensures ProperRun(Start(map[]), Undisturbed(posts))
    ensures var w := After(Start(map[]), Undisturbed(posts));
            && w.mutex.None?
            && w.table.Keys == Ids(|posts|)
            && forall t: nat :: PhaseOf(w, t).Idle?
    decreases |posts|
  {
    if posts == [] {
      assert Ids(0) == {};
    } else {
      var n := |posts| - 1;
      var p := posts[n];
      assert p in posts;
      CreatesCountUp(posts[..n]);
      OneCreate(After(Start(map[]), Undisturbed(posts[..n])), p, n);
      RunConcat(Start(map[]), Undisturbed(posts[..n]), CreateEvents(p));
    }
  }

  /** And the create after those, whoever makes it, chooses 100000, which is stored: its insert replaces that row. */
  lemma NextCreateOverwrites(posts: seq<Post>, p: Post)
    requires Drawn(posts) && |posts| == CAPACITY && |p.draws| >= 12
    ensures Run(Start(map[]), Undisturbed(posts))
    ensures var w := After(Start(map[]), Undisturbed(posts));
            && Enabled(w, Lock(p.thread, Create(p.texts)))
            && var v := Next(w, Lock(p.thread, Create(p.texts)));
               && Enabled(v, Select(p.thread, p.draws))
               && var u := Next(v, Select(p.thread, p.draws));
                  && PhaseOf(u, p.thread).Chosen?
                  && PhaseOf(u, p.thread).id == "100000"
                  && "100000" in u.table
                  && Next(u, Insert(p.thread)).table.Keys == w.table.Keys
                  && Next(u, Insert(p.thread)).table["100000"] == PhaseOf(u, p.thread).row
  {
    CreatesCountUp(posts);
    RolledOver(After(Start(map[]), Undisturbed(posts)), p);
  }

  /** The create that finds the ids 10000 to 100000. */
  lemma RolledOver(w: World, p: Post)
    requires w.mutex.None? && PhaseOf(w, p.thread).Idle? && w.table.Keys == Ids(CAPACITY) && |p.draws| >= 12
    ensures Enabled(w, Lock(p.thread, Create(p.texts)))
    ensures var v := Next(w, Lock(p.thread, Create(p.texts)));
            && Enabled(v, Select(p.thread, p.draws))
            && var u := Next(v, Select(p.thread, p.draws));
               && PhaseOf(u, p.thread).Chosen?
               && PhaseOf(u, p.thread).id == "100000"
               && "100000" in u.table
               && Next(u, Insert(p.thread)).table.Keys == w.table.Keys
               && Next(u, Insert(p.thread)).table["100000"] == PhaseOf(u, p.thread).row
  {
    NextAfter(CAPACITY);
    IdsMember(CAPACITY, 100000);
    SixDigitsFirst();
    hide Ids, NextId, FromNat, RollsOver, Countable;
  }
}
