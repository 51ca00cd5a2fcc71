/**
Requests running side by side on one table. Creates and edits hold the mutex from before their select until
after their insert; deletes take no lock and fall anywhere.
*/
module MemeProtocol {
  import opened Text
  import opened MemeIds
  import opened MemeStore

  datatype Texts = Texts(name: string, image: string, top: string, bottom: string)

  datatype Job = Create(texts: Texts) | Edit(id: string, texts: Texts)

  /** Where a request is: before the lock, behind it, behind its select with the row it will write, or behind
      its insert. */
  datatype Phase = Idle | Holding(job: Job) | Chosen(id: string, row: Row, created: bool) | Written

  datatype World = World(table: Table, mutex: Option<nat>, threads: map<nat, Phase>)

  datatype Event =
    | Lock(thread: nat, job: Job)
    | Select(thread: nat, draws: seq<nat>)
    | Insert(thread: nat)
    | Unlock(thread: nat)
    | Delete(id: string)

  function PhaseOf(w: World, t: nat): Phase {
    if t in w.threads then w.threads[t] else Idle
  }

  function RowOf(texts: Texts, token: string): Row {
    Row(texts.name, texts.image, texts.top, texts.bottom, token)
  }

  /** What a select settles: for a create the next id and a new token, for an edit the token the row has. */
  ghost function Choice(table: Table, job: Job, draws: seq<nat>): Phase
    requires job.Create? ==> Countable(table.Keys) && |draws| >= 2 * |NextId(table.Keys)|
  {
    match job
    case Create(texts) =>
      var id := NextId(table.Keys);
      Chosen(id, RowOf(texts, id + "-" + Scramble(draws[..2 * |id|])), true)
    case Edit(id, texts) =>
      Chosen(id, RowOf(texts, EditToken(table, id)), false)
  }

  ghost predicate Enabled(w: World, e: Event) {
    match e
    case Lock(t, _) => w.mutex.None? && PhaseOf(w, t).Idle?
    case Select(t, draws) =>
      && PhaseOf(w, t).Holding?
      && (PhaseOf(w, t).job.Create? ==> Countable(w.table.Keys) && |draws| >= 2 * |NextId(w.table.Keys)|)
    case Insert(t) => PhaseOf(w, t).Chosen?
    case Unlock(t) => PhaseOf(w, t).Written?
    case Delete(_) => true
  }

  ghost function Next(w: World, e: Event): World
    requires Enabled(w, e)
  {
    match e
    case Lock(t, job) => World(w.table, Some(t), w.threads[t := Holding(job)])
    case Select(t, draws) => w.(threads := w.threads[t := Choice(w.table, PhaseOf(w, t).job, draws)])
    case Insert(t) =>
      var p := PhaseOf(w, t);
      World(w.table[p.id := p.row], w.mutex, w.threads[t := Written])
    case Unlock(t) => World(w.table, None, w.threads[t := Idle])
    case Delete(id) => w.(table := w.table - {id})
  }

  // ---- What every step keeps ----

  /** A thread is past its lock exactly when it holds the mutex; so at most one is. */
  ghost predicate Exclusive(w: World) {
    forall t: nat :: !PhaseOf(w, t).Idle? <==> w.mutex == Some(t)
  }

  /** A row that a thread is about to write: its id is new, or, for an edit, its token is the one the row has
      if it is still there. */
  ghost predicate Sound(w: World, p: Phase) {
    p.Chosen? ==>
      && Numeral(p.id)
      && TokenFor(p.id, p.row.token)
      && (if p.created then p.id !in w.table else p.id in w.table ==> w.table[p.id].token == p.row.token)
  }

  ghost predicate Invariant(w: World) {
    && Exclusive(w)
    && TableHolds(w.table)
    && forall t: nat :: Sound(w, PhaseOf(w, t))
  }

  /** The steps of a proper run: an edit finds its row, and a create does not roll over onto a stored id. */
  ghost predicate Proper(w: World, e: Event) {
    && Enabled(w, e)
    && (e.Select? ==>
          match PhaseOf(w, e.thread).job
          case Create(_) => !RollsOver(w.table.Keys)
          case Edit(id, _) => id in w.table)
  }

  lemma ChoiceSound(w: World, job: Job, draws: seq<nat>)
    requires TableHolds(w.table)
    requires match job
             case Create(_) =>
               Countable(w.table.Keys) && |draws| >= 2 * |NextId(w.table.Keys)| && !RollsOver(w.table.Keys)
             case Edit(id, _) => id in w.table
    ensures Sound(w, Choice(w.table, job, draws))
  {
    if job.Create? {
      var id := NextId(w.table.Keys);
      TokenForMade(id, draws[..2 * |id|]);
      TakenIff(w.table.Keys);
    }
  }

  /** While a thread is past its lock, only that thread and deletes can move. */
  lemma OthersOnlyDelete(w: World, t: nat, e: Event)
    requires Exclusive(w) && w.mutex == Some(t) && Enabled(w, e)
    ensures e.Delete? || (!e.Lock? && e.thread == t)
  {
  }

  lemma StepExclusive(w: World, e: Event)
    requires Exclusive(w) && Enabled(w, e)
    ensures Exclusive(Next(w, e))
  {
    var v := Next(w, e);
    if !e.Delete? {
      forall t: nat ensures !PhaseOf(v, t).Idle? <==> v.mutex == Some(t) {
        assert t != e.thread ==> PhaseOf(v, t) == PhaseOf(w, t);
      }
    } else {
      assert forall t: nat :: PhaseOf(v, t) == PhaseOf(w, t);
    }
  }

  lemma StepInvariant(w: World, e: Event)
    requires Invariant(w) && Proper(w, e)
    ensures Invariant(Next(w, e))
  {
    var v := Next(w, e);
    StepExclusive(w, e);
    match e
    case Delete(id) =>
      forall t: nat ensures Sound(v, PhaseOf(v, t)) {
        assert PhaseOf(v, t) == PhaseOf(w, t) && Sound(w, PhaseOf(w, t));
      }
    case Insert(t) =>
      assert Sound(w, PhaseOf(w, t));
      forall u: nat ensures Sound(v, PhaseOf(v, u)) {
        assert u != t ==> PhaseOf(w, u).Idle? && PhaseOf(v, u) == PhaseOf(w, u);
      }
    case Select(t, draws) =>
      ChoiceSound(w, PhaseOf(w, t).job, draws);
      forall u: nat ensures Sound(v, PhaseOf(v, u)) {
        assert Sound(w, PhaseOf(w, u));
        assert u != t ==> PhaseOf(v, u) == PhaseOf(w, u);
      }
    case Lock(t, _) =>
      forall u: nat ensures Sound(v, PhaseOf(v, u)) {
        assert Sound(w, PhaseOf(w, u));
        assert u != t ==> PhaseOf(v, u) == PhaseOf(w, u);
      }
    case Unlock(t) =>
      forall u: nat ensures Sound(v, PhaseOf(v, u)) {
        assert Sound(w, PhaseOf(w, u));
        assert u != t ==> PhaseOf(v, u) == PhaseOf(w, u);
      }
  }

  // ---- Whole runs ----

  ghost predicate Run(w: World, events: seq<Event>)
    decreases |events|
  {
    events == [] || (Enabled(w, events[0]) && Run(Next(w, events[0]), events[1..]))
  }

  ghost function After(w: World, events: seq<Event>): World
    requires Run(w, events)
    decreases |events|
  {
    if events == [] then w else After(Next(w, events[0]), events[1..])
  }

  ghost predicate ProperRun(w: World, events: seq<Event>)
    ensures ProperRun(w, events) ==> Run(w, events)
    decreases |events|
  {
    events == [] || (Proper(w, events[0]) && ProperRun(Next(w, events[0]), events[1..]))
  }

  ghost function Start(table: Table): World {
    World(table, None, map[])
  }

  lemma {:induction false} RunInvariant(w: World, events: seq<Event>)
    requires Invariant(w) && ProperRun(w, events)
    ensures Invariant(After(w, events))
    decreases |events|
  {
    if events != [] {
      StepInvariant(w, events[0]);
      RunInvariant(Next(w, events[0]), events[1..]);
    }
  }

  /** Safety over whole runs, from any table whose rows have their tokens (the empty one among them), however
      requests and deletes interleave: every row still has a token made for its id, tokens are pairwise
      different, at most one thread is past its lock, a create never overwrites a row, and an edit never
      changes the token of one. */
  lemma RunSafety(table: Table, events: seq<Event>, e: Event)
    requires TableHolds(table)
    requires ProperRun(Start(table), events)
    ensures var w := After(Start(table), events);
            && TableHolds(w.table)
            && (forall a, b :: a in w.table && b in w.table && a != b ==> w.table[a].token != w.table[b].token)
            && (forall s: nat, t: nat :: !PhaseOf(w, s).Idle? && !PhaseOf(w, t).Idle? ==> s == t)
            && (Proper(w, e) && e.Insert? ==>
                  var p := PhaseOf(w, e.thread);
                  if p.created then p.id !in w.table
                  else p.id in w.table ==> Next(w, e).table[p.id].token == w.table[p.id].token)
  {
    var w := After(Start(table), events);
    assert Invariant(Start(table));
    RunInvariant(Start(table), events);
    forall a, b | a in w.table && b in w.table && a != b ensures w.table[a].token != w.table[b].token {
      if w.table[a].token == w.table[b].token {
        TokenDetermines(a, b, w.table[a].token);
      }
    }
    if e.Insert? {
      assert Sound(w, PhaseOf(w, e.thread));
    }
  }

  /** A token other than the master token is accepted in a run exactly when one row holds it. */
  lemma RunAuthorization(table: Table, events: seq<Event>, token: string)
    requires TableHolds(table) && ProperRun(Start(table), events) && token != MASTER_TOKEN
    ensures var t := After(Start(table), events).table;
            && (Authorized(t, token) <==> exists id :: id in t && t[id].token == token)
            && forall a, b :: a in t && b in t && t[a].token == token && t[b].token == token ==> a == b
  {
    assert Invariant(Start(table));
    RunInvariant(Start(table), events);
    AuthorizedIff(After(Start(table), events).table, token);
  }

  // ---- Runs on ids of one length ----

  /** With ids of one length there is no roll-over. */
  lemma OneLengthNoRollOver(table: Table)
    requires Numerals(table.Keys) && SameLength(table.Keys)
    ensures !RollsOver(table.Keys)
  {
    FreshAtOneLength(table.Keys);
    TakenIff(table.Keys);
  }

  /** A step that needs no look at the roll-over: an edit finds its row, and a create sees ids of one length. */
  ghost predicate OneLength(w: World, e: Event) {
    && Enabled(w, e)
    && (e.Select? ==>
          match PhaseOf(w, e.thread).job
          case Create(_) => SameLength(w.table.Keys)
          case Edit(id, _) => id in w.table)
  }

  ghost predicate SameLengthRun(w: World, events: seq<Event>)
    decreases |events|
  {
    events == [] || (OneLength(w, events[0]) && SameLengthRun(Next(w, events[0]), events[1..]))
  }

  /** A run in which every create sees ids of one length is a proper run, so RunSafety speaks of it. */
  lemma {:induction false} SameLengthRunProper(w: World, events: seq<Event>)
    requires Invariant(w) && SameLengthRun(w, events)
    ensures ProperRun(w, events)
    decreases |events|
  {
    if events != [] {
      if SameLength(w.table.Keys) {
        OneLengthNoRollOver(w.table);
      }
      StepInvariant(w, events[0]);
      SameLengthRunProper(Next(w, events[0]), events[1..]);
    }
  }

  // ---- How long a fresh table is safe ----

  /** A step that needs no look at the roll-over: an edit finds its row, and a create is not run while 99999
      is stored. */
  ghost predicate Modest(w: World, e: Event) {
    && Enabled(w, e)
    && (e.Select? ==>
          match PhaseOf(w, e.thread).job
          case Create(_) => "99999" !in w.table
          case Edit(id, _) => id in w.table)
  }

  ghost predicate FiveDigits(w: World) {
    && (forall id :: id in w.table ==> |id| == 5 && Canonical(id))
    && forall t: nat :: PhaseOf(w, t).Chosen? ==> |PhaseOf(w, t).id| == 5 && Canonical(PhaseOf(w, t).id)
  }

  lemma NinesAre(s: string)
    requires AllNines(s) && |s| == 5
    ensures s == "99999"
  {
    assert s[0] in s && s[1] in s && s[2] in s && s[3] in s && s[4] in s;
  }

  lemma ModestStep(w: World, e: Event)
    requires TableHolds(w.table) && FiveDigits(w) && Modest(w, e)
    ensures Proper(w, e) && FiveDigits(Next(w, e))
  {
    var v := Next(w, e);
    if e.Select? && PhaseOf(w, e.thread).job.Create? {
      var ids := w.table.Keys;
      if ids != {} {
        var m := MaxId(ids);
        if AllNines(m) {
          NinesAre(m);
        }
        SuccessorText(m);
        IncrementShape(m);
      }
      NextCanonical(ids);
      assert |NextId(ids)| == 5;
    }
    forall t: nat | PhaseOf(v, t).Chosen? ensures |PhaseOf(v, t).id| == 5 && Canonical(PhaseOf(v, t).id) {
      if e.Select? && t == e.thread {
        assert PhaseOf(v, t) == Choice(w.table, PhaseOf(w, t).job, e.draws);
      } else {
        assert PhaseOf(v, t) == PhaseOf(w, t);
      }
    }
  }

  ghost predicate ModestRun(w: World, events: seq<Event>)
    decreases |events|
  {
    events == [] || (Modest(w, events[0]) && ModestRun(Next(w, events[0]), events[1..]))
  }

  /** A run from the empty table in which no create is run while 99999 is stored is a proper run, so RunSafety
      speaks of it; and all ids keep five digits. */
  lemma {:induction false} ModestRunProper(w: World, events: seq<Event>)
    requires Invariant(w) && FiveDigits(w) && ModestRun(w, events)
    ensures ProperRun(w, events) && FiveDigits(After(w, events))
    decreases |events|
  {
    if events != [] {
      ModestStep(w, events[0]);
      StepInvariant(w, events[0]);
      ModestRunProper(Next(w, events[0]), events[1..]);
    }
  }

  // ---- One create, exactly ----

  /** A step of thread `t` itself. */
  predicate Moves(e: Event, t: nat) {
    !e.Delete? && e.thread == t
  }

  /** While a thread waits behind its select, whatever the others do can only delete rows. */
  lemma {:induction false} OthersDelete(w: World, t: nat, events: seq<Event>)
    requires Exclusive(w) && w.mutex == Some(t) && Run(w, events)
    requires forall e :: e in events ==> !Moves(e, t)
    ensures var u := After(w, events);
            && PhaseOf(u, t) == PhaseOf(w, t)
            && forall id :: id in u.table <==> id in w.table && Delete(id) !in events
    decreases |events|
  {
    if events != [] {
      var e, rest := events[0], events[1..];
      assert e in events && events == [e] + rest;
      OthersOnlyDelete(w, t, e);
      StepExclusive(w, e);
      OthersDelete(Next(w, e), t, rest);
    }
  }

  /** Between the locked select of a create and its insert, any steps of other threads and any deletes may fall.
      The id chosen is taken at the insert, so that the insert overwrites a row, exactly when the select rolled
      over and no delete in between was of that row. */
  lemma CreateOverwritesIff(w: World, t: nat, draws: seq<nat>, events: seq<Event>)
    requires Numerals(w.table.Keys) && Exclusive(w)
    requires Enabled(w, Select(t, draws)) && PhaseOf(w, t).job.Create?
    requires Run(Next(w, Select(t, draws)), events) && forall e :: e in events ==> !Moves(e, t)
    ensures var u := After(Next(w, Select(t, draws)), events);
            && PhaseOf(u, t).Chosen?
            && (PhaseOf(u, t).id in u.table <==> RollsOver(w.table.Keys) && Delete(PhaseOf(u, t).id) !in events)
  {
    StepExclusive(w, Select(t, draws));
    OthersDelete(Next(w, Select(t, draws)), t, events);
    TakenIff(w.table.Keys);
  }

  // ---- The locked sequence is the method ----

  /** Lock, select, insert, unlock with nothing in between is what `AddToDatabase` does to the table. */
  lemma LockedSequence(w: World, t: nat, job: Job, draws: seq<nat>)
    requires w.mutex.None? && PhaseOf(w, t).Idle?
    requires job.Create? ==> Countable(w.table.Keys) && |draws| >= 2 * |NextId(w.table.Keys)|
    ensures var w1 := Next(w, Lock(t, job));
            Enabled(w1, Select(t, draws)) &&
            var w2 := Next(w1, Select(t, draws));
            Enabled(w2, Insert(t)) &&
            var w3 := Next(w2, Insert(t));
            Enabled(w3, Unlock(t)) &&
            var w4 := Next(w3, Unlock(t));
            && w4.mutex.None?
            && w4.table == (match job
                            case Create(x) =>
                              var id := NextId(w.table.Keys);
                              w.table[id := Row(x.name, x.image, x.top, x.bottom,
                                                id + "-" + Scramble(draws[..2 * |id|]))]
                            case Edit(id, x) =>
                              w.table[id := Row(x.name, x.image, x.top, x.bottom,
                                                if id in w.table then w.table[id].token else "00001")])
  {
  }
}
