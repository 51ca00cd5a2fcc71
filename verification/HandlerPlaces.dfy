/**
Which statements of a configuration are entered in the handler tables, in the words of the configuration file:
the blocks that begin with the word `handler`, at any depth, and of several with one url the one that is closed
first.
*/
module HandlerPlaces {
  import opened ConfigTree
  import opened ConfigAttributes
  import opened ConfigHandlers

  /** The statements that are closed before the gap, outermost block first. */
  function Earlier(place: Place): seq<Statement> {
    match place
    case Here(before, _) => before
    case Inside(before, _, inner, _) => before + Earlier(inner)
  }

  lemma {:induction false} EntriesConcat(a: seq<Statement>, b: seq<Statement>)
    ensures HandlersDefined(a + b) <==> HandlersDefined(a) && HandlersDefined(b)
    ensures HandlersDefined(a + b) ==> Entries(a + b) == Entries(a) + Entries(b)
  {
    if a == [] {
      assert a + b == b;
    } else {
      assert (a + b)[1..] == a[1..] + b;
      EntriesConcat(a[1..], b);
    }
  }

  lemma EntriesOne(st: Statement)
    ensures HandlersDefined([st]) <==> StatementDefined(st)
    ensures StatementDefined(st) ==> Entries([st]) == StatementEntries(st)
  {
    assert [st][1..] == [];
  }

  lemma EntriesBetween(before: seq<Statement>, st: Statement, after: seq<Statement>)
    requires HandlersDefined(before + [st] + after)
    ensures HandlersDefined(before) && StatementDefined(st) && HandlersDefined(after)
    ensures Entries(before + [st] + after) == Entries(before) + StatementEntries(st) + Entries(after)
  {
    EntriesConcat(before + [st], after);
    EntriesConcat(before, [st]);
    EntriesOne(st);
  }

  /** What is entered: first what is closed before the statement, then its block's handlers and itself. */
  lemma {:induction false} EntriesSplit(place: Place, st: Statement) returns (later: seq<Entry>)
    requires HandlersDefined(Filled(place, st))
    ensures StatementDefined(st) && HandlersDefined(Earlier(place))
    ensures Entries(Filled(place, st)) == Entries(Earlier(place)) + (StatementEntries(st) + later)
    decreases place
  {
    hide Entries, StatementEntries, HandlersDefined;
    match place
    case Here(before, after) =>
      EntriesBetween(before, st, after);
      later := Entries(after);
    case Inside(before, words, inner, after) =>
      var block := Block(words, Filled(inner, st));
      EntriesBetween(before, block, after);
      var l := EntriesSplit(inner, st);
      var own := EntriesOfBlock(block);
      EntriesConcat(before, Earlier(inner));
      later := l + own + Entries(after);
      Regrouped(Entries(before), Entries(Earlier(inner)), StatementEntries(st), l, own, Entries(after));
  }

  lemma EntriesOfBlock(block: Statement) returns (own: seq<Entry>)
    requires StatementDefined(block) && block.Block?
    ensures StatementEntries(block) == Entries(block.body) + own
  {
    own := if IsHandler(block) then [Entry(PeekedURL(Print(block.body, 0)), block.tokens[1], block.body)] else [];
  }

  lemma Regrouped<T>(a: seq<T>, b: seq<T>, c: seq<T>, d: seq<T>, e: seq<T>, f: seq<T>)
    ensures a + (b + (c + d) + e) + f == a + b + (c + (d + e + f))
  {
  }

  lemma OwnEntry(name: string, more: seq<string>, body: seq<Statement>)
    requires StatementDefined(Block(["handler", name] + more, body))
    ensures HandlersDefined(body) && PeekDefined(Print(body, 0))
    ensures StatementEntries(Block(["handler", name] + more, body)) ==
            Entries(body) + [Entry(PeekedURL(Print(body, 0)), name, body)]
  {
  }

  /** Every block that begins with `handler` and a name, at any depth, is entered in both tables under the url that
      is peeked in it. */
  lemma HandlerEntered(names: map<string, string>, bodies: map<string, seq<Statement>>, place: Place,
                       name: string, more: seq<string>, body: seq<Statement>)
    requires HandlersDefined(Filled(place, Block(["handler", name] + more, body)))
    requires names.Keys == bodies.Keys
    ensures var es := Entries(Filled(place, Block(["handler", name] + more, body)));
            && PeekDefined(Print(body, 0))
            && PeekedURL(Print(body, 0)) in FillNames(names, es)
            && PeekedURL(Print(body, 0)) in FillBodies(bodies, es)
  {
    var st := Block(["handler", name] + more, body);
    var later := EntriesSplit(place, st);
    OwnEntry(name, more, body);
    var es := Entries(Filled(place, st));
    var i := |Entries(Earlier(place))| + |Entries(body)|;
    assert es[i].url == PeekedURL(Print(body, 0));
    FillCovers(names, es);
    FillByFirst(names, bodies, es, PeekedURL(Print(body, 0)));
  }

  /** Where an entry comes from. */
  lemma {:induction false} EntryPlace(ss: seq<Statement>, i: nat) returns (place: Place, more: seq<string>)
    requires HandlersDefined(ss) && i < |Entries(ss)|
    ensures var e := Entries(ss)[i];
            && ss == Filled(place, Block(["handler", e.name] + more, e.body))
            && PeekDefined(Print(e.body, 0))
            && e.url == PeekedURL(Print(e.body, 0))
    decreases ss
  {
    var first, rest := ss[0], ss[1..];
    var e := Entries(ss)[i];
    assert ss == [] + [first] + rest;
    if i >= |StatementEntries(first)| {
      var p, m := EntryPlace(rest, i - |StatementEntries(first)|);
      more := m;
      place := match p
               case Here(before, after) => Here([first] + before, after)
               case Inside(before, words, inner, after) => Inside([first] + before, words, inner, after);
      var st := Block(["handler", e.name] + more, e.body);
      PlaceShifted(first, p, st);
      assert ss == [first] + rest;
    } else if first.Block? && i < |Entries(first.body)| {
      var p, m := EntryPlace(first.body, i);
      place, more := Inside([], first.tokens, p, rest), m;
      assert first == Block(first.tokens, first.body);
    } else {
      place, more := Here([], rest), first.tokens[2..];
      assert first.tokens == ["handler", e.name] + more;
    }
  }

  lemma PlaceShifted(first: Statement, p: Place, st: Statement)
    ensures var place := match p
                         case Here(before, after) => Here([first] + before, after)
                         case Inside(before, words, inner, after) => Inside([first] + before, words, inner, after);
            Filled(place, st) == [first] + Filled(p, st)
  {
    match p
    case Here(before, after) =>
      assert [first] + before + [st] + after == [first] + (before + [st] + after);
    case Inside(before, words, inner, after) =>
      var block := Block(words, Filled(inner, st));
      assert [first] + before + [block] + after == [first] + (before + [block] + after);
  }

  /** And only such blocks are: every new key is the url of a block that begins with `handler`, at some place of the
      configuration, and the tables hold that block and the name in it. */
  lemma KeyHasHandler(names: map<string, string>, bodies: map<string, seq<Statement>>, ss: seq<Statement>, u: string)
    returns (place: Place, name: string, more: seq<string>, body: seq<Statement>)
    requires HandlersDefined(ss) && names.Keys == bodies.Keys
    requires u in FillNames(names, Entries(ss)) && u !in names
    ensures ss == Filled(place, Block(["handler", name] + more, body))
    ensures PeekDefined(Print(body, 0)) && PeekedURL(Print(body, 0)) == u
    ensures FillNames(names, Entries(ss))[u] == name
    ensures u in FillBodies(bodies, Entries(ss)) && FillBodies(bodies, Entries(ss))[u] == body
  {
    var es := Entries(ss);
    FillByFirst(names, bodies, es, u);
    var i: nat :| FirstFor(es, u, i);
    place, more := EntryPlace(ss, i);
    name, body := es[i].name, es[i].body;
  }

  /** No block in `ss` that begins with `handler` has the url `u`. */
  ghost predicate NoHandlerFor(ss: seq<Statement>, u: string) {
    forall place, name, more, body ::
      ss == Filled(place, Block(["handler", name] + more, body)) && PeekDefined(Print(body, 0)) ==>
        PeekedURL(Print(body, 0)) != u
  }

  lemma NoEntryFor(ss: seq<Statement>, u: string)
    requires HandlersDefined(ss) && NoHandlerFor(ss, u)
    ensures forall i :: 0 <= i < |Entries(ss)| ==> Entries(ss)[i].url != u
  {
    forall i: nat | i < |Entries(ss)| ensures Entries(ss)[i].url != u {
      var place, more := EntryPlace(ss, i);
    }
  }

  /** Of several handlers with one url the tables hold the one that is closed first: a handler's own block and what
      is closed before it come before it. */
  lemma FirstClosedWins(names: map<string, string>, bodies: map<string, seq<Statement>>, place: Place,
                        name: string, more: seq<string>, body: seq<Statement>)
    requires HandlersDefined(Filled(place, Block(["handler", name] + more, body)))
    requires names.Keys == bodies.Keys
    requires PeekDefined(Print(body, 0)) && PeekedURL(Print(body, 0)) !in names
    requires NoHandlerFor(Earlier(place), PeekedURL(Print(body, 0)))
    requires NoHandlerFor(body, PeekedURL(Print(body, 0)))
    ensures var es, u := Entries(Filled(place, Block(["handler", name] + more, body))), PeekedURL(Print(body, 0));
            && u in FillNames(names, es) && FillNames(names, es)[u] == name
            && u in FillBodies(bodies, es) && FillBodies(bodies, es)[u] == body
  {
    var i := EntryOfFirst(place, name, more, body);
    FillByFirst(names, bodies, Entries(Filled(place, Block(["handler", name] + more, body))),
                PeekedURL(Print(body, 0)));
  }

  lemma EntryOfFirst(place: Place, name: string, more: seq<string>, body: seq<Statement>) returns (i: nat)
    requires HandlersDefined(Filled(place, Block(["handler", name] + more, body)))
    requires PeekDefined(Print(body, 0))
    requires NoHandlerFor(Earlier(place), PeekedURL(Print(body, 0)))
    requires NoHandlerFor(body, PeekedURL(Print(body, 0)))
    ensures var es, u := Entries(Filled(place, Block(["handler", name] + more, body))), PeekedURL(Print(body, 0));
            FirstFor(es, u, i) && es[i] == Entry(u, name, body)
  {
    var st, u := Block(["handler", name] + more, body), PeekedURL(Print(body, 0));
    var later := EntriesSplit(place, st);
    OwnEntry(name, more, body);
    NoEntryFor(Earlier(place), u);
    NoEntryFor(body, u);
    i := |Entries(Earlier(place))| + |Entries(body)|;
    hide Filled, StatementDefined, HandlersDefined, NoHandlerFor, PeekedURL, PeekDefined, Print;
    var before, inner, own := Entries(Earlier(place)), Entries(body), Entry(u, name, body);
    FirstAfter(before, inner, own, later, u);
    assert StatementEntries(st) == inner + [own];
  }

  lemma FirstAfter(before: seq<Entry>, inner: seq<Entry>, own: Entry, later: seq<Entry>, u: string)
    requires own.url == u
    requires forall i :: 0 <= i < |before| ==> before[i].url != u
    requires forall i :: 0 <= i < |inner| ==> inner[i].url != u
    ensures var es, i := before + (inner + [own] + later), |before| + |inner|;
            FirstFor(es, u, i) && es[i] == own
  {
  }
}
