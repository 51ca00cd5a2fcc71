/**
The handler tables a configuration gives rise to, and which table key a request path selects.
*/
module ConfigHandlers {
  import opened Text
  import opened ConfigTree
  import opened ConfigAttributes

  /** A `handler` statement: the url its block sets, the handler's name and its block. */
  datatype Entry = Entry(url: string, name: string, body: seq<Statement>)

  predicate IsHandler(st: Statement)
    requires st.tokens != []
  {
    st.tokens[0] == "handler"
  }

  /** What the traversal needs of a statement: a first token, and for a handler a name, a block and a readable url. */
  predicate StatementDefined(st: Statement)
    decreases st
  {
    && st.tokens != []
    && (IsHandler(st) ==> st.Block? && |st.tokens| >= 2 && PeekDefined(Print(st.body, 0)))
    && (st.Block? ==> HandlersDefined(st.body))
  }

  predicate HandlersDefined(ss: seq<Statement>)
    decreases ss
  {
    ss == [] || (StatementDefined(ss[0]) && HandlersDefined(ss[1..]))
  }

  /** The handler statements, those of a child block before the statement that holds the block. */
  function StatementEntries(st: Statement): seq<Entry>
    requires StatementDefined(st)
    decreases st
  {
    (if st.Block? then Entries(st.body) else []) +
    (if IsHandler(st) then [Entry(PeekedURL(Print(st.body, 0)), st.tokens[1], st.body)] else [])
  }

  function Entries(ss: seq<Statement>): seq<Entry>
    requires HandlersDefined(ss)
    decreases ss
  {
    if ss == [] then [] else StatementEntries(ss[0]) + Entries(ss[1..])
  }

  lemma {:induction false} EntriesAppend(ss: seq<Statement>, st: Statement)
    requires HandlersDefined(ss) && StatementDefined(st)
    ensures HandlersDefined(ss + [st]) && Entries(ss + [st]) == Entries(ss) + StatementEntries(st)
  {
    if ss == [] {
      assert ss + [st] == [st];
    } else {
      EntriesAppend(ss[1..], st);
      assert (ss + [st])[1..] == ss[1..] + [st];
    }
  }

  lemma {:induction false} HandlersDefinedAt(ss: seq<Statement>, i: nat)
    requires HandlersDefined(ss) && i < |ss|
    ensures StatementDefined(ss[i]) && HandlersDefined(ss[..i])
    decreases i
  {
    if i > 0 {
      HandlersDefinedAt(ss[1..], i - 1);
      assert ss[..i][1..] == ss[1..][..i - 1];
    }
  }

  // ---- Filling a table: std::map::insert keeps the value a key already has ----

  function Insert<V>(m: map<string, V>, k: string, v: V): map<string, V> {
    if k in m then m else m[k := v]
  }

  function FillNames(m: map<string, string>, es: seq<Entry>): map<string, string>
    decreases |es|
  {
    if es == [] then m else FillNames(Insert(m, es[0].url, es[0].name), es[1..])
  }

  function FillBodies(m: map<string, seq<Statement>>, es: seq<Entry>): map<string, seq<Statement>>
    decreases |es|
  {
    if es == [] then m else FillBodies(Insert(m, es[0].url, es[0].body), es[1..])
  }

  lemma {:induction false} FillNamesAppend(m: map<string, string>, es: seq<Entry>, fs: seq<Entry>)
    ensures FillNames(m, es + fs) == FillNames(FillNames(m, es), fs)
    decreases |es|
  {
    if es == [] {
      assert es + fs == fs;
    } else {
      assert (es + fs)[1..] == es[1..] + fs;
      FillNamesAppend(Insert(m, es[0].url, es[0].name), es[1..], fs);
    }
  }

  lemma {:induction false} FillBodiesAppend(m: map<string, seq<Statement>>, es: seq<Entry>, fs: seq<Entry>)
    ensures FillBodies(m, es + fs) == FillBodies(FillBodies(m, es), fs)
    decreases |es|
  {
    if es == [] {
      assert es + fs == fs;
    } else {
      assert (es + fs)[1..] == es[1..] + fs;
      FillBodiesAppend(Insert(m, es[0].url, es[0].body), es[1..], fs);
    }
  }

  function ChildEntries(st: Statement): seq<Entry>
    requires StatementDefined(st)
  {
    if st.Block? then Entries(st.body) else []
  }

  /** A statement enters its child block's handlers and then, if it is one, itself. */
  lemma EnterStatement(names: map<string, string>, bodies: map<string, seq<Statement>>, st: Statement)
    requires StatementDefined(st)
    ensures var inner := FillNames(names, ChildEntries(st));
            FillNames(names, StatementEntries(st)) ==
            if IsHandler(st) then Insert(inner, PeekedURL(Print(st.body, 0)), st.tokens[1]) else inner
    ensures var inner := FillBodies(bodies, ChildEntries(st));
            FillBodies(bodies, StatementEntries(st)) ==
            if IsHandler(st) then Insert(inner, PeekedURL(Print(st.body, 0)), st.body) else inner
    ensures st.Simple? ==> FillNames(names, ChildEntries(st)) == names && FillBodies(bodies, ChildEntries(st)) == bodies
  {
    if IsHandler(st) {
      var own := [Entry(PeekedURL(Print(st.body, 0)), st.tokens[1], st.body)];
      FillNamesAppend(names, ChildEntries(st), own);
      FillBodiesAppend(bodies, ChildEntries(st), own);
    } else {
      assert StatementEntries(st) == ChildEntries(st);
    }
  }

  /** `i` is the first entry for `u`. */
  predicate FirstFor(es: seq<Entry>, u: string, i: nat) {
    i < |es| && es[i].url == u && forall j :: 0 <= j < i ==> es[j].url != u
  }

  /** Filling keeps what is there and adds the first entry of every other key, in both tables alike. */
  lemma {:induction false} FillByFirst(
    names: map<string, string>, bodies: map<string, seq<Statement>>, es: seq<Entry>, u: string)
    requires names.Keys == bodies.Keys
    ensures FillNames(names, es).Keys == FillBodies(bodies, es).Keys
    ensures u in names ==> u in FillNames(names, es) && FillNames(names, es)[u] == names[u] &&
                           FillBodies(bodies, es)[u] == bodies[u]
    ensures u !in names ==> (u in FillNames(names, es) <==> exists i: nat :: FirstFor(es, u, i))
    ensures forall i: nat :: u !in names && FirstFor(es, u, i) ==>
              FillNames(names, es)[u] == es[i].name && FillBodies(bodies, es)[u] == es[i].body
    decreases |es|
  {
    if es != [] {
      var k := es[0].url;
      FillByFirst(Insert(names, k, es[0].name), Insert(bodies, k, es[0].body), es[1..], u);
      if u == k {
        assert FirstFor(es, u, 0);
      } else {
        forall i: nat ensures FirstFor(es, u, i + 1) <==> FirstFor(es[1..], u, i) {
          if FirstFor(es[1..], u, i) {
            forall j | 0 <= j < i + 1 ensures es[j].url != u {
              assert j > 0 ==> es[j] == es[1..][j - 1];
            }
          }
          if FirstFor(es, u, i + 1) {
            assert forall j :: 0 <= j < i ==> es[1..][j] == es[j + 1];
          }
        }
        if exists i: nat :: FirstFor(es, u, i) {
          var i: nat :| FirstFor(es, u, i);
          assert i > 0 && FirstFor(es[1..], u, i - 1);
        }
        if exists i: nat :: FirstFor(es[1..], u, i) {
          var i: nat :| FirstFor(es[1..], u, i);
          assert FirstFor(es, u, i + 1);
        }
      }
    }
  }

  /** The two tables of a configuration have the same keys, the urls of its handler statements, and give for
      each key the name and the block of one statement: the first with that url, children before parents. */
  lemma TablesAgree(ss: seq<Statement>, u: string)
    requires HandlersDefined(ss)
    ensures var es := Entries(ss);
            && FillNames(map[], es).Keys == FillBodies(map[], es).Keys
            && (u in FillNames(map[], es) <==> exists i: nat :: FirstFor(es, u, i))
            && forall i: nat :: FirstFor(es, u, i) ==>
                 FillNames(map[], es)[u] == es[i].name && FillBodies(map[], es)[u] == es[i].body
  {
    FillByFirst(map[], map[], Entries(ss), u);
  }

  /** Inserting what is there already changes nothing. */
  lemma {:induction false} FillPresent(m: map<string, string>, es: seq<Entry>)
    requires forall i :: 0 <= i < |es| ==> es[i].url in m
    ensures FillNames(m, es) == m
    decreases |es|
  {
    if es != [] {
      assert es[0].url in m;
      forall i | 0 <= i < |es[1..]| ensures es[1..][i].url in m {
        assert es[1..][i] == es[i + 1];
      }
      FillPresent(m, es[1..]);
    }
  }

  lemma {:induction false} FillCovers(m: map<string, string>, es: seq<Entry>)
    ensures m.Keys <= FillNames(m, es).Keys
    ensures forall i :: 0 <= i < |es| ==> es[i].url in FillNames(m, es)
    decreases |es|
  {
    if es != [] {
      FillCovers(Insert(m, es[0].url, es[0].name), es[1..]);
    }
  }

  /** The url map after `sessions` dispatchers have each been built from the same configuration. */
  function Rebuilt(m: map<string, string>, es: seq<Entry>, sessions: nat): map<string, string> {
    if sessions == 0 then m else FillNames(Rebuilt(m, es, sessions - 1), es)
  }

  /** Only the first session changes the url map. */
  lemma {:induction false} RebuildStable(m: map<string, string>, es: seq<Entry>, sessions: nat)
    requires sessions >= 1
    ensures Rebuilt(m, es, sessions) == FillNames(m, es)
  {
    if sessions > 1 {
      RebuildStable(m, es, sessions - 1);
      FillCovers(m, es);
      FillPresent(FillNames(m, es), es);
    } else {
      assert Rebuilt(m, es, 0) == m;
    }
  }

  // ---- Routing ----

  /** The path up to the first slash behind its first character. */
  function FirstSegment(path: string): string {
    if path == "" then "" else [path[0]] + Head(path[1..], {'/'})
  }

  /** No slash but perhaps a leading one. */
  predicate Routable(u: string) {
    u != "" && '/' !in u[1..]
  }

  /** A path selects exactly the key that it is, or that it continues with a slash. */
  lemma SelectsIff(path: string, u: string)
    requires u != ""
    ensures FirstSegment(path) == u <==> Routable(u) && (path == u || u + "/" <= path)
  {
    if Routable(u) && path == u {
      HeadFree(u[1..], {'/'});
      assert [u[0]] + u[1..] == u;
    }
    if Routable(u) && u + "/" <= path {
      var rest := path[|u|..];
      assert path == u + rest && path[1..] == u[1..] + rest;
      HeadOf(u[1..], rest, {'/'});
      assert [u[0]] + u[1..] == u;
    }
    if FirstSegment(path) == u {
      var h := Head(path[1..], {'/'});
      assert u[1..] == h;
      assert path == [path[0]] + path[1..];
      if |h| < |path[1..]| {
        assert path[|u|] == '/';
        assert path[..|u|] == u;
      } else {
        assert path[1..] == h;
      }
    }
  }

  /** The routing law: `u/rest` selects `u`, and what a handler for `u` strips leaves `rest`. */
  lemma RoutingLaw(u: string, rest: string)
    requires Routable(u)
    ensures FirstSegment(u + "/" + rest) == u
    ensures Substr(u + "/" + rest, |u| + 1, |u + "/" + rest|) == rest
  {
    SelectsIff(u + "/" + rest, u);
  }

  /** Which keys any path can select: a key with a later slash is dead. */
  lemma ReachableKeys(u: string)
    ensures (exists path :: FirstSegment(path) == u) <==> u == "" || Routable(u)
  {
    if u == "" {
      assert FirstSegment("") == u;
    } else if Routable(u) {
      SelectsIff(u, u);
    } else {
      forall path ensures FirstSegment(path) != u {
        SelectsIff(path, u);
      }
    }
  }

  /** From configuration to handler: a request for `u/rest` finds, for every routable `u` that is the url of a
      handler statement, the name and block of the first such statement; and that handler reads the same `u`
      from its own block and is left with `rest`. */
  lemma DispatchEndToEnd(ss: seq<Statement>, u: string, rest: string, i: nat)
    requires HandlersDefined(ss) && Routable(u) && '\0' !in u
    requires FirstFor(Entries(ss), u, i)
    ensures var es, path := Entries(ss), u + "/" + rest;
            var key := FirstSegment(path);
            && key in FillNames(map[], es) && FillNames(map[], es)[key] == es[i].name
            && key in FillBodies(map[], es) && FillBodies(map[], es)[key] == es[i].body
            && Contains(Print(es[i].body, 0), "url")
            && Attribute(Print(es[i].body, 0), "url") == u
            && Substr(path, |u| + 1, |path|) == rest
  {
    RoutingLaw(u, rest);
    TablesAgree(ss, u);
    EntryReadable(ss, i);
    RoutingKeyIsHandlerKey(Entries(ss)[i].body);
  }

  lemma {:induction false} StatementEntryReadable(st: Statement, i: nat)
    requires StatementDefined(st) && i < |StatementEntries(st)|
    ensures var e := StatementEntries(st)[i];
            PeekDefined(Print(e.body, 0)) && e.url == PeekedURL(Print(e.body, 0))
    decreases st
  {
    if st.Block? && i < |Entries(st.body)| {
      EntryReadable(st.body, i);
    }
  }

  lemma {:induction false} EntryReadable(ss: seq<Statement>, i: nat)
    requires HandlersDefined(ss) && i < |Entries(ss)|
    ensures var e := Entries(ss)[i];
            PeekDefined(Print(e.body, 0)) && e.url == PeekedURL(Print(e.body, 0))
    decreases ss
  {
    if i < |StatementEntries(ss[0])| {
      StatementEntryReadable(ss[0], i);
    } else {
      EntryReadable(ss[1..], i - |StatementEntries(ss[0])|);
    }
  }
}
