/**
The configuration objects, the parser and the printer as they work in place, proved against the
functions of the other Config modules.
*/
module ConfigObjects {
  import opened Text
  import opened ConfigTree
  import opened ConfigLexer
  import opened ConfigMachine
  import opened ConfigAttributes
  import opened ConfigHandlers

  /** A `std::istream` over a string: `good` turns false when a read finds no character. */
  class InputStream {
    const text: string
    var pos: nat
    var good: bool

    ghost predicate Valid()
      reads this
    {
      pos <= |text| && (!good ==> pos == |text|)
    }

    ghost function Rest(): string
      reads this
      requires Valid()
    {
      text[pos..]
    }

    constructor (text: string)
      ensures Valid() && Rest() == text && good
    {
      this.text, pos, good := text, 0, true;
    }

    method Get() returns (c: char)
      requires Valid() && good
      modifies this
      ensures Valid()
      ensures good == (old(Rest()) != "")
      ensures good ==> pos == old(pos) + 1 && old(Rest()) == [c] + Rest()
      ensures !good ==> Rest() == ""
    {
      if pos < |text| {
        c := text[pos];
        pos := pos + 1;
      } else {
        c := '\0';
        good := false;
      }
    }

    method Unget()
      requires Valid() && good && pos > 0
      modifies this
      ensures Valid() && good && pos == old(pos) - 1
      ensures Rest() == [text[pos]] + old(Rest())
    {
      pos := pos - 1;
    }
  }

  class NginxConfigStatement {
    var tokens: seq<string>
    var childBlock: NginxConfig?

    constructor ()
      ensures tokens == [] && childBlock == null
    {
      tokens, childBlock := [], null;
    }

    /** `ToString`: indentation, tokens, then a semicolon or the child block. */
    method ToString(depth: nat, ghost st: Statement, ghost repr: set<object>) returns (text: string)
      requires RepresentsStatement(this, st, repr)
      ensures text == PrintStatement(st, depth)
      decreases st
    {
      hide RepresentsStatement, Represents;
      text := "";
      for i := 0 to depth
        invariant text == Indent(i)
      {
        text := text + "    ";
      }
      for i := 0 to |tokens|
        invariant text == Indent(depth) + Joined(tokens[..i])
      {
        if i != 0 {
          text := text + " ";
        }
        text := text + tokens[i];
        JoinedNext(Indent(depth), tokens, i);
      }
      assert tokens[..|tokens|] == tokens;
      RepresentedStatement(this, st, repr);
      if childBlock != null {
        text := text + " {\n";
        var inner := childBlock.ToString(depth + 1, st.body, repr);
        text := text + inner;
        ghost var before := text;
        for i := 0 to depth
          invariant text == before + Indent(i)
        {
          text := text + "    ";
        }
        text := text + "}";
        BlockInPieces(Indent(depth) + Joined(tokens), inner, Indent(depth));
      } else {
        text := text + ";";
      }
      text := text + "\n";
    }

    /** What one iteration of `ParseString` does: the child block's handlers, then the statement's own. */
    method Enter(depth: nat, tables: HandlerTables, urls: UrlHandlers, ghost st: Statement,
                 ghost bodies: map<string, seq<Statement>>, ghost repr: set<object>)
      requires RepresentsStatement(this, st, repr) && StatementDefined(st)
      requires tables !in repr && urls !in repr
      requires HoldsBodies(tables.configTable, bodies, repr)
      modifies tables, urls
      ensures tables.handlerTable == FillNames(old(tables.handlerTable), StatementEntries(st))
      ensures urls.urlMap == FillNames(old(urls.urlMap), StatementEntries(st))
      ensures HoldsBodies(tables.configTable, FillBodies(bodies, StatementEntries(st)), repr)
      decreases st
    {
      EnterStatement(tables.handlerTable, bodies, st);
      EnterStatement(urls.urlMap, bodies, st);
      RepresentedStatement(this, st, repr);
      hide FillNames, FillBodies, Entries, StatementEntries, Represents, RepresentsStatement, HoldsBodies;
      if childBlock != null {
        childBlock.ParseString(depth + 1, tables, urls, st.body, bodies, repr);
      }
      if tokens[0] == "handler" {
        EnterHandler(tables, urls, st, FillBodies(bodies, ChildEntries(st)), repr);
      }
    }

    /** A handler statement's own entry, under the url its block sets. */
    method EnterHandler(tables: HandlerTables, urls: UrlHandlers, ghost st: Statement,
                        ghost bodies: map<string, seq<Statement>>, ghost repr: set<object>)
      requires RepresentsStatement(this, st, repr) && StatementDefined(st) && IsHandler(st)
      requires tables !in repr && urls !in repr
      requires HoldsBodies(tables.configTable, bodies, repr)
      modifies tables, urls
      ensures var url := PeekedURL(Print(st.body, 0));
              && tables.handlerTable == Insert(old(tables.handlerTable), url, st.tokens[1])
              && urls.urlMap == Insert(old(urls.urlMap), url, st.tokens[1])
              && HoldsBodies(tables.configTable, Insert(bodies, url, st.body), repr)
    {
      RepresentedStatement(this, st, repr);
      hide Represents, RepresentsStatement, HoldsBodies, PeekedURL, PeekDefined, Print;
      var block: NginxConfig := childBlock;
      var text := block.ToString(0, st.body, repr);
      var url := block.PeekURL(text);
      InsertBody(tables.configTable, bodies, url, block, st.body, repr);
      tables.configTable := Insert(tables.configTable, url, block);
      tables.handlerTable := Insert(tables.handlerTable, url, tokens[1]);
      urls.urlMap := Insert(urls.urlMap, url, tokens[1]);
    }
  }

  /** One more token behind those already written. */
  lemma JoinedNext(before: string, tokens: seq<string>, i: nat)
    requires i < |tokens|
    ensures before + Joined(tokens[..i + 1]) ==
            (if i == 0 then before + Joined(tokens[..i]) else before + Joined(tokens[..i]) + " ") + tokens[i]
  {
    assert tokens[..i + 1][..i] == tokens[..i];
  }

  lemma BlockInPieces(head: string, inner: string, indent: string)
    ensures head + " {\n" + inner + indent + "}" == head + (" {\n" + inner + indent + "}")
  {
  }

  lemma RepresentedStatement(s: NginxConfigStatement, st: Statement, repr: set<object>)
    requires RepresentsStatement(s, st, repr)
    ensures s.tokens == st.tokens
    ensures s.childBlock == null <==> st.Simple?
    ensures s.childBlock != null ==>
              s.childBlock in repr && Represents(s.childBlock.statements, st.body, repr)
  {
  }

  class NginxConfig {
    var statements: seq<NginxConfigStatement>

    constructor ()
      ensures statements == []
    {
      statements := [];
    }

    /** `ToString`: the statements one after the other. */
    method ToString(depth: nat, ghost ss: seq<Statement>, ghost repr: set<object>) returns (text: string)
      requires Represents(statements, ss, repr)
      ensures text == Print(ss, depth)
      decreases ss
    {
      text := "";
      for i := 0 to |statements|
        invariant text == Print(ss[..i], depth)
      {
        var one := statements[i].ToString(depth, ss[i], repr);
        text := text + one;
        PrintAppend(ss[..i], ss[i], depth);
        assert ss[..i + 1] == ss[..i] + [ss[i]];
      }
      assert ss[..|ss|] == ss;
    }

    /** `PeekURL`: the text between the first "url" and the next semicolon, without the character between. */
    method PeekURL(s: string) returns (url: string)
      requires PeekDefined(s)
      ensures url == PeekedURL(s)
    {
      var found := Find(s, "url");
      if found.None? {
        return "";
      }
      var i, j := found.value + 3, 0;
      while s[i + j] != ';' && j < |s|
        invariant i == BehindFirst(s, "url") && i + j <= SemicolonFrom(s, i) < |s|
        invariant SemicolonFrom(s, i) == SemicolonFrom(s, i + j)
        decreases |s| - j
      {
        j := j + 1;
      }
      return Substr(s, i + 1, j - 1);
    }

    /** `GetAttribute`: what follows the first `attr` up to the next semicolon, as a C string. */
    method GetAttribute(attr: string, ghost ss: seq<Statement>, ghost repr: set<object>) returns (value: string)
      requires Represents(statements, ss, repr)
      requires Contains(Print(ss, 0), attr)
      ensures value == Attribute(Print(ss, 0), attr)
    {
      var text := ToString(0, ss, repr);
      var start := BehindFirst(text, attr);
      var endingPos := 0;
      while start + endingPos == |text| || text[start + endingPos] != ';'
        invariant start + endingPos <= SemicolonFrom(text, start)
        invariant SemicolonFrom(text, start) == SemicolonFrom(text, start + endingPos)
        decreases |text| - endingPos
      {
        if start + endingPos >= |text| {
          return "";
        }
        endingPos := endingPos + 1;
      }
      return CString(Substr(text, start + 1, endingPos - 1));
    }

    /** `GetRoot`: what follows the first "root" of the first statement, up to and with the next semicolon. */
    method GetRoot(ghost ss: seq<Statement>, ghost repr: set<object>) returns (root: string)
      requires Represents(statements, ss, repr) && statements != []
      ensures root == RootOf(PrintStatement(ss[0], 0))
    {
      hide Find, CString, PrintStatement;
      var text := statements[0].ToString(0, ss[0], repr);
      if !Contains(text, "root") {
        return "";
      }
      var start := BehindFirst(text, "root");
      var endingPos := 0;
      while start + endingPos == |text| || text[start + endingPos] != ';'
        invariant start + endingPos <= SemicolonFrom(text, start)
        invariant SemicolonFrom(text, start) == SemicolonFrom(text, start + endingPos)
        decreases |text| - endingPos
      {
        if start + endingPos >= |text| {
          return "";
        }
        endingPos := endingPos + 1;
      }
      return CString(Substr(text, start + 1, endingPos));
    }

    /** `ParseString`: enters every handler statement into the tables, a child block's before its parent's. */
    method ParseString(depth: nat, tables: HandlerTables, urls: UrlHandlers, ghost ss: seq<Statement>,
                       ghost bodies: map<string, seq<Statement>>, ghost repr: set<object>)
      requires Represents(statements, ss, repr) && HandlersDefined(ss)
      requires tables !in repr && urls !in repr
      requires HoldsBodies(tables.configTable, bodies, repr)
      modifies tables, urls
      ensures tables.handlerTable == FillNames(old(tables.handlerTable), Entries(ss))
      ensures urls.urlMap == FillNames(old(urls.urlMap), Entries(ss))
      ensures HoldsBodies(tables.configTable, FillBodies(bodies, Entries(ss)), repr)
      decreases ss
    {
      ghost var held := bodies;
      for i := 0 to |statements|
        invariant HandlersDefined(ss[..i])
        invariant tables.handlerTable == FillNames(old(tables.handlerTable), Entries(ss[..i]))
        invariant urls.urlMap == FillNames(old(urls.urlMap), Entries(ss[..i]))
        invariant held == FillBodies(bodies, Entries(ss[..i]))
        invariant HoldsBodies(tables.configTable, held, repr)
      {
        ghost var st := ss[i];
        HandlersDefinedAt(ss, i);
        EntriesAppend(ss[..i], st);
        assert ss[..i + 1] == ss[..i] + [st];
        statements[i].Enter(depth, tables, urls, st, held, repr);
        held := FillBodies(held, StatementEntries(st));
        FillNamesAppend(old(tables.handlerTable), Entries(ss[..i]), StatementEntries(st));
        FillNamesAppend(old(urls.urlMap), Entries(ss[..i]), StatementEntries(st));
        FillBodiesAppend(bodies, Entries(ss[..i]), StatementEntries(st));
      }
      assert ss[..|ss|] == ss;
    }
  }

  // ---- The handler tables ----

  /** The two tables of a dispatcher, which `ParseString` fills by reference. */
  class HandlerTables {
    var configTable: map<string, NginxConfig>
    var handlerTable: map<string, string>

    constructor ()
      ensures configTable == map[] && handlerTable == map[]
    {
      configTable, handlerTable := map[], map[];
    }
  }

  /** The url map that all sessions share. */
  class UrlHandlers {
    var urlMap: map<string, string>

    constructor ()
      ensures urlMap == map[]
    {
      urlMap := map[];
    }
  }

  /** The table's blocks hold these values. */
  ghost predicate HoldsBodies(table: map<string, NginxConfig>, bodies: map<string, seq<Statement>>,
                              repr: set<object>)
    reads repr
  {
    && table.Keys == bodies.Keys
    && forall k :: k in table ==> table[k] in repr && Represents(table[k].statements, bodies[k], repr)
  }

  lemma InsertBody(table: map<string, NginxConfig>, bodies: map<string, seq<Statement>>, url: string,
                   block: NginxConfig, body: seq<Statement>, repr: set<object>)
    requires HoldsBodies(table, bodies, repr)
    requires block in repr && Represents(block.statements, body, repr)
    ensures HoldsBodies(Insert(table, url, block), Insert(bodies, url, body), repr)
  {
  }

  // ---- Which values the objects represent ----

  /** The statement object holds the value `st`, all of its objects within `repr`. */
  ghost predicate RepresentsStatement(s: NginxConfigStatement, st: Statement, repr: set<object>)
    reads repr
    decreases st
  {
    && s in repr
    && s.tokens == st.tokens
    && match st
       case Simple(_) => s.childBlock == null
       case Block(_, body) =>
         && s.childBlock != null
         && s.childBlock in repr
         && Represents(s.childBlock.statements, body, repr)
  }

  ghost predicate Represents(objects: seq<NginxConfigStatement>, ss: seq<Statement>, repr: set<object>)
    reads repr
    decreases ss
  {
    |objects| == |ss| && forall i :: 0 <= i < |ss| ==> RepresentsStatement(objects[i], ss[i], repr)
  }

  // ---- The parser ----

  /** `c` holds the complete statements `frame` behind its first `from` ones. */
  ghost predicate Complete(c: NginxConfig, frame: seq<Statement>, from: nat, repr: set<object>)
    reads c, repr
  {
    |c.statements| == from + |frame| && Represents(c.statements[from..], frame, repr)
  }

  /** `c` holds the statements `frame` behind its first `from` ones, and the last of them, `growing`, is not
      finished: it has the words of `frame`'s last statement and the child block `child`. */
  ghost predicate Unfinished(c: NginxConfig, frame: seq<Statement>, from: nat, growing: NginxConfigStatement,
                             child: NginxConfig?, repr: set<object>)
    reads c, growing, repr
  {
    var n := |frame| - 1;
    && OpenEnded(frame)
    && |c.statements| == from + |frame|
    && c.statements[from + n] == growing
    && growing.tokens == frame[n].tokens
    && growing.childBlock == child
    && Represents(c.statements[from..from + n], frame[..n], repr)
  }

  /** How many statements of the block at depth `k` come before those of this parse. */
  function Skipped(skip: nat, k: nat): nat {
    if k == 0 then skip else 0
  }

  /** The blocks around `inner`: each one's unfinished statement has the next block as its child. */
  ghost predicate Enclose(stack: seq<NginxConfig>, frames: seq<seq<Statement>>, parents: seq<NginxConfigStatement>,
                          inner: NginxConfig, skip: nat, repr: set<object>)
    reads stack, parents, repr
    decreases |stack|
  {
    && |stack| == |frames| == |parents|
    && (stack != [] ==>
          var n := |stack| - 1;
          && Unfinished(stack[n], frames[n], Skipped(skip, n), parents[n], inner, repr)
          && Enclose(stack[..n], frames[..n], parents[..n], stack[n], skip, repr))
  }

  /** What the loop knows of the objects: `stack` holds the open blocks of the machine state `st`, `parents` the
      statements they are children of, `growing` the statement whose words are being read, and `repr` the
      objects that are finished. */
  ghost predicate Linked(stack: seq<NginxConfig>, st: State, parents: seq<NginxConfigStatement>,
                         growing: NginxConfigStatement?, skip: nat, repr: set<object>)
    reads stack, parents, if growing == null then {} else {growing}, repr
    ensures Linked(stack, st, parents, growing, skip, repr) ==>
              && Consistent(st)
              && |stack| == |st.stack|
              && |parents| == |stack| - 1
              && (st.last == Normal <==> growing != null)
  {
    && Consistent(st)
    && |stack| == |st.stack|
    && Apart(stack, parents, growing, repr)
    && var n := |stack| - 1;
       && Enclose(stack[..n], st.stack[..n], parents, stack[n], skip, repr)
       && if st.last == Normal
          then growing != null && Unfinished(stack[n], st.stack[n], Skipped(skip, n), growing, null, repr)
          else growing == null && Complete(stack[n], st.stack[n], Skipped(skip, n), repr)
  }

  /** Open blocks and unfinished statements are all different, and none is finished. */
  ghost predicate Apart(stack: seq<NginxConfig>, parents: seq<NginxConfigStatement>,
                        growing: NginxConfigStatement?, repr: set<object>)
  {
    && (forall j, k :: 0 <= j < k < |stack| ==> stack[j] != stack[k])
    && (forall j, k :: 0 <= j < k < |parents| ==> parents[j] != parents[k])
    && (forall k :: 0 <= k < |stack| ==> stack[k] !in repr)
    && (forall k :: 0 <= k < |parents| ==> parents[k] !in repr && parents[k] != growing)
    && growing !in repr
  }

  lemma {:induction false} RepresentsMoreStatement(s: NginxConfigStatement, st: Statement, repr: set<object>,
                                                   more: set<object>)
    requires RepresentsStatement(s, st, repr) && repr <= more
    ensures RepresentsStatement(s, st, more)
    decreases st
  {
    if st.Block? {
      RepresentsMore(s.childBlock.statements, st.body, repr, more);
    }
  }

  lemma {:induction false} RepresentsMore(objects: seq<NginxConfigStatement>, ss: seq<Statement>, repr: set<object>,
                                          more: set<object>)
    requires Represents(objects, ss, repr) && repr <= more
    ensures Represents(objects, ss, more)
    decreases ss
  {
    forall i | 0 <= i < |ss| ensures RepresentsStatement(objects[i], ss[i], more) {
      RepresentsMoreStatement(objects[i], ss[i], repr, more);
    }
  }

  lemma {:induction false} EncloseMore(stack: seq<NginxConfig>, frames: seq<seq<Statement>>,
                                       parents: seq<NginxConfigStatement>, inner: NginxConfig, skip: nat,
                                       repr: set<object>, more: set<object>)
    requires Enclose(stack, frames, parents, inner, skip, repr) && repr <= more
    ensures Enclose(stack, frames, parents, inner, skip, more)
    decreases |stack|
  {
    if stack != [] {
      var n := |stack| - 1;
      var from, m := Skipped(skip, n), |frames[n]| - 1;
      RepresentsMore(stack[n].statements[from..from + m], frames[n][..m], repr, more);
      EncloseMore(stack[..n], frames[..n], parents[..n], stack[n], skip, repr, more);
    }
  }

  /** The unfinished statement of a block becomes the finished `st`. */
  lemma Finish(c: NginxConfig, frame: seq<Statement>, from: nat, growing: NginxConfigStatement,
               child: NginxConfig?, st: Statement, repr: set<object>, more: set<object>)
    requires Unfinished(c, frame, from, growing, child, repr) && repr <= more
    requires RepresentsStatement(growing, st, more)
    ensures Complete(c, frame[..|frame| - 1] + [st], from, more)
  {
    var n := |frame| - 1;
    RepresentsMore(c.statements[from..from + n], frame[..n], repr, more);
    assert c.statements[from..] == c.statements[from..from + n] + [growing];
  }

  /** A semicolon finishes the growing statement. */
  lemma FinishSimple(stack: seq<NginxConfig>, st: State, parents: seq<NginxConfigStatement>,
                     growing: NginxConfigStatement, skip: nat, repr: set<object>)
    requires Linked(stack, st, parents, growing, skip, repr) && st.last == Normal
    ensures Consistent(Step(st, Semicolon).value)
    ensures Linked(stack, Step(st, Semicolon).value, parents, null, skip, repr + {growing})
  {
    StepConsistent(st, Semicolon);
    var n, more := |stack| - 1, repr + {growing};
    var frame := st.stack[n];
    EncloseMore(stack[..n], st.stack[..n], parents, stack[n], skip, repr, more);
    Finish(stack[n], frame, Skipped(skip, n), growing, null, frame[|frame| - 1], repr, more);
    assert frame[..|frame| - 1] + [frame[|frame| - 1]] == frame;
  }

  /** The innermost block, complete, becomes the child block of its parent. */
  lemma FinishChild(outer: NginxConfig, below: seq<Statement>, from: nat, parent: NginxConfigStatement,
                    inner: NginxConfig, body: seq<Statement>, repr: set<object>, more: set<object>)
    requires Unfinished(outer, below, from, parent, inner, repr)
    requires Complete(inner, body, 0, repr)
    requires more == repr + {inner, parent}
    ensures Complete(outer, Attach(below, body), from, more)
  {
    assert inner.statements[0..] == inner.statements;
    RepresentsMore(inner.statements, body, repr, more);
    Finish(outer, below, from, parent, inner, Block(below[|below| - 1].tokens, body), repr, more);
  }

  /** The blocks left open behind a closing bracket, and the one it completes. */
  lemma LeaveBlock(stack: seq<NginxConfig>, frames: seq<seq<Statement>>, parents: seq<NginxConfigStatement>,
                   inner: NginxConfig, body: seq<Statement>, skip: nat, repr: set<object>)
    requires stack != [] && Enclose(stack, frames, parents, inner, skip, repr)
    requires Complete(inner, body, 0, repr)
    ensures var m := |stack| - 1;
            var more := repr + {inner, parents[m]};
            && OpenEnded(frames[m])
            && Enclose(stack[..m], frames[..m], parents[..m], stack[m], skip, more)
            && Complete(stack[m], Attach(frames[m], body), Skipped(skip, m), more)
  {
    var m := |stack| - 1;
    var more := repr + {inner, parents[m]};
    EncloseMore(stack[..m], frames[..m], parents[..m], stack[m], skip, repr, more);
    FinishChild(stack[m], frames[m], Skipped(skip, m), parents[m], inner, body, repr, more);
  }

  lemma CloseStep(st: State)
    requires Consistent(st) && Step(st, Close).Some?
    ensures var n, next := |st.stack| - 1, Step(st, Close).value;
            && n >= 1
            && |next.stack| == n
            && next.stack[..n - 1] == st.stack[..n][..n - 1]
            && next.stack[n - 1] == Attach(st.stack[..n][n - 1], st.stack[n])
            && next.last == EndBlock
            && Consistent(next)
  {
    StepConsistent(st, Close);
  }

  /** A closing bracket finishes the statement whose child block was open. */
  lemma FinishBlock(stack: seq<NginxConfig>, st: State, parents: seq<NginxConfigStatement>, skip: nat,
                    repr: set<object>)
    requires Linked(stack, st, parents, null, skip, repr) && Step(st, Close).Some?
    ensures var n := |stack| - 1;
            && Consistent(Step(st, Close).value)
            && |parents| == n
            && Linked(stack[..n], Step(st, Close).value, parents[..n - 1], null, skip,
                      repr + {stack[n], parents[n - 1]})
  {
    var n := |stack| - 1;
    CloseStep(st);
    LeaveBlock(stack[..n], st.stack[..n], parents, stack[n], st.stack[n], skip, repr);
    ApartInner(stack, parents, repr);
  }

  lemma ApartInner(stack: seq<NginxConfig>, parents: seq<NginxConfigStatement>, repr: set<object>)
    requires |stack| >= 2 && |parents| == |stack| - 1
    requires Apart(stack, parents, null, repr)
    ensures var n := |stack| - 1; Apart(stack[..n], parents[..n - 1], null, repr + {stack[n], parents[n - 1]})
  {
  }

  class NginxConfigParser {
    constructor () {
    }

    /** The five-state machine over characters; the character that ends a plain word is pushed back. */
    method ParseToken(input: InputStream) returns (kind: TokenKind, value: string)
      requires input.Valid()
      modifies input
      ensures input.Valid()
      ensures Lexed(kind, value, input.Rest()) == Lex(old(input.Rest()))
    {
      var state := InitialWhitespace;
      value := "";
      while input.good
        invariant input.Valid()
        invariant LexFrom(state, value, input.Rest()) == Lex(old(input.Rest()))
        decreases |input.text| - input.pos, input.good
      {
        var c := input.Get();
        if !input.good {
          break;
        }
        match state
        case InitialWhitespace =>
          if c == '{' {
            value := [c];
            return StartBlock, value;
          } else if c == '}' {
            value := [c];
            return EndBlock, value;
          } else if c == '#' {
            value := [c];
            state := InComment;
          } else if c == '"' {
            value := [c];
            state := DoubleQuote;
          } else if c == '\'' {
            value := [c];
            state := SingleQuote;
          } else if c == ';' {
            value := [c];
            return StatementEnd, value;
          } else if c != ' ' && c != '\t' && c != '\n' && c != '\r' {
            value := value + [c];
            state := InNormal;
          }
        case SingleQuote =>
          value := value + [c];
          if c == '\'' {
            return Normal, value;
          }
        case DoubleQuote =>
          value := value + [c];
          if c == '"' {
            return Normal, value;
          }
        case InComment =>
          if c == '\n' || c == '\r' {
            return Comment, value;
          }
          value := value + [c];
        case InNormal =>
          if c == ' ' || c == '\t' || c == '\n' || c == ';' || c == '{' || c == '}' {
            input.Unget();
            return Normal, value;
          }
          value := value + [c];
      }
      kind := if state == SingleQuote || state == DoubleQuote then Error else Eof;
    }

    /** The first word of a statement: a new statement in the innermost block. */
    method AddFirstWord(stack: seq<NginxConfig>, token: string, ghost st: State,
                        ghost parents: seq<NginxConfigStatement>, ghost skip: nat, ghost repr: set<object>)
      returns (statement: NginxConfigStatement)
      requires Linked(stack, st, parents, null, skip, repr) && st.last != Normal
      modifies stack[|stack| - 1]
      ensures fresh(statement)
      ensures stack[|stack| - 1].statements == old(stack[|stack| - 1].statements) + [statement]
      ensures Consistent(Step(st, Word(token)).value)
      ensures Linked(stack, Step(st, Word(token)).value, parents, statement, skip, repr)
    {
      StepConsistent(st, Word(token));
      var top := stack[|stack| - 1];
      statement := new NginxConfigStatement();
      top.statements := top.statements + [statement];
      statement.tokens := statement.tokens + [token];
    }

    /** A further word of the statement that is growing, the last one of the innermost block. */
    method AddLaterWord(stack: seq<NginxConfig>, token: string, ghost st: State,
                        ghost parents: seq<NginxConfigStatement>, ghost growing: NginxConfigStatement,
                        ghost skip: nat, ghost repr: set<object>)
      requires Linked(stack, st, parents, growing, skip, repr) && st.last == Normal
      modifies growing
      ensures Consistent(Step(st, Word(token)).value)
      ensures Linked(stack, Step(st, Word(token)).value, parents, growing, skip, repr)
    {
      StepConsistent(st, Word(token));
      hide Represents, RepresentsStatement;
      var top := stack[|stack| - 1];
      var statement := top.statements[|top.statements| - 1];
      statement.tokens := statement.tokens + [token];
    }

    /** An opening bracket: a new block, the child of the statement that was growing. */
    method OpenBlock(stack: seq<NginxConfig>, ghost st: State, ghost parents: seq<NginxConfigStatement>,
                     ghost growing: NginxConfigStatement, ghost skip: nat, ghost repr: set<object>)
      returns (block: NginxConfig)
      requires Linked(stack, st, parents, growing, skip, repr) && st.last == Normal
      modifies growing
      ensures fresh(block)
      ensures Consistent(Step(st, Open).value)
      ensures Linked(stack + [block], Step(st, Open).value, parents + [growing], null, skip, repr)
    {
      StepConsistent(st, Open);
      ghost var n, next := |stack|, Step(st, Open).value;
      assert next.stack == st.stack + [[]] && next.last == StartBlock;
      var top := stack[|stack| - 1];
      var statement := top.statements[|top.statements| - 1];
      hide Represents, RepresentsStatement, Step;
      block := new NginxConfig();
      statement.childBlock := block;
      assert (stack + [block])[..n] == stack && next.stack[..n] == st.stack;
      assert (parents + [growing])[..n - 1] == parents;
    }

    /** One token but end of input, error or comment: whether the transition is allowed, and if so the
        new stack and bracket count. The objects in play are `config` and those in `made`. */
    method Transition(kind: TokenKind, token: string, last: TokenKind, stack: seq<NginxConfig>, bracketCount: int,
                      ghost st: State, ghost parents: seq<NginxConfigStatement>,
                      ghost growing: NginxConfigStatement?, ghost skip: nat, ghost repr: set<object>,
                      config: NginxConfig, ghost made: set<object>)
      returns (ok: bool, stack': seq<NginxConfig>, bracketCount': int,
               ghost parents': seq<NginxConfigStatement>, ghost growing': NginxConfigStatement?,
               ghost repr': set<object>, ghost made': set<object>)
      requires kind == Normal || kind == StatementEnd || kind == StartBlock || kind == EndBlock
      requires InPlay(stack, st, parents, growing, skip, repr, config, made)
      requires last == st.last && bracketCount == st.brackets
      modifies config, made
      ensures ok == Step(st, TokenOf(kind, token)).Some?
      ensures made <= made' && fresh(made' - made) && repr' <= made'
      ensures old(config.statements) <= config.statements
      ensures !ok ==> InPlay(stack', st, parents', growing', skip, repr', config, made')
      ensures ok ==> var next := Step(st, TokenOf(kind, token)).value;
                     && InPlay(stack', next, parents', growing', skip, repr', config, made')
                     && kind == next.last && bracketCount' == next.brackets
    {
      hide Linked;
      stack', bracketCount', parents', growing', repr', made' := stack, bracketCount, parents, growing, repr, made;
      if kind == Normal {
        if last != Normal {
          growing' := AddFirstWord(stack, token, st, parents, skip, repr);
          made' := made + {growing'};
        } else {
          AddLaterWord(stack, token, st, parents, growing, skip, repr);
        }
      } else if kind == StatementEnd {
        if last != Normal {
          return false, stack', bracketCount', parents', growing', repr', made';
        }
        FinishSimple(stack, st, parents, growing, skip, repr);
        repr', growing' := repr + {growing}, null;
      } else if kind == StartBlock {
        bracketCount' := bracketCount + 1;
        if last != Normal {
          return false, stack', bracketCount', parents', growing', repr', made';
        }
        var block := OpenBlock(stack, st, parents, growing, skip, repr);
        stack', parents', growing', made' := stack + [block], parents + [growing], null, made + {block};
      } else {
        bracketCount' := bracketCount - 1;
        if (last != StatementEnd && last != EndBlock && last != StartBlock) || bracketCount' < 0 {
          return false, stack', bracketCount', parents', growing', repr', made';
        }
        FinishBlock(stack, st, parents, skip, repr);
        var n := |stack| - 1;
        stack', parents', repr' := stack[..n], parents[..n - 1], repr + {stack[n], parents[n - 1]};
      }
      ok := true;
    }

    /** `Parse`: true exactly when the text is in the grammar, and then the statements appended to `config` are its
        derivation. When it returns false they are the half-built tree. `repr` is the objects made for them. */
    method Parse(input: InputStream, config: NginxConfig) returns (ok: bool, ghost repr: set<object>)
      requires input.Valid()
      modifies input, config
      ensures ok <==> Parsed(old(input.Rest())).Some?
      ensures old(config.statements) <= config.statements
      ensures fresh(repr)
      ensures Represents(config.statements[|old(config.statements)|..], LeftBehind(old(input.Rest())), repr)
      ensures ok ==> LeftBehind(old(input.Rest())) == Parsed(old(input.Rest())).value
    {
      hide InPlay, Linked, BuiltBy;
      var stack, last, bracketCount := [config], Start, 0;
      ghost var skip: nat, st := |config.statements|, Initial();
      ghost var parents: seq<NginxConfigStatement>, growing: NginxConfigStatement? := [], null;
      ghost var made: set<object> := {};
      repr := {};
      NothingRead(config);
      if Parsed(input.Rest()).Some? {
        AcceptBuilds(Initial(), TokenStream(input.Rest()));
      }
      assert Accept(st, TokenStream(input.Rest())) == Parsed(input.Rest());
      assert BuiltBy(Halted(st, TokenStream(input.Rest()).tokens)) == LeftBehind(input.Rest());
      hide Parsed, LeftBehind, Accept, Halted, Step, Consistent, TokenStream, Lex, Represents;

      while true
        invariant input.Valid()
        invariant InPlay(stack, st, parents, growing, skip, repr, config, made)
        invariant fresh(made) && input !in made
        invariant skip == |old(config.statements)| && old(config.statements) <= config.statements
        invariant last == st.last && bracketCount == st.brackets
        invariant Accept(st, TokenStream(input.Rest())) == Parsed(old(input.Rest()))
        invariant BuiltBy(Halted(st, TokenStream(input.Rest()).tokens)) == LeftBehind(old(input.Rest()))
        decreases |input.Rest()|
      {
        AcceptNext(st, input.Rest());
        var kind, token := ParseToken(input);
        if kind == Error {
          ok := false;
          break;
        }
        if kind == Comment {
          continue;
        }
        if kind == Eof {
          ok := (last == StatementEnd || last == EndBlock) && bracketCount == 0;
          break;
        }
        ghost var next := Step(st, TokenOf(kind, token));
        ok, stack, bracketCount, parents, growing, repr, made :=
          Transition(kind, token, last, stack, bracketCount, st, parents, growing, skip, repr, config, made);
        if !ok {
          break;
        }
        last, st := kind, next.value;
      }
      AllBuilt(stack, st, parents, growing, skip, repr, config, made);
      repr := made;
    }
  }

  /** The open block at the bottom is `config`; every other object in play is one that Parse has made. */
  ghost predicate Made(stack: seq<NginxConfig>, parents: seq<NginxConfigStatement>, growing: NginxConfigStatement?,
                       repr: set<object>, config: NginxConfig, made: set<object>)
  {
    && stack != []
    && stack[0] == config
    && (forall k :: 1 <= k < |stack| ==> stack[k] in made)
    && (forall k :: 0 <= k < |parents| ==> parents[k] in made)
    && (growing != null ==> growing in made)
    && repr <= made
  }

  ghost predicate InPlay(stack: seq<NginxConfig>, st: State, parents: seq<NginxConfigStatement>,
                         growing: NginxConfigStatement?, skip: nat, repr: set<object>,
                         config: NginxConfig, made: set<object>)
    reads config, made
    ensures InPlay(stack, st, parents, growing, skip, repr, config, made) ==> repr <= made && Consistent(st)
  {
    Made(stack, parents, growing, repr, config, made) && Linked(stack, st, parents, growing, skip, repr)
  }

  /** Before the first token. */
  lemma NothingRead(config: NginxConfig)
    ensures InPlay([config], Initial(), [], null, |config.statements|, {}, config, {})
  {
    var stack, st := [config], Initial();
    assert stack[..0] == [] && st.stack[..0] == [];
    assert Enclose(stack[..0], st.stack[..0], [], config, |config.statements|, {});
  }

  /** Every open block hangs from the block around it. */
  lemma {:induction false} Collapse(stack: seq<NginxConfig>, frames: seq<seq<Statement>>,
                                    parents: seq<NginxConfigStatement>, inner: NginxConfig, body: seq<Statement>,
                                    skip: nat, repr: set<object>, config: NginxConfig, made: set<object>)
    requires Enclose(stack, frames, parents, inner, skip, repr)
    requires Complete(inner, body, Skipped(skip, |stack|), repr)
    requires (stack + [inner])[0] == config && repr <= made
    requires forall k :: 0 <= k < |parents| ==> parents[k] in made
    requires forall k :: 1 <= k < |stack| + 1 ==> (stack + [inner])[k] in made
    requires forall k :: 0 <= k < |frames| ==> OpenEnded(frames[k])
    ensures Complete(config, Built(frames, body), skip, made)
    decreases |stack|
  {
    if stack == [] {
      RepresentsMore(config.statements[skip..], body, repr, made);
    } else {
      var m := |stack| - 1;
      LeaveBlock(stack, frames, parents, inner, body, skip, repr);
      assert stack[..m] + [stack[m]] == stack;
      assert (stack + [inner])[m + 1] == inner;
      assert forall k :: 0 <= k < |stack| ==> (stack + [inner])[k] == stack[k];
      Collapse(stack[..m], frames[..m], parents[..m], stack[m], Attach(frames[m], body), skip,
               repr + {inner, parents[m]}, config, made);
    }
  }

  /** Wherever the run stops, the objects hold what has been built. */
  lemma AllBuilt(stack: seq<NginxConfig>, st: State, parents: seq<NginxConfigStatement>,
                 growing: NginxConfigStatement?, skip: nat, repr: set<object>,
                 config: NginxConfig, made: set<object>)
    ensures InPlay(stack, st, parents, growing, skip, repr, config, made) ==>
              skip <= |config.statements| && Represents(config.statements[skip..], BuiltBy(st), made)
  {
    if InPlay(stack, st, parents, growing, skip, repr, config, made) {
      var n, more := |stack| - 1, repr;
      if st.last == Normal {
        FinishSimple(stack, st, parents, growing, skip, repr);
        more := repr + {growing};
      }
      assert stack[..n] + [stack[n]] == stack;
      Collapse(stack[..n], st.stack[..n], parents, stack[n], Top(st), skip, more, config, made);
    }
  }
}
