/**
The transition machine of `NginxConfigParser::Parse` on values, and the proof that it recognises
exactly the grammar of `ConfigTree` and builds the derivation.

`stack` holds the statements of every open block, the outermost first. The last statement of each
block but the innermost is the one whose child block is being read.
*/
module ConfigMachine {
  import opened Text
  import opened ConfigTree
  import opened ConfigLexer

  datatype State = State(stack: seq<seq<Statement>>, last: TokenKind, brackets: int)

  function Top(st: State): seq<Statement>
    requires st.stack != []
  {
    st.stack[|st.stack| - 1]
  }

  /** A block whose last statement still lacks its child block. */
  predicate OpenEnded(frame: seq<Statement>) {
    frame != [] && frame[|frame| - 1].Simple? && frame[|frame| - 1].tokens != []
  }

  /** What holds at every iteration of the loop. */
  predicate Consistent(st: State) {
    && |st.stack| == st.brackets + 1
    && st.brackets >= 0
    && (forall k :: 0 <= k < |st.stack| - 1 ==> OpenEnded(st.stack[k]))
    && (st.last == Normal ==> OpenEnded(Top(st)))
    && (st.last == StatementEnd || st.last == EndBlock ==> Top(st) != [])
    && (st.last == StartBlock ==> st.brackets > 0)
    && st.last != Comment && st.last != Eof && st.last != Error
  }

  function Initial(): State {
    State([[]], Start, 0)
  }

  /** `f` with `t` added to the tokens of its last statement. */
  function AddToken(f: seq<Statement>, t: string): seq<Statement>
    requires OpenEnded(f)
  {
    f[..|f| - 1] + [Simple(f[|f| - 1].tokens + [t])]
  }

  /** `f` with `body` as the child block of its last statement. */
  function Attach(f: seq<Statement>, body: seq<Statement>): seq<Statement>
    requires OpenEnded(f)
  {
    f[..|f| - 1] + [Block(f[|f| - 1].tokens, body)]
  }

  /** One token; None is a bad transition or a closing bracket too many. */
  function Step(st: State, t: Token): Option<State>
    requires Consistent(st)
  {
    var n := |st.stack|;
    match t
    case Word(text) =>
      var top := if st.last == Normal then AddToken(Top(st), text) else Top(st) + [Simple([text])];
      Some(State(st.stack[..n - 1] + [top], Normal, st.brackets))
    case Semicolon =>
      if st.last != Normal then None else Some(st.(last := StatementEnd))
    case Open =>
      if st.last != Normal then None
      else Some(State(st.stack + [[]], StartBlock, st.brackets + 1))
    case Close =>
      if st.last != StatementEnd && st.last != EndBlock && st.last != StartBlock then None
      else if st.brackets - 1 < 0 then None
      else Some(State(st.stack[..n - 2] + [Attach(st.stack[n - 2], Top(st))], EndBlock, st.brackets - 1))
  }

  /** The whole run: the configuration that is built, or None when Parse returns false. */
  function Accept(st: State, s: Stream): Option<seq<Statement>>
    requires Consistent(st)
    decreases |s.tokens|
  {
    if s.tokens == [] then
      if s.ended && (st.last == StatementEnd || st.last == EndBlock) && st.brackets == 0
      then Some(st.stack[0]) else None
    else
      StepConsistent(st, s.tokens[0]);
      match Step(st, s.tokens[0])
      case None => None
      case Some(next) => Accept(next, Stream(s.tokens[1..], s.ended))
  }

  /** The state in which the run stops: behind its last token, or before the first bad transition. */
  function Halted(st: State, tokens: seq<Token>): (r: State)
    requires Consistent(st)
    ensures Consistent(r)
    decreases |tokens|
  {
    if tokens == [] then st
    else
      StepConsistent(st, tokens[0]);
      match Step(st, tokens[0])
      case None => st
      case Some(next) => Halted(next, tokens[1..])
  }

  /** The statements in the outermost block when `inner` is what the innermost holds: every open block hangs from
      the last statement of the block around it. */
  function Built(outer: seq<seq<Statement>>, inner: seq<Statement>): seq<Statement>
    requires forall k :: 0 <= k < |outer| ==> OpenEnded(outer[k])
  {
    if outer == [] then inner
    else
      var n := |outer| - 1;
      Built(outer[..n], Attach(outer[n], inner))
  }

  function BuiltBy(st: State): seq<Statement>
    requires Consistent(st)
  {
    Built(st.stack[..|st.stack| - 1], Top(st))
  }

  /** What Parse has built when it returns, whether true or false. */
  function LeftBehind(text: string): seq<Statement> {
    BuiltBy(Halted(Initial(), TokenStream(text).tokens))
  }

  /** What Parse makes of a text: the statements it appends, or None when it returns false. */
  function Parsed(text: string): Option<seq<Statement>> {
    Accept(Initial(), TokenStream(text))
  }

  /** The stack has one block more than there are open brackets, and a word always has a statement to go to. */
  lemma StepConsistent(st: State, t: Token)
    requires Consistent(st)
    ensures Step(st, t).Some? ==> Consistent(Step(st, t).value)
  {
    var n := |st.stack|;
    if Step(st, t).Some? {
      var next := Step(st, t).value;
      match t
      case Word(text) =>
        forall k | 0 <= k < |next.stack| - 1 ensures OpenEnded(next.stack[k]) {
          assert next.stack[k] == st.stack[k];
        }
      case Semicolon =>
      case Open =>
        forall k | 0 <= k < |next.stack| - 1 ensures OpenEnded(next.stack[k]) {
          assert next.stack[k] == st.stack[k];
        }
      case Close =>
        forall k | 0 <= k < |next.stack| - 1 ensures OpenEnded(next.stack[k]) {
          assert next.stack[k] == st.stack[k];
        }
    }
  }

  /** The run and the lexer in step: what the next token read from the text does to the run. */
  lemma AcceptNext(st: State, s: string)
    requires Consistent(st)
    ensures var l := Lex(s);
            && (l.kind == Eof ==>
                  Accept(st, TokenStream(s)) ==
                  if (st.last == StatementEnd || st.last == EndBlock) && st.brackets == 0
                  then Some(st.stack[0]) else None)
            && (l.kind == Error ==> Accept(st, TokenStream(s)).None?)
            && (l.kind == Eof || l.kind == Error ==> Halted(st, TokenStream(s).tokens) == st)
            && (l.kind == Comment ==> TokenStream(s) == TokenStream(l.rest))
            && (l.kind != Eof && l.kind != Error ==> |l.rest| < |s|)
            && (l.kind != Eof && l.kind != Error && l.kind != Comment ==>
                  l.kind != Start &&
                  match Step(st, TokenOf(l.kind, l.value))
                  case None => Accept(st, TokenStream(s)).None? && Halted(st, TokenStream(s).tokens) == st
                  case Some(next) =>
                    && Consistent(next)
                    && Accept(st, TokenStream(s)) == Accept(next, TokenStream(l.rest))
                    && Halted(st, TokenStream(s).tokens) == Halted(next, TokenStream(l.rest).tokens))
  {
    LexProgress(s);
    var l := Lex(s);
    if l.kind != Eof && l.kind != Error && l.kind != Comment {
      StepConsistent(st, TokenOf(l.kind, l.value));
      var tail := TokenStream(l.rest);
      assert TokenStream(s).tokens[1..] == tail.tokens;
    }
  }

  // ---- Soundness: what has been read is what the stack derives so far ----

  /** What a block derives up to its last statement's words, which `tail` follows. */
  function OpenYield(frame: seq<Statement>): seq<Token>
    requires OpenEnded(frame)
  {
    Yield(frame[..|frame| - 1]) + Words(frame[|frame| - 1].tokens)
  }

  /** What the enclosing blocks derive before the innermost one begins. */
  function Enclosing(frames: seq<seq<Statement>>): seq<Token>
    requires forall k :: 0 <= k < |frames| ==> OpenEnded(frames[k])
  {
    if frames == [] then []
    else Enclosing(frames[..|frames| - 1]) + OpenYield(frames[|frames| - 1]) + [Open]
  }

  function Consumed(st: State): seq<Token>
    requires Consistent(st)
  {
    Enclosing(st.stack[..|st.stack| - 1]) + (if st.last == Normal then OpenYield(Top(st)) else Yield(Top(st)))
  }

  /** All complete statements on the stack derive something: every one has a word. */
  predicate AllNamed(st: State) {
    forall k :: 0 <= k < |st.stack| ==> Named(st.stack[k])
  }

  lemma OpenYieldOf(f: seq<Statement>, texts: seq<string>)
    requires texts != []
    ensures OpenYield(f + [Simple(texts)]) == Yield(f) + Words(texts)
  {
    assert (f + [Simple(texts)])[..|f|] == f;
  }

  lemma YieldSplit(f: seq<Statement>)
    requires f != []
    ensures Yield(f) == Yield(f[..|f| - 1]) + StatementYield(f[|f| - 1])
    ensures Named(f) <==> Named(f[..|f| - 1]) && StatementNamed(f[|f| - 1])
  {
    assert f == f[..|f| - 1] + [f[|f| - 1]];
    YieldAppend(f[..|f| - 1], f[|f| - 1]);
    NamedAppend(f[..|f| - 1], f[|f| - 1]);
  }

  /** The machine with `top` as its innermost block. */
  function WithTop(st: State, top: seq<Statement>): State
    requires st.stack != []
  {
    State(st.stack[..|st.stack| - 1] + [top], Normal, st.brackets)
  }

  lemma WithTopNamed(st: State, top: seq<Statement>)
    requires st.stack != [] && AllNamed(st) && Named(top)
    ensures AllNamed(WithTop(st, top))
  {
    hide Named;
    var n, next := |st.stack| - 1, WithTop(st, top);
    forall k | 0 <= k < |next.stack| ensures Named(next.stack[k]) {
      assert next.stack[k] == if k < n then st.stack[k] else top;
    }
  }

  /** A block ending in a statement whose words have just been read. */
  lemma WithTopConsumes(st: State, init: seq<Statement>, words: seq<string>)
    requires Consistent(st) && AllNamed(st)
    requires Named(init) && words != []
    ensures var next := WithTop(st, init + [Simple(words)]);
            Consistent(next) ==>
              && AllNamed(next)
              && Consumed(next) == Enclosing(st.stack[..|st.stack| - 1]) + (Yield(init) + Words(words))
  {
    var next := WithTop(st, init + [Simple(words)]);
    NamedAppend(init, Simple(words));
    OpenYieldOf(init, words);
    assert StatementNamed(Simple(words));
    hide AllNamed, Yield, Named, StatementNamed, Enclosing, OpenYield, Words;
    WithTopNamed(st, init + [Simple(words)]);
    assert next.stack[..|next.stack| - 1] == st.stack[..|st.stack| - 1];
  }

  /** A further word of a statement that is growing. */
  lemma LaterWordConsumes(st: State, text: string)
    requires Consistent(st) && AllNamed(st) && st.last == Normal
    ensures var next := WithTop(st, AddToken(Top(st), text));
            Consistent(next) ==> AllNamed(next) && Consumed(next) == Consumed(st) + [Word(text)]
  {
    var top := Top(st);
    var init, words := top[..|top| - 1], top[|top| - 1].tokens;
    var before := Enclosing(st.stack[..|st.stack| - 1]);
    YieldSplit(top);
    WithTopConsumes(st, init, words + [text]);
    WordsAppend(words, text);
    hide Enclosing, Yield, Named, Words, Consistent, AllNamed;
    RegroupWords(before, Yield(init), Words(words), [Word(text)]);
  }

  /** The first word of a statement. */
  lemma FirstWordConsumes(st: State, text: string)
    requires Consistent(st) && AllNamed(st) && st.last != Normal
    ensures var next := WithTop(st, Top(st) + [Simple([text])]);
            Consistent(next) ==> AllNamed(next) && Consumed(next) == Consumed(st) + [Word(text)]
  {
    var before := Enclosing(st.stack[..|st.stack| - 1]);
    WithTopConsumes(st, Top(st), [text]);
    assert Words([text]) == [Word(text)];
    hide Enclosing, Yield, Named, Words, Consistent, AllNamed;
    Regroup(before, Yield(Top(st)), [Word(text)]);
  }

  lemma RegroupWords(e: seq<Token>, y: seq<Token>, w: seq<Token>, t: seq<Token>)
    ensures e + (y + (w + t)) == e + (y + w) + t
  {
  }

  lemma WordConsumes(st: State, text: string)
    requires Consistent(st) && AllNamed(st)
    ensures var next := Step(st, Word(text)).value;
            Consistent(next) && AllNamed(next) && Consumed(next) == Consumed(st) + [Word(text)]
  {
    StepConsistent(st, Word(text));
    hide Consistent, AllNamed, Consumed;
    if st.last == Normal {
      LaterWordConsumes(st, text);
    } else {
      FirstWordConsumes(st, text);
    }
  }

  lemma OpenConsumes(st: State)
    requires Consistent(st) && AllNamed(st) && st.last == Normal
    ensures var next := Step(st, Open).value;
            Consistent(next) && AllNamed(next) && Consumed(next) == Consumed(st) + [Open]
  {
    StepConsistent(st, Open);
    var n, next := |st.stack|, Step(st, Open).value;
    assert next.stack[..n] == st.stack;
    assert Consumed(next) == Enclosing(st.stack) + [];
  }

  lemma CloseConsumes(st: State)
    requires Consistent(st) && AllNamed(st) && Step(st, Close).Some?
    ensures var next := Step(st, Close).value;
            Consistent(next) && AllNamed(next) && Consumed(next) == Consumed(st) + [Close]
  {
    StepConsistent(st, Close);
    var n, top, next := |st.stack|, Top(st), Step(st, Close).value;
    var below, outer := st.stack[n - 2], st.stack[..n - 2];
    var init, words := below[..|below| - 1], below[|below| - 1].tokens;
    assert next.stack[..n - 2] == outer;
    assert st.stack[..n - 1][..n - 2] == outer;
    YieldSplit(below);
    YieldAppend(init, Block(words, top));
    NamedAppend(init, Block(words, top));
    hide Yield, Named, Enclosing, Words;
    assert Consumed(st) == (Enclosing(outer) + (Yield(init) + Words(words)) + [Open]) + Yield(top);
    RegroupBlock(Enclosing(outer), Yield(init), Words(words), Yield(top));
  }

  lemma RegroupBlock(e: seq<Token>, y: seq<Token>, w: seq<Token>, b: seq<Token>)
    ensures e + (y + (w + [Open] + b + [Close])) == ((e + (y + w) + [Open]) + b) + [Close]
  {
  }

  lemma StepConsumes(st: State, t: Token)
    requires Consistent(st) && AllNamed(st)
    requires Step(st, t).Some?
    ensures Consistent(Step(st, t).value) && AllNamed(Step(st, t).value)
    ensures Consumed(Step(st, t).value) == Consumed(st) + [t]
  {
    match t
    case Word(text) => WordConsumes(st, text);
    case Open => OpenConsumes(st);
    case Close => CloseConsumes(st);
    case Semicolon =>
      StepConsistent(st, Semicolon);
      var top, before := Top(st), Enclosing(st.stack[..|st.stack| - 1]);
      YieldSplit(top);
      assert before + (OpenYield(top) + [Semicolon]) == before + OpenYield(top) + [Semicolon];
      assert Yield(top) == OpenYield(top) + [Semicolon];
  }

  lemma HeadFirst(a: seq<Token>, tokens: seq<Token>)
    requires tokens != []
    ensures a + [tokens[0]] + tokens[1..] == a + tokens
  {
  }

  lemma ConsumedAtEnd(st: State)
    requires Consistent(st) && AllNamed(st)
    requires (st.last == StatementEnd || st.last == EndBlock) && st.brackets == 0
    ensures IsConfig(st.stack[0]) && Yield(st.stack[0]) == Consumed(st) + []
  {
    assert st.stack[..0] == [];
  }

  lemma {:induction false} AcceptSound(st: State, s: Stream)
    requires Consistent(st) && AllNamed(st)
    requires Accept(st, s).Some?
    ensures s.ended && IsConfig(Accept(st, s).value) && Yield(Accept(st, s).value) == Consumed(st) + s.tokens
    decreases |s.tokens|
  {
    if s.tokens == [] {
      ConsumedAtEnd(st);
    } else {
      hide Step, Consumed, Consistent, AllNamed, IsConfig, Yield;
      var t, rest := s.tokens[0], s.tokens[1..];
      StepConsumes(st, t);
      AcceptSound(Step(st, t).value, Stream(rest, s.ended));
      HeadFirst(Consumed(st), s.tokens);
    }
  }

  // ---- Completeness: a derivation is accepted and rebuilt ----

  /** Between statements of a block. */
  predicate AtStatement(st: State) {
    Consistent(st) && st.last != Normal
  }

  function Pushed(st: State, ss: seq<Statement>, last: TokenKind): State
    requires st.stack != []
  {
    State(st.stack[..|st.stack| - 1] + [Top(st) + ss], last, st.brackets)
  }

  /** How a statement leaves the machine: behind a semicolon or behind a closing bracket. */
  function Behind(st: Statement): TokenKind {
    if st.Simple? then StatementEnd else EndBlock
  }

  function BehindAll(ss: seq<Statement>, last: TokenKind): TokenKind {
    if ss == [] then last else Behind(ss[|ss| - 1])
  }

  lemma PushedConsistent(st: State, ss: seq<Statement>, last: TokenKind)
    requires AtStatement(st)
    requires last == Normal ==> ss != [] && OpenEnded(ss)
    requires last == StatementEnd || last == EndBlock ==> Top(st) + ss != []
    requires last == StartBlock ==> st.brackets > 0
    requires last != Comment && last != Eof && last != Error
    ensures Consistent(Pushed(st, ss, last))
  {
    var next := Pushed(st, ss, last);
    forall k | 0 <= k < |next.stack| - 1 ensures OpenEnded(next.stack[k]) {
      assert next.stack[k] == st.stack[k];
    }
  }

  /** The words of a statement, fed one by one. */
  lemma {:induction false} AcceptWords(st: State, words: seq<string>, rest: seq<Token>, ended: bool)
    requires AtStatement(st) && words != []
    ensures Consistent(Pushed(st, [Simple(words)], Normal))
    ensures Accept(st, Stream(Words(words) + rest, ended)) ==
            Accept(Pushed(st, [Simple(words)], Normal), Stream(rest, ended))
    decreases |words|
  {
    var n := |words|;
    var init, w := words[..n - 1], words[n - 1];
    var next := Pushed(st, [Simple(words)], Normal);
    PushedConsistent(st, [Simple(words)], Normal);
    assert words == init + [w];
    WordsAppend(init, w);
    var tail := [Word(w)] + rest;
    assert Words(words) + rest == Words(init) + tail;
    assert tail[1..] == rest;
    if init == [] {
      assert Words(init) + tail == tail;
      assert Step(st, Word(w)) == Some(next);
    } else {
      AcceptWords(st, init, tail, ended);
      var mid := Pushed(st, [Simple(init)], Normal);
      assert mid.stack[..|mid.stack| - 1] == st.stack[..|st.stack| - 1];
      assert AddToken(Top(mid), w) == Top(st) + [Simple(words)];
      assert Step(mid, Word(w)) == Some(next);
    }
  }

  /** The machine inside the child block of a statement with these words. */
  function Entered(st: State, words: seq<string>): State
    requires AtStatement(st) && words != []
  {
    var named := Pushed(st, [Simple(words)], Normal);
    State(named.stack + [[]], StartBlock, named.brackets + 1)
  }

  lemma AcceptOpen(st: State, words: seq<string>, rest: seq<Token>, ended: bool)
    requires AtStatement(st) && words != []
    ensures AtStatement(Entered(st, words))
    ensures Accept(st, Stream(Words(words) + ([Open] + rest), ended)) ==
            Accept(Entered(st, words), Stream(rest, ended))
  {
    AcceptWords(st, words, [Open] + rest, ended);
    var named := Pushed(st, [Simple(words)], Normal);
    StepConsistent(named, Open);
    assert ([Open] + rest)[1..] == rest;
    assert Step(named, Open) == Some(Entered(st, words));
  }

  lemma AcceptClose(st: State, words: seq<string>, body: seq<Statement>, rest: seq<Token>, ended: bool)
    requires AtStatement(st) && words != []
    ensures var read := Pushed(Entered(st, words), body, BehindAll(body, StartBlock));
            var done := Pushed(st, [Block(words, body)], EndBlock);
            && Consistent(done)
            && (Consistent(read) ==>
                  Accept(read, Stream([Close] + rest, ended)) == Accept(done, Stream(rest, ended)))
  {
    var read := Pushed(Entered(st, words), body, BehindAll(body, StartBlock));
    var done := Pushed(st, [Block(words, body)], EndBlock);
    PushedConsistent(st, [Block(words, body)], EndBlock);
    if Consistent(read) {
      var named := Pushed(st, [Simple(words)], Normal);
      var n := |st.stack|;
      assert Entered(st, words).stack[..n] == named.stack;
      assert [] + body == body;
      assert read.stack == named.stack + [body];
      assert read.stack[..n - 1] == st.stack[..n - 1];
      assert read.stack[n - 1] == Top(st) + [Simple(words)];
      assert Attach(read.stack[n - 1], body) == Top(st) + [Block(words, body)];
      assert Step(read, Close) == Some(done);
      assert ([Close] + rest)[1..] == rest;
    }
  }

  lemma YieldHead(ss: seq<Statement>, rest: seq<Token>)
    requires ss != []
    ensures Yield(ss) + rest == StatementYield(ss[0]) + (Yield(ss[1..]) + rest)
  {
  }

  lemma PushedLast(st: State, ss: seq<Statement>, last: TokenKind)
    requires st.stack != [] && last != Normal
    requires Consistent(Pushed(st, ss, last))
    ensures AtStatement(Pushed(st, ss, last)) && Pushed(st, ss, last).last == last
  {
  }

  /** Pushing statements one after the other is pushing them together. */
  lemma PushedTwice(st: State, ss: seq<Statement>)
    requires st.stack != [] && ss != []
    ensures var mid := Pushed(st, [ss[0]], Behind(ss[0]));
            mid.stack != [] &&
            Pushed(mid, ss[1..], BehindAll(ss[1..], mid.last)) == Pushed(st, ss, BehindAll(ss, st.last))
  {
    var mid := Pushed(st, [ss[0]], Behind(ss[0]));
    assert Top(st) + [ss[0]] + ss[1..] == Top(st) + ss;
    assert mid.stack[..|mid.stack| - 1] == st.stack[..|st.stack| - 1];
  }

  lemma {:induction false} AcceptStatement(st: State, one: Statement, rest: seq<Token>, ended: bool)
    requires AtStatement(st) && StatementNamed(one)
    ensures Consistent(Pushed(st, [one], Behind(one)))
    ensures Accept(st, Stream(StatementYield(one) + rest, ended)) ==
            Accept(Pushed(st, [one], Behind(one)), Stream(rest, ended))
    decreases one, 0
  {
    var words := one.tokens;
    match one
    case Simple(_) =>
      var named := Pushed(st, [Simple(words)], Normal);
      PushedConsistent(st, [one], StatementEnd);
      assert StatementYield(one) + rest == Words(words) + ([Semicolon] + rest);
      AcceptWords(st, words, [Semicolon] + rest, ended);
      assert ([Semicolon] + rest)[1..] == rest;
      assert Step(named, Semicolon) == Some(Pushed(st, [one], StatementEnd));
    case Block(_, body) =>
      var tail := Yield(body) + ([Close] + rest);
      assert StatementYield(one) + rest == Words(words) + ([Open] + tail);
      AcceptOpen(st, words, tail, ended);
      AcceptAll(Entered(st, words), body, [Close] + rest, ended);
      AcceptClose(st, words, body, rest, ended);
  }

  lemma {:induction false} AcceptAll(st: State, ss: seq<Statement>, rest: seq<Token>, ended: bool)
    requires AtStatement(st) && Named(ss)
    ensures Consistent(Pushed(st, ss, BehindAll(ss, st.last)))
    ensures Accept(st, Stream(Yield(ss) + rest, ended)) ==
            Accept(Pushed(st, ss, BehindAll(ss, st.last)), Stream(rest, ended))
    decreases ss, 1
  {
    if ss == [] {
      assert Top(st) + ss == Top(st);
      assert Pushed(st, ss, st.last) == st;
      assert Yield(ss) + rest == rest;
    } else {
      hide Accept, Consistent, Pushed, StatementYield, Behind;
      var mid := Pushed(st, [ss[0]], Behind(ss[0]));
      YieldHead(ss, rest);
      AcceptStatement(st, ss[0], Yield(ss[1..]) + rest, ended);
      PushedLast(st, [ss[0]], Behind(ss[0]));
      AcceptAll(mid, ss[1..], rest, ended);
      PushedTwice(st, ss);
    }
  }

  lemma NothingConsumed()
    ensures Consistent(Initial()) && AllNamed(Initial()) && Consumed(Initial()) == []
  {
    assert Initial().stack[..0] == [];
  }

  lemma AcceptYield(ss: seq<Statement>)
    requires IsConfig(ss)
    ensures Accept(Initial(), Stream(Yield(ss), true)) == Some(ss)
  {
    AcceptAll(Initial(), ss, [], true);
    assert Yield(ss) + [] == Yield(ss);
    var final := Pushed(Initial(), ss, BehindAll(ss, Start));
    assert [] + ss == ss;
    assert final.stack[0] == ss;
  }

  /** The flat machine is the grammar: Parse succeeds with `ss` exactly when the token stream of the text,
      read to its end, derives `ss`. */
  lemma ParseIffDerives(text: string, ss: seq<Statement>)
    ensures Parsed(text) == Some(ss) <==> IsConfig(ss) && TokenStream(text) == Stream(Yield(ss), true)
  {
    var s := TokenStream(text);
    NothingConsumed();
    if Parsed(text) == Some(ss) {
      AcceptSound(Initial(), s);
      assert [] + s.tokens == s.tokens;
    }
    if IsConfig(ss) && s == Stream(Yield(ss), true) {
      AcceptYield(ss);
    }
  }

  /** Hence the grammar is unambiguous. */
  lemma YieldInjective(a: seq<Statement>, b: seq<Statement>)
    requires Named(a) && Named(b) && Yield(a) == Yield(b)
    ensures a == b
  {
    AcceptAll(Initial(), a, [], true);
    AcceptAll(Initial(), b, [], true);
    assert Yield(a) + [] == Yield(a) && Yield(b) + [] == Yield(b);
    assert [] + a == a && [] + b == b;
  }

  // ---- The parser stops at the first token that no configuration continues ----

  /** The state behind a run of tokens, None behind a bad transition. */
  function Advance(st: State, tokens: seq<Token>): (r: Option<State>)
    requires Consistent(st)
    ensures r.Some? ==> Consistent(r.value)
    decreases |tokens|
  {
    if tokens == [] then Some(st)
    else
      StepConsistent(st, tokens[0]);
      match Step(st, tokens[0])
      case None => None
      case Some(next) => Advance(next, tokens[1..])
  }

  lemma {:induction false} AdvanceThenAccept(st: State, tokens: seq<Token>, rest: seq<Token>, ended: bool)
    requires Consistent(st)
    ensures Accept(st, Stream(tokens + rest, ended)) ==
            match Advance(st, tokens)
            case None => None
            case Some(next) => Accept(next, Stream(rest, ended))
    decreases |tokens|
  {
    if tokens == [] {
      assert tokens + rest == rest;
    } else {
      StepConsistent(st, tokens[0]);
      assert (tokens + rest)[0] == tokens[0] && (tokens + rest)[1..] == tokens[1..] + rest;
      if Step(st, tokens[0]).Some? {
        AdvanceThenAccept(Step(st, tokens[0]).value, tokens[1..], rest, ended);
      }
    }
  }

  lemma AdvanceHead(st: State, t: Token, rest: seq<Token>)
    requires Consistent(st) && Step(st, t).Some?
    ensures Consistent(Step(st, t).value) && Advance(st, [t] + rest) == Advance(Step(st, t).value, rest)
  {
    StepConsistent(st, t);
    assert ([t] + rest)[1..] == rest;
  }

  /** At every point of a run the stack is as deep as the brackets read so far are open, and what has been read
      is what the stack derives. */
  lemma {:induction false} AdvanceInvariant(st: State, tokens: seq<Token>)
    requires Consistent(st) && AllNamed(st) && Advance(st, tokens).Some?
    ensures var next := Advance(st, tokens).value;
            && AllNamed(next)
            && Consumed(next) == Consumed(st) + tokens
            && |next.stack| == |st.stack| + multiset(tokens)[Open] - multiset(tokens)[Close]
    decreases |tokens|
  {
    if tokens != [] {
      assert Step(st, tokens[0]).Some?;
      hide Step, Consumed, AllNamed, Consistent, Advance;
      var t, rest := tokens[0], tokens[1..];
      assert tokens == [t] + rest;
      StepConsumes(st, t);
      StepDepth(st, t);
      AdvanceHead(st, t, rest);
      AdvanceInvariant(Step(st, t).value, rest);
      HeadFirst(Consumed(st), tokens);
    } else {
      assert Consumed(st) + tokens == Consumed(st);
    }
  }

  lemma StepDepth(st: State, t: Token)
    requires Consistent(st) && Step(st, t).Some?
    ensures |Step(st, t).value.stack| == |st.stack| + (if t == Open then 1 else if t == Close then -1 else 0)
  {
  }

  function Closes(n: nat): seq<Token> {
    if n == 0 then [] else [Close] + Closes(n - 1)
  }

  lemma AcceptHead(st: State, t: Token, rest: seq<Token>, ended: bool)
    requires Consistent(st) && Step(st, t).Some?
    ensures Consistent(Step(st, t).value)
    ensures Accept(st, Stream([t] + rest, ended)) == Accept(Step(st, t).value, Stream(rest, ended))
  {
    StepConsistent(st, t);
    assert ([t] + rest)[1..] == rest;
  }

  /** A closing bracket does what hanging the innermost block from its parent does. */
  lemma CloseBuilt(st: State)
    requires Consistent(st) && Step(st, Close).Some?
    ensures Consistent(Step(st, Close).value) && BuiltBy(Step(st, Close).value) == BuiltBy(st)
  {
    StepConsistent(st, Close);
    var n, next := st.brackets, Step(st, Close).value;
    assert next.stack[..n - 1] == st.stack[..n][..n - 1];
  }

  /** Closing every open bracket gives what has been built. */
  lemma {:induction false} CloseAll(st: State)
    requires Consistent(st)
    requires st.last == StatementEnd || st.last == EndBlock || st.last == StartBlock
    ensures Accept(st, Stream(Closes(st.brackets), true)) == Some(BuiltBy(st))
    decreases st.brackets
  {
    if st.brackets > 0 {
      hide Accept, Consistent, BuiltBy;
      AcceptHead(st, Close, Closes(st.brackets - 1), true);
      CloseBuilt(st);
      CloseAll(Step(st, Close).value);
    }
  }

  /** How to end a configuration from here. */
  function Completion(st: State): seq<Token>
    requires Consistent(st)
  {
    var ending := if st.last == Normal then [Semicolon] else [Word("x"), Semicolon];
    ending + Closes(st.brackets)
  }

  lemma Completes(st: State)
    requires Consistent(st)
    ensures Accept(st, Stream(Completion(st), true)).Some?
  {
    if st.last == Normal {
      CompletesWord(st);
    } else {
      var ending := [Semicolon] + Closes(st.brackets);
      assert Completion(st) == [Word("x")] + ending;
      hide Accept, Consistent, BuiltBy;
      AcceptHead(st, Word("x"), ending, true);
      CompletesWord(Step(st, Word("x")).value);
    }
  }

  lemma CompletesWord(st: State)
    requires Consistent(st) && st.last == Normal
    ensures Accept(st, Stream([Semicolon] + Closes(st.brackets), true)) == Some(BuiltBy(st))
  {
    var next := Step(st, Semicolon).value;
    assert BuiltBy(st) == Built(next.stack[..|next.stack| - 1], Top(next));
    hide Accept, Consistent;
    AcceptHead(st, Semicolon, Closes(st.brackets), true);
    CloseAll(next);
  }

  /** The machine survives a run of tokens exactly when some configuration begins with them: it reports a bad
      transition at the first token that no configuration continues, neither earlier nor later. */
  lemma ViablePrefix(tokens: seq<Token>)
    ensures Advance(Initial(), tokens).Some? <==>
            exists ss, rest :: IsConfig(ss) && Yield(ss) == tokens + rest
  {
    if Advance(Initial(), tokens).Some? {
      var st := Advance(Initial(), tokens).value;
      var rest := Completion(st);
      Completes(st);
      AdvanceThenAccept(Initial(), tokens, rest, true);
      var ss := Accept(Initial(), Stream(tokens + rest, true)).value;
      AcceptSound(Initial(), Stream(tokens + rest, true));
      NothingConsumed();
      assert [] + (tokens + rest) == tokens + rest;
      assert IsConfig(ss) && Yield(ss) == tokens + rest;
    }
    if exists ss, rest :: IsConfig(ss) && Yield(ss) == tokens + rest {
      var ss, rest :| IsConfig(ss) && Yield(ss) == tokens + rest;
      AcceptYield(ss);
      AdvanceThenAccept(Initial(), tokens, rest, true);
    }
  }

  /** Small configurations, as the grammar derives them: words and a semicolon; an empty block; nesting; a sequence. */
  lemma BuiltExamples(a: string, b: string)
    ensures Accept(Initial(), Stream([Word(a), Word(b), Semicolon], true)) == Some([Simple([a, b])])
    ensures Accept(Initial(), Stream([Word(a), Open, Close], true)) == Some([Block([a], [])])
    ensures Accept(Initial(), Stream([Word(a), Open, Word(b), Semicolon, Close], true)) ==
            Some([Block([a], [Simple([b])])])
    ensures Accept(Initial(), Stream([Word(a), Semicolon, Word(b), Open, Close], true)) ==
            Some([Simple([a]), Block([b], [])])
  {
    SmallYields(a, b);
    hide Accept, Yield, IsConfig, Initial;
    AcceptYield([Simple([a, b])]);
    AcceptYield([Block([a], [])]);
    AcceptYield([Block([a], [Simple([b])])]);
    AcceptYield([Simple([a]), Block([b], [])]);
  }

  lemma SmallYields(a: string, b: string)
    ensures IsConfig([Simple([a, b])]) && Yield([Simple([a, b])]) == [Word(a), Word(b), Semicolon]
    ensures IsConfig([Block([a], [])]) && Yield([Block([a], [])]) == [Word(a), Open, Close]
    ensures IsConfig([Block([a], [Simple([b])])])
    ensures Yield([Block([a], [Simple([b])])]) == [Word(a), Open, Word(b), Semicolon, Close]
    ensures IsConfig([Simple([a]), Block([b], [])])
    ensures Yield([Simple([a]), Block([b], [])]) == [Word(a), Semicolon, Word(b), Open, Close]
  {
    YieldOne(Simple([a, b]));
    YieldOne(Block([a], []));
    YieldOne(Simple([b]));
    YieldOne(Block([a], [Simple([b])]));
    YieldOne(Block([b], []));
    var two := [Simple([a]), Block([b], [])];
    assert two[1..] == [Block([b], [])];
    assert Words([a]) == [Word(a)] && Words([b]) == [Word(b)] && Words([a, b]) == [Word(a), Word(b)];
  }

  lemma YieldOne(st: Statement)
    ensures Yield([st]) == StatementYield(st) && (Named([st]) <==> StatementNamed(st))
  {
    assert [st][1..] == [];
    assert StatementYield(st) + [] == StatementYield(st);
  }

  // ---- The accepted texts, token by token ----

  /** How many blocks are open. */
  function Depth(tokens: seq<Token>): int {
    if tokens == [] then 0
    else
      var n := |tokens| - 1;
      Depth(tokens[..n]) + match tokens[n] case Open => 1 case Close => -1 case _ => 0
  }

  /** Semicolons and opening brackets stand behind a word, closing brackets behind something else while a block is
      open. */
  predicate WellPlaced(tokens: seq<Token>) {
    forall i :: 0 <= i < |tokens| ==> Placed(tokens[..i], tokens[i])
  }

  predicate Placed(before: seq<Token>, t: Token) {
    match t
    case Word(_) => true
    case Semicolon => before != [] && before[|before| - 1].Word?
    case Open => before != [] && before[|before| - 1].Word?
    case Close => before != [] && !before[|before| - 1].Word? && Depth(before) > 0
  }

  lemma WellPlacedNext(tokens: seq<Token>, t: Token)
    ensures WellPlaced(tokens + [t]) <==> WellPlaced(tokens) && Placed(tokens, t)
    ensures Depth(tokens + [t]) == Depth(tokens) + match t case Open => 1 case Close => -1 case _ => 0
  {
    var more, n := tokens + [t], |tokens|;
    assert more[..n] == tokens && more[n] == t;
    forall i | 0 <= i < n ensures more[..i] == tokens[..i] && more[i] == tokens[i] {
    }
    if WellPlaced(more) {
      assert Placed(more[..n], more[n]);
      forall i | 0 <= i < n ensures Placed(tokens[..i], tokens[i]) {
        assert Placed(more[..i], more[i]);
      }
    }
  }

  lemma {:induction false} AdvanceNext(st: State, tokens: seq<Token>, t: Token)
    requires Consistent(st)
    ensures Advance(st, tokens + [t]) ==
            match Advance(st, tokens) case None => None case Some(mid) => Step(mid, t)
    decreases |tokens|
  {
    if tokens == [] {
      assert tokens + [t] == [t];
      StepConsistent(st, t);
    } else {
      assert (tokens + [t])[0] == tokens[0] && (tokens + [t])[1..] == tokens[1..] + [t];
      StepConsistent(st, tokens[0]);
      if Step(st, tokens[0]).Some? {
        AdvanceNext(Step(st, tokens[0]).value, tokens[1..], t);
      }
    }
  }

  /** The kind of the last token. */
  function KindBehind(tokens: seq<Token>): TokenKind {
    if tokens == [] then Start
    else
      match tokens[|tokens| - 1]
      case Word(_) => Normal
      case Semicolon => StatementEnd
      case Open => StartBlock
      case Close => EndBlock
  }

  /** The run passes exactly while every token is well placed. */
  lemma {:induction false} PassesIff(tokens: seq<Token>)
    ensures Advance(Initial(), tokens).Some? <==> WellPlaced(tokens)
    ensures Advance(Initial(), tokens).Some? ==>
              var st := Advance(Initial(), tokens).value;
              st.last == KindBehind(tokens) && st.brackets == Depth(tokens)
    decreases |tokens|
  {
    if tokens != [] {
      var n := |tokens| - 1;
      var before, t := tokens[..n], tokens[n];
      assert tokens == before + [t];
      PassesIff(before);
      AdvanceNext(Initial(), before, t);
      WellPlacedNext(before, t);
      hide Advance, WellPlaced, Depth;
      if Advance(Initial(), before).Some? {
        StepIff(Advance(Initial(), before).value, before, t);
      }
    }
  }

  lemma StepIff(st: State, before: seq<Token>, t: Token)
    requires Consistent(st) && st.last == KindBehind(before) && st.brackets == Depth(before)
    ensures Step(st, t).Some? <==> Placed(before, t)
    ensures Step(st, t).Some? ==>
              && Step(st, t).value.last == KindBehind(before + [t])
              && Step(st, t).value.brackets == st.brackets + match t case Open => 1 case Close => -1 case _ => 0
  {
    hide Depth;
  }

  /** Parse returns true exactly on the texts that are read to their end, with every token well placed, a semicolon or
      closing bracket as the last one, and no block left open. */
  lemma AcceptedIff(text: string)
    ensures var s := TokenStream(text);
            Parsed(text).Some? <==>
              && s.ended
              && WellPlaced(s.tokens)
              && s.tokens != []
              && (s.tokens[|s.tokens| - 1] == Semicolon || s.tokens[|s.tokens| - 1] == Close)
              && Depth(s.tokens) == 0
  {
    var s := TokenStream(text);
    hide Advance, WellPlaced, Depth, TokenStream, Step;
    PassesIff(s.tokens);
    AdvanceThenAccept(Initial(), s.tokens, [], s.ended);
    assert s.tokens + [] == s.tokens;
  }

  // ---- What is left behind when Parse fails ----

  /** The tokens read before the run stops. */
  function Kept(st: State, tokens: seq<Token>): (r: seq<Token>)
    requires Consistent(st)
    ensures r <= tokens
    decreases |tokens|
  {
    if tokens == [] then []
    else
      StepConsistent(st, tokens[0]);
      match Step(st, tokens[0])
      case None => []
      case Some(next) => [tokens[0]] + Kept(next, tokens[1..])
  }

  /** What it takes to end the open statement and blocks. */
  function Ending(st: State): seq<Token>
    requires Consistent(st)
  {
    (if st.last == Normal then [Semicolon] else []) + Closes(st.brackets)
  }

  /** The run stops behind the longest run of tokens without a bad transition. */
  lemma {:induction false} HaltedBehindKept(st: State, tokens: seq<Token>)
    requires Consistent(st)
    ensures var kept := Kept(st, tokens);
            && Advance(st, kept) == Some(Halted(st, tokens))
            && (|kept| < |tokens| ==> Step(Halted(st, tokens), tokens[|kept|]).None?)
            && (kept != [] ==> Halted(st, tokens).last != Start)
    decreases |tokens|
  {
    if tokens != [] && Step(st, tokens[0]).Some? {
      hide Consistent, Advance;
      StepStarts(st, tokens[0]);
      var next := Step(st, tokens[0]).value;
      HaltedBehindKept(next, tokens[1..]);
      AdvanceHead(st, tokens[0], Kept(next, tokens[1..]));
    }
  }

  lemma StepStarts(st: State, t: Token)
    requires Consistent(st) && Step(st, t).Some?
    ensures Consistent(Step(st, t).value) && Step(st, t).value.last != Start
  {
    StepConsistent(st, t);
  }

  lemma EndingBuilds(st: State)
    requires Consistent(st) && st.last != Start
    ensures Accept(st, Stream(Ending(st), true)) == Some(BuiltBy(st))
  {
    if st.last == Normal {
      CompletesWord(st);
    } else {
      CloseAll(st);
      assert [] + Closes(st.brackets) == Closes(st.brackets);
    }
  }

  /** What a failing parse leaves behind: the one tree that derives the longest viable run of tokens, ended by a
      semicolon if it stops within a statement, and with its open brackets closed. */
  lemma LeftBehindDerives(text: string)
    ensures var tokens := TokenStream(text).tokens;
            var kept := Kept(Initial(), tokens);
            && kept <= tokens
            && Advance(Initial(), kept).Some?
            && (kept < tokens ==> Advance(Initial(), tokens[..|kept| + 1]).None?)
            && Named(LeftBehind(text))
            && Yield(LeftBehind(text)) == kept + Ending(Advance(Initial(), kept).value)
  {
    HaltedDerives(TokenStream(text).tokens);
  }

  lemma HaltedDerives(tokens: seq<Token>)
    ensures var kept, st := Kept(Initial(), tokens), Halted(Initial(), tokens);
            && Advance(Initial(), kept) == Some(st)
            && (kept < tokens ==> Advance(Initial(), tokens[..|kept| + 1]).None?)
            && Named(BuiltBy(st))
            && Yield(BuiltBy(st)) == kept + Ending(st)
  {
    assert Consistent(Initial());
    hide Yield, Kept, Accept, BuiltBy, Ending, Halted, Consistent, Named, Advance, Step;
    HaltedBehindKept(Initial(), tokens);
    KeptDerives(Kept(Initial(), tokens), Halted(Initial(), tokens));
    StopsBehind(Kept(Initial(), tokens), tokens);
  }

  lemma StopsBehind(kept: seq<Token>, tokens: seq<Token>)
    requires kept <= tokens && Advance(Initial(), kept).Some?
    requires |kept| < |tokens| ==> Step(Advance(Initial(), kept).value, tokens[|kept|]).None?
    ensures kept < tokens ==> Advance(Initial(), tokens[..|kept| + 1]).None?
  {
    if kept < tokens {
      AdvanceNext(Initial(), kept, tokens[|kept|]);
      assert tokens[..|kept| + 1] == kept + [tokens[|kept|]];
    }
  }

  lemma NothingBuilt()
    ensures Consistent(Initial()) && Named(BuiltBy(Initial()))
    ensures Yield(BuiltBy(Initial())) == [] + Ending(Initial())
  {
  }

  lemma KeptDerives(kept: seq<Token>, st: State)
    requires Advance(Initial(), kept) == Some(st) && (kept != [] ==> st.last != Start)
    ensures Named(BuiltBy(st)) && Yield(BuiltBy(st)) == kept + Ending(st)
  {
    NothingConsumed();
    if kept == [] {
      NothingBuilt();
    } else {
      hide Accept, Advance, BuiltBy, Consumed, AllNamed, Ending, Yield;
      EndingBuilds(st);
      AdvanceThenAccept(Initial(), kept, Ending(st), true);
      AcceptSound(Initial(), Stream(kept + Ending(st), true));
      assert [] + (kept + Ending(st)) == kept + Ending(st);
    }
  }

  /** After a successful parse it is the derivation. */
  lemma {:induction false} AcceptBuilds(st: State, s: Stream)
    requires Consistent(st) && Accept(st, s).Some?
    ensures BuiltBy(Halted(st, s.tokens)) == Accept(st, s).value
    decreases |s.tokens|
  {
    if s.tokens != [] {
      StepConsistent(st, s.tokens[0]);
      AcceptBuilds(Step(st, s.tokens[0]).value, Stream(s.tokens[1..], s.ended));
    }
  }
}
