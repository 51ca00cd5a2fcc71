/**
Printing and parsing undo each other: `NginxConfig::ToString` against `NginxConfigParser::Parse`.
*/
module ConfigRoundTrip {
  import opened Text
  import opened ConfigTree
  import opened ConfigLexer
  import opened ConfigMachine

  function Prepend(tokens: seq<Token>, s: Stream): Stream {
    Stream(tokens + s.tokens, s.ended)
  }

  lemma PrependTwice(a: seq<Token>, b: seq<Token>, s: Stream)
    ensures Prepend(a, Prepend(b, s)) == Prepend(a + b, s)
  {
    assert a + (b + s.tokens) == a + b + s.tokens;
  }

  lemma StreamBlanks(w: string, s: string)
    requires Blanks(w)
    ensures TokenStream(w + s) == TokenStream(s)
  {
    SkipBlanks(w, s);
  }

  /** One punctuation mark. */
  lemma StreamMark(c: char, rest: string)
    requires c == ';' || c == '{' || c == '}'
    ensures TokenStream([c] + rest) ==
            Prepend([if c == ';' then Semicolon else if c == '{' then Open else Close], TokenStream(rest))
  {
    assert ([c] + rest)[1..] == rest;
  }

  lemma StreamWord(t: string, rest: string)
    requires Shape(t) && Delimited(t, rest)
    ensures TokenStream(t + rest) == Prepend([Word(t)], TokenStream(rest))
  {
    LexShape("", t, rest);
    assert "" + t + rest == t + rest;
  }

  lemma WordsSplit(tokens: seq<string>)
    requires tokens != []
    ensures var n := |tokens|; Words(tokens) == Words(tokens[..n - 1]) + [Word(tokens[n - 1])]
  {
  }

  lemma {:induction false} StreamJoined(tokens: seq<string>, rest: string)
    requires tokens != [] && forall t :: t in tokens ==> Shape(t)
    requires rest != "" && EndsWord(rest[0])
    ensures TokenStream(Joined(tokens) + rest) == Prepend(Words(tokens), TokenStream(rest))
    decreases |tokens|
  {
    var n := |tokens|;
    var init, t := tokens[..n - 1], tokens[n - 1];
    assert t in tokens;
    StreamWord(t, rest);
    if n == 1 {
      assert Words(tokens) == [Word(t)];
    } else {
      var tail := " " + (t + rest);
      StreamJoined(init, tail);
      StreamBlanks(" ", t + rest);
      Regroup(Joined(init) + " ", t, rest);
      Regroup(Joined(init), " ", t + rest);
      WordsSplit(tokens);
      PrependTwice(Words(init), [Word(t)], TokenStream(rest));
    }
  }

  lemma {:induction false} IndentBlanks(depth: nat)
    ensures Blanks(Indent(depth))
  {
    if depth > 0 {
      IndentBlanks(depth - 1);
    }
  }

  /** An indented list of words. */
  lemma StreamLine(depth: nat, tokens: seq<string>, rest: string)
    requires tokens != [] && forall t :: t in tokens ==> Shape(t)
    requires rest != "" && EndsWord(rest[0])
    ensures TokenStream(Indent(depth) + (Joined(tokens) + rest)) == Prepend(Words(tokens), TokenStream(rest))
  {
    IndentBlanks(depth);
    StreamBlanks(Indent(depth), Joined(tokens) + rest);
    StreamJoined(tokens, rest);
  }

  /** A mark on its own, with blanks on both sides. */
  lemma StreamMarkBetween(w: string, c: char, v: string, rest: string)
    requires Blanks(w) && Blanks(v)
    requires c == ';' || c == '{' || c == '}'
    ensures TokenStream(w + [c] + v + rest) ==
            Prepend([if c == ';' then Semicolon else if c == '{' then Open else Close], TokenStream(rest))
  {
    hide TokenStream, Blanks;
    assert w + [c] + v + rest == w + ([c] + (v + rest));
    StreamBlanks(w, [c] + (v + rest));
    StreamMark(c, v + rest);
    StreamBlanks(v, rest);
  }

  lemma SimpleSplit(words: seq<string>, depth: nat, rest: string)
    ensures PrintStatement(Simple(words), depth) + rest == Indent(depth) + (Joined(words) + ("" + ";" + "\n" + rest))
  {
  }

  /** The text of a block, in the pieces it is lexed in. */
  lemma BlockText(i: string, j: string, b: string, rest: string)
    ensures i + j + (" {\n" + b + i + "}") + "\n" + rest ==
            i + (j + (" " + "{" + "\n" + (b + (i + "}" + "\n" + rest))))
  {
    assert " {\n" == " " + "{" + "\n";
  }

  lemma BlockSplit(words: seq<string>, body: seq<Statement>, depth: nat, rest: string)
    ensures PrintStatement(Block(words, body), depth) + rest ==
            Indent(depth) + (Joined(words) +
            (" " + "{" + "\n" + (Print(body, depth + 1) + (Indent(depth) + "}" + "\n" + rest))))
  {
    BlockText(Indent(depth), Joined(words), Print(body, depth + 1), rest);
  }

  lemma YieldBlock(words: seq<string>, body: seq<Statement>, s: Stream)
    ensures Prepend(Words(words), Prepend([Open], Prepend(Yield(body), Prepend([Close], s)))) ==
            Prepend(StatementYield(Block(words, body)), s)
  {
    PrependTwice(Yield(body), [Close], s);
    PrependTwice([Open], Yield(body) + [Close], s);
    PrependTwice(Words(words), [Open] + (Yield(body) + [Close]), s);
    assert Words(words) + ([Open] + (Yield(body) + [Close])) == StatementYield(Block(words, body));
  }

  lemma {:induction false} StreamStatement(st: Statement, depth: nat, rest: string)
    requires StatementNamed(st) && StatementShaped(st)
    ensures TokenStream(PrintStatement(st, depth) + rest) == Prepend(StatementYield(st), TokenStream(rest))
    decreases st
  {
    hide TokenStream, Joined, Indent;
    var words := st.tokens;
    match st
    case Simple(_) =>
      SimpleSplit(words, depth, rest);
      StreamMarkBetween("", ';', "\n", rest);
      StreamLine(depth, words, "" + ";" + "\n" + rest);
      PrependTwice(Words(words), [Semicolon], TokenStream(rest));
    case Block(_, body) =>
      var closing := Indent(depth) + "}" + "\n" + rest;
      var inner := Print(body, depth + 1) + closing;
      IndentBlanks(depth);
      StreamMarkBetween(Indent(depth), '}', "\n", rest);
      StreamPrint(body, depth + 1, closing);
      StreamMarkBetween(" ", '{', "\n", inner);
      StreamLine(depth, words, " " + "{" + "\n" + inner);
      BlockSplit(words, body, depth, rest);
      YieldBlock(words, body, TokenStream(rest));
  }

  /** Reading a printed block gives back the tokens it derives. */
  lemma {:induction false} StreamPrint(ss: seq<Statement>, depth: nat, rest: string)
    requires Named(ss) && Shaped(ss)
    ensures TokenStream(Print(ss, depth) + rest) == Prepend(Yield(ss), TokenStream(rest))
    decreases ss
  {
    if ss == [] {
      assert Print(ss, depth) + rest == rest;
    } else {
      var tail := Print(ss[1..], depth) + rest;
      StreamStatement(ss[0], depth, tail);
      StreamPrint(ss[1..], depth, rest);
      assert Print(ss, depth) + rest == PrintStatement(ss[0], depth) + tail;
      PrependTwice(StatementYield(ss[0]), Yield(ss[1..]), TokenStream(rest));
    }
  }

  /** Print, then parse: at any starting indent, every well-shaped configuration is rebuilt exactly. */
  lemma PrintThenParse(ss: seq<Statement>, depth: nat)
    requires IsConfig(ss) && Shaped(ss)
    ensures Parsed(Print(ss, depth)) == Some(ss)
  {
    StreamPrint(ss, depth, "");
    assert Print(ss, depth) + "" == Print(ss, depth);
    assert Yield(ss) + [] == Yield(ss);
    ParseIffDerives(Print(ss, depth), ss);
  }

  // ---- Parse, then print ----

  /** All words among the tokens are plain or quoted. */
  ghost predicate WordsShaped(tokens: seq<Token>) {
    forall t :: Word(t) in tokens ==> Shape(t)
  }

  lemma {:induction false} YieldShapedStatement(st: Statement)
    requires WordsShaped(StatementYield(st))
    ensures StatementShaped(st)
    decreases st
  {
    forall t | t in st.tokens ensures Shape(t) {
      var i :| 0 <= i < |st.tokens| && st.tokens[i] == t;
      assert Words(st.tokens)[i] == Word(t);
      assert StatementYield(st)[i] == Word(t);
    }
    if st.Block? {
      assert forall u :: u in Yield(st.body) ==> u in StatementYield(st);
      YieldShaped(st.body);
    }
  }

  lemma {:induction false} YieldShaped(ss: seq<Statement>)
    requires WordsShaped(Yield(ss))
    ensures Shaped(ss)
    decreases ss
  {
    if ss != [] {
      YieldShapedStatement(ss[0]);
      YieldShaped(ss[1..]);
    }
  }

  /** Whatever Parse builds is a configuration of plain and quoted words. */
  lemma ParsedShaped(text: string)
    requires Parsed(text).Some?
    ensures IsConfig(Parsed(text).value) && Shaped(Parsed(text).value)
  {
    ParseIffDerives(text, Parsed(text).value);
    StreamWordsShaped(text);
    YieldShaped(Parsed(text).value);
  }

  /** The normalising round trip: printing what was parsed, at any indent, parses to the same tree. */
  lemma ParseThenPrint(text: string, depth: nat)
    requires Parsed(text).Some?
    ensures Parsed(Print(Parsed(text).value, depth)) == Parsed(text)
  {
    ParsedShaped(text);
    PrintThenParse(Parsed(text).value, depth);
  }

  /** The image of the parser: some text parses to `ss` exactly when `ss` is a well-shaped configuration. */
  lemma ParsedImage(ss: seq<Statement>)
    ensures (exists text :: Parsed(text) == Some(ss)) <==> IsConfig(ss) && Shaped(ss)
  {
    if exists text :: Parsed(text) == Some(ss) {
      var text :| Parsed(text) == Some(ss);
      ParsedShaped(text);
    }
    if IsConfig(ss) && Shaped(ss) {
      PrintThenParse(ss, 0);
    }
  }

  /** Printed text determines the tree: distinct well-shaped configurations never print alike, at any two indents. */
  lemma PrintInjective(a: seq<Statement>, b: seq<Statement>, d: nat, e: nat)
    requires IsConfig(a) && Shaped(a) && IsConfig(b) && Shaped(b)
    requires Print(a, d) == Print(b, e)
    ensures a == b
  {
    PrintThenParse(a, d);
    PrintThenParse(b, e);
  }
}
