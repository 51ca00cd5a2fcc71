/**
The value of a parsed configuration, the text the printer gives it, and the grammar it derives from.

An `NginxConfig` object holds a list of statements; a statement holds tokens and perhaps a child block.
Here a block is the sequence of its statements, and a statement without a child block is `Simple`.
*/
module ConfigTree {

  datatype Statement =
    | Simple(tokens: seq<string>)
    | Block(tokens: seq<string>, body: seq<Statement>)

  /** What the parser sees of a token: a word, or one of the three punctuation marks. */
  datatype Token = Word(text: string) | Open | Close | Semicolon

  // ---- The grammar: config = stmt+, stmt = Word+ (";" | "{" stmt* "}") ----

  function Words(texts: seq<string>): seq<Token> {
    seq(|texts|, i requires 0 <= i < |texts| => Word(texts[i]))
  }

  /** The tokens a statement derives. */
  function StatementYield(st: Statement): seq<Token>
    decreases st
  {
    match st
    case Simple(tokens) => Words(tokens) + [Semicolon]
    case Block(tokens, body) => Words(tokens) + [Open] + Yield(body) + [Close]
  }

  /** The tokens a sequence of statements derives. */
  function Yield(ss: seq<Statement>): seq<Token>
    decreases ss
  {
    if ss == [] then [] else StatementYield(ss[0]) + Yield(ss[1..])
  }

  /** Every statement, at every depth, has a word. */
  predicate StatementNamed(st: Statement)
    decreases st
  {
    st.tokens != [] && (st.Block? ==> Named(st.body))
  }

  predicate Named(ss: seq<Statement>)
    decreases ss
  {
    ss == [] || (StatementNamed(ss[0]) && Named(ss[1..]))
  }

  /** The derivations of the grammar: a configuration has at least one statement. */
  predicate IsConfig(ss: seq<Statement>) {
    ss != [] && Named(ss)
  }

  // ---- Token shapes ----

  predicate Blank(c: char) {
    c == ' ' || c == '\t' || c == '\n' || c == '\r'
  }

  /** The characters that end a plain word; a carriage return does not. */
  predicate EndsWord(c: char) {
    c == ' ' || c == '\t' || c == '\n' || c == ';' || c == '{' || c == '}'
  }

  predicate StartsWord(c: char) {
    !Blank(c) && c != '{' && c != '}' && c != '#' && c != '"' && c != '\'' && c != ';'
  }

  predicate Plain(t: string) {
    |t| > 0 && StartsWord(t[0]) && forall i :: 1 <= i < |t| ==> !EndsWord(t[i])
  }

  predicate QuotedBy(q: char, t: string) {
    |t| >= 2 && t[0] == q && t[|t| - 1] == q && forall i :: 1 <= i < |t| - 1 ==> t[i] != q
  }

  predicate Quoted(t: string) {
    QuotedBy('"', t) || QuotedBy('\'', t)
  }

  predicate Shape(t: string) {
    Plain(t) || Quoted(t)
  }

  /** Every token of every statement, at every depth, is a plain or quoted word. */
  predicate StatementShaped(st: Statement)
    decreases st
  {
    (forall t :: t in st.tokens ==> Shape(t)) && (st.Block? ==> Shaped(st.body))
  }

  predicate Shaped(ss: seq<Statement>)
    decreases ss
  {
    ss == [] || (StatementShaped(ss[0]) && Shaped(ss[1..]))
  }

  // ---- The printer ----

  function Indent(depth: nat): string {
    if depth == 0 then "" else Indent(depth - 1) + "    "
  }

  /** The tokens with one space between neighbours. */
  function Joined(tokens: seq<string>): string {
    if tokens == [] then ""
    else if |tokens| == 1 then tokens[0]
    else Joined(tokens[..|tokens| - 1]) + " " + tokens[|tokens| - 1]
  }

  function PrintStatement(st: Statement, depth: nat): string
    decreases st
  {
    Indent(depth) + Joined(st.tokens) +
    (match st
     case Simple(_) => ";"
     case Block(_, body) => " {\n" + Print(body, depth + 1) + Indent(depth) + "}") +
    "\n"
  }

  function Print(ss: seq<Statement>, depth: nat): string
    decreases ss
  {
    if ss == [] then "" else PrintStatement(ss[0], depth) + Print(ss[1..], depth)
  }

  // ---- Concatenation ----

  lemma Regroup<T>(a: seq<T>, b: seq<T>, c: seq<T>)
    ensures a + (b + c) == a + b + c
  {
  }

  lemma {:induction false} YieldAppend(ss: seq<Statement>, st: Statement)
    ensures Yield(ss + [st]) == Yield(ss) + StatementYield(st)
  {
    if ss == [] {
      assert ss + [st] == [st];
    } else {
      assert (ss + [st])[1..] == ss[1..] + [st];
      YieldAppend(ss[1..], st);
      Regroup(StatementYield(ss[0]), Yield(ss[1..]), StatementYield(st));
    }
  }

  lemma {:induction false} NamedAppend(ss: seq<Statement>, st: Statement)
    ensures Named(ss + [st]) <==> Named(ss) && StatementNamed(st)
  {
    if ss == [] {
      assert ss + [st] == [st];
    } else {
      NamedAppend(ss[1..], st);
      assert (ss + [st])[1..] == ss[1..] + [st];
    }
  }

  lemma {:induction false} PrintAppend(ss: seq<Statement>, st: Statement, depth: nat)
    ensures Print(ss + [st], depth) == Print(ss, depth) + PrintStatement(st, depth)
  {
    if ss == [] {
      assert ss + [st] == [st];
    } else {
      assert (ss + [st])[1..] == ss[1..] + [st];
      PrintAppend(ss[1..], st, depth);
      Regroup(PrintStatement(ss[0], depth), Print(ss[1..], depth), PrintStatement(st, depth));
    }
  }

  lemma WordsAppend(texts: seq<string>, t: string)
    ensures Words(texts + [t]) == Words(texts) + [Word(t)]
  {
  }

  // ---- The layout ----

  lemma {:induction false} IndentIs(depth: nat)
    ensures |Indent(depth)| == 4 * depth && forall c :: c in Indent(depth) ==> c == ' '
  {
    if depth > 0 {
      IndentIs(depth - 1);
    }
  }

  lemma JoinedTwo(a: string, b: string)
    ensures Joined([a, b]) == a + " " + b
  {
    assert [a, b][..1] == [a];
  }

  /** The lines of nested blocks: four blanks for each level, one blank between words and before an opening bracket,
      a semicolon or a bracket at the end of a line. */
  lemma PrintedLayout(a: string, b: string, c: string, d: string, e: string)
    ensures Print([Block([a], [Simple([b, c]), Block([d], [Simple([e])])])], 0) ==
            a + " {\n" +
            ("    " + b + " " + c + ";\n" + ("    " + d + " {\n" + ("        " + e + ";\n") + "    }\n")) +
            "}\n"
  {
    var inner, two := Simple([e]), Simple([b, c]);
    var block := Block([d], [inner]);
    assert Indent(0) == "" && Indent(1) == "    " && Indent(2) == "        ";
    JoinedTwo(b, c);
    OnePrinted(inner, 2);
    OnePrinted(block, 1);
    OnePrinted(Block([a], [two, block]), 0);
    TwoPrinted(two, block, 1);
    SimpleLine("        ", e);
    SimpleLine("    ", b + " " + c);
    assert "    " + (b + " " + c) == "    " + b + " " + c;
    BlockLines("    ", d, "        " + e + ";\n");
    BlockLines("", a, PrintStatement(two, 1) + PrintStatement(block, 1));
    assert "" + a == a && "" + "}\n" == "}\n";
  }

  lemma SimpleLine(i: string, text: string)
    ensures i + text + ";" + "\n" == i + text + ";\n"
  {
    assert ";" + "\n" == ";\n";
  }

  lemma BlockLines(i: string, text: string, inner: string)
    ensures i + text + (" {\n" + inner + i + "}") + "\n" == i + text + " {\n" + inner + (i + "}\n")
  {
    assert "}" + "\n" == "}\n";
  }

  lemma TwoPrinted(x: Statement, y: Statement, depth: nat)
    ensures Print([x, y], depth) == PrintStatement(x, depth) + PrintStatement(y, depth)
  {
    assert [x, y][1..] == [y];
    OnePrinted(y, depth);
  }

  lemma OnePrinted(st: Statement, depth: nat)
    ensures Print([st], depth) == PrintStatement(st, depth)
  {
    assert [st][1..] == [];
    assert PrintStatement(st, depth) + "" == PrintStatement(st, depth);
  }
}
