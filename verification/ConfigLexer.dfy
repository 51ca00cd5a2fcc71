/**
`NginxConfigParser::ParseToken`: a five-state machine over characters with one character of push-back.
*/
module ConfigLexer {
  import opened ConfigTree

  datatype TokenKind = Start | Normal | StartBlock | EndBlock | Comment | StatementEnd | Eof | Error

  datatype LexState = InitialWhitespace | SingleQuote | DoubleQuote | InComment | InNormal

  datatype Lexed = Lexed(kind: TokenKind, value: string, rest: string)

  /** The machine in state `st`, having gathered `value`, on the remaining input `s`. */
  function LexFrom(st: LexState, value: string, s: string): Lexed
    decreases |s|
  {
    if s == "" then
      Lexed(if st == SingleQuote || st == DoubleQuote then Error else Eof, value, "")
    else
      var c, r := s[0], s[1..];
      match st
      case InitialWhitespace =>
        if c == '{' then Lexed(StartBlock, [c], r)
        else if c == '}' then Lexed(EndBlock, [c], r)
        else if c == '#' then LexFrom(InComment, [c], r)
        else if c == '"' then LexFrom(DoubleQuote, [c], r)
        else if c == '\'' then LexFrom(SingleQuote, [c], r)
        else if c == ';' then Lexed(StatementEnd, [c], r)
        else if Blank(c) then LexFrom(InitialWhitespace, value, r)
        else LexFrom(InNormal, value + [c], r)
      case SingleQuote =>
        if c == '\'' then Lexed(Normal, value + [c], r) else LexFrom(SingleQuote, value + [c], r)
      case DoubleQuote =>
        if c == '"' then Lexed(Normal, value + [c], r) else LexFrom(DoubleQuote, value + [c], r)
      case InComment =>
        if c == '\n' || c == '\r' then Lexed(Comment, value, r) else LexFrom(InComment, value + [c], r)
      case InNormal =>
        if EndsWord(c) then Lexed(Normal, value, s) else LexFrom(InNormal, value + [c], r)
  }

  function Lex(s: string): Lexed {
    LexFrom(InitialWhitespace, "", s)
  }

  // ---- Which text each token stands for ----

  predicate Blanks(w: string) {
    forall c :: c in w ==> Blank(c)
  }

  /** After a plain word there is a character that ends it. */
  predicate Delimited(t: string, rest: string) {
    Plain(t) ==> rest != "" && EndsWord(rest[0])
  }

  lemma {:induction false} NormalRun(value: string, t: string, rest: string)
    requires forall c :: c in t ==> !EndsWord(c)
    requires rest != "" && EndsWord(rest[0])
    ensures LexFrom(InNormal, value, t + rest) == Lexed(Normal, value + t, rest)
    decreases |t|
  {
    if t == "" {
      assert t + rest == rest && value + t == value;
    } else {
      NormalRun(value + [t[0]], t[1..], rest);
      assert (t + rest)[1..] == t[1..] + rest;
      assert value + [t[0]] + t[1..] == value + t;
    }
  }

  lemma {:induction false} NormalRunBack(value: string, s: string) returns (t: string)
    requires LexFrom(InNormal, value, s).kind != Eof
    ensures var l := LexFrom(InNormal, value, s);
            l.kind == Normal && l.value == value + t && s == t + l.rest &&
            (forall c :: c in t ==> !EndsWord(c)) && l.rest != "" && EndsWord(l.rest[0])
    decreases |s|
  {
    if EndsWord(s[0]) {
      t := "";
    } else {
      var u := NormalRunBack(value + [s[0]], s[1..]);
      t := [s[0]] + u;
      assert value + [s[0]] + u == value + t;
      assert s == [s[0]] + s[1..];
    }
  }

  function QuoteState(q: char): LexState
    requires q == '"' || q == '\''
  {
    if q == '"' then DoubleQuote else SingleQuote
  }

  lemma {:induction false} QuoteRun(q: char, value: string, t: string, rest: string)
    requires q == '"' || q == '\''
    requires q !in t
    ensures LexFrom(QuoteState(q), value, t + [q] + rest) == Lexed(Normal, value + t + [q], rest)
    decreases |t|
  {
    if t == "" {
      assert t + [q] + rest == [q] + rest && value + t == value;
    } else {
      QuoteRun(q, value + [t[0]], t[1..], rest);
      assert (t + [q] + rest)[1..] == t[1..] + [q] + rest;
      assert value + [t[0]] + t[1..] == value + t;
    }
  }

  lemma {:induction false} QuoteRunBack(q: char, value: string, s: string) returns (t: string)
    requires q == '"' || q == '\''
    requires LexFrom(QuoteState(q), value, s).kind != Error
    ensures var l := LexFrom(QuoteState(q), value, s);
            l.kind == Normal && l.value == value + t + [q] && s == t + [q] + l.rest && q !in t
    decreases |s|
  {
    if s[0] == q {
      t := "";
      assert value + t == value;
      assert s == [q] + s[1..];
    } else {
      var u := QuoteRunBack(q, value + [s[0]], s[1..]);
      t := [s[0]] + u;
      assert value + [s[0]] + u == value + t;
      assert s == [s[0]] + s[1..];
    }
  }

  lemma {:induction false} CommentRun(value: string, s: string)
    ensures var l := LexFrom(InComment, value, s);
            (l.kind == Eof || l.kind == Comment) && |l.rest| <= |s| && (l.kind == Comment ==> |l.rest| < |s|)
    decreases |s|
  {
    if s != "" && s[0] != '\n' && s[0] != '\r' {
      CommentRun(value + [s[0]], s[1..]);
    }
  }

  lemma {:induction false} SkipBlanks(w: string, s: string)
    requires Blanks(w)
    ensures Lex(w + s) == Lex(s)
    decreases |w|
  {
    if w == "" {
      assert w + s == s;
    } else {
      SkipBlanks(w[1..], s);
      assert (w + s)[1..] == w[1..] + s;
      assert w[0] in w;
    }
  }

  /** Reading back a word: blanks, then a well-shaped word that the rest delimits. */
  lemma LexShape(w: string, t: string, rest: string)
    requires Blanks(w) && Shape(t) && Delimited(t, rest)
    ensures Lex(w + t + rest) == Lexed(Normal, t, rest)
  {
    assert w + t + rest == w + (t + rest);
    SkipBlanks(w, t + rest);
    assert (t + rest)[1..] == t[1..] + rest;
    assert [t[0]] + t[1..] == t;
    if Plain(t) {
      assert "" + [t[0]] == [t[0]];
      NormalRun([t[0]], t[1..], rest);
    } else {
      var q, m := t[0], t[1..|t| - 1];
      assert t == [q] + m + [q] && t[1..] == m + [q];
      QuoteRun(q, [q], m, rest);
    }
  }

  /** And conversely: whatever is read as a word is blanks and a well-shaped word that the rest delimits. */
  lemma {:induction false} LexShapeBack(s: string) returns (w: string)
    requires Lex(s).kind == Normal
    ensures Blanks(w) && Shape(Lex(s).value) && Delimited(Lex(s).value, Lex(s).rest)
    ensures s == w + Lex(s).value + Lex(s).rest
    decreases |s|
  {
    var c, r := s[0], s[1..];
    assert s == [c] + r;
    if c == '#' {
      CommentRun([c], r);
      assert false;
    } else if c == '"' || c == '\'' {
      var t := QuoteRunBack(c, [c], r);
      w := "";
      assert QuotedBy(c, Lex(s).value);
    } else if Blank(c) {
      var v := LexShapeBack(r);
      w := [c] + v;
    } else {
      assert "" + [c] == [c];
      var t := NormalRunBack([c], r);
      w := "";
      assert Plain(Lex(s).value);
    }
  }

  /** ParseToken reports a word exactly when the input is blanks, a well-shaped word, and what delimits it. */
  lemma LexNormalIff(s: string, t: string, rest: string)
    ensures Lex(s) == Lexed(Normal, t, rest) <==>
            Shape(t) && Delimited(t, rest) && exists w :: Blanks(w) && s == w + t + rest
  {
    if Lex(s) == Lexed(Normal, t, rest) {
      var w := LexShapeBack(s);
    }
    if Shape(t) && Delimited(t, rest) && exists w :: Blanks(w) && s == w + t + rest {
      var w :| Blanks(w) && s == w + t + rest;
      LexShape(w, t, rest);
    }
  }

  /** The text of a comment: no line end in it. */
  predicate CommentText(t: string) {
    '\n' !in t && '\r' !in t
  }

  lemma {:induction false} CommentEnds(value: string, t: string, c: char, rest: string)
    requires CommentText(t) && (c == '\n' || c == '\r')
    ensures LexFrom(InComment, value, t + [c] + rest) == Lexed(Comment, value + t, rest)
    decreases |t|
  {
    if t == "" {
      assert t + [c] + rest == [c] + rest && value + t == value;
    } else {
      assert t[0] in t;
      CommentEnds(value + [t[0]], t[1..], c, rest);
      assert (t + [c] + rest)[1..] == t[1..] + [c] + rest;
      assert value + [t[0]] + t[1..] == value + t;
    }
  }

  lemma {:induction false} CommentEndsBack(value: string, s: string) returns (t: string, c: char)
    requires LexFrom(InComment, value, s).kind == Comment
    ensures var l := LexFrom(InComment, value, s);
            CommentText(t) && (c == '\n' || c == '\r') && l.value == value + t && s == t + [c] + l.rest
    decreases |s|
  {
    assert s == [s[0]] + s[1..];
    if s[0] == '\n' || s[0] == '\r' {
      t, c := "", s[0];
    } else {
      t, c := CommentEndsBack(value + [s[0]], s[1..]);
      assert value + [s[0]] + t == value + ([s[0]] + t);
      t := [s[0]] + t;
    }
  }

  /** ParseToken skips blanks: the first other character decides what is read. */
  lemma {:induction false} LeadingBlanks(s: string) returns (w: string, t: string)
    ensures s == w + t && Blanks(w) && (t == "" || !Blank(t[0])) && Lex(s) == Lex(t)
    decreases |s|
  {
    if s == "" || !Blank(s[0]) {
      w, t := "", s;
    } else {
      var v, u := LeadingBlanks(s[1..]);
      w, t := [s[0]] + v, u;
      assert s == [s[0]] + s[1..];
    }
  }

  /** What a text without leading blanks is read as, by its first character. */
  lemma FirstDecides(t: string)
    requires t == "" || !Blank(t[0])
    ensures var k := Lex(t).kind;
            && (t == "" ==> k == Eof)
            && (t != "" && t[0] == '{' ==> k == StartBlock)
            && (t != "" && t[0] == '}' ==> k == EndBlock)
            && (t != "" && t[0] == ';' ==> k == StatementEnd)
            && (t != "" && t[0] == '#' ==> k == Comment || k == Eof)
            && (t != "" && (t[0] == '"' || t[0] == '\'') ==> k == Normal || k == Error)
            && (t != "" && StartsWord(t[0]) ==> k == Normal || k == Eof)
  {
    if t != "" {
      var c, r := t[0], t[1..];
      CommentRun([c], r);
      if c == '"' || c == '\'' {
        if LexFrom(QuoteState(c), [c], r).kind != Error {
          var u := QuoteRunBack(c, [c], r);
        }
      } else if StartsWord(c) {
        assert "" + [c] == [c];
        if LexFrom(InNormal, [c], r).kind != Eof {
          var u := NormalRunBack([c], r);
        }
      }
    }
  }

  function Mark(kind: TokenKind): char
    requires kind == StartBlock || kind == EndBlock || kind == StatementEnd
  {
    if kind == StartBlock then '{' else if kind == EndBlock then '}' else ';'
  }

  lemma LexMark(w: string, kind: TokenKind, rest: string)
    requires kind == StartBlock || kind == EndBlock || kind == StatementEnd
    requires Blanks(w)
    ensures Lex(w + [Mark(kind)] + rest) == Lexed(kind, [Mark(kind)], rest)
  {
    var t := [Mark(kind)] + rest;
    assert w + [Mark(kind)] + rest == w + t;
    SkipBlanks(w, t);
    assert t[1..] == rest;
  }

  lemma LexMarkBack(s: string) returns (w: string)
    requires var k := Lex(s).kind; k == StartBlock || k == EndBlock || k == StatementEnd
    ensures Blanks(w) && s == w + [Mark(Lex(s).kind)] + Lex(s).rest
  {
    var t;
    w, t := LeadingBlanks(s);
    FirstDecides(t);
    assert t == [t[0]] + t[1..];
  }

  /** ParseToken reports a punctuation mark exactly when the input is blanks, the mark and the rest. */
  lemma LexMarkIff(s: string, kind: TokenKind, rest: string)
    requires kind == StartBlock || kind == EndBlock || kind == StatementEnd
    ensures Lex(s).kind == kind && Lex(s).rest == rest <==> exists w :: Blanks(w) && s == w + [Mark(kind)] + rest
  {
    hide LexFrom, Lex;
    if exists w :: Blanks(w) && s == w + [Mark(kind)] + rest {
      var w :| Blanks(w) && s == w + [Mark(kind)] + rest;
      LexMark(w, kind, rest);
    }
    if Lex(s).kind == kind && Lex(s).rest == rest {
      var w := LexMarkBack(s);
    }
  }

  predicate LineEnd(c: char) {
    c == '\n' || c == '\r'
  }

  lemma LexComment(w: string, t: string, c: char, rest: string)
    requires Blanks(w) && CommentText(t) && LineEnd(c)
    ensures Lex(w + "#" + t + [c] + rest) == Lexed(Comment, "#" + t, rest)
  {
    var u := t + [c] + rest;
    assert w + "#" + t + [c] + rest == w + ("#" + u);
    SkipBlanks(w, "#" + u);
    assert ("#" + u)[1..] == u;
    CommentEnds("#", t, c, rest);
  }

  lemma LexCommentBack(s: string) returns (w: string, t: string, c: char)
    requires Lex(s).kind == Comment
    ensures Blanks(w) && CommentText(t) && LineEnd(c)
    ensures Lex(s).value == "#" + t && s == w + "#" + t + [c] + Lex(s).rest
  {
    var u;
    w, u := LeadingBlanks(s);
    FirstDecides(u);
    assert u == "#" + u[1..];
    t, c := CommentEndsBack("#", u[1..]);
  }

  /** ParseToken reports a comment exactly when the input is blanks, a hash sign, text without line ends, a line
      end and the rest. */
  lemma LexCommentIff(s: string, t: string, rest: string)
    ensures Lex(s) == Lexed(Comment, "#" + t, rest) <==>
            CommentText(t) && exists w, c :: Blanks(w) && LineEnd(c) && s == w + "#" + t + [c] + rest
  {
    hide LexFrom, Lex;
    if CommentText(t) && exists w, c :: Blanks(w) && LineEnd(c) && s == w + "#" + t + [c] + rest {
      var w, c :| Blanks(w) && LineEnd(c) && s == w + "#" + t + [c] + rest;
      LexComment(w, t, c, rest);
    }
    if Lex(s) == Lexed(Comment, "#" + t, rest) {
      var w, v, c := LexCommentBack(s);
      assert ("#" + t)[1..] == t && ("#" + v)[1..] == v;
    }
  }

  lemma {:induction false} QuoteOpen(q: char, value: string, t: string)
    requires q == '"' || q == '\''
    ensures LexFrom(QuoteState(q), value, t).kind == Error <==> q !in t
    decreases |t|
  {
    if t != "" && t[0] != q {
      QuoteOpen(q, value + [t[0]], t[1..]);
      assert t == [t[0]] + t[1..];
    }
  }

  /** ParseToken reports an error exactly when a quote behind the blanks is never closed. */
  lemma LexErrorIff(s: string)
    ensures Lex(s).kind == Error <==>
            exists w, q, t :: Blanks(w) && (q == '"' || q == '\'') && q !in t && s == w + [q] + t
  {
    if exists w, q, t :: Blanks(w) && (q == '"' || q == '\'') && q !in t && s == w + [q] + t {
      var w, q, t :| Blanks(w) && (q == '"' || q == '\'') && q !in t && s == w + [q] + t;
      assert s == w + ([q] + t);
      SkipBlanks(w, [q] + t);
      assert ([q] + t)[1..] == t;
      QuoteOpen(q, [q], t);
    }
    if Lex(s).kind == Error {
      var w, u := LeadingBlanks(s);
      FirstDecides(u);
      var q, t := u[0], u[1..];
      QuoteOpen(q, [q], t);
      assert s == w + [q] + t;
    }
  }

  /** Every token but end of input leaves strictly less to read, the pushed-back character included. */
  lemma {:induction false} LexProgress(s: string)
    ensures var l := Lex(s);
            |l.rest| <= |s| && l.kind != Start && (l.kind != Eof && l.kind != Error ==> |l.rest| < |s|)
    decreases |s|
  {
    if s != "" {
      var c, r := s[0], s[1..];
      if c == '#' {
        CommentRun([c], r);
      } else if c == '"' || c == '\'' {
        if LexFrom(QuoteState(c), [c], r).kind != Error {
          var t := QuoteRunBack(c, [c], r);
        } else {
          QuoteError(c, [c], r);
        }
      } else if Blank(c) {
        LexProgress(r);
      } else if StartsWord(c) {
        assert "" + [c] == [c];
        if LexFrom(InNormal, [c], r).kind != Eof {
          var t := NormalRunBack([c], r);
        } else {
          NormalEof([c], r);
        }
      }
    }
  }

  lemma {:induction false} QuoteError(q: char, value: string, s: string)
    requires q == '"' || q == '\''
    requires LexFrom(QuoteState(q), value, s).kind == Error
    ensures LexFrom(QuoteState(q), value, s).rest == ""
    decreases |s|
  {
    if s != "" {
      QuoteError(q, value + [s[0]], s[1..]);
    }
  }

  lemma {:induction false} NormalEof(value: string, s: string)
    requires LexFrom(InNormal, value, s).kind == Eof
    ensures LexFrom(InNormal, value, s).rest == ""
    decreases |s|
  {
    if s != "" {
      NormalEof(value + [s[0]], s[1..]);
    }
  }

  // ---- The token stream of a text ----

  /** The tokens up to the end of input, comments dropped; `ended` is false when the input ends inside quotes. */
  datatype Stream = Stream(tokens: seq<Token>, ended: bool)

  function TokenOf(kind: TokenKind, value: string): Token
    requires kind == Normal || kind == StartBlock || kind == EndBlock || kind == StatementEnd
  {
    match kind
    case Normal => Word(value)
    case StartBlock => Open
    case EndBlock => Close
    case StatementEnd => Semicolon
  }

  function TokenStream(s: string): Stream
    decreases |s|
  {
    LexProgress(s);
    var l := Lex(s);
    if l.kind == Eof then Stream([], true)
    else if l.kind == Error then Stream([], false)
    else if l.kind == Comment then TokenStream(l.rest)
    else
      var tail := TokenStream(l.rest);
      Stream([TokenOf(l.kind, l.value)] + tail.tokens, tail.ended)
  }

  /** Blanks and comments leave the token stream as it is. */
  lemma CommentSkipped(w: string, t: string, c: char, s: string)
    requires Blanks(w) && CommentText(t) && LineEnd(c)
    ensures TokenStream(w + "#" + t + [c] + s) == TokenStream(s)
  {
    LexComment(w, t, c, s);
  }

  /** Every word of a token stream is plain or quoted. */
  lemma {:induction false} StreamWordsShaped(s: string)
    ensures forall t :: Word(t) in TokenStream(s).tokens ==> Shape(t)
    decreases |s|
  {
    LexProgress(s);
    var l := Lex(s);
    if l.kind != Eof && l.kind != Error {
      StreamWordsShaped(l.rest);
      if l.kind == Normal {
        var w := LexShapeBack(s);
      }
    }
  }

  // ---- The characters themselves ----

  lemma LexAlone(c: char)
    ensures Lex("").value == ""
    ensures c !in [' ', '\t', '\n', '\r'] ==> Lex([c]).value == [c]
  {
    var s := [c];
    assert s[0] == c && s[1..] == "" && "" + [c] == s;
    if c !in [' ', '\t', '\n', '\r'] {
      assert !Blank(c);
      assert LexFrom(InComment, s, "").value == s && LexFrom(InNormal, s, "").value == s;
      assert LexFrom(SingleQuote, s, "").value == s && LexFrom(DoubleQuote, s, "").value == s;
    }
  }

  /** Exactly blanks, tabs and line ends are skipped in front of a token. */
  lemma SkippedIff(c: char)
    ensures (forall s :: Lex([c] + s) == Lex(s)) <==> c in [' ', '\t', '\n', '\r']
  {
    forall s ensures ([c] + s)[1..] == s {
    }
    if c in [' ', '\t', '\n', '\r'] {
      forall s ensures Lex([c] + s) == Lex(s) {
        assert ([c] + s)[1..] == s;
      }
    } else {
      LexAlone(c);
      assert [c] + "" == [c];
      assert Lex([c] + "") != Lex("");
    }
  }

  /** A word of plain characters is ended, the character behind it left unread, by exactly these six; a carriage
      return, a quote or a hash sign is one more character of the word. */
  lemma EndedIff(w: string, c: char, rest: string)
    requires w != ""
    requires forall d :: d in w ==> d !in [' ', '\t', '\n', '\r', ';', '{', '}', '#', '"', '\'']
    ensures Lex(w + [c] + rest) == Lexed(Normal, w, [c] + rest) <==> c in [' ', '\t', '\n', ';', '{', '}']
    ensures c !in [' ', '\t', '\n', ';', '{', '}'] ==>
              Lex(w + [c] + (";" + rest)) == Lexed(Normal, w + [c], ";" + rest)
  {
    assert w[0] in w && forall i :: 0 <= i < |w| ==> w[i] in w;
    assert Plain(w);
    assert "" + w + ([c] + rest) == w + [c] + rest;
    if c in [' ', '\t', '\n', ';', '{', '}'] {
      LexShape("", w, [c] + rest);
    } else {
      var t := w + [c];
      assert "" + t + (";" + rest) == w + [c] + (";" + rest);
      LexShape("", t, ";" + rest);
      LexNormalIff(w + [c] + rest, w, [c] + rest);
    }
  }

  /** A quoted word goes from a quote of either kind to the next of the same kind, both included, whatever stands
      between; without that next quote there is an error. */
  lemma QuotedIs(q: char, t: string, rest: string)
    requires (q == '"' || q == '\'') && q !in t
    ensures Lex([q] + t + [q] + rest) == Lexed(Normal, [q] + t + [q], rest)
    ensures Lex([q] + t).kind == Error
  {
    var s := [q] + t + [q];
    assert s[|s| - 1] == q && forall i :: 1 <= i < |s| - 1 ==> s[i] == t[i - 1] && s[i] in t;
    assert "" + s + rest == s + rest;
    LexShape("", s, rest);
    LexErrorIff([q] + t);
    assert "" + [q] + t == [q] + t;
  }

  /** A comment goes from a hash sign to the first carriage return or line feed, and that is consumed. */
  lemma CommentIs(t: string, c: char, rest: string)
    requires '\n' !in t && '\r' !in t && (c == '\n' || c == '\r')
    ensures Lex("#" + t + [c] + rest) == Lexed(Comment, "#" + t, rest)
  {
    LexComment("", t, c, rest);
    assert "" + "#" + t + [c] + rest == "#" + t + [c] + rest;
  }

  /** The three marks are tokens by themselves. */
  lemma MarksAre(rest: string)
    ensures Lex("{" + rest) == Lexed(StartBlock, "{", rest)
    ensures Lex("}" + rest) == Lexed(EndBlock, "}", rest)
    ensures Lex(";" + rest) == Lexed(StatementEnd, ";", rest)
  {
    assert ("{" + rest)[1..] == rest && ("}" + rest)[1..] == rest && (";" + rest)[1..] == rest;
  }
}
