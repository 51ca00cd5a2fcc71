/**
`Request`: how a raw HTTP request is cut into method, path, version, header fields and body.
*/
module Requests {
  import opened Text

  // ---- What the parser makes of a text ----

  /** The first line in its three parts. */
  datatype FirstLine = FirstLine(verb: string, path: string, version: string)

  function CheckFirstLine(line: string): Option<FirstLine> {
    var comps := Split(line, {' '});
    if |comps| != 3 then None
    else if comps[0] != "GET" && comps[0] != "POST" then None
    else if !Contains(comps[2], "HTTP/1.1") then None
    else Some(FirstLine(comps[0], comps[1], comps[2]))
  }

  /** The lines: split at CR and LF when there is a blank CRLF line, at LF when there is only that, else none. */
  function Lines(raw: string): Option<seq<string>> {
    if Contains(raw, "\r\n\r\n") then Some(Split(raw, NEWLINES))
    else if Contains(raw, "\n") then Some(Split(raw, {'\n'}))
    else None
  }

  function HeaderOf(line: string): Headers {
    match Find(line, ": ")
    case None => []
    case Some(k) =>
      FindLeast(line, ": ");
      [(line[..k], line[k + 2..])]
  }

  /** The header fields of the lines, a line without ": " giving none. */
  function HeadersOf(lines: seq<string>): Headers {
    if lines == [] then [] else HeadersOf(lines[..|lines| - 1]) + HeaderOf(lines[|lines| - 1])
  }

  lemma HeadersNext(lines: seq<string>, i: nat)
    requires 1 <= i < |lines|
    ensures HeadersOf(lines[1..i + 1]) == HeadersOf(lines[1..i]) + HeaderOf(lines[i])
  {
    assert lines[1..i + 1][..i - 1] == lines[1..i];
  }

  datatype Parsed = Parsed(first: FirstLine, headers: Headers, body: string)

  function ParseRequest(raw: string): Option<Parsed> {
    match Lines(raw)
    case None => None
    case Some(lines) =>
      match CheckFirstLine(lines[0])
      case None => None
      case Some(first) =>
        var n := |lines|;
        Some(Parsed(first, if n >= 2 then HeadersOf(lines[1..n - 1]) else [], lines[n - 1]))
  }

  // ---- Which requests are accepted ----

  predicate Spaces(s: string) {
    s != "" && forall c :: c in s ==> c == ' '
  }

  /** A line that is a request's first line: three parts without spaces, with spaces between them. */
  ghost predicate IsFirstLine(line: string, verb: string, path: string, version: string) {
    && (exists a, b :: Spaces(a) && Spaces(b) && line == verb + a + path + b + version)
    && (verb == "GET" || verb == "POST")
    && path != "" && ' ' !in path
    && ' ' !in version && exists x, y :: version == x + "HTTP/1.1" + y
  }

  lemma OccursAround(s: string, pat: string)
    ensures Contains(s, pat) <==> exists x, y :: s == x + pat + y
  {
    FindLeast(s, pat);
    if Contains(s, pat) {
      var k := Find(s, pat).value;
      assert s[k..] == pat + s[k + |pat|..];
      assert s == s[..k] + pat + s[k + |pat|..];
    }
    if exists x, y :: s == x + pat + y {
      var x, y :| s == x + pat + y;
      assert s[|x|..] == pat + y;
      assert OccursAt(s, pat, |x|);
    }
  }

  /** Exactly the first lines are accepted, each with its parts. */
  lemma FirstLineIff(line: string, verb: string, path: string, version: string)
    ensures CheckFirstLine(line) == Some(FirstLine(verb, path, version)) <==> IsFirstLine(line, verb, path, version)
  {
    OccursAround(version, "HTTP/1.1");
    if IsFirstLine(line, verb, path, version) {
      var a, b :| Spaces(a) && Spaces(b) && line == verb + a + path + b + version;
      VersionFirst(version);
      ThreePieces(verb, a, path, b, version);
    }
    if CheckFirstLine(line) == Some(FirstLine(verb, path, version)) {
      var a, b := ThreeBack(line);
    }
  }

  lemma ThreePieces(verb: string, a: string, path: string, b: string, version: string)
    requires Spaces(a) && Spaces(b)
    requires ' ' !in verb && path != "" && ' ' !in path && version != "" && ' ' !in version
    ensures Split(verb + a + path + b + version, {' '}) == [verb, path, version]
  {
    assert path[0] in path && version[0] in version;
    SplitWhole(version, {' '});
    hide Split;
    assert forall c :: c in a ==> c in {' '};
    assert forall c :: c in b ==> c in {' '};
    SplitPiece(path, b, version, {' '});
    SplitPiece(verb, a, path + b + version, {' '});
    FiveRight(verb, a, path, b, version);
  }

  lemma FiveRight(v: string, a: string, p: string, b: string, w: string)
    ensures v + a + p + b + w == v + a + (p + b + w)
  {
  }

  lemma ThreeBack(line: string) returns (a: string, b: string)
    requires |Split(line, {' '})| == 3
    ensures var comps := Split(line, {' '});
            && Spaces(a) && Spaces(b) && line == comps[0] + a + comps[1] + b + comps[2]
            && comps[1] != "" && ' ' !in comps[1] && ' ' !in comps[2]
  {
    hide Split;
    var comps := Split(line, {' '});
    var run, rest := SplitParts(line, {' '});
    var inner := Split(rest, {' '});
    assert comps[1..] == inner && |inner| == 2;
    var run', rest' := SplitParts(rest, {' '});
    assert inner[1..] == Split(rest', {' '});
    SplitOne(rest', {' '});
    assert inner[0] == comps[1] && inner[0] in inner && rest' == comps[2];
    assert forall c :: c in run ==> c == ' ';
    assert forall c :: c in run' ==> c == ' ';
    a, b := run, run';
    FiveRight(comps[0], a, comps[1], b, comps[2]);
  }

  /** `line` is where a text is cut for its first line: at the first CR or LF if there is a blank CRLF line, else at
      the first LF. */
  predicate CutAt(raw: string, line: string, rest: string) {
    && raw == line + rest && rest != ""
    && if Contains(raw, "\r\n\r\n") then '\r' !in line && '\n' !in line && (rest[0] == '\r' || rest[0] == '\n')
       else '\n' !in line && rest[0] == '\n'
  }

  lemma CutLines(raw: string, line: string, rest: string)
    requires CutAt(raw, line, rest)
    ensures Lines(raw).Some? && Lines(raw).value[0] == line
  {
    var seps := if Contains(raw, "\r\n\r\n") then NEWLINES else {'\n'};
    HeadOf(line, rest, seps);
    FindLeast(raw, "\n");
    assert rest[0] == '\n' ==> raw[|line|..][0] == '\n' && "\n" <= raw[|line|..] && OccursAt(raw, "\n", |line|);
  }

  /** A request is accepted exactly when its first line is one, and then with the parts of that line. */
  lemma AcceptedIff(raw: string, line: string, rest: string)
    requires CutAt(raw, line, rest)
    ensures ParseRequest(raw).Some? <==> exists verb, path, version :: IsFirstLine(line, verb, path, version)
    ensures forall verb, path, version ::
              IsFirstLine(line, verb, path, version) ==>
                ParseRequest(raw).Some? && ParseRequest(raw).value.first == FirstLine(verb, path, version)
  {
    CutLines(raw, line, rest);
    hide Lines, CheckFirstLine, IsFirstLine, CutAt;
    forall verb, path, version
      ensures CheckFirstLine(line) == Some(FirstLine(verb, path, version)) <==>
              IsFirstLine(line, verb, path, version)
    {
      FirstLineIff(line, verb, path, version);
    }
    if ParseRequest(raw).Some? {
      var f := ParseRequest(raw).value.first;
      assert IsFirstLine(line, f.verb, f.path, f.version);
    }
  }

  /** A text without LF is no request. */
  lemma NoLineFeed(raw: string)
    requires '\n' !in raw
    ensures ParseRequest(raw).None?
  {
    OccursAround(raw, "\n");
    OccursAround(raw, "\r\n\r\n");
    forall x: string, y: string ensures raw != x + "\n" + y {
      assert (x + "\n" + y)[|x|] == '\n';
    }
    forall x: string, y: string ensures raw != x + "\r\n\r\n" + y {
      assert (x + "\r\n\r\n" + y)[|x| + 1] == '\n';
    }
  }

  /** A line gives a header field exactly when ": " occurs in it, with the text before the first one as key and all
      behind it as value. */
  lemma HeaderOfIff(line: string, key: string, value: string)
    ensures HeaderOf(line) == [(key, value)] <==>
            line == key + ": " + value && forall j: nat :: j < |key| ==> !OccursAt(line, ": ", j)
    ensures HeaderOf(line) == [] <==> forall x, y :: line != x + ": " + y
  {
    OccursAround(line, ": ");
    if line == key + ": " + value && forall j: nat :: j < |key| ==> !OccursAt(line, ": ", j) {
      assert line[|key|..] == ": " + value;
      FindIs(line, ": ", |key|);
      assert line[..|key|] == key && line[|key| + 2..] == value;
    }
    if HeaderOf(line) != [] {
      HeaderBack(line);
    }
  }

  lemma HeaderBack(line: string)
    requires HeaderOf(line) != []
    ensures Contains(line, ": ")
    ensures var h := HeaderOf(line)[0];
            && HeaderOf(line) == [h]
            && line == h.0 + ": " + h.1
            && forall j: nat :: j < |h.0| ==> !OccursAt(line, ": ", j)
  {
    FindLeast(line, ": ");
    var k := Find(line, ": ").value;
    assert line[k..] == ": " + line[k + 2..];
    assert line == line[..k] + line[k..];
  }

  // ---- The object ----

  class Request {
    const req: string
    var verb: string
    var uriPath: string
    var httpVersion: string
    var body: string
    var headerFields: Headers

    constructor (raw: string)
      ensures req == raw && verb == "" && uriPath == "" && httpVersion == "" && body == ""
      ensures headerFields == []
    {
      req := raw;
      verb, uriPath, httpVersion, body, headerFields := "", "", "", "", [];
    }

    ghost predicate Holds(p: Parsed)
      reads this
    {
      && FirstLine(verb, uriPath, httpVersion) == p.first
      && headerFields == p.headers
      && body == p.body
    }

    /** `request_handler`: the parsed request, or `GET /bad HTTP/1.1` without fields or body for a malformed one. */
    static method RequestHandler(raw: string) returns (request: Request)
      ensures fresh(request) && request.req == raw
      ensures match ParseRequest(raw)
              case Some(p) => request.Holds(p)
              case None => request.Holds(Parsed(FirstLine("GET", "/bad", "HTTP/1.1"), [], ""))
      ensures forall line, rest, verb, path, version ::
                CutAt(raw, line, rest) && IsFirstLine(line, verb, path, version) ==>
                  request.verb == verb && request.uriPath == path && request.httpVersion == version
      ensures forall line, rest ::
                CutAt(raw, line, rest) && (forall v, p, w :: !IsFirstLine(line, v, p, w)) ==>
                  request.Holds(Parsed(FirstLine("GET", "/bad", "HTTP/1.1"), [], ""))
      ensures '\n' !in raw ==> request.Holds(Parsed(FirstLine("GET", "/bad", "HTTP/1.1"), [], ""))
    {
      hide CutAt, IsFirstLine;
      forall line, rest | CutAt(raw, line, rest)
        ensures ParseRequest(raw).Some? <==> exists verb, path, version :: IsFirstLine(line, verb, path, version)
        ensures forall verb, path, version ::
                  IsFirstLine(line, verb, path, version) ==>
                    ParseRequest(raw).Some? && ParseRequest(raw).value.first == FirstLine(verb, path, version)
      {
        AcceptedIff(raw, line, rest);
      }
      if '\n' !in raw {
        NoLineFeed(raw);
      }
      hide ParseRequest;
      request := new Request(raw);
      var ok := request.Parse();
      if !ok {
        request.verb := "GET";
        request.uriPath := "/bad";
        request.httpVersion := "HTTP/1.1";
      }
    }

    method CheckFirstRequestLine(line: string) returns (ok: bool)
      modifies this`verb, this`uriPath, this`httpVersion
      ensures ok == CheckFirstLine(line).Some?
      ensures ok ==> FirstLine(verb, uriPath, httpVersion) == CheckFirstLine(line).value
      ensures ok ==> IsFirstLine(line, verb, uriPath, httpVersion)
      ensures ok <==> exists v, p, w :: IsFirstLine(line, v, p, w)
      ensures !ok ==> unchanged(this)
    {
      forall v, p, w ensures CheckFirstLine(line) == Some(FirstLine(v, p, w)) <==> IsFirstLine(line, v, p, w) {
        FirstLineIff(line, v, p, w);
      }
      hide IsFirstLine;
      var comps := Split(line, {' '});
      if |comps| != 3 {
        return false;
      }
      if comps[0] != "GET" && comps[0] != "POST" {
        return false;
      }
      if !Contains(comps[2], "HTTP/1.1") {
        return false;
      }
      verb, uriPath, httpVersion := comps[0], comps[1], comps[2];
      return true;
    }

    method Parse() returns (ok: bool)
      requires headerFields == []
      modifies this
      ensures ok == ParseRequest(req).Some?
      ensures ok ==> Holds(ParseRequest(req).value)
      ensures !ok ==> unchanged(this)
    {
      hide Split, Find, HeadersOf, CheckFirstLine;
      var lines;
      if Contains(req, "\r\n\r\n") {
        lines := Split(req, NEWLINES);
      } else if Contains(req, "\n") {
        lines := Split(req, {'\n'});
      } else {
        return false;
      }
      ok := CheckFirstRequestLine(lines[0]);
      if !ok {
        return false;
      }
      ReadHeaderFields(lines);
      body := lines[|lines| - 1];
    }

    /** The loop over the lines between the first and the last. */
    method ReadHeaderFields(lines: seq<string>)
      requires lines != [] && headerFields == []
      modifies this`headerFields
      ensures headerFields == if |lines| >= 2 then HeadersOf(lines[1..|lines| - 1]) else []
    {
      var i := 1;
      while i < |lines| - 1
        invariant 1 <= i && (|lines| >= 2 ==> i <= |lines| - 1)
        invariant headerFields == if |lines| >= 2 then HeadersOf(lines[1..i]) else []
      {
        hide HeadersOf, Find;
        HeadersNext(lines, i);
        var line := lines[i];
        i := i + 1;
        var colon := Find(line, ": ");
        FindLeast(line, ": ");
        if colon.None? {
          continue;
        }
        headerFields := headerFields + [(line[..colon.value], line[colon.value + 2..])];
      }
    }
  }

  // ---- Printing a request and parsing it back ----

  function FirstLineText(first: FirstLine): string {
    first.verb + " " + first.path + " " + first.version
  }

  function PrintRequest(first: FirstLine, headers: Headers, body: string): string {
    FirstLineText(first) + CRLF + HeaderText(headers) + CRLF + body
  }

  /** GET or POST, a path without spaces, a version the parser accepts. */
  predicate GoodFirst(first: FirstLine) {
    && (first.verb == "GET" || first.verb == "POST")
    && ' ' !in first.path && OneLine(first.path)
    && ' ' !in first.version && OneLine(first.version) && Contains(first.version, "HTTP/1.1")
  }

  /** Keys and values in one line, no key with ": " in it. */
  predicate GoodHeaders(headers: Headers) {
    forall h :: h in headers ==> OneLine(h.0) && OneLine(h.1) && !Contains(h.0, ": ")
  }

  lemma OccursTwo(s: string, j: nat)
    ensures OccursAt(s, ": ", j) <==> j + 2 <= |s| && s[j] == ':' && s[j + 1] == ' '
  {
    if j + 2 <= |s| {
      assert s[j..][0] == s[j] && s[j..][1] == s[j + 1];
    }
  }

  /** The first ": " of a header line is the one behind its key. */
  lemma HeaderLineParses(h: (string, string))
    requires !Contains(h.0, ": ")
    ensures HeaderOf(LineOf(h)) == [h]
  {
    var line, k := LineOf(h), |h.0|;
    assert line[k..] == ": " + h.1;
    FindLeast(h.0, ": ");
    forall j: nat | j < k ensures !OccursAt(line, ": ", j) {
      OccursTwo(line, j);
      OccursTwo(h.0, j);
    }
    FindIs(line, ": ", k);
    assert line[..k] == h.0 && line[k + 2..] == h.1;
  }

  lemma {:induction false} HeadersParse(headers: Headers)
    requires forall h :: h in headers ==> !Contains(h.0, ": ")
    ensures HeadersOf(LineTexts(headers)) == headers
    decreases |headers|
  {
    if headers != [] {
      var n := |headers| - 1;
      var init, h := headers[..n], headers[n];
      assert h in headers;
      HeaderLineParses(h);
      HeadersParse(init);
      assert LineTexts(headers)[..n] == LineTexts(init);
      assert headers == init + [h];
    }
  }

  lemma {:induction false} HeadersOfConcat(a: seq<string>, b: seq<string>)
    ensures HeadersOf(a + b) == HeadersOf(a) + HeadersOf(b)
    decreases |b|
  {
    if b == [] {
      assert a + b == a;
    } else {
      var n := |b| - 1;
      assert (a + b)[..|a| + n] == a + b[..n];
      HeadersOfConcat(a, b[..n]);
    }
  }

  /** The first line is read back unless its path is empty: then the two spaces are one separator. */
  lemma FirstLineParses(first: FirstLine)
    requires GoodFirst(first)
    ensures CheckFirstLine(FirstLineText(first)) == if first.path == "" then None else Some(first)
  {
    VersionFirst(first.version);
    hide Split, Contains, Free;
    if first.path == "" {
      TwoParts(first.verb, first.version);
    } else {
      ThreeParts(first.verb, first.path, first.version);
    }
  }

  lemma TwoParts(a: string, b: string)
    requires ' ' !in a && ' ' !in b && b != "" && b[0] != ' '
    ensures Split(a + " " + "" + " " + b, {' '}) == [a, b]
  {
    SplitWhole(b, {' '});
    SplitSpaces(a, "  ", b);
    NothingBetween(a, b);
  }

  lemma NothingBetween(a: string, b: string)
    ensures a + " " + "" + " " + b == a + "  " + b
  {
    assert " " + "" + " " == "  ";
    assert a + " " + "" + " " == a + "  ";
  }

  lemma ThreeParts(a: string, b: string, c: string)
    requires ' ' !in a && ' ' !in b && ' ' !in c && b != "" && c != "" && c[0] != ' '
    ensures Split(a + " " + b + " " + c, {' '}) == [a, b, c]
  {
    SplitWhole(c, {' '});
    hide Split;
    assert b[0] in b;
    SplitSpaces(b, " ", c);
    SplitSpaces(a, " ", b + " " + c);
    SpacesRight(a, b, c);
  }

  lemma SpacesRight(a: string, b: string, c: string)
    ensures a + " " + b + " " + c == a + " " + (b + " " + c)
  {
  }

  lemma SplitSpaces(a: string, gap: string, rest: string)
    requires ' ' !in a && (gap == " " || gap == "  ") && rest != "" && rest[0] != ' '
    ensures Split(a + gap + rest, {' '}) == [a] + Split(rest, {' '})
  {
    SplitPiece(a, gap, rest, {' '});
  }

  lemma VersionFirst(version: string)
    requires ' ' !in version && Contains(version, "HTTP/1.1")
    ensures version != "" && version[0] != ' '
  {
    if version != "" {
      assert version[0] in version;
    }
  }

  /** Lines with something in them are split off one by one. */
  lemma {:induction false} LinesSplit(lines: seq<string>, body: string)
    requires SolidLines(lines)
    ensures Split(DropSeps(LinesText(lines) + CRLF + body, NEWLINES), NEWLINES) ==
            lines + Split(DropSeps(body, NEWLINES), NEWLINES)
    decreases |lines|
  {
    hide Split;
    if lines == [] {
      assert LinesText(lines) + CRLF + body == CRLF + body;
      DropCRLF(body);
    } else {
      var line, rest := lines[0], LinesText(lines[1..]) + CRLF + body;
      assert line in lines && line[0] in line;
      assert LinesText(lines) + CRLF + body == line + (CRLF + rest);
      assert forall l :: l in lines[1..] ==> l in lines;
      LinesSplit(lines[1..], body);
      SplitLine(line, rest);
      assert lines == [line] + lines[1..];
    }
  }

  lemma DropLF(rest: string)
    ensures DropSeps("\n" + rest, NEWLINES) == DropSeps(rest, NEWLINES)
  {
    assert ("\n" + rest)[1..] == rest;
  }

  lemma DropCRLF(rest: string)
    ensures DropSeps(CRLF + rest, NEWLINES) == DropSeps(rest, NEWLINES)
  {
    assert (CRLF + rest)[1..] == "\n" + rest;
    DropLF(rest);
  }

  /** A line, its CRLF, and the rest, whose leading line ends join the run. */
  lemma SplitLine(line: string, rest: string)
    requires OneLine(line)
    ensures Split(line + (CRLF + rest), NEWLINES) == [line] + Split(DropSeps(rest, NEWLINES), NEWLINES)
  {
    hide Split;
    assert (CRLF + rest)[0] == '\r' && (CRLF + rest)[1..] == "\n" + rest;
    HeadOf(line, CRLF + rest, NEWLINES);
    SplitHead(line, CRLF + rest, NEWLINES);
    DropLF(rest);
  }

  lemma BlankLineThere(a: string, b: string)
    ensures Contains(a + CRLF + CRLF + b, "\r\n\r\n")
  {
    var s := a + CRLF + CRLF + b;
    FindLeast(s, "\r\n\r\n");
    assert s[|a|..] == "\r\n\r\n" + b;
    assert OccursAt(s, "\r\n\r\n", |a|);
  }

  /** A blank line follows any lines. */
  lemma BlankLinePrinted(lines: seq<string>, body: string)
    requires lines != []
    ensures Contains(LinesText(lines) + CRLF + body, "\r\n\r\n")
  {
    var n := |lines| - 1;
    assert lines == lines[..n] + [lines[n]];
    LinesTextAppend(lines[..n], lines[n]);
    var before := LinesText(lines[..n]) + lines[n];
    assert LinesText(lines) + CRLF + body == before + CRLF + CRLF + body;
    BlankLineThere(before, body);
  }

  /** The pieces of a printed request: its first line, one for each header, then those of the body. */
  lemma PrintedLines(first: FirstLine, headers: Headers, body: string)
    requires GoodFirst(first) && GoodHeaders(headers)
    ensures Lines(PrintRequest(first, headers, body)) ==
            Some([FirstLineText(first)] + (LineTexts(headers) + BodyPieces(body)))
  {
    var lines := [FirstLineText(first)] + LineTexts(headers);
    assert lines[1..] == LineTexts(headers);
    assert PrintRequest(first, headers, body) == LinesText(lines) + CRLF + body;
    BlankLinePrinted(lines, body);
    HeaderLinesFilled(headers);
    FirstLineFilled(first);
    LinesSplit(lines, body);
    assert lines[0][0] == first.verb[0];
    assert DropSeps(LinesText(lines) + CRLF + body, NEWLINES) == LinesText(lines) + CRLF + body;
    Regroup3([FirstLineText(first)], LineTexts(headers), BodyPieces(body));
  }

  lemma Regroup3<T>(a: seq<T>, b: seq<T>, c: seq<T>)
    ensures a + b + c == a + (b + c)
  {
  }

  lemma FirstLineFilled(first: FirstLine)
    requires GoodFirst(first)
    ensures FirstLineText(first) != "" && OneLine(FirstLineText(first))
  {
    assert OneLine(first.verb) && OneLine(" ");
  }

  /** The lines of a body as the parser cuts them: leading line ends go, runs of them separate. */
  function BodyPieces(body: string): (pieces: seq<string>)
    ensures pieces != []
  {
    Split(DropSeps(body, NEWLINES), NEWLINES)
  }

  /** A body in one line is its own only piece; the last piece of any other is a line, so not the body. */
  lemma BodyPiecesOf(body: string)
    ensures OneLine(body) ==> BodyPieces(body) == [body]
    ensures BodyPieces(body)[|BodyPieces(body)| - 1] == body ==> OneLine(body)
  {
    hide Split;
    assert BodyPieces(body)[|BodyPieces(body)| - 1] in BodyPieces(body);
    if OneLine(body) {
      if body != "" {
        assert body[0] in body;
      }
      assert DropSeps(body, NEWLINES) == body;
      SplitWhole(body, NEWLINES);
    }
  }

  /** What the parser makes of any printed request: method, path, version and header list are read back, the last
      line of the body is the body, and the lines of the body before it are read as headers. An empty path makes
      the request malformed. */
  lemma PrintedRequestParses(first: FirstLine, headers: Headers, body: string)
    requires GoodFirst(first) && GoodHeaders(headers)
    ensures var pieces := BodyPieces(body);
            var n := |pieces| - 1;
            ParseRequest(PrintRequest(first, headers, body)) ==
            if first.path == "" then None else Some(Parsed(first, headers + HeadersOf(pieces[..n]), pieces[n]))
  {
    PrintedLines(first, headers, body);
    LinesParse(PrintRequest(first, headers, body), first, headers, BodyPieces(body));
  }

  lemma LinesParse(raw: string, first: FirstLine, headers: Headers, pieces: seq<string>)
    requires GoodFirst(first) && GoodHeaders(headers) && pieces != []
    requires Lines(raw) == Some([FirstLineText(first)] + (LineTexts(headers) + pieces))
    ensures var n := |pieces| - 1;
            ParseRequest(raw) ==
            if first.path == "" then None else Some(Parsed(first, headers + HeadersOf(pieces[..n]), pieces[n]))
  {
    hide Lines, CheckFirstLine, HeadersOf, LineTexts;
    var n, lines := |pieces| - 1, [FirstLineText(first)] + (LineTexts(headers) + pieces);
    FirstLineParses(first);
    HeadersParse(headers);
    HeadersOfConcat(LineTexts(headers), pieces[..n]);
    assert lines[1..|lines| - 1] == LineTexts(headers) + pieces[..n];
  }

  /** Request round trip: a printed request parses back to its method, path, version, header list and body exactly
      when the path is not empty and the body is one line. */
  lemma RequestRoundTripIff(first: FirstLine, headers: Headers, body: string)
    requires GoodFirst(first) && GoodHeaders(headers)
    ensures ParseRequest(PrintRequest(first, headers, body)) == Some(Parsed(first, headers, body)) <==>
            first.path != "" && OneLine(body)
  {
    hide PrintRequest, ParseRequest, GoodFirst, GoodHeaders, BodyPieces;
    PrintedRequestParses(first, headers, body);
    BodyPiecesOf(body);
    var pieces := BodyPieces(body);
    if OneLine(body) {
      assert pieces[..0] == [];
      assert headers + [] == headers;
    }
  }

  // ---- The same for requests whose lines end in LF ----

  const LF: set<char> := {'\n'}

  function LfText(lines: seq<string>): string {
    if lines == [] then "" else lines[0] + "\n" + LfText(lines[1..])
  }

  function PrintLf(first: FirstLine, headers: Headers, body: string): string {
    LfText([FirstLineText(first)] + LineTexts(headers)) + "\n" + body
  }

  lemma LfLine(line: string, rest: string)
    requires '\n' !in line
    ensures Split(line + ("\n" + rest), LF) == [line] + Split(DropSeps(rest, LF), LF)
  {
    hide Split;
    assert ("\n" + rest)[1..] == rest;
    HeadOf(line, "\n" + rest, LF);
    SplitHead(line, "\n" + rest, LF);
  }

  lemma {:induction false} LfSplit(lines: seq<string>, body: string)
    requires SolidLines(lines)
    ensures Split(DropSeps(LfText(lines) + "\n" + body, LF), LF) == lines + Split(DropSeps(body, LF), LF)
    decreases |lines|
  {
    hide Split;
    if lines == [] {
      assert LfText(lines) + "\n" + body == "\n" + body;
      assert ("\n" + body)[1..] == body;
    } else {
      var line, rest := lines[0], LfText(lines[1..]) + "\n" + body;
      assert line in lines && line[0] in line;
      assert LfText(lines) + "\n" + body == line + ("\n" + rest);
      assert DropSeps(line + ("\n" + rest), LF) == line + ("\n" + rest);
      assert forall l :: l in lines[1..] ==> l in lines;
      LfSplit(lines[1..], body);
      LfLine(line, rest);
      hide DropSeps, LfText;
      assert lines == [line] + lines[1..];
    }
  }

  function LfPieces(body: string): (pieces: seq<string>)
    ensures pieces != []
  {
    Split(DropSeps(body, LF), LF)
  }

  lemma PrintedLfLines(first: FirstLine, headers: Headers, body: string)
    requires GoodFirst(first) && GoodHeaders(headers)
    requires !Contains(PrintLf(first, headers, body), "\r\n\r\n")
    ensures Lines(PrintLf(first, headers, body)) ==
            Some([FirstLineText(first)] + (LineTexts(headers) + LfPieces(body)))
  {
    var lines := [FirstLineText(first)] + LineTexts(headers);
    var raw := PrintLf(first, headers, body);
    HeaderLinesFilled(headers);
    FirstLineFilled(first);
    LfSplit(lines, body);
    assert raw == LfText(lines) + "\n" + body;
    OccursAround(raw, "\n");
    assert lines[0][0] == first.verb[0] && LfText(lines) == lines[0] + "\n" + LfText(lines[1..]);
    assert DropSeps(raw, LF) == raw;
    Regroup3([FirstLineText(first)], LineTexts(headers), LfPieces(body));
  }

  /** What the parser makes of such a request: only LF ends a line then, so a CR stays in the body. */
  lemma LfRequestParses(first: FirstLine, headers: Headers, body: string)
    requires GoodFirst(first) && GoodHeaders(headers)
    requires !Contains(PrintLf(first, headers, body), "\r\n\r\n")
    ensures var pieces := LfPieces(body);
            var n := |pieces| - 1;
            ParseRequest(PrintLf(first, headers, body)) ==
            if first.path == "" then None else Some(Parsed(first, headers + HeadersOf(pieces[..n]), pieces[n]))
  {
    PrintedLfLines(first, headers, body);
    LinesParse(PrintLf(first, headers, body), first, headers, LfPieces(body));
  }

  lemma LfRoundTripIff(first: FirstLine, headers: Headers, body: string)
    requires GoodFirst(first) && GoodHeaders(headers)
    requires !Contains(PrintLf(first, headers, body), "\r\n\r\n")
    ensures ParseRequest(PrintLf(first, headers, body)) == Some(Parsed(first, headers, body)) <==>
            first.path != "" && '\n' !in body
  {
    hide PrintLf, ParseRequest, GoodFirst, GoodHeaders, LfPieces;
    LfRequestParses(first, headers, body);
    LfPiecesOf(body);
    var pieces := LfPieces(body);
    if '\n' !in body {
      assert pieces[..0] == [];
      assert headers + [] == headers;
    }
  }

  lemma LfPiecesOf(body: string)
    ensures '\n' !in body ==> LfPieces(body) == [body]
    ensures LfPieces(body)[|LfPieces(body)| - 1] == body ==> '\n' !in body
  {
    hide Split;
    assert LfPieces(body)[|LfPieces(body)| - 1] in LfPieces(body);
    if '\n' !in body {
      assert DropSeps(body, LF) == body;
      SplitWhole(body, LF);
    }
  }
}
