/**
`Response`: a header text that grows by calls, and the message it is framed in.
*/
module Responses {
  import opened Text

  // ---- The calls made on a response ----

  datatype HeaderCall = SetHeader(name: string, value: string) | ReSetHeader(name: string, value: string)

  /** The fields left standing by a history of calls: a reset forgets all before it. */
  function Standing(calls: seq<HeaderCall>): Headers {
    if calls == [] then []
    else
      var n := |calls| - 1;
      match calls[n]
      case SetHeader(name, value) => Standing(calls[..n]) + [(name, value)]
      case ReSetHeader(name, value) => [(name, value)]
  }

  lemma StandingNext(calls: seq<HeaderCall>, i: nat)
    requires i < |calls|
    ensures HeaderText(Standing(calls[..i + 1])) ==
            match calls[i]
            case SetHeader(name, value) => HeaderText(Standing(calls[..i])) + (LineOf((name, value)) + CRLF)
            case ReSetHeader(name, value) => LineOf((name, value)) + CRLF
  {
    assert calls[..i + 1][..i] == calls[..i];
    match calls[i]
    case SetHeader(name, value) => HeaderTextAppend(Standing(calls[..i]), (name, value));
    case ReSetHeader(name, value) =>
      HeaderTextAppend([], (name, value));
      assert [] + [(name, value)] == [(name, value)];
  }

  class Response {
    var statusCode: nat
    var header: string
    var body: string

    constructor ()
      ensures header == "" && body == ""
    {
      statusCode, header, body := 0, "", "";
    }

    method SetStatus(code: nat)
      modifies this`statusCode
      ensures statusCode == code
    {
      statusCode := code;
    }

    method SetHeader(name: string, value: string)
      modifies this`header
      ensures header == old(header) + (LineOf((name, value)) + CRLF)
    {
      header := header + (name + ": " + value + CRLF);
    }

    method ReSetHeader(name: string, value: string)
      modifies this`header
      ensures header == LineOf((name, value)) + CRLF
    {
      header := name + ": " + value + CRLF;
    }

    method SetBody(value: string)
      modifies this`body
      ensures body == value
    {
      body := value;
    }

    method Output() returns (message: string)
      ensures message == Message(statusCode, header, body)
    {
      var statusLine := "HTTP/1.1 " + FromNat(statusCode) + CRLF;
      message := statusLine + header + CRLF + body;
    }

    /** Any history of header calls, made in order. */
    method Play(calls: seq<HeaderCall>)
      modifies this`header
      ensures old(header) == "" ==> header == HeaderText(Standing(calls))
    {
      for i := 0 to |calls|
        invariant old(header) == "" ==> header == HeaderText(Standing(calls[..i]))
      {
        StandingNext(calls, i);
        match calls[i]
        case SetHeader(name, value) => SetHeader(name, value);
        case ReSetHeader(name, value) => ReSetHeader(name, value);
      }
      assert calls[..|calls|] == calls;
    }
  }

  function Message(status: nat, header: string, body: string): string {
    "HTTP/1.1 " + FromNat(status) + CRLF + header + CRLF + body
  }

  // ---- Framing ----

  predicate CleanHeaders(headers: Headers) {
    forall h :: h in headers ==> OneLine(h.0) && OneLine(h.1)
  }

  predicate CleanCalls(calls: seq<HeaderCall>) {
    forall c :: c in calls ==> OneLine(c.name) && OneLine(c.value)
  }

  lemma {:induction false} StandingClean(calls: seq<HeaderCall>)
    requires CleanCalls(calls)
    ensures CleanHeaders(Standing(calls))
  {
    if calls != [] {
      var n := |calls| - 1;
      assert calls[n] in calls;
      StandingClean(calls[..n]);
    }
  }

  const BLANK: string := "\r\n\r\n"

  /** The status line and the header text are one list of lines. */
  lemma SectionLines(first: string, headers: Headers)
    ensures LinesText([first] + LineTexts(headers)) == first + CRLF + HeaderText(headers)
  {
    assert ([first] + LineTexts(headers))[1..] == LineTexts(headers);
  }

  /** No blank line begins where there is no carriage return. */
  lemma {:induction false} FindPast(line: string, rest: string)
    requires '\r' !in line
    ensures Find(line + rest, BLANK) ==
            match Find(rest, BLANK) case None => None case Some(k) => Some(|line| + k)
    decreases |line|
  {
    if line == "" {
      assert line + rest == rest;
    } else {
      assert line[0] in line;
      assert (line + rest)[0] == line[0] && (line + rest)[1..] == line[1..] + rest;
      FindPast(line[1..], rest);
    }
  }

  lemma FindHere(body: string)
    ensures Find(CRLF + (CRLF + body), BLANK) == Some(0)
  {
    assert CRLF + (CRLF + body) == BLANK + body;
  }

  /** A CRLF with a line behind it is no blank line. */
  lemma FindBehind(rest: string)
    requires rest != "" && rest[0] != '\r'
    ensures Find(CRLF + rest, BLANK) == match Find(rest, BLANK) case None => None case Some(k) => Some(k + 2)
  {
    var s := CRLF + rest;
    assert s[2] == rest[0];
    assert s[1..] == "\n" + rest;
    assert s[1..][1..] == rest;
  }

  /** Among lines with something in them, the first blank line is the one behind the last. */
  lemma {:induction false} FindBlank(lines: seq<string>, body: string)
    requires lines != [] && SolidLines(lines)
    ensures |LinesText(lines)| >= 2
    ensures Find(LinesText(lines) + (CRLF + body), BLANK) == Some(|LinesText(lines)| - 2)
    decreases |lines|
  {
    hide Find;
    var line, tail := lines[0], LinesText(lines[1..]);
    assert line in lines && line[0] in line;
    assert LinesText(lines) + (CRLF + body) == line + (CRLF + (tail + (CRLF + body)));
    FindPast(line, CRLF + (tail + (CRLF + body)));
    if |lines| == 1 {
      assert tail + (CRLF + body) == CRLF + body;
      FindHere(body);
    } else {
      var next := lines[1];
      assert next in lines && next[0] in next;
      assert tail[0] == next[0];
      assert forall l :: l in lines[1..] ==> l in lines;
      FindBlank(lines[1..], body);
      FindBehind(tail + (CRLF + body));
    }
  }

  lemma NumeralOneLine(n: nat)
    ensures OneLine(FromNat(n))
  {
    assert forall c :: c in FromNat(n) ==> Digit(c);
  }

  lemma SectionFilled(first: string, headers: Headers)
    requires first != "" && OneLine(first) && CleanHeaders(headers)
    ensures SolidLines([first] + LineTexts(headers))
  {
    HeaderLinesFilled(headers);
  }

  /** Response framing: after any history of header calls without line breaks, the first CRLFCRLF of the message
      ends the header section, which is the status line and the standing fields, and the body is what follows. */
  lemma Framing(status: nat, calls: seq<HeaderCall>, body: string)
    requires CleanCalls(calls)
    ensures var message := Message(status, HeaderText(Standing(calls)), body);
            var section := "HTTP/1.1 " + FromNat(status) + CRLF + HeaderText(Standing(calls));
            && Find(message, BLANK) == Some(|section| - 2)
            && message[..|section|] == section
            && message[|section| + 2..] == body
  {
    var headers, first := Standing(calls), "HTTP/1.1 " + FromNat(status);
    var lines := [first] + LineTexts(headers);
    StandingClean(calls);
    NumeralOneLine(status);
    SectionLines(first, headers);
    SectionFilled(first, headers);
    hide LinesText, LineTexts, HeaderText, Find, SolidLines;
    var section := first + CRLF + HeaderText(headers);
    FindBlank(lines, body);
    assert Message(status, HeaderText(headers), body) == section + (CRLF + body);
  }

  // ---- The echo handler ----

  function EchoCalls(raw: string): seq<HeaderCall> {
    [ReSetHeader("Content-Type", "text/plain"), SetHeader("Content-Length", FromNat(|raw|))]
  }

  /** `EchoHandler::HandleRequest`: the raw request comes back as the framed body, and Content-Length is its length. */
  method HandleEcho(raw: string) returns (response: Response, message: string)
    ensures response.statusCode == 200 && response.body == raw
    ensures message == Message(200, HeaderText(Standing(EchoCalls(raw))), raw)
    ensures Find(message, BLANK).Some? && Find(message, BLANK).value + 4 <= |message|
    ensures message[Find(message, BLANK).value + 4..] == raw
    ensures Standing(EchoCalls(raw)) == [("Content-Type", "text/plain"), ("Content-Length", FromNat(|raw|))]
    ensures ToNat(FromNat(|raw|)) == |message[Find(message, BLANK).value + 4..]|
  {
    response := new Response();
    response.SetStatus(200);
    response.ReSetHeader("Content-Type", "text/plain");
    response.SetHeader("Content-Length", FromNat(|raw|));
    response.SetBody(raw);
    message := response.Output();
    EchoStanding(raw);
    ToFromNat(|raw|);
    Framing(200, EchoCalls(raw), raw);
  }

  lemma EchoStanding(raw: string)
    ensures Standing(EchoCalls(raw)) == [("Content-Type", "text/plain"), ("Content-Length", FromNat(|raw|))]
    ensures HeaderText(Standing(EchoCalls(raw))) ==
            LineOf(("Content-Type", "text/plain")) + CRLF + (LineOf(("Content-Length", FromNat(|raw|))) + CRLF)
    ensures CleanCalls(EchoCalls(raw))
  {
    TwoCalls("Content-Type", "text/plain", "Content-Length", FromNat(|raw|));
    EchoClean(raw);
  }

  lemma TwoCalls(n: string, v: string, m: string, w: string)
    ensures var standing := Standing([ReSetHeader(n, v), SetHeader(m, w)]);
            && standing == [(n, v), (m, w)]
            && HeaderText(standing) == LineOf((n, v)) + CRLF + (LineOf((m, w)) + CRLF)
  {
    var calls := [ReSetHeader(n, v), SetHeader(m, w)];
    assert calls[..1] == [calls[0]] && calls[..2] == calls;
    StandingNext(calls, 0);
    StandingNext(calls, 1);
  }

  lemma EchoClean(raw: string)
    ensures CleanCalls(EchoCalls(raw))
  {
    NumeralOneLine(|raw|);
    assert OneLine("Content-Type");
    assert OneLine("text/plain");
    assert OneLine("Content-Length");
  }
}
