/**
  The request reader (`readRequest` in app/main.go): one request line, then
  header lines up to the first blank or colon-less line, then a body when
  `Content-Length` asks for one. It is a lenient form of the request-line,
  field-line and message-body-length rules of sections 3, 5 and 6.3 of
  RFC 9112.

  The byte stream is the string of octets the peer sends before the
  connection stops delivering data; running out of data stands for every
  read failure (end of stream, an expired read deadline, a closed socket),
  which the connection loop treats alike.
 */
module Reader {
  import opened Optional
  import opened Text
  import opened Decimal
  import opened Message

  /** The outcome of `bufio.Reader.ReadString('\n')`. */
  datatype LineRead = Line(text: string, rest: string) | NoLine

  /** A complete line as `ReadString('\n')` delivers it: terminated by, and
      containing no other, line feed. */
  predicate IsLine(text: string) {
    |text| > 0 && text[|text| - 1] == '\n' && '\n' !in text[..|text| - 1]
  }

  /** `ReadString('\n')`: the text up to and including the first line feed,
      or a read failure when the stream ends first. */
  function ReadLine(s: string): (r: LineRead)
    ensures r.NoLine? <==> '\n' !in s
    ensures r.Line? ==> |r.text| <= |s| && IsLine(r.text) && r.text == s[..|r.text|] && r.rest == s[|r.text|..]
  {
    match IndexOf(s, '\n')
    case None => NoLine
    case Some(i) =>
      assert s[..i + 1][..i] == s[..i];
      Line(s[..i + 1], s[i + 1..])
  }

  /** A stream that starts with a complete line yields exactly that line. */
  lemma {:induction false} ReadLineAppend(text: string, more: string)
    requires IsLine(text)
    ensures ReadLine(text + more) == Line(text, more)
  {
    var s := text + more;
    assert '\n' in s by { assert s[|text| - 1] == '\n'; }
    var i := IndexOf(s, '\n').value;
    forall j | 0 <= j < i
      ensures s[j] != '\n'
    {
      assert s[..i][j] == s[j];
    }
    forall j | 0 <= j < |text| - 1
      ensures s[j] != '\n'
    {
      assert text[..|text| - 1][j] == s[j];
    }
    assert s[|text| - 1] == '\n';
    assert i == |text| - 1;
    assert s[..i + 1] == text;
  }

  datatype RequestLine = RequestLine(verb: string, path: string, protocol: string)

  /** The request line: trimmed, then split on single spaces into exactly
      method, path and protocol. */
  function ParseRequestLine(text: string): (r: Option<RequestLine>)
    ensures r.Some? <==> multiset(TrimSpace(text))[' '] == 2
    ensures r.Some? ==> r.value.verb + " " + r.value.path + " " + r.value.protocol == TrimSpace(text)
    ensures r.Some? ==> ' ' !in r.value.verb && ' ' !in r.value.path && ' ' !in r.value.protocol
  {
    var line := TrimSpace(text);
    var parts := Split(line, ' ');
    if |parts| == 3 then
      JoinThree(parts, " ");
      Some(RequestLine(parts[0], parts[1], parts[2]))
    else None
  }

  datatype Field = Field(name: string, value: string)

  /** A complete line the header loop turns into a field: it still contains
      a colon once trimmed (and so is not blank). */
  predicate IsFieldLine(text: string) {
    IsLine(text) && ':' in TrimSpace(text)
  }

  /** The field a header line denotes: the trimmed line cut at its first
      colon, the value trimmed once more. */
  function FieldOf(text: string): (f: Field)
    requires IsFieldLine(text)
    ensures ':' !in f.name && f.name + [':'] <= TrimSpace(text)
    ensures f.value == TrimSpace(TrimSpace(text)[|f.name| + 1..])
  {
    var halves := Cut(TrimSpace(text), ':').value;
    Field(halves.0, TrimSpace(halves.1))
  }

  /** The header loop: fields in the order their lines arrive, and the stream
      after the line that ended the loop. The loop ends at a blank line, at a
      line without a colon (both consumed), or at a read failure (which
      consumes whatever partial line remains). */
  function ScanFields(s: string): (r: (seq<Field>, string))
    ensures |r.1| <= |s|
    decreases |s|
  {
    match ReadLine(s)
    case NoLine => ([], "")
    case Line(text, rest) =>
      if IsFieldLine(text) then
        var tail := ScanFields(rest);
        ([FieldOf(text)] + tail.0, tail.1)
      else ([], rest)
  }

  /** A header line at the front of the stream becomes the first field, and
      the loop carries on after it. */
  lemma {:induction false} ScanFieldLine(line: string, more: string)
    requires IsFieldLine(line)
    ensures ScanFields(line + more) == ([FieldOf(line)] + ScanFields(more).0, ScanFields(more).1)
  {
    ReadLineAppend(line, more);
  }

  /** A line that is not a header line ends the loop, and the stream after it is left unread. */
  lemma {:induction false} ScanStopLine(line: string, more: string)
    requires IsLine(line) && !IsFieldLine(line)
    ensures ScanFields(line + more) == ([], more)
  {
    ReadLineAppend(line, more);
  }

  /** Every line of `lines` is a header line. */
  predicate AllFieldLines(lines: seq<string>)
    decreases |lines|
  {
    lines == [] || (IsFieldLine(lines[0]) && AllFieldLines(lines[1..]))
  }

  /** The fields of consecutive header lines, in order. */
  function FieldsOf(lines: seq<string>): seq<Field>
    requires AllFieldLines(lines)
    decreases |lines|
  {
    if lines == [] then [] else [FieldOf(lines[0])] + FieldsOf(lines[1..])
  }

  /** Header lines followed by a blank or colon-less line: exactly those
      lines become fields, in order, and nothing after the stopping line is
      looked at. */
  lemma {:induction false} ScanStopsAtLine(lines: seq<string>, stop: string, more: string)
    requires AllFieldLines(lines)
    requires IsLine(stop) && !IsFieldLine(stop)
    ensures ScanFields(Concat(lines) + (stop + more)) == (FieldsOf(lines), more)
    decreases |lines|
  {
    if lines == [] {
      assert Concat(lines) + (stop + more) == stop + more;
      ScanStopLine(stop, more);
    } else {
      var tail := Concat(lines[1..]) + (stop + more);
      ConcatFront(lines, stop + more);
      ScanFieldLine(lines[0], tail);
      ScanStopsAtLine(lines[1..], stop, more);
    }
  }

  /** Header lines followed by a read failure (no further line feed): the
      lines become fields and the request still goes ahead, with nothing left
      to read. */
  lemma {:induction false} ScanStopsAtReadFailure(lines: seq<string>, partial: string)
    requires AllFieldLines(lines)
    requires '\n' !in partial
    ensures ScanFields(Concat(lines) + partial) == (FieldsOf(lines), "")
    decreases |lines|
  {
    if lines == [] {
      assert Concat(lines) + partial == partial;
    } else {
      var tail := Concat(lines[1..]) + partial;
      ConcatFront(lines, partial);
      ScanFieldLine(lines[0], tail);
      ScanStopsAtReadFailure(lines[1..], partial);
      var fields := FieldsOf(lines[1..]);
      calc {
        ScanFields(Concat(lines) + partial);
        ScanFields(lines[0] + tail);
        ([FieldOf(lines[0])] + fields, "");
        (FieldsOf(lines), "");
      }
    }
  }

  /** The first line of a non-empty run, then the others and what follows. */
  lemma {:induction false} ConcatFront(lines: seq<string>, after: string)
    requires lines != []
    ensures Concat(lines) + after == lines[0] + (Concat(lines[1..]) + after)
  {
  }

  /** No field after position `i` has the same name: `fields[i]` is the one whose value survives. */
  predicate IsLastOfName(fields: seq<Field>, i: int)
    requires 0 <= i < |fields|
  {
    forall j :: i < j < |fields| ==> fields[j].name != fields[i].name
  }

  /** The header map the loop builds by assigning each field in turn, so a
      later field overwrites an earlier one of the same name. */
  function Collect(fields: seq<Field>): (h: Headers)
    ensures fields != [] ==> fields[|fields| - 1].name in h && h[fields[|fields| - 1].name] == fields[|fields| - 1].value
    decreases |fields|
  {
    if fields == [] then map[]
    else
      var last := fields[|fields| - 1];
      Collect(fields[..|fields| - 1])[last.name := last.value]
  }

  /** The names some field carries. */
  function Names(fields: seq<Field>): set<string> {
    set i | 0 <= i < |fields| :: fields[i].name
  }

  /** A name is in the collected map iff some field carries it. */
  lemma {:induction false} CollectKeys(fields: seq<Field>)
    ensures Collect(fields).Keys == Names(fields)
    decreases |fields|
  {
    if fields != [] {
      var n := |fields| - 1;
      var init := fields[..n];
      CollectKeys(init);
      forall k | k in Names(fields) ensures k in Names(init) + {fields[n].name} {
        var i :| 0 <= i < |fields| && fields[i].name == k;
        if i < n {
          assert init[i] == fields[i];
        }
      }
      forall k | k in Names(init) ensures k in Names(fields) {
        var i :| 0 <= i < |init| && init[i].name == k;
        assert fields[i] == init[i];
      }
    }
  }

  /** Last value wins: the value collected for a name is that of the last
      field carrying it. */
  lemma {:induction false} CollectLastWins(fields: seq<Field>)
    ensures forall i :: 0 <= i < |fields| && IsLastOfName(fields, i) ==>
      fields[i].name in Collect(fields) && Collect(fields)[fields[i].name] == fields[i].value
    decreases |fields|
  {
    if fields != [] {
      var n := |fields| - 1;
      var init := fields[..n];
      CollectLastWins(init);
      assert Collect(fields) == Collect(init)[fields[n].name := fields[n].value];
      forall i | 0 <= i < n && IsLastOfName(fields, i)
        ensures fields[i].name in Collect(fields) && Collect(fields)[fields[i].name] == fields[i].value
      {
        assert fields[i].name != fields[n].name;
        assert init[i] == fields[i];
        assert IsLastOfName(init, i) by {
          forall j | i < j < |init| ensures init[j].name != init[i].name {
            assert init[j] == fields[j];
          }
        }
      }
    }
  }

  /** `Content-Length` is present and parses as an integer above zero. */
  predicate AsksForBody(headers: Headers) {
    "Content-Length" in headers && Atoi(headers["Content-Length"]).Some? && Atoi(headers["Content-Length"]).value > 0
  }

  /** The body rule: `(body, rest)` after the header section `s`. A body is
      read only when `Content-Length` parses as an integer n > 0 and n octets
      are there; a short read leaves the body empty and consumes what was
      there; in every other case nothing is consumed. */
  function ReadBody(headers: Headers, s: string): (r: (string, string))
    ensures |r.1| <= |s|
    ensures r.0 != "" ==> "Content-Length" in headers && Atoi(headers["Content-Length"]) == Some(|r.0|)
    ensures !AsksForBody(headers) ==> r == ("", s)
    ensures AsksForBody(headers) ==>
      var n := Atoi(headers["Content-Length"]).value;
      && (n <= |s| ==> r.0 == s[..n] && r.1 == s[n..])
      && (n > |s| ==> r == ("", ""))
  {
    if "Content-Length" in headers then
      match Atoi(headers["Content-Length"])
      case None => ("", s)
      case Some(n) =>
        if n <= 0 then ("", s)
        else if n <= |s| then (s[..n], s[n..])
        else ("", "")
    else ("", s)
  }

  datatype ReadResult =
    | Parsed(request: Request, rest: string)
    | Malformed  // the request line did not split into three tokens
    | Failed     // the stream ended before a request line was complete

  /** `readRequest`: read one request from the front of the stream. It fails
      exactly when the stream ends before the first line feed, and a request
      always consumes at least its request line. */
  function ReadRequest(s: string): (r: ReadResult)
    ensures r.Failed? <==> '\n' !in s
    ensures r.Parsed? ==> ReadLine(s).Line? && |r.rest| <= |ReadLine(s).rest| < |s|
  {
    match ReadLine(s)
    case NoLine => Failed
    case Line(text, afterLine) =>
      match ParseRequestLine(text)
      case None => Malformed
      case Some(line) => ReadMessage(line, afterLine)
  }

  /** Everything after a well-formed request line: the header section, then
      the body. This part never fails. */
  function ReadMessage(line: RequestLine, s: string): (r: ReadResult)
    ensures r.Parsed? && |r.rest| <= |s|
    ensures r.request.verb == line.verb && r.request.path == line.path && r.request.protocol == line.protocol
  {
    var scanned := ScanFields(s);
    var headers := Collect(scanned.0);
    var body := ReadBody(headers, scanned.1);
    Parsed(Request(line.verb, line.path, line.protocol, headers, body.0), body.1)
  }

  /** The request line decides whether a request is produced: exactly when
      the trimmed first line holds exactly two spaces, that is, splits into
      three tokens, which become method, path and protocol in that order. */
  lemma {:induction false} ReadRequestLine(line: string, more: string)
    requires IsLine(line)
    ensures ReadRequest(line + more).Malformed? <==> multiset(TrimSpace(line))[' '] != 2
    ensures ReadRequest(line + more).Parsed? ==>
      var q := ReadRequest(line + more).request;
      && q.verb + " " + q.path + " " + q.protocol == TrimSpace(line)
      && ' ' !in q.verb && ' ' !in q.path && ' ' !in q.protocol
  {
    ReadLineAppend(line, more);
  }

  /** A whole request: a well-formed request line, header lines, a line that
      ends the header section, then the rest of the stream. The headers are
      exactly the fields of those lines, last value winning, and the body is
      taken from what follows by the body rule. */
  lemma {:induction false} ReadRequestSections(line: string, lines: seq<string>, stop: string, after: string)
    requires IsLine(line) && multiset(TrimSpace(line))[' '] == 2
    requires AllFieldLines(lines)
    requires IsLine(stop) && !IsFieldLine(stop)
    ensures
      var r := ReadRequest(line + (Concat(lines) + (stop + after)));
      var headers := Collect(FieldsOf(lines));
      && r.Parsed?
      && r.request.headers == headers
      && (r.request.body, r.rest) == ReadBody(headers, after)
  {
    var tail := Concat(lines) + (stop + after);
    ReadLineAppend(line, tail);
    var rl := ParseRequestLine(line).value;
    assert ReadRequest(line + tail) == ReadMessage(rl, tail);
    ScanStopsAtLine(lines, stop, after);
  }
}
