/**
  The request-line check of `readRequest` as the Go code has it. When the
  trimmed request line does not split into three tokens, `readRequest`
  returns a nil request together with `err`, but `err` at that point is the
  nil error of the successful line read. The connection loop sees no error
  and hands the nil request to the router, whose first field access
  dereferences it: the goroutine panics, and an unrecovered panic ends the
  whole server process.

  The rest of the model uses the evident intent instead (`Reader.ReadRequest`
  answers `Malformed`, and the connection closes without a response);
  `Connection.MalformedEnds` proves that behaviour.

  The body read as the Go code has it is here too. `readRequest` allocates
  the whole body, `make([]byte, contentLength)`, before reading any of it.
  A `Content-Length` above the runtime's allocation limit makes `make`
  panic, which again ends the process. The rest of the model reads such a
  body as the short read it always is (`Reader.ReadBody`).
 */
module AsWritten {
  import opened Optional
  import opened Text
  import opened Decimal
  import opened Message
  import opened Reader
  import opened Routing

  /** What Go's `readRequest` hands back: the request pointer (`None` for
      nil) and whether the error it returns is non-nil. */
  datatype GoRead = GoRead(request: Option<Request>, failed: bool)

  /** The request-line handling of `readRequest` as written: a read failure
      returns the read's error, a request line of the wrong shape returns nil
      with a nil error, anything else returns the request. The headers and
      the body are read with the intended rules of `Reader`; the allocation
      panic of the body read is modelled on its own by `ReadBodyAsWritten`. */
  function ReadRequestAsWritten(s: string): (r: GoRead)
    ensures r.failed <==> '\n' !in s
    ensures r.request.Some? <==> ReadRequest(s).Parsed?
    ensures r.request.Some? ==> r.request.value == ReadRequest(s).request
  {
    match ReadRequest(s)
    case Failed => GoRead(None, true)
    case Malformed => GoRead(None, false)
    case Parsed(q, _) => GoRead(Some(q), false)
  }

  /** How the first iteration of the loop as written goes. */
  datatype FirstStep =
    | Stopped                 // `readRequest` returned an error: the loop returns
    | NilDereference          // the router was handed a nil request
    | Answered(response: Response)

  /** The first iteration as written: stop on an error, otherwise route the
      request pointer, whatever it is. */
  function FirstStepAsWritten(router: Router, s: string, store: Store, created: bool): (step: FirstStep)
    ensures step.Stopped? <==> ReadRequest(s).Failed?
    ensures step.NilDereference? <==> ReadRequest(s).Malformed?
  {
    var r := ReadRequestAsWritten(s);
    if r.failed then Stopped
    else
      match r.request
      case None => NilDereference
      case Some(q) => Answered(HandleRequest(router, q, store, created).response)
  }

  /** Every complete request line that does not split into three tokens
      reaches the router as a nil request. */
  lemma {:induction false} MalformedLinePanics(router: Router, line: string, more: string, store: Store, created: bool)
    requires IsLine(line) && multiset(TrimSpace(line))[' '] != 2
    ensures FirstStepAsWritten(router, line + more, store, created) == NilDereference
  {
    ReadRequestLine(line, more);
  }

  /** `GET /` with no protocol is a complete line whose trimmed text holds
      one space. */
  lemma {:induction false} TwoTokenLine()
    ensures IsLine("GET /\r\n") && multiset(TrimSpace("GET /\r\n"))[' '] == 1
  {
    var line := "GET /\r\n";
    assert line[..|line| - 1] == "GET /\r";
    TwoTokenTrim();
    assert multiset("GET /") == multiset{'G', 'E', 'T', ' ', '/'};
  }

  /** Trimming the line leaves `GET /`. */
  lemma {:induction false} TwoTokenTrim()
    ensures TrimSpace("GET /\r\n") == "GET /"
  {
    var post := "\r\n";
    assert IsSpace(post[0]) && IsSpace(post[1]);
    assert "GET /\r\n" == "" + "GET /" + post;
    TrimSpaceStrip("", "GET /", post);
  }

  /** The smallest such request: `GET /` with no protocol, whatever follows
      it and whatever the files. */
  lemma {:induction false} TwoTokenLinePanics(more: string, store: Store, created: bool)
    ensures FirstStepAsWritten(NewRouter(), "GET /\r\n" + more, store, created) == NilDereference
  {
    TwoTokenLine();
    MalformedLinePanics(NewRouter(), "GET /\r\n", more, store, created);
  }

  /** The largest allocation the Go runtime grants on a 64-bit Linux
      platform (`maxAlloc`, 2^48 octets); `make` asked for more panics with
      "len out of range". */
  const MaxAlloc: int := 0x1_0000_0000_0000

  /** The body read as written: the panic, or what `Reader.ReadBody` reads. */
  datatype BodyRead = Body(body: string, rest: string) | MakeslicePanic

  /** The body rule as written: a positive `Content-Length` above the
      allocation limit panics in `make`; anything else reads as
      `Reader.ReadBody` does. */
  function ReadBodyAsWritten(headers: Headers, s: string): (r: BodyRead)
    ensures r.MakeslicePanic? <==> AsksForBody(headers) && Atoi(headers["Content-Length"]).value > MaxAlloc
    ensures r.Body? ==> (r.body, r.rest) == ReadBody(headers, s)
  {
    if AsksForBody(headers) && Atoi(headers["Content-Length"]).value > MaxAlloc then MakeslicePanic
    else
      var read := ReadBody(headers, s);
      Body(read.0, read.1)
  }

  /** Every declared length above the allocation limit that `strconv.Atoi`
      accepts crashes the read, whatever the stream holds; the intended rule
      (`Reader.ReadBody`) takes it as a short read instead. */
  lemma {:induction false} HugeLengthPanics(n: nat, s: string)
    requires MaxAlloc < n <= MaxInt
    ensures ReadBodyAsWritten(map["Content-Length" := Itoa(n)], s) == MakeslicePanic
    ensures n > |s| ==> ReadBody(map["Content-Length" := Itoa(n)], s) == ("", "")
  {
    AtoiItoa(n);
  }

  /** The smallest such length, 281474976710657, on an empty stream. */
  lemma {:induction false} LimitPlusOnePanics()
    ensures ReadBodyAsWritten(map["Content-Length" := Itoa(MaxAlloc + 1)], "") == MakeslicePanic
  {
    HugeLengthPanics(MaxAlloc + 1, "");
  }
}
