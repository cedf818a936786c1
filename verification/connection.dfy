/**
  The per-connection loop (`handleConnection` in app/main.go) without
  sockets, deadlines or goroutines: read a request, route it, write the
  response, then either read the next request on the same connection,
  close after a `Connection: close` request, or stop on a read or write
  failure.

  The peer's octets are a finite string; running out of them stands for
  every read failure (end of stream, the five-second idle deadline, a
  closed socket). The environment also decides, per exchange, whether
  creating a posted file succeeds and whether writing the response
  succeeds; it does so by exchange number.
 */
module Connection {
  import opened Text
  import opened Message
  import opened Reader
  import opened Routing
  import opened Writer
  import opened KeyOrder

  /** The exchanges (numbered from 0) whose file creation fails and whose
      response write fails. */
  datatype Env = Env(uncreatable: set<nat>, unwritable: set<nat>)

  /** One request answered: the request and the response whose octets
      `Wire(response)` were written. */
  datatype Served = Served(request: Request, response: Response)

  /** Why a connection ended. */
  datatype End =
    | ReadFailed            // no complete request line: end of stream, deadline or closed socket
    | MalformedRequestLine  // the request line does not split into three tokens
    | WriteFailed           // writing the response failed
    | ClosedByRequest       // the answered request carried `Connection: close`

  /** Everything one connection did: the responses written, in order, the
      file store afterwards, and how it ended. */
  datatype Session = Session(served: seq<Served>, store: Store, end: End)

  /** `request.Header["Connection"] == "close"`. */
  predicate AsksToClose(q: Request) {
    HeaderOr(q.headers, "Connection") == "close"
  }

  /** The octets written for a response: the header map enumerated in the
      fixed order this model picks for Go's map iteration. */
  function Wire(r: Response): string {
    FormatResponse(r, Arrange(r.headers.Keys))
  }

  /** The octets a connection writes: the wire form of each response
      served, in order. */
  function Output(served: seq<Served>): (out: string)
    ensures served != [] ==> served[0].response.statusLine + CRLF <= out
    decreases |served|
  {
    if served == [] then ""
    else
      var first := Wire(served[0].response);
      assert first <= first + Output(served[1..]);
      first + Output(served[1..])
  }

  /** The output of consecutive runs of exchanges is their outputs one after
      the other. */
  lemma {:induction false} OutputAppend(a: seq<Served>, b: seq<Served>)
    ensures Output(a + b) == Output(a) + Output(b)
    decreases |a|
  {
    if a != [] {
      assert (a + b)[1..] == a[1..] + b;
      OutputAppend(a[1..], b);
    } else {
      assert a + b == b;
    }
  }

  /** One more exchange appends the wire form of its response. */
  lemma {:induction false} OutputSnoc(served: seq<Served>, last: Served)
    ensures Output(served + [last]) == Output(served) + Wire(last.response)
  {
    OutputAppend(served, [last]);
    assert [last][1..] == [];
  }

  /** Earlier exchanges in front of the rest of a session. */
  function Then(before: seq<Served>, rest: Session): Session {
    Session(before + rest.served, rest.store, rest.end)
  }

  /** A reader that consumes something whenever it produces a request;
      `ReadRequest` is one (its request line at least). */
  ghost predicate Consumes(read: string -> ReadResult) {
    forall s :: read(s).Parsed? ==> |read(s).rest| < |s|
  }

  /** The loop from exchange number `cycle` on, over the unread stream `s`,
      taking each request from the stream with `read`. */
  function Run(router: Router, read: string -> ReadResult, s: string, store: Store, env: Env, cycle: nat): (r: Session)
    requires Consumes(read)
    ensures r.end == ClosedByRequest ==> |r.served| > 0
    ensures |r.served| <= |s|
    decreases |s|
  {
    match read(s)
    case Failed => Session([], store, ReadFailed)
    case Malformed => Session([], store, MalformedRequestLine)
    case Parsed(q, rest) =>
      var o := HandleRequest(router, q, store, cycle !in env.uncreatable);
      if cycle in env.unwritable then Session([], o.store, WriteFailed)
      else if AsksToClose(q) then Session([Served(q, o.response)], o.store, ClosedByRequest)
      else Then([Served(q, o.response)], Run(router, read, rest, o.store, env, cycle + 1))
  }

  /** The server's connection: the loop over the whole input, reading with
      the request parser, from exchange 0. */
  function Serve(router: Router, input: string, store: Store, env: Env): (r: Session)
    ensures r.end == ClosedByRequest ==> |r.served| > 0
    ensures |r.served| <= |input|
  {
    ReadRequestConsumes();
    Run(router, ReadRequest, input, store, env, 0)
  }

  lemma {:induction false} ReadRequestConsumes()
    ensures Consumes(ReadRequest)
  {
  }

  /** `handleConnection`: the loop as the server runs it, one request per
      iteration, against the functional description `Serve`. */
  method HandleConnection(router: Router, input: string, store: Store, env: Env) returns (session: Session, written: string)
    ensures session == Serve(router, input, store, env)
    ensures written == Output(session.served)
    ensures Declared(session) && KeptOpen(session) && ClosedIffAsked(session)
  {
    ReadRequestConsumes();
    session, written := Loop(router, ReadRequest, input, store, env);
    ResponsesDeclared(router, ReadRequest, input, store, env, 0);
    OnlyLastCloses(router, ReadRequest, input, store, env, 0);
    ClosesWhenAsked(router, ReadRequest, input, store, env, 0);
  }

  /** The loop of `handleConnection` for any reader that consumes what it
      parses: read, route, give up if the write fails, stop after a
      `Connection: close` request, else go round again on the rest. */
  method Loop(router: Router, read: string -> ReadResult, input: string, store: Store, env: Env) returns (session: Session, written: string)
    requires Consumes(read)
    ensures session == Run(router, read, input, store, env, 0)
    ensures written == Output(session.served)
  {
    written := "";
    var served: seq<Served> := [];
    var s := input;
    var files := store;
    var cycle: nat := 0;
    while true
      invariant Run(router, read, input, store, env, 0) == Then(served, Run(router, read, s, files, env, cycle))
      invariant written == Output(served)
      decreases |s|
    {
      var next := read(s);
      ghost var now := Run(router, read, s, files, env, cycle);
      if next.Failed? {
        assert now == Session([], files, ReadFailed);
        session := Session(served, files, ReadFailed);
        assert served + [] == served;
        break;
      } else if next.Malformed? {
        assert now == Session([], files, MalformedRequestLine);
        session := Session(served, files, MalformedRequestLine);
        assert served + [] == served;
        break;
      }
      var q := next.request;
      var o := HandleRequest(router, q, files, cycle !in env.uncreatable);
      if cycle in env.unwritable {
        WriteFailureEnds(router, read, s, files, env, cycle);
        session := Session(served, o.store, WriteFailed);
        assert served + [] == served;
        break;
      }
      OutputSnoc(served, Served(q, o.response));
      written := written + Wire(o.response);
      if AsksToClose(q) {
        CloseStopsReading(router, read, s, files, env, cycle);
        session := Session(served + [Served(q, o.response)], o.store, ClosedByRequest);
        break;
      }
      KeepAlive(router, read, s, files, env, cycle);
      ThenThen(served, [Served(q, o.response)], Run(router, read, next.rest, o.store, env, cycle + 1));
      served := served + [Served(q, o.response)];
      files := o.store;
      s := next.rest;
      cycle := cycle + 1;
    }
  }

  /** A stream with no complete request line: the connection ends and
      nothing is written. */
  lemma {:induction false} ReadFailureEnds(router: Router, input: string, store: Store, env: Env)
    requires '\n' !in input
    ensures Serve(router, input, store, env) == Session([], store, ReadFailed)
  {
  }

  /** The intended behaviour, which the model follows: a request line of
      the wrong shape ends the connection with nothing written and the store
      untouched, whatever follows it on the stream. */
  lemma {:induction false} MalformedEnds(router: Router, line: string, more: string, store: Store, env: Env)
    requires IsLine(line) && multiset(TrimSpace(line))[' '] != 2
    ensures Serve(router, line + more, store, env) == Session([], store, MalformedRequestLine)
  {
    ReadRequestLine(line, more);
  }

  /** A request whose response cannot be written ends the connection with
      nothing more written and nothing more read. */
  lemma {:induction false} WriteFailureEnds(router: Router, read: string -> ReadResult, s: string, store: Store, env: Env, cycle: nat)
    requires Consumes(read)
    requires read(s).Parsed? && cycle in env.unwritable
    ensures Run(router, read, s, store, env, cycle).served == []
    ensures Run(router, read, s, store, env, cycle).end == WriteFailed
  {
  }

  /** After `Connection: close` is answered, nothing more is read: the
      session is that one response whatever the stream holds next. */
  lemma {:induction false} CloseStopsReading(router: Router, read: string -> ReadResult, s: string, store: Store, env: Env, cycle: nat)
    requires Consumes(read)
    requires read(s).Parsed? && cycle !in env.unwritable
    requires AsksToClose(read(s).request)
    ensures var q := read(s).request;
      var o := HandleRequest(router, q, store, cycle !in env.uncreatable);
      Run(router, read, s, store, env, cycle) == Session([Served(q, o.response)], o.store, ClosedByRequest)
  {
  }

  /** Keep-alive: after any other request is answered, the loop reads the
      next request from the rest of the same stream. */
  lemma {:induction false} KeepAlive(router: Router, read: string -> ReadResult, s: string, store: Store, env: Env, cycle: nat)
    requires Consumes(read)
    requires read(s).Parsed? && cycle !in env.unwritable
    requires !AsksToClose(read(s).request)
    ensures var q := read(s).request;
      var o := HandleRequest(router, q, store, cycle !in env.uncreatable);
      var next := Run(router, read, read(s).rest, o.store, env, cycle + 1);
      Run(router, read, s, store, env, cycle) == Then([Served(q, o.response)], next)
  {
  }

  /** Every written response declares the length of a non-empty body. */
  ghost predicate Declared(r: Session) {
    forall i :: 0 <= i < |r.served| ==> LengthDeclared(r.served[i].response)
  }

  /** Every answered request but the last kept the connection open. */
  ghost predicate KeptOpen(r: Session) {
    forall i :: 0 <= i < |r.served| - 1 ==> !AsksToClose(r.served[i].request)
  }

  /** The session ended by closing exactly when the last answered request
      asked for it. */
  ghost predicate ClosedIffAsked(r: Session) {
    r.end == ClosedByRequest <==> |r.served| > 0 && AsksToClose(r.served[|r.served| - 1].request)
  }

  /** Every response a session writes declares the length of a non-empty
      body. */
  lemma {:induction false} ResponsesDeclared(router: Router, read: string -> ReadResult, s: string, store: Store, env: Env, cycle: nat)
    requires Consumes(read)
    ensures Declared(Run(router, read, s, store, env, cycle))
    decreases |s|
  {
    match read(s)
    case Failed =>
    case Malformed =>
    case Parsed(q, rest) =>
      var o := HandleRequest(router, q, store, cycle !in env.uncreatable);
      if cycle !in env.unwritable && !AsksToClose(q) {
        var next := Run(router, read, rest, o.store, env, cycle + 1);
        ResponsesDeclared(router, read, rest, o.store, env, cycle + 1);
        KeepAlive(router, read, s, store, env, cycle);
        ShiftServed(Served(q, o.response), next.served);
      }
  }

  /** Every request a session answers but the last kept the connection
      open. */
  lemma {:induction false} OnlyLastCloses(router: Router, read: string -> ReadResult, s: string, store: Store, env: Env, cycle: nat)
    requires Consumes(read)
    ensures KeptOpen(Run(router, read, s, store, env, cycle))
    decreases |s|
  {
    match read(s)
    case Failed =>
    case Malformed =>
    case Parsed(q, rest) =>
      var o := HandleRequest(router, q, store, cycle !in env.uncreatable);
      if cycle !in env.unwritable && !AsksToClose(q) {
        var next := Run(router, read, rest, o.store, env, cycle + 1);
        OnlyLastCloses(router, read, rest, o.store, env, cycle + 1);
        KeepAlive(router, read, s, store, env, cycle);
        ShiftServed(Served(q, o.response), next.served);
      }
  }

  /** A session ends by closing exactly when its last answered request
      asked for it. */
  lemma {:induction false} ClosesWhenAsked(router: Router, read: string -> ReadResult, s: string, store: Store, env: Env, cycle: nat)
    requires Consumes(read)
    ensures ClosedIffAsked(Run(router, read, s, store, env, cycle))
    decreases |s|
  {
    match read(s)
    case Failed =>
    case Malformed =>
    case Parsed(q, rest) =>
      var o := HandleRequest(router, q, store, cycle !in env.uncreatable);
      if cycle !in env.unwritable && !AsksToClose(q) {
        var next := Run(router, read, rest, o.store, env, cycle + 1);
        ClosesWhenAsked(router, read, rest, o.store, env, cycle + 1);
        KeepAlive(router, read, s, store, env, cycle);
        ShiftServed(Served(q, o.response), next.served);
      }
  }

  /** Earlier exchanges can be put in front in one go or in two. */
  lemma {:induction false} ThenThen(a: seq<Served>, b: seq<Served>, r: Session)
    ensures Then(a, Then(b, r)) == Then(a + b, r)
  {
    assert a + (b + r.served) == (a + b) + r.served;
  }

  /** Putting one exchange in front shifts every later index by one. */
  lemma {:induction false} ShiftServed(first: Served, later: seq<Served>)
    ensures ([first] + later)[0] == first
    ensures forall i :: 0 < i < |later| + 1 ==> ([first] + later)[i] == later[i - 1]
  {
  }
}
