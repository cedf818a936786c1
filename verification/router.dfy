/**
  The router and its handlers (app/routes.go). A request is dispatched by
  an exact-path table first, then by an ordered list of path prefixes where
  the first literal prefix wins; an unmatched path gets a fixed 404. A
  handled response is then labelled with the `gzip` tokens of the request's
  `Accept-Encoding` field (compare the Accept-Encoding and Content-Encoding
  fields of sections 12.5.3 and 8.4 of RFC 9110); nothing is compressed.

  The file handler's directory is an abstract store from file name to
  contents. Whether creating and writing a file succeeds is decided by the
  environment and arrives as a flag.
 */
module Routing {
  import opened Optional
  import opened Text
  import opened Decimal
  import opened Message

  /** The file store under the configured directory: file name to contents. */
  type Store = map<string, string>

  datatype Handler = Root | UserAgent | Echo | Files

  datatype PrefixRoute = PrefixRoute(prefix: string, handler: Handler)

  /** An exact-path table and a prefix list scanned in registration order. */
  datatype Router = Router(routes: map<string, Handler>, prefixRoutes: seq<PrefixRoute>)

  /** A handler's response, and the store after it ran. */
  datatype Outcome = Outcome(response: Response, store: Store)

  const StatusOk: string := "HTTP/1.1 200 OK"
  const StatusCreated: string := "HTTP/1.1 201 Created"
  const StatusNotFound: string := "HTTP/1.1 404 Not Found"

  const EchoPrefix: string := "/echo/"
  const FilesPrefix: string := "/files/"

  /** `NewRouter`: the route table the server is built with. */
  function NewRouter(): Router {
    Router(
      map["/" := Root, "/user-agent" := UserAgent],
      [PrefixRoute(EchoPrefix, Echo), PrefixRoute(FilesPrefix, Files)])
  }

  /** The response with no headers and no body. */
  function Bare(status: string): Response {
    Response(status, map[], "")
  }

  /** The index of the first prefix route whose prefix starts `path`, if any. */
  function FirstMatch(routes: seq<PrefixRoute>, path: string): (r: Option<nat>)
    ensures r.None? <==> forall i :: 0 <= i < |routes| ==> !(routes[i].prefix <= path)
    ensures r.Some? ==> r.value < |routes| && routes[r.value].prefix <= path
    ensures r.Some? ==> forall j :: 0 <= j < r.value ==> !(routes[j].prefix <= path)
    decreases |routes|
  {
    if routes == [] then None
    else if routes[0].prefix <= path then Some(0)
    else
      match FirstMatch(routes[1..], path)
      case None => None
      case Some(i) => Some(i + 1)
  }

  /** `isValidRequest`: the handler for `path`. An exact route always wins,
      whatever prefix also matches; otherwise the first matching prefix in
      registration order decides, and no match means no handler. */
  function IsValidRequest(router: Router, path: string): (r: Option<Handler>)
    ensures path in router.routes ==> r == Some(router.routes[path])
    ensures path !in router.routes ==>
      (r.None? <==> forall i :: 0 <= i < |router.prefixRoutes| ==> !(router.prefixRoutes[i].prefix <= path))
    ensures path !in router.routes && r.Some? ==>
      exists i :: 0 <= i < |router.prefixRoutes| && router.prefixRoutes[i].prefix <= path
        && r.value == router.prefixRoutes[i].handler
        && forall j :: 0 <= j < i ==> !(router.prefixRoutes[j].prefix <= path)
  {
    if path in router.routes then Some(router.routes[path])
    else
      match FirstMatch(router.prefixRoutes, path)
      case None => None
      case Some(i) => Some(router.prefixRoutes[i].handler)
  }

  /** The two registered prefixes are disjoint: no path starts with both,
      so at most one prefix route ever matches. */
  lemma {:induction false} PrefixesDisjoint(path: string)
    ensures !(EchoPrefix <= path && FilesPrefix <= path)
  {
    assert EchoPrefix[1] != FilesPrefix[1];
  }

  /** Dispatch by the server's table, stated as a plain case distinction:
      the two exact paths, then `/echo/` and `/files/` paths, else nothing. */
  lemma {:induction false} NewRouterDispatch(path: string)
    ensures IsValidRequest(NewRouter(), path) ==
      if path == "/" then Some(Root)
      else if path == "/user-agent" then Some(UserAgent)
      else if EchoPrefix <= path then Some(Echo)
      else if FilesPrefix <= path then Some(Files)
      else None
  {
    var router := NewRouter();
    if path !in router.routes {
      var m := FirstMatch(router.prefixRoutes, path);
      if EchoPrefix <= path {
        assert router.prefixRoutes[0].prefix <= path;
        assert m == Some(0);
      } else if FilesPrefix <= path {
        assert router.prefixRoutes[1].prefix <= path;
        assert m == Some(1);
      } else {
        assert m.None?;
      }
    }
  }

  /** `handleRoot`: 200 with no headers and no body. */
  function HandleRoot(q: Request): (r: Response)
    ensures r.statusLine == StatusOk && r.headers == map[] && r.body == ""
  {
    Bare(StatusOk)
  }

  /** A 200 plain-text response carrying `body`, as `handleUserAgent` and `handleEcho` build it. */
  function PlainText(body: string): Response {
    Response(StatusOk, map["Content-Type" := "text/plain", "Content-Length" := Itoa(|body|)], body)
  }

  /** `handleUserAgent`: the request's `User-Agent` value as a plain-text
      body, empty when the field is absent. */
  function HandleUserAgent(q: Request): (r: Response)
    ensures r.statusLine == StatusOk && LengthDeclared(r)
    ensures "User-Agent" in q.headers ==> r.body == q.headers["User-Agent"]
    ensures "User-Agent" !in q.headers ==> r.body == ""
    ensures r.headers.Keys == {"Content-Type", "Content-Length"} && r.headers["Content-Type"] == "text/plain"
  {
    PlainText(HeaderOr(q.headers, "User-Agent"))
  }

  /** `handleEcho`: the path after `/echo/` as a plain-text body, with no decoding. */
  function HandleEcho(q: Request): (r: Response)
    ensures r.statusLine == StatusOk && LengthDeclared(r)
    ensures EchoPrefix <= q.path ==> EchoPrefix + r.body == q.path
    ensures r.headers.Keys == {"Content-Type", "Content-Length"} && r.headers["Content-Type"] == "text/plain"
  {
    PlainText(CutPrefix(q.path, EchoPrefix))
  }

  /** `handleFiles`. A POST (any letter case) creates or overwrites the file
      named by the path after `/files/` with the request body and answers 201
      with nothing else, whether or not the write took place (`created`). Any
      other method reads the file: 200 with its octets when it exists, a bare
      404 otherwise, and the store is left as it was. */
  function HandleFiles(q: Request, store: Store, created: bool): (o: Outcome)
    ensures LengthDeclared(o.response)
    ensures EqualFold(q.verb, "POST") ==> o.response == Bare(StatusCreated)
    ensures EqualFold(q.verb, "POST") && created ==> o.store == store[CutPrefix(q.path, FilesPrefix) := q.body]
    ensures !(EqualFold(q.verb, "POST") && created) ==> o.store == store
    ensures !EqualFold(q.verb, "POST") ==>
      var name := CutPrefix(q.path, FilesPrefix);
      && (name in store ==>
            && o.response.statusLine == StatusOk
            && o.response.body == store[name]
            && o.response.headers == map["Content-Type" := "application/octet-stream", "Content-Length" := Itoa(|store[name]|)])
      && (name !in store ==> o.response == Bare(StatusNotFound))
  {
    var name := CutPrefix(q.path, FilesPrefix);
    if EqualFold(q.verb, "POST") then
      Outcome(Bare(StatusCreated), if created then store[name := q.body] else store)
    else if name in store then
      var content := store[name];
      Outcome(Response(StatusOk, map["Content-Type" := "application/octet-stream", "Content-Length" := Itoa(|content|)], content), store)
    else
      Outcome(Bare(StatusNotFound), store)
  }

  /** Runs the handler a route selected. Only the file handler touches the store. */
  function Dispatch(h: Handler, q: Request, store: Store, created: bool): (o: Outcome)
    ensures LengthDeclared(o.response)
    ensures "Content-Encoding" !in o.response.headers
    ensures h != Files ==> o.store == store
  {
    match h
    case Root => Outcome(HandleRoot(q), store)
    case UserAgent => Outcome(HandleUserAgent(q), store)
    case Echo => Outcome(HandleEcho(q), store)
    case Files => HandleFiles(q, store, created)
  }

  /** The `Accept-Encoding` tokens the server keeps: only those equal to
      `gzip` once trimmed, as many as there are. */
  function KeptEncodings(tokens: seq<string>): (kept: seq<string>)
  {
    Keep(Trimmed(tokens))
  }

  /** The trimmed tokens that are a valid coding, in order. */
  function Keep(trimmed: seq<string>): (kept: seq<string>)
    decreases |trimmed|
  {
    if trimmed == [] then []
    else (if IsValidEncoding(trimmed[0]) then [trimmed[0]] else []) + Keep(trimmed[1..])
  }

  /** What is kept is `gzip`, once for each `gzip` token. */
  lemma {:induction false} KeepCounts(trimmed: seq<string>)
    ensures Keep(trimmed) == Copies("gzip", multiset(trimmed)["gzip"])
    decreases |trimmed|
  {
    if trimmed != [] {
      var head, tail := trimmed[0], trimmed[1..];
      KeepCounts(tail);
      assert trimmed == [head] + tail;
      assert multiset(trimmed) == multiset([head]) + multiset(tail);
      if IsValidEncoding(head) {
        assert multiset(trimmed)["gzip"] == multiset(tail)["gzip"] + 1;
        assert Keep(trimmed) == [head] + Keep(tail);
      } else {
        assert multiset(trimmed)["gzip"] == multiset(tail)["gzip"];
        assert Keep(trimmed) == Keep(tail);
      }
    }
  }

  /** `n` copies of `s`. */
  function Copies(s: string, n: nat): seq<string>
    decreases n
  {
    if n == 0 then [] else [s] + Copies(s, n - 1)
  }

  /** Every token, trimmed. */
  function Trimmed(tokens: seq<string>): (r: seq<string>)
    decreases |tokens|
  {
    if tokens == [] then [] else [TrimSpace(tokens[0])] + Trimmed(tokens[1..])
  }

  /** `isValidEncoding`: the one content coding the server admits. */
  predicate IsValidEncoding(coding: string) {
    coding == "gzip"
  }

  /** A token is kept iff it is among the trimmed tokens and is a valid
      coding: the comparison is exact, so `GZIP` or `x-gzip` is dropped. */
  lemma {:induction false} KeepOnlyValid(trimmed: seq<string>)
    ensures forall c :: c in Keep(trimmed) <==> c in trimmed && IsValidEncoding(c)
    decreases |trimmed|
  {
    if trimmed != [] {
      KeepOnlyValid(trimmed[1..]);
      assert trimmed == [trimmed[0]] + trimmed[1..];
    }
  }

  /** The label for an `Accept-Encoding` value: its comma-separated tokens,
      trimmed, keeping those equal to `gzip`, joined with `", "`. It is empty
      exactly when no token is `gzip`. */
  function EncodingLabel(value: string): (tag: string)
    ensures tag == "" <==> "gzip" !in Trimmed(Split(value, ','))
  {
    var n := multiset(Trimmed(Split(value, ',')))["gzip"];
    KeepCounts(Trimmed(Split(value, ',')));
    CopiesJoinEmpty("gzip", n, ", ");
    Join(KeptEncodings(Split(value, ',')), ", ")
  }

  /** The label is `gzip` once per `gzip` token, joined with `", "`: the
      number of `gzip` tokens, not their spelling, decides it. */
  lemma {:induction false} LabelCountsGzip(value: string)
    ensures EncodingLabel(value) == Join(Copies("gzip", multiset(Trimmed(Split(value, ',')))["gzip"]), ", ")
  {
    KeepCounts(Trimmed(Split(value, ',')));
  }

  /** Copies of a non-empty text join to the empty text only when there are none. */
  lemma {:induction false} CopiesJoinEmpty(s: string, n: nat, sep: string)
    requires s != ""
    ensures Join(Copies(s, n), sep) == "" <==> n == 0
  {
    if n > 1 {
      assert Copies(s, n)[0] == s;
      assert |Join(Copies(s, n), sep)| >= |s|;
    }
  }

  /** `hasEncoding`: a label exactly when the request carries
      `Accept-Encoding`, even when no token survives and the label is empty. */
  function HasEncoding(headers: Headers): (r: Option<string>)
    ensures r.Some? <==> "Accept-Encoding" in headers
    ensures r.Some? ==> r.value == EncodingLabel(headers["Accept-Encoding"])
  {
    if "Accept-Encoding" in headers then Some(EncodingLabel(headers["Accept-Encoding"])) else None
  }

  /** `HandleRequest`: the response to a request, which always declares
      the length of a non-empty body. */
  function HandleRequest(router: Router, q: Request, store: Store, created: bool): (o: Outcome)
    ensures LengthDeclared(o.response)
  {
    match IsValidRequest(router, q.path)
    case None => Outcome(Bare(StatusNotFound), store)
    case Some(h) =>
      var handled := Dispatch(h, q, store, created);
      match HasEncoding(q.headers)
      case None => handled
      case Some(tag) =>
        var r := handled.response;
        Outcome(r.(headers := r.headers["Content-Encoding" := tag]), handled.store)
  }

  /** What `HandleRequest` does with the route it finds. An unrouted path
      gets a bare 404 and nothing else happens (no `Content-Encoding`
      either). A routed request gets its handler's response, with
      `Content-Encoding` set to the label whenever the request has
      `Accept-Encoding`, even to an empty one; the body, the status line and
      every other header, `Content-Length` included, are the handler's. */
  lemma {:induction false} HandleRequestLabels(router: Router, q: Request, store: Store, created: bool)
    ensures var o := HandleRequest(router, q, store, created);
      IsValidRequest(router, q.path).None? ==> o == Outcome(Bare(StatusNotFound), store)
    ensures var o := HandleRequest(router, q, store, created);
      IsValidRequest(router, q.path).Some? ==>
      var handled := Dispatch(IsValidRequest(router, q.path).value, q, store, created);
      && o.store == handled.store
      && o.response.statusLine == handled.response.statusLine
      && o.response.body == handled.response.body
      && (forall k :: k in handled.response.headers ==> k in o.response.headers)
      && (forall k :: k in o.response.headers && k != "Content-Encoding" ==>
            k in handled.response.headers && o.response.headers[k] == handled.response.headers[k])
      && ("Content-Encoding" in o.response.headers <==> "Accept-Encoding" in q.headers)
      && ("Accept-Encoding" in q.headers ==>
            o.response.headers["Content-Encoding"] == EncodingLabel(q.headers["Accept-Encoding"]))
  {
  }

  /** `GET /echo/<s>` answers 200 with body `s`, `Content-Type: text/plain`
      and `Content-Length` the decimal length of `s`, and stores nothing. */
  lemma {:induction false} EchoRouted(q: Request, store: Store, created: bool)
    requires EchoPrefix <= q.path
    ensures var o := HandleRequest(NewRouter(), q, store, created);
      && o.store == store
      && o.response.statusLine == StatusOk
      && EchoPrefix + o.response.body == q.path
      && "Content-Type" in o.response.headers && o.response.headers["Content-Type"] == "text/plain"
      && "Content-Length" in o.response.headers && o.response.headers["Content-Length"] == Itoa(|o.response.body|)
  {
    NewRouterDispatch(q.path);
    assert q.path != "/" && q.path != "/user-agent" by {
      assert q.path[1] == 'e';
    }
    assert IsValidRequest(NewRouter(), q.path) == Some(Echo);
    var handled := Dispatch(Echo, q, store, created);
    assert handled.response == HandleEcho(q);
    assert EchoPrefix + handled.response.body == q.path;
  }

  /** `/user-agent` answers 200 with the `User-Agent` value (empty when
      absent) as a plain-text body of declared length. */
  lemma {:induction false} UserAgentRouted(q: Request, store: Store, created: bool)
    requires q.path == "/user-agent"
    ensures var o := HandleRequest(NewRouter(), q, store, created);
      && o.store == store
      && o.response.statusLine == StatusOk
      && o.response.body == HeaderOr(q.headers, "User-Agent")
      && "Content-Type" in o.response.headers && o.response.headers["Content-Type"] == "text/plain"
      && "Content-Length" in o.response.headers && o.response.headers["Content-Length"] == Itoa(|o.response.body|)
  {
    NewRouterDispatch(q.path);
  }

  /** A path no route matches gets exactly the bare 404: no header at all,
      `Content-Encoding` included, no body, and the store is untouched. */
  lemma {:induction false} UnroutedNotFound(q: Request, store: Store, created: bool)
    requires q.path != "/" && q.path != "/user-agent"
    requires !(EchoPrefix <= q.path) && !(FilesPrefix <= q.path)
    ensures HandleRequest(NewRouter(), q, store, created) == Outcome(Response(StatusNotFound, map[], ""), store)
  {
    NewRouterDispatch(q.path);
  }

  /** A missing file is a 404 with no body and neither `Content-Type` nor
      `Content-Length`; only the encoding label can appear. */
  lemma {:induction false} MissingFile(q: Request, store: Store, created: bool)
    requires FilesPrefix <= q.path && q.path[|FilesPrefix|..] !in store
    requires !EqualFold(q.verb, "POST")
    ensures var o := HandleRequest(NewRouter(), q, store, created);
      && o.store == store
      && o.response.statusLine == StatusNotFound
      && o.response.body == ""
      && o.response.headers.Keys <= {"Content-Encoding"}
  {
    NewRouterDispatch(q.path);
    PrefixesDisjoint(q.path);
    HandleRequestLabels(NewRouter(), q, store, created);
    var handled := HandleFiles(q, store, created);
    assert handled.response == Bare(StatusNotFound) && handled.store == store;
  }

  /** The file round trip: after a POST of `content` to `/files/<name>` whose
      write succeeds, any other method on the same path answers 200 with
      exactly `content` and its length as `Content-Length`. */
  lemma {:induction false} FileRoundTrip(post: Request, get: Request, store: Store, later: bool)
    requires FilesPrefix <= post.path && get.path == post.path
    requires EqualFold(post.verb, "POST") && !EqualFold(get.verb, "POST")
    ensures var posted := HandleRequest(NewRouter(), post, store, true);
      var fetched := HandleRequest(NewRouter(), get, posted.store, later);
      && posted.response.statusLine == StatusCreated
      && posted.response.body == ""
      && fetched.response.statusLine == StatusOk
      && fetched.response.body == post.body
      && "Content-Length" in fetched.response.headers
      && fetched.response.headers["Content-Length"] == Itoa(|post.body|)
  {
    NewRouterDispatch(post.path);
    PrefixesDisjoint(post.path);
    var posted := HandleRequest(NewRouter(), post, store, true);
    HandleRequestLabels(NewRouter(), post, store, true);
    HandleRequestLabels(NewRouter(), get, posted.store, later);
    assert posted.store == HandleFiles(post, store, true).store;
    assert posted.store == store[CutPrefix(post.path, FilesPrefix) := post.body];
    var fetched := HandleFiles(get, posted.store, later);
    assert fetched.response.body == post.body;
  }

  /** A `gzip` token followed by another coding (as in `gzip, br`) is
      labelled `gzip`: the other coding is dropped. */
  lemma {:induction false} GzipKept(first: string, second: string)
    requires ',' !in first && ',' !in second
    requires TrimSpace(first) == "gzip" && TrimSpace(second) != "gzip"
    ensures EncodingLabel(first + "," + second) == "gzip"
  {
    var value := first + "," + second;
    TwoTokens(first, second);
    TrimmedPair(first, second);
    SingleGzip(value);
  }

  /** Two tokens, trimmed, the first to `gzip` and the second not: one `gzip`. */
  lemma {:induction false} TrimmedPair(first: string, second: string)
    requires TrimSpace(first) == "gzip" && TrimSpace(second) != "gzip"
    ensures multiset(Trimmed([first, second]))["gzip"] == 1
  {
    TrimmedTwo(first, second);
    OneOfTwo("gzip", TrimSpace(second));
  }

  /** Two tokens trim one by one. */
  lemma {:induction false} TrimmedTwo(first: string, second: string)
    ensures Trimmed([first, second]) == [TrimSpace(first), TrimSpace(second)]
  {
    assert [second][1..] == [];
    assert Trimmed([second]) == [TrimSpace(second)] + Trimmed([]);
    assert [first, second][1..] == [second];
  }

  /** `gzip` beside a different token occurs once. */
  lemma {:induction false} OneOfTwo(a: string, b: string)
    requires a == "gzip" && b != "gzip"
    ensures multiset([a, b])["gzip"] == 1
  {
    assert multiset([a, b]) == multiset{a} + multiset{b};
  }

  /** A value with exactly one `gzip` token is labelled `gzip`. */
  lemma {:induction false} SingleGzip(value: string)
    requires multiset(Trimmed(Split(value, ',')))["gzip"] == 1
    ensures EncodingLabel(value) == "gzip"
  {
    LabelCountsGzip(value);
    assert Copies("gzip", 1) == ["gzip"];
    assert Join(["gzip"], ", ") == "gzip";
  }

  /** Two comma-free tokens around one comma split back into the two. */
  lemma {:induction false} TwoTokens(first: string, second: string)
    requires ',' !in first && ',' !in second
    ensures Split(first + "," + second, ',') == [first, second]
  {
    assert first + "," + second == first + [','] + second;
    SplitAtFirst(first, ',', second);
    SplitWhole(second, ',');
  }

  /** A single coding other than `gzip` (as in `br`) is labelled with the
      empty string, and the label is still set. */
  lemma {:induction false} OnlyUnknownCoding(value: string)
    requires ',' !in value && TrimSpace(value) != "gzip"
    ensures EncodingLabel(value) == ""
  {
    SplitWhole(value, ',');
    assert [value][1..] == [];
    assert Trimmed([value]) == [TrimSpace(value)];
  }
}
