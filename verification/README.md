# HTTP/1.1 message engine of a minimal socket server, in Dafny

This project models the protocol core of a small HTTP/1.1 server written in
Go directly over TCP sockets (`app/main.go`, `app/routes.go`):

- the **request reader** (`readRequest`): one request line split into
  method, path and protocol; header lines up to the first blank line, line
  without a colon, or read failure, each cut at its first colon and trimmed,
  a later field overwriting an earlier one of the same name; a body of
  exactly `Content-Length` octets when that header parses as a positive
  integer;
- the **response writer** (`formatResponse`): status line, CRLF, one
  `Name: Value` CRLF line per header in Go's map iteration order, a blank
  CRLF line, the body verbatim;
- the **router** (`NewRouter`, `isValidRequest`, `HandleRequest`): exact
  paths `/` and `/user-agent` first, then the prefixes `/echo/` and
  `/files/` in registration order, else a bare 404; a routed response gets a
  `Content-Encoding` label built from the `gzip` tokens of `Accept-Encoding`
  (`hasEncoding`, `isValidEncoding`);
- the **handlers** `handleRoot`, `handleUserAgent`, `handleEcho` and
  `handleFiles`, the last one over an abstract file store;
- the **connection loop** (`handleConnection`): read, route, write, then
  read again on the same connection, or stop after a `Connection: close`
  request, on a read failure, on a malformed request line, or on a write
  failure.

Octets are `char`s of a `string` (Go strings are byte strings). Whitespace
is the ASCII set `strings.TrimSpace` removes. The peer's octets are a finite
string, and running out of them stands for every read failure. The file
directory is a map from file name to contents. Whether creating a posted
file succeeds and whether writing a response succeeds is decided per
exchange by an environment value (`Connection.Env`). Go's map iteration
order is a parameter of `Writer.FormatResponse` (any enumeration of the
header names). The connection loop fixes one such order
(`KeyOrder.Arrange`, lexicographic).

Files: `optional.dfy` (Option), `message.dfy` (Request, Response, the
`Content-Length` invariant), `text.dfy` (the `strings` functions used),
`decimal.dfy` (`strconv.Atoi`/`Itoa`), `keyorder.dfy` (enumerations of a key
set), `reader.dfy`, `writer.dfy`, `router.dfy`, `connection.dfy`, and
`aswritten.dfy` (the malformed-request-line path and the body allocation as
the Go code has them; see Findings).

Points where the code departs from what a reader of the protocol might
expect:

- `Content-Encoding` is set whenever the request has `Accept-Encoding`, even
  when no token is `gzip` and the label is the empty string. A
  protocol-correct server would set it only for a non-empty label; the model
  follows the code.
- Prefix routes are tried in registration order and the first match wins.
  For the server's two prefixes this equals longest-prefix matching
  (`Routing.PrefixesDisjoint`).
- A malformed request line does not close the connection quietly in the
  code; it crashes the server. So does a `Content-Length` above the Go
  runtime's allocation limit (see Findings). The model follows the evident
  intent in both places and logs the code's behaviour as findings.

## Model

| member | source | states |
|---|---|---|
| Reader.ReadLine | app/main.go:109-112 | `ReadString('\n')` fails exactly when no line feed is left; otherwise it yields the prefix up to and including the first line feed and leaves the rest |
| Reader.ReadLineAppend | app/main.go:109 | a stream starting with a complete line yields exactly that line and leaves what follows |
| Reader.ParseRequestLine | app/main.go:114-125 | a request line is accepted iff its trimmed text has exactly two spaces; then method, path and protocol contain no space and rejoin with single spaces to the trimmed line |
| Reader.ReadRequestLine | app/main.go:108-125 | for a stream starting with a complete line, the request is malformed iff the trimmed line does not have exactly two spaces; otherwise the three tokens rebuild the trimmed line |
| Reader.ScanFieldLine | app/main.go:127-144 | a line that still holds a colon once trimmed becomes the next field and the header loop carries on after it |
| Reader.ScanStopLine | app/main.go:133-141 | a blank line or a line without a colon ends the header loop and leaves what follows unread |
| Reader.ScanStopsAtLine | app/main.go:127-144 | header lines followed by a stopping line become exactly their fields, in order, and nothing after the stopping line is consumed |
| Reader.ScanStopsAtReadFailure | app/main.go:128-131 | header lines followed by a read failure still become their fields, and the request goes ahead with nothing left to read |
| Reader.CollectKeys | app/main.go:143 | the header map has exactly the names some field line carried |
| Reader.CollectLastWins | app/main.go:143 | for each name, the value kept is that of the last field with that name |
| Reader.FieldOf | app/main.go:133-143 | the name is the trimmed line up to its first colon and holds no colon; the value is what follows the colon, trimmed |
| Reader.Collect | app/main.go:143 | the last field assigned is in the map with its value |
| Reader.ReadBody | app/main.go:146-156 | a non-empty body only when `Content-Length` parses to its length; no positive parsed length: empty body, nothing consumed; a positive length n with n octets available: exactly the next n octets; fewer: empty body and everything left consumed |
| Reader.ReadRequest | app/main.go:108-159 | reading fails exactly when the stream holds no line feed, and a parsed request consumes at least its whole request line |
| Reader.ReadMessage | app/main.go:119-158 | after a well-formed request line a request is always produced, with that method, path and protocol, consuming no more than is there |
| Reader.ReadRequestSections | app/main.go:108-159 | a request line, header lines, a stopping line and the rest parse to exactly the fields of those lines (last value winning) and the body the body rule takes from the rest |
| Decimal.Atoi | app/main.go:147 | parsing succeeds iff the text is an optional sign followed by at least one digit and only digits, and the value it denotes lies in Go's 64-bit int range; the result is that value |
| Decimal.AtoiSign | app/main.go:147 | a leading `+` changes nothing; a leading `-` negates, and is accepted down to the 64-bit minimum |
| Decimal.AtoiLeadingZero | app/main.go:147 | a leading zero changes nothing |
| Decimal.Itoa | app/routes.go:51 | the decimal numeral of a length: digits only, denoting the number, a leading zero only for zero, and a single digit exactly below ten, so zero is written `0` |
| Decimal.AtoiItoa | app/main.go:147 | a `Content-Length` written from a length parses back to that length |
| Text.TrimSpace | app/main.go:133 | the result neither starts nor ends with whitespace, is no longer than the input, and leaves trimmed text unchanged |
| Text.TrimSpaceStrip | app/main.go:143 | whitespace around trimmed text is exactly what trimming removes |
| Text.Split | app/main.go:114 | one more piece than separators, no piece holds the separator, and joining the pieces back gives the input |
| Text.Cut | app/main.go:138 | a cut exists iff the separator occurs, and the two sides rebuild the input around its first occurrence |
| Text.SplitJoin | app/routes.go:136-145 | splitting the join of separator-free parts gives back exactly those parts |
| Text.EqualFoldLower | app/routes.go:73 | ASCII case-insensitive equality is equality of the lower-cased strings |
| Text.EqualFoldPost | app/routes.go:73 | the file handler's method check accepts exactly the spellings of `post` in any letter case |
| Text.CutPrefix | app/routes.go:58 | with the prefix present the result is what follows it, otherwise the input |
| Writer.FormatResponse | app/main.go:165-188 | the wire form starts with the status line and CRLF, ends with the blank line and the body, and its length is the sum of its parts for every map iteration order |
| Writer.FieldBytesAnyOrder | app/main.go:174-181 | the header section has the same size whichever order Go iterates the header map in |
| Writer.FieldLineParses | app/main.go:176-179 | a written header line is read back by the request reader's field rules as the very field it came from |
| Writer.ScanHeaderSection | app/main.go:173-182 | the header loop over a written header section reads every written field in order, stops at the blank line and leaves exactly the body |
| Writer.CollectDistinct | app/main.go:175 | the fields written for a header map collect back into that same map |
| Writer.BodyRoundTrip | app/main.go:146-156 | a body whose `Content-Length` was set from its length is read back whole, with nothing left over |
| Writer.ResponseRoundTrip | app/main.go:165-188 | reading a written response back recovers the status line, the header map whatever the iteration order, and the body, with nothing left over |
| KeyOrder.Arrange | app/main.go:175 | the fixed iteration order the loop uses enumerates every header name exactly once |
| Routing.FirstMatch | app/routes.go:125-129 | no index iff no prefix matches; otherwise the index of a matching prefix with no earlier match |
| Routing.IsValidRequest | app/routes.go:120-132 | an exact route always wins; otherwise the handler of the first matching prefix in order, and none iff no prefix matches |
| Routing.NewRouterDispatch | app/routes.go:24-35 | with the server's table: `/` and `/user-agent` exactly, then `/echo/…` and `/files/…`, else no handler |
| Routing.PrefixesDisjoint | app/routes.go:30-33 | no path starts with both `/echo/` and `/files/` |
| Routing.HandleRoot | app/routes.go:37-43 | 200 with no headers and no body |
| Routing.HandleUserAgent | app/routes.go:45-55 | 200, `Content-Type: text/plain`, the `User-Agent` value (empty when absent) as body, its length declared |
| Routing.HandleEcho | app/routes.go:57-68 | 200, `Content-Type: text/plain`, the path after `/echo/` as body, its length declared |
| Routing.HandleFiles | app/routes.go:70-100 | POST in any letter case answers a bare 201 and stores the body under the name iff creation succeeds; otherwise 200 with the file's octets and exactly the headers `Content-Type: application/octet-stream` and its decimal length when it exists, a bare 404 when not, and the store unchanged |
| Routing.Dispatch | app/routes.go:111 | a handler's response declares its body length, carries no `Content-Encoding`, and only the file handler changes the store |
| Routing.KeepCounts | app/routes.go:137-143 | the kept tokens are `gzip`, exactly as many as there are `gzip` tokens once trimmed |
| Routing.KeepOnlyValid | app/routes.go:139-152 | a trimmed token is kept iff it is exactly `gzip`, with no case folding |
| Routing.EncodingLabel | app/routes.go:134-148 | the label is empty iff no trimmed token is `gzip` |
| Routing.LabelCountsGzip | app/routes.go:136-145 | the label is `gzip` once per `gzip` token, joined with `", "` |
| Routing.HasEncoding | app/routes.go:134-148 | a label exactly when the request has `Accept-Encoding`, and it is that value's label |
| Routing.GzipKept | app/routes.go:137-145 | `gzip` followed by another coding is labelled `gzip` |
| Routing.OnlyUnknownCoding | app/routes.go:134-152 | a single coding other than `gzip` gives the empty label |
| Routing.HandleRequest | app/routes.go:102-118 | every response declares the length of a non-empty body |
| Routing.HandleRequestLabels | app/routes.go:102-118 | unrouted: exactly the bare 404 and the store untouched; routed: the handler's status, body, store and headers, plus `Content-Encoding` iff the request has `Accept-Encoding`, set to its label |
| Routing.EchoRouted | app/routes.go:57-68 | `/echo/<s>` answers 200 with body `s`, `text/plain` and its decimal length, storing nothing |
| Routing.UserAgentRouted | app/routes.go:45-55 | `/user-agent` answers 200 with the `User-Agent` value as a plain-text body of declared length |
| Routing.UnroutedNotFound | app/routes.go:104-109 | a path no route matches gets exactly the 404 with no header and no body, the store untouched |
| Routing.MissingFile | app/routes.go:83-90 | reading a missing file gives 404 with no body and no header but the encoding label, the store untouched |
| Routing.FileRoundTrip | app/routes.go:70-100 | after a successful POST to `/files/<name>`, a read of the same path answers 200 with the posted octets and their length |
| Connection.Run | app/main.go:65-105 | a session ends by a close request only after answering it, and answers at most one request per octet read |
| Connection.Serve | app/main.go:60-106 | the connection from its first exchange: the same two bounds over the whole input |
| Connection.Output | app/main.go:89-95 | what a connection writes begins with the status line of its first response and CRLF |
| Connection.OutputAppend | app/main.go:65-105 | the octets of consecutive exchanges are written one after the other |
| Connection.OutputSnoc | app/main.go:89-95 | one more answered exchange appends exactly the formatted response to what was written |
| Connection.Loop | app/main.go:65-105 | the loop, one request per iteration, produces exactly the session the functional description `Run` gives, and writes exactly the formatted responses of that session, in order |
| Connection.HandleConnection | app/main.go:60-106 | the connection's session is `Serve` of its input, the octets written are the formatted responses of that session in order, every response declares its body length, only the last answered request asked to close, and the session ends by closing iff that request asked for it |
| Connection.ReadFailureEnds | app/main.go:71-81 | a stream with no complete request line ends the connection with nothing written |
| Connection.MalformedEnds | app/main.go:114-117 | a request line of the wrong shape ends the connection with nothing written and the store untouched |
| Connection.WriteFailureEnds | app/main.go:95-100 | a failed write ends the connection, with nothing more read or written |
| Connection.CloseStopsReading | app/main.go:102-104 | after answering a `Connection: close` request nothing more is read |
| Connection.KeepAlive | app/main.go:65-105 | after answering any other request the loop reads the next request from the rest of the same stream |
| Connection.ResponsesDeclared | app/main.go:83-95 | every response a session writes declares the length of a non-empty body |
| Connection.OnlyLastCloses | app/main.go:102-104 | every answered request but the last kept the connection open |
| Connection.ClosesWhenAsked | app/main.go:102-104 | a session ends by closing exactly when its last answered request asked for it |
| AsWritten.ReadRequestAsWritten | app/main.go:108-117 | as written, `readRequest` returns an error only on a read failure, and a request only when the line is well formed |
| AsWritten.FirstStepAsWritten | app/main.go:71-83 | as written, the loop stops only on a read failure, and hands the router a nil request exactly when the request line is malformed |
| AsWritten.MalformedLinePanics | app/main.go:114-117 | every malformed complete request line reaches the router as a nil request |
| AsWritten.TwoTokenLine | app/main.go:114-116 | `GET /` followed by CRLF is a complete line whose trimmed text holds one space, so it splits into two tokens |
| AsWritten.TwoTokenLinePanics | app/main.go:114-117 | `GET /` with no protocol reaches the router as a nil request, whatever follows it on the stream |
| AsWritten.ReadBodyAsWritten | app/main.go:146-151 | as written, the body read panics iff a positive parsed `Content-Length` exceeds the allocation limit, and otherwise reads as the intended rule does |
| AsWritten.HugeLengthPanics | app/main.go:146-151 | every declared length above the allocation limit crashes the read, where the intended rule takes a short read |
| AsWritten.LimitPlusOnePanics | app/main.go:146-151 | `Content-Length: 281474976710657` on an empty stream crashes the read |

## Findings

| source | as written | input that shows it | evidently intended | confidence | as-written member | corrected member |
|---|---|---|---|---|---|---|
| app/main.go:114-117 | a request line that does not split into three tokens returns `nil, err` with `err` still nil, so the loop routes a nil request and the router dereferences it; the panic ends the whole process | the line `GET /\r\n` | report a malformed request and close that connection without a response | high; not executed | AsWritten.TwoTokenLinePanics | Connection.MalformedEnds |
| app/main.go:146-151 | the body buffer is allocated at the declared `Content-Length` before anything is read; above the runtime's 2^48-octet allocation limit `make` panics with "len out of range", ending the whole process | a request with `Content-Length: 281474976710657` | read what arrives and treat a stream that ends early as a short read (empty body) | high; not executed | AsWritten.LimitPlusOnePanics | Reader.ReadBody |

## Left out

- Process start-up: flag parsing, listening on 127.0.0.1:4221, the accept loop and one goroutine per connection. These are I/O and concurrency; connections share nothing but the route table and the directory.
- The five-second read deadline and the error of setting it: time is not modelled. Running out of input stands for every read failure and is final. That is faithful for a failure while reading the request line, which ends the loop. It is not faithful for a deadline that expires during the header lines or the body. There Go answers the partial request, and since `bufio.Reader` reports an error only once and the deadline is re-armed on the next iteration, it goes on reading the same connection. The model ends the session after that request instead.
- Reader.ReadBody: a declared length below the allocation limit but beyond the memory available also ends the process, with an out-of-memory fault rather than a panic. Memory is not modelled, so only the limit case is a finding.
- The real file system: `filepath.Join` with the directory, path cleaning, permissions. The directory is a map from the name after `/files/` to contents, and failure of `os.Create` is an environment flag per exchange. A failed creation still answers 201, as in the code.
- Logging with `fmt.Println`, including the echo of each formatted response. It has no effect on the protocol.
- The error results of `createResponse` and `formatResponse`. The code never produces them, so both are total in the model.
- Partial writes by `io.WriteString`. A write either succeeds or fails as a whole, as the environment decides.
- After a `Connection: close` request the code closes the socket and goes round the loop once more, where setting the deadline or reading fails. The model ends the session at once with `ClosedByRequest`; nothing is read or written in either case.
- Go's map iteration order, which varies between runs. `Writer.FormatResponse` takes any enumeration of the header names, and its properties hold for all of them. The connection loop uses one fixed enumeration.
- Text.TrimSpace: trims ASCII whitespace only. Go also trims every other Unicode White_Space character when it appears UTF-8 encoded: U+0085, U+00A0, U+1680, U+2000 to U+200A, U+2028, U+2029, U+202F, U+205F and U+3000.
- Text.EqualFold: folds ASCII letters only. Go's Unicode folding also matches a few non-ASCII letters, such as U+017F against `s`.
- Decimal.Atoi: base 10 with an optional sign only, which is all `strconv.Atoi` accepts. Its error values are not distinguished.
- Reader.ScanFields: on its own it states only that the rest is no longer than the input. What it reads is stated by `Reader.ScanFieldLine`, `Reader.ScanStopLine`, `Reader.ScanStopsAtLine` and `Reader.ScanStopsAtReadFailure`.
- Routing.HandleRequest: its own contract states only the `Content-Length` invariant. The rest of what it does is stated by `Routing.HandleRequestLabels`.
- Writer.ResponseRoundTrip: holds only for headers the reader can read back. A name must hold no colon and no whitespace. A value must hold no line feed and have no surrounding whitespace. The code writes any header as given.
