/** The two records the server passes around: a parsed request and a response to serialise. */
module Message {
  import Decimal

  /** Header fields by name. Names are case-sensitive, as in Go's `map[string]string`. */
  type Headers = map<string, string>

  /** `verb` is the request method token (Go's `Method`). */
  datatype Request = Request(verb: string, path: string, protocol: string, headers: Headers, body: string)

  datatype Response = Response(statusLine: string, headers: Headers, body: string)

  /** The line terminator the server writes. */
  const CRLF: string := "\r\n"

  /** Go's `request.Header[name]`: the value, or the empty string when the name is absent. */
  function HeaderOr(headers: Headers, name: string): (v: string)
    ensures name !in headers ==> v == ""
    ensures name in headers ==> v == headers[name]
  {
    if name in headers then headers[name] else ""
  }

  /** The response invariant handlers keep: a non-empty body is announced by
      a `Content-Length` header holding its length in decimal. */
  predicate LengthDeclared(r: Response) {
    r.body != "" ==> "Content-Length" in r.headers && r.headers["Content-Length"] == Decimal.Itoa(|r.body|)
  }
}
