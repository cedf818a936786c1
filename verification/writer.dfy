/**
  The response writer (`formatResponse` in app/main.go): the status line,
  CRLF, one `Name: Value` CRLF line per header, a blank CRLF line, then the
  body verbatim.

  Go ranges over the header map in an unspecified order, so the serialiser
  takes the enumeration of the header names as a parameter and every
  property below holds for each admissible enumeration.
 */
module Writer {
  import opened Text
  import opened Decimal
  import opened Message
  import opened KeyOrder
  import opened Reader

  /** One header line as the writer emits it. */
  function FieldLine(name: string, value: string): string {
    name + ": " + value + CRLF
  }

  /** The header lines, one per name of `order`, in that order. */
  function HeaderLines(headers: Headers, order: seq<string>): seq<string>
    requires forall i :: 0 <= i < |order| ==> order[i] in headers
    decreases |order|
  {
    if order == [] then [] else [FieldLine(order[0], headers[order[0]])] + HeaderLines(headers, order[1..])
  }

  /** The octets the header lines take, summed along `order`. */
  function FieldBytes(headers: Headers, order: seq<string>): nat
    requires forall i :: 0 <= i < |order| ==> order[i] in headers
    decreases |order|
  {
    if order == [] then 0 else |order[0]| + |headers[order[0]]| + 4 + FieldBytes(headers, order[1..])
  }

  /** The octets of the whole header section but its terminating blank line.
      This does not depend on the iteration order (see `FieldBytesAnyOrder`). */
  function HeaderBytes(headers: Headers): nat {
    FieldBytes(headers, Arrange(headers.Keys))
  }

  /** `formatResponse`: the wire form of `r` when Go happens to iterate the
      header map in the order `order`. It never fails. The result starts with
      the status line and CRLF, ends with the blank CRLF line and the body
      (the blank line is there even without headers), and its length is that
      of its parts whatever the iteration order. */
  function FormatResponse(r: Response, order: seq<string>): (wire: string)
    requires IsEnumeration(order, r.headers.Keys)
    ensures |wire| == |r.statusLine| + 2 + HeaderBytes(r.headers) + 2 + |r.body|
    ensures wire[..|r.statusLine| + 2] == r.statusLine + CRLF
    ensures wire[|wire| - |r.body| - 2..] == CRLF + r.body
  {
    var block := Concat(HeaderLines(r.headers, order));
    HeaderLinesLength(r.headers, order);
    FieldBytesAnyOrder(r.headers, order, Arrange(r.headers.Keys));
    Framing(r.statusLine, block, r.body);
    r.statusLine + CRLF + (block + (CRLF + r.body))
  }

  /** Where the status line, the header section and the body sit in the framed message. */
  lemma {:induction false} Framing(status: string, block: string, body: string)
    ensures var wire := status + CRLF + (block + (CRLF + body));
      && |wire| == |status| + 2 + |block| + 2 + |body|
      && wire[..|status| + 2] == status + CRLF
      && wire[|status| + 2..] == block + (CRLF + body)
      && wire[|wire| - |body| - 2..] == CRLF + body
  {
  }

  lemma {:induction false} HeaderLinesLength(headers: Headers, order: seq<string>)
    requires forall i :: 0 <= i < |order| ==> order[i] in headers
    ensures |Concat(HeaderLines(headers, order))| == FieldBytes(headers, order)
    decreases |order|
  {
    if order != [] {
      var lines := HeaderLines(headers, order);
      assert lines[1..] == HeaderLines(headers, order[1..]);
      HeaderLinesLength(headers, order[1..]);
    }
  }

  /** Taking one name out of an enumeration takes its line's octets out of the sum. */
  lemma {:induction false} FieldBytesRemove(headers: Headers, order: seq<string>, j: nat)
    requires forall i :: 0 <= i < |order| ==> order[i] in headers
    requires j < |order|
    ensures FieldBytes(headers, order) ==
      |order[j]| + |headers[order[j]]| + 4 + FieldBytes(headers, order[..j] + order[j + 1..])
    decreases j
  {
    if j > 0 {
      var tail := order[1..];
      FieldBytesRemove(headers, tail, j - 1);
      assert order[..j] + order[j + 1..] == [order[0]] + (tail[..j - 1] + tail[j..]);
    } else {
      assert order[..j] + order[j + 1..] == order[1..];
    }
  }

  /** The header section has the same size whichever order Go iterates the map in. */
  lemma {:induction false} FieldBytesAnyOrder(headers: Headers, a: seq<string>, b: seq<string>)
    requires IsEnumeration(a, headers.Keys) && IsEnumeration(b, headers.Keys)
    ensures FieldBytes(headers, a) == FieldBytes(headers, b)
  {
    FieldBytesPermuted(headers, headers.Keys, a, b);
  }

  /** Any two enumerations of the same names give the same sum. */
  lemma {:induction false} FieldBytesPermuted(headers: Headers, keys: set<string>, a: seq<string>, b: seq<string>)
    requires keys <= headers.Keys
    requires IsEnumeration(a, keys) && IsEnumeration(b, keys)
    ensures FieldBytes(headers, a) == FieldBytes(headers, b)
    decreases |a|
  {
    if a != [] {
      var x := a[0];
      var j :| 0 <= j < |b| && b[j] == x;
      var rest := b[..j] + b[j + 1..];
      FieldBytesRemove(headers, b, j);
      EnumerationRemove(a, keys, 0);
      assert a[..0] + a[1..] == a[1..];
      EnumerationRemove(b, keys, j);
      FieldBytesPermuted(headers, keys - {x}, a[1..], rest);
      assert FieldBytes(headers, a) == |x| + |headers[x]| + 4 + FieldBytes(headers, a[1..]);
    }
  }

  /** Taking one name out of an enumeration enumerates the remaining names. */
  lemma {:induction false} EnumerationRemove(order: seq<string>, keys: set<string>, j: nat)
    requires IsEnumeration(order, keys) && j < |order|
    ensures IsEnumeration(order[..j] + order[j + 1..], keys - {order[j]})
  {
    var rest := order[..j] + order[j + 1..];
    assert forall i :: 0 <= i < |rest| ==> rest[i] == order[if i < j then i else i + 1];
    forall k | k in keys - {order[j]} ensures k in rest {
      var i :| 0 <= i < |order| && order[i] == k;
      assert rest[if i < j then i else i - 1] == k;
    }
  }

  /** A header the parser reads back unchanged: the name holds no colon and
      no whitespace, the value holds no line feed and is already trimmed. */
  predicate Serialisable(name: string, value: string) {
    && ':' !in name
    && (forall i :: 0 <= i < |name| ==> !IsSpace(name[i]))
    && '\n' !in value
    && IsTrimmed(value)
  }

  predicate AllSerialisable(headers: Headers) {
    forall k :: k in headers ==> Serialisable(k, headers[k])
  }

  /** A serialised header line is a complete line. */
  lemma {:induction false} FieldLineIsLine(name: string, value: string)
    requires Serialisable(name, value)
    ensures IsLine(FieldLine(name, value))
  {
    var line := FieldLine(name, value);
    assert line[..|line| - 1] == name + ": " + value + "\r";
    assert '\n' !in name by {
      assert IsSpace('\n');
    }
  }

  /** Trimming a serialised header line leaves the name, the colon and the
      value: the line terminator goes, and so does the space after the colon
      when the value is empty. */
  lemma {:induction false} FieldLineTrimmed(name: string, value: string)
    requires Serialisable(name, value)
    ensures TrimSpace(FieldLine(name, value)) == name + [':'] + (if value == [] then "" else " " + value)
  {
    var line := FieldLine(name, value);
    assert IsSpace(' ') && IsSpace('\r') && IsSpace('\n');
    var core := name + [':'] + (if value == [] then "" else " " + value);
    assert IsTrimmed(core) by {
      if name != [] {
        assert core[0] == name[0];
      }
    }
    if value == [] {
      assert line == "" + core + " \r\n";
      TrimSpaceStrip("", core, " \r\n");
    } else {
      assert line == "" + core + "\r\n";
      TrimSpaceStrip("", core, "\r\n");
    }
  }

  /** A serialised header line is a header line to the parser, and denotes
      the very field it was written from. */
  lemma {:induction false} FieldLineParses(name: string, value: string)
    requires Serialisable(name, value)
    ensures IsFieldLine(FieldLine(name, value))
    ensures FieldOf(FieldLine(name, value)) == Field(name, value)
  {
    var line := FieldLine(name, value);
    var after := if value == [] then "" else " " + value;
    var trimmed := name + [':'] + after;
    FieldLineIsLine(name, value);
    FieldLineTrimmed(name, value);
    assert TrimSpace(line) == trimmed;
    assert ':' in trimmed by {
      assert trimmed[|name|] == ':';
    }
    CutAtFirst(name, ':', after);
    ValueTrimmed(value);
  }

  /** The text after the colon trims back to the value. */
  lemma {:induction false} ValueTrimmed(value: string)
    requires IsTrimmed(value)
    ensures TrimSpace(if value == [] then "" else " " + value) == value
  {
    if value == [] {
      TrimSpaceBlank("");
    } else {
      assert IsSpace(' ');
      TrimSpaceStrip(" ", value, "");
      assert " " + value + "" == " " + value;
    }
  }

  /** The blank line ends the header section. */
  lemma {:induction false} BlankLineEndsHeaders()
    ensures IsLine(CRLF) && !IsFieldLine(CRLF)
  {
    assert IsSpace('\r') && IsSpace('\n');
    TrimSpaceBlank(CRLF);
  }

  /** The fields a header section written along `order` denotes, in order. */
  function WrittenFields(headers: Headers, order: seq<string>): (fields: seq<Field>)
    requires forall i :: 0 <= i < |order| ==> order[i] in headers
    ensures |fields| == |order|
    ensures forall i :: 0 <= i < |order| ==> fields[i] == Field(order[i], headers[order[i]])
    decreases |order|
  {
    if order == [] then [] else [Field(order[0], headers[order[0]])] + WrittenFields(headers, order[1..])
  }

  /** The parser's header loop over a serialised header section reads every
      written field, in order, stops at the blank line and leaves exactly the
      body. */
  lemma {:induction false} ScanHeaderSection(headers: Headers, order: seq<string>, body: string)
    requires forall i :: 0 <= i < |order| ==> order[i] in headers
    requires AllSerialisable(headers)
    ensures ScanFields(Concat(HeaderLines(headers, order)) + (CRLF + body)) == (WrittenFields(headers, order), body)
    decreases |order|
  {
    var lines := HeaderLines(headers, order);
    if order == [] {
      assert Concat(lines) + (CRLF + body) == CRLF + body;
      BlankLineEndsHeaders();
      ScanStopLine(CRLF, body);
    } else {
      var more := Concat(HeaderLines(headers, order[1..])) + (CRLF + body);
      assert lines[1..] == HeaderLines(headers, order[1..]);
      ConcatFront(lines, CRLF + body);
      FieldLineParses(order[0], headers[order[0]]);
      ScanFieldLine(lines[0], more);
      ScanHeaderSection(headers, order[1..], body);
    }
  }

  /** Fields with distinct names, one per header, collect back into the headers. */
  lemma {:induction false} CollectDistinct(headers: Headers, order: seq<string>, fields: seq<Field>)
    requires IsEnumeration(order, headers.Keys)
    requires |fields| == |order|
    requires forall i :: 0 <= i < |order| ==> fields[i] == Field(order[i], headers[order[i]])
    ensures Collect(fields) == headers
  {
    CollectKeys(fields);
    CollectLastWins(fields);
    assert Names(fields) == headers.Keys by {
      forall k | k in headers.Keys ensures k in Names(fields) {
        var i :| 0 <= i < |order| && order[i] == k;
        assert fields[i].name == k;
      }
    }
    forall k | k in headers ensures Collect(fields)[k] == headers[k] {
      var i :| 0 <= i < |order| && order[i] == k;
      assert IsLastOfName(fields, i);
    }
  }

  /** Reading a body whose `Content-Length` the handler set from its length
      takes exactly that body and leaves nothing over. */
  lemma {:induction false} BodyRoundTrip(headers: Headers, body: string)
    requires body == "" || ("Content-Length" in headers && headers["Content-Length"] == Itoa(|body|))
    requires |body| <= MaxInt
    ensures ReadBody(headers, body) == (body, "")
  {
    if body != "" {
      AtoiItoa(|body|);
      assert AsksForBody(headers) && Atoi(headers["Content-Length"]).value == |body|;
      assert body[..|body|] == body && body[|body|..] == "";
    }
  }

  /** The round trip. Reading a serialised response back as a client would
      (the status line as a line, the header section with the request
      reader's field rules, the body by its `Content-Length`) recovers the
      status line, the same header map whatever order the headers were
      written in, and the body octets, with nothing left over. */
  lemma {:induction false} ResponseRoundTrip(r: Response, order: seq<string>)
    requires IsEnumeration(order, r.headers.Keys)
    requires '\n' !in r.statusLine
    requires AllSerialisable(r.headers)
    requires r.body == "" || ("Content-Length" in r.headers && r.headers["Content-Length"] == Itoa(|r.body|))
    requires |r.body| <= MaxInt
    ensures ReadLine(FormatResponse(r, order)) == Line(r.statusLine + CRLF, FormatResponse(r, order)[|r.statusLine| + 2..])
    ensures ScanFields(FormatResponse(r, order)[|r.statusLine| + 2..]) == (WrittenFields(r.headers, order), r.body)
    ensures Collect(WrittenFields(r.headers, order)) == r.headers
    ensures ReadBody(r.headers, r.body) == (r.body, "")
  {
    var wire := FormatResponse(r, order);
    var after := Concat(HeaderLines(r.headers, order)) + (CRLF + r.body);
    Framing(r.statusLine, Concat(HeaderLines(r.headers, order)), r.body);
    assert IsLine(r.statusLine + CRLF) by {
      assert (r.statusLine + CRLF)[..|r.statusLine| + 1] == r.statusLine + "\r";
    }
    ReadLineAppend(r.statusLine + CRLF, after);
    ScanHeaderSection(r.headers, order, r.body);
    CollectDistinct(r.headers, order, WrittenFields(r.headers, order));
    BodyRoundTrip(r.headers, r.body);
  }
}
