/**
 * The HTTP request parser of the server (`HttpRequest` in
 * prog1/server/request.py): it takes the raw bytes of one request, splits
 * off the request line, breaks it into method, path and version, and
 * collects `Name: Value` header lines into a dictionary. A malformed request
 * line sets the status to 400 Bad Request, and `handle` then answers with a
 * fixed status line.
 */
module Requests {
  import opened ByteStrings
  import opened ByteStreams

  datatype Option<T> = None | Some(value: T)

  /** The only status the parser ever sets (`HTTPStatus.BAD_REQUEST`). */
  datatype Status = BadRequest

  datatype Header = Header(name: Bytes, value: Bytes)

  /** The observable fields of a parsed request. */
  datatype Parsed = Parsed(
    requestLine: Bytes,
    requestMethod: Option<Bytes>,
    path: Option<Bytes>,
    version: Option<Bytes>,
    headers: map<Bytes, Bytes>,
    status: Option<Status>)

  /** The tokens of a request line: stripped, then split on whitespace. */
  function RequestTokens(requestLine: Bytes): (r: seq<Bytes>)
    ensures ValidTokens(r)
  {
    SplitWhitespace(Strip(requestLine))
  }

  /** Splits an (already stripped) line at the first `": "`: the name is what
      precedes it, the value what follows; no separator, no header. */
  function SplitHeader(line: Bytes): (r: Option<Header>)
    ensures r.Some? <==> Contains(line, SEP)
    ensures r.Some? ==> line == r.value.name + SEP + r.value.value
    ensures r.Some? ==> !Contains(r.value.name, SEP)
  {
    var idx := Find(line, SEP);
    if idx == -1 then None
    else
      var name := line[..idx];
      assert forall k: nat | k <= |name| :: OccursAt(name, SEP, k) ==> OccursAt(line, SEP, k);
      assert line == name + SEP + line[idx + 2..];
      Some(Header(name, line[idx + 2..]))
  }

  /** The header, if any, that one raw line of the request contributes:
      the line is stripped, then split at its first `": "`. */
  function HeaderOf(line: Bytes): (r: Option<Header>)
    ensures r.Some? <==> Contains(Strip(line), SEP)
    ensures r.Some? ==> Strip(line) == r.value.name + SEP + r.value.value
  {
    SplitHeader(Strip(line))
  }

  /** One step of the header loop: the header of the stripped line, if it
      has one, is stored under its name; no name is ever removed. */
  function AddHeader(h: map<Bytes, Bytes>, line: Bytes): (r: map<Bytes, Bytes>)
    ensures forall k :: k in h ==> k in r
    ensures |r| <= |h| + 1
  {
    match HeaderOf(line)
    case None => h
    case Some(hd) => h[hd.name := hd.value]
  }

  /** The dictionary `h` after the header loop has run over `lines` in
      order: it keeps every name of `h` and gains at most one per line. */
  function ApplyHeaders(h: map<Bytes, Bytes>, lines: seq<Bytes>): (r: map<Bytes, Bytes>)
    ensures forall k :: k in h ==> k in r
    ensures |r| <= |h| + |lines|
    decreases |lines|
  {
    if lines == [] then h else ApplyHeaders(AddHeader(h, lines[0]), lines[1..])
  }

  /** The fold from line `i` on is the fold from line `i + 1` on, after
      the header step for line `i`. */
  lemma ApplyHeadersStep(h: map<Bytes, Bytes>, lines: seq<Bytes>, i: nat)
    requires i < |lines|
    ensures ApplyHeaders(h, lines[i..]) == ApplyHeaders(AddHeader(h, lines[i]), lines[i + 1..])
  {
    assert lines[i..][0] == lines[i];
    assert lines[i..][1..] == lines[i + 1..];
  }

  /** What constructing an `HttpRequest` over `raw` produces. */
  function Parse(raw: Bytes): (r: Parsed)
    ensures |r.requestLine| <= |raw| && r.requestLine == raw[..|r.requestLine|]
    ensures r.status.Some? ==> r.headers == map[]
    ensures r.status == None ==> |r.headers| <= |raw| - |r.requestLine|
  {
    var e := LineEnd(raw, 0);
    var toks := RequestTokens(raw[..e]);
    if |toks| != 3 then
      Parsed(raw[..e], None, None, None, map[], Some(BadRequest))
    else
      Parsed(raw[..e], Some(toks[0]), Some(toks[1]), Some(toks[2]),
             ApplyHeaders(map[], LinesFrom(raw, e)), None)
  }

  /** `response(status, headers, body)`: the fixed status line
      `HTTP/1.1 400 Bad request`, whatever it is given. */
  function Response(status: Status, headers: Option<map<Bytes, Bytes>>, body: Option<Bytes>): (r: Bytes)
    ensures |r| >= 2 && r[|r| - 2..] == CRLF
  {
    Ascii("HTTP/1.1 400 Bad request\r\n")
  }

  /** A client connection; `sent` logs what `send` has written to it. */
  class Connection {
    ghost var sent: seq<Bytes>

    constructor ()
      ensures sent == []
    {
      sent := [];
    }
  }

  class HttpRequest {
    const request: ByteStream
    var requestline: Bytes
    var requestMethod: Option<Bytes>
    var path: Option<Bytes>
    var version: Option<Bytes>
    var headers: map<Bytes, Bytes>
    var status: Option<Status>

    ghost predicate Valid()
      reads request
    {
      request.Valid()
    }

    function State(): Parsed
      reads this
    {
      Parsed(requestline, requestMethod, path, version, headers, status)
    }

    /** `HttpRequest(request)`: wraps the bytes in a stream, reads the request
        line, starts every field empty and parses. */
    constructor (raw: Bytes)
      ensures Valid() && fresh(request)
      ensures State() == Parse(raw)
      ensures request.data == raw
      ensures request.pos == if |RequestTokens(raw[..LineEnd(raw, 0)])| == 3 then |raw| else LineEnd(raw, 0)
    {
      var stream := new ByteStream(raw);
      var line := stream.ReadLine();
      request := stream;
      requestline := line;
      requestMethod, path, version := None, None, None;
      headers := map[];
      status := None;
      new;
      ParseRequest();
    }

    /** `parse_request()`: a request line that is not exactly three tokens
        sets status 400 and stops; otherwise the tokens become method, path
        and version, and every remaining line is scanned for a header. */
    method ParseRequest()
      requires Valid()
      modifies this, request
      ensures Valid()
      ensures requestline == old(requestline)
      ensures var toks := RequestTokens(requestline);
        if |toks| != 3 then
          && status == Some(BadRequest)
          && requestMethod == old(requestMethod) && path == old(path) && version == old(version)
          && headers == old(headers)
          && request.pos == old(request.pos)
        else
          && requestMethod == Some(toks[0]) && path == Some(toks[1]) && version == Some(toks[2])
          && status == old(status)
          && headers == ApplyHeaders(old(headers), LinesFrom(request.data, old(request.pos)))
          && request.pos == |request.data|
    {
      var tokens := RequestTokens(requestline);
      if |tokens| != 3 {
        status := Some(BadRequest);
        return;
      }
      requestMethod, path, version := Some(tokens[0]), Some(tokens[1]), Some(tokens[2]);
      ReadHeaders();
    }

    /** The header loop of `parse_request()`: every line left in the stream
        goes through the header step, in order, and the stream is left
        exhausted. */
    method ReadHeaders()
      requires Valid()
      modifies this`headers, request
      ensures Valid()
      ensures headers == ApplyHeaders(old(headers), LinesFrom(request.data, old(request.pos)))
      ensures request.pos == |request.data|
    {
      var lines := request.ReadLines();
      for i := 0 to |lines|
        modifies this`headers
        invariant ApplyHeaders(headers, lines[i..]) == ApplyHeaders(old(headers), lines)
      {
        ApplyHeadersStep(headers, lines, i);
        headers := AddHeader(headers, lines[i]);
      }
      assert lines[|lines|..] == [];
    }

    /** The error branch of `handle`: a set status makes exactly one `send`
        of the fixed response; without a status nothing is sent. */
    method Handle(connection: Connection)
      modifies connection
      ensures connection.sent == old(connection.sent) +
        (if status.Some? then [Response(status.value, None, None)] else [])
    {
      if status.Some? {
        var response := Response(status.value, None, None);
        Send(connection, response);
      }
    }

    /** `send(connection, response)`: writes the response to the connection. */
    method Send(connection: Connection, response: Bytes)
      modifies connection
      ensures connection.sent == old(connection.sent) + [response]
    {
      connection.sent := connection.sent + [response];
    }
  }
}
