/**
 * The HTTP/1.0 dispatcher: it reads one request, hands its method and path
 * to a handler, and writes the handler's answer back as a status line,
 * header lines, a blank line and the body, compressing text bodies for
 * clients that accept gzip. Every exchange ends with one access-log line;
 * errors go to the error log.
 *
 * `Respond` is the whole exchange as a function of the request stream's
 * contents; class `Dispatcher` performs it step by step on stream objects
 * and log fields, and is proved to compute `Respond`.
 */
module HttpDispatcher {
  import opened Wrappers
  import opened Strings
  import opened Hashes
  import opened RequestParser

  // ---------------------------------------------------------------------
  // Status codes and the status line
  // ---------------------------------------------------------------------

  const StatusCodes: map<int, string> := map[
    200 := "OK",
    400 := "Bad Request",
    404 := "Not Found",
    405 := "Method Not Allowed",
    500 := "Internal Server Error"
  ]

  /** `STATUS_CODES[status]` as interpolated into the status line: `nil` shows as nothing. */
  function ReasonPhrase(status: int): (r: string)
    ensures r != [] <==> status in StatusCodes
    ensures status in StatusCodes ==> r == StatusCodes[status]
    ensures '\r' !in r
  {
    if status in StatusCodes then StatusCodes[status] else []
  }

  function StatusLine(status: int): string {
    "HTTP/1.0 " + IntToString(status) + " " + ReasonPhrase(status) + CRLF
  }

  /** A text without carriage returns holds no CRLF. */
  lemma NoCrNoCrlf(s: string)
    requires '\r' !in s
    ensures NoCrlf(s)
  {
    forall j | 0 <= j < |s| ensures !CrlfAt(s, j) {
      assert s[j] in s;
    }
  }

  /**
   * The status line is one protocol line, and for a non-negative status
   * its decimal digits read back as that status.
   */
  lemma StatusLineRead(status: int)
    ensures IsLine(StatusLine(status))
    ensures status >= 0 ==> exists d ::
      StatusLine(status) == "HTTP/1.0 " + d + " " + ReasonPhrase(status) + CRLF
      && AllDigits(d) && DigitsValue(d) == status
  {
    var d := IntToString(status);
    var text := "HTTP/1.0 " + d + " " + ReasonPhrase(status);
    assert '\r' !in d by {
      if status >= 0 {
        assert forall j :: 0 <= j < |d| ==> IsDigit(d[j]);
      } else {
        assert d == [d[0]] + d[1..];
        assert forall j :: 0 <= j < |d[1..]| ==> IsDigit(d[1..][j]);
      }
    }
    NoCrNoCrlf(text);
    LineOfText(text);
    if status >= 0 {
      NatToStringRoundTrip(status);
    }
  }

  /** The decimal text of a three-digit number. */
  lemma ThreeDigits(n: nat)
    requires 100 <= n < 1000
    ensures NatToString(n) == [DigitChar(n / 100), DigitChar(n / 10 % 10), DigitChar(n % 10)]
  {
    assert NatToString(n / 10) == [DigitChar(n / 100), DigitChar(n / 10 % 10)] by {
      assert NatToString(n / 100) == [DigitChar(n / 100)];
      assert n / 10 / 10 == n / 100;
    }
  }

  /** The status lines of the table, written out. */
  lemma TableStatusLines()
    ensures StatusLine(200) == "HTTP/1.0 200 OK\r\n"
    ensures StatusLine(400) == "HTTP/1.0 400 Bad Request\r\n"
    ensures StatusLine(404) == "HTTP/1.0 404 Not Found\r\n"
    ensures StatusLine(405) == "HTTP/1.0 405 Method Not Allowed\r\n"
    ensures StatusLine(500) == "HTTP/1.0 500 Internal Server Error\r\n"
  {
    StatusLine200();
    StatusLine400();
    StatusLine404();
    StatusLine405();
    StatusLine500();
  }

  /** The decimal texts of the table's codes. */
  lemma TableDigits()
    ensures IntToString(200) == "200"
    ensures IntToString(400) == "400"
    ensures IntToString(404) == "404"
    ensures IntToString(405) == "405"
    ensures IntToString(500) == "500"
  {
    ThreeDigits(200);
    ThreeDigits(400);
    ThreeDigits(404);
    ThreeDigits(405);
    ThreeDigits(500);
  }

  lemma StatusLine200()
    ensures StatusLine(200) == "HTTP/1.0 200 OK\r\n"
  {
    TableDigits();
  }

  lemma StatusLine400()
    ensures StatusLine(400) == "HTTP/1.0 400 Bad Request\r\n"
  {
    TableDigits();
  }

  lemma StatusLine404()
    ensures StatusLine(404) == "HTTP/1.0 404 Not Found\r\n"
  {
    TableDigits();
  }

  lemma StatusLine405()
    ensures StatusLine(405) == "HTTP/1.0 405 Method Not Allowed\r\n"
  {
    TableDigits();
  }

  lemma StatusLine500()
    ensures StatusLine(500) == "HTTP/1.0 500 Internal Server Error\r\n"
  {
    TableDigits();
  }

  // ---------------------------------------------------------------------
  // Handlers and their replies
  // ---------------------------------------------------------------------

  /** A response body: `nil`, a string, or an object that answers `read`. */
  datatype Body = Nil | Text(text: string) | Readable(contents: string)

  /** `body.respond_to?(:read) ? body.read : body.to_s`. */
  function BodyData(body: Body): string {
    match body
    case Nil => []
    case Text(text) => text
    case Readable(contents) => contents
  }

  /** The `[status, body, headers]` triple a handler answers with; `None` headers stand for `nil`. */
  datatype Reply = Reply(status: int, body: Body, headers: Option<Hash>)

  /** A call to the handler either returns a reply or raises a StandardError. */
  datatype HandlerResult = Returned(reply: Reply) | Raised(message: string, backtrace: seq<string>)

  /** `handle(method, path)`, the method given as a lower-case name. */
  type Handler = (string, string) -> HandlerResult

  /** What `run` answers after the handler raised. */
  const InternalError: Reply := Reply(500, Text("Internal Server Error"), Some([("Content-Type", "text/plain")]))

  /** What `run` answers when no request could be read. */
  const BadRequest: Reply := Reply(400, Nil, None)

  /** The header hash of a reply, `{}` for `nil`. */
  function HeadersOf(reply: Reply): Hash {
    if reply.headers.Some? then reply.headers.value else []
  }

  // ---------------------------------------------------------------------
  // Content negotiation
  // ---------------------------------------------------------------------

  /**
   * The response is compressed when its Content-Type starts with "text/"
   * and the request's Accept-Encoding mentions "gzip".
   */
  predicate Gzip(responseHeaders: Hash, requestHeaders: map<string, string>) {
    var contentType := Get(responseHeaders, "Content-Type");
    && contentType.Some? && StartsWith(contentType.value, "text/")
    && "Accept-Encoding" in requestHeaders && Contains(requestHeaders["Accept-Encoding"], "gzip")
  }

  /** The gzip condition spelled out with substring positions. */
  lemma GzipIff(responseHeaders: Hash, requestHeaders: map<string, string>)
    ensures Gzip(responseHeaders, requestHeaders) <==>
      (exists ct :: (("Content-Type", ct) in responseHeaders) && StartsWith(ct, "text/"))
      && "Accept-Encoding" in requestHeaders
      && (exists i :: OccursAt(requestHeaders["Accept-Encoding"], "gzip", i))
  {
    if "Accept-Encoding" in requestHeaders {
      ContainsIffOccurs(requestHeaders["Accept-Encoding"], "gzip");
    }
    var contentType := Get(responseHeaders, "Content-Type");
    if exists ct :: (("Content-Type", ct) in responseHeaders) && StartsWith(ct, "text/") {
      var ct :| (("Content-Type", ct) in responseHeaders) && StartsWith(ct, "text/");
      assert contentType == Some(ct);
    }
  }

  /**
   * The headers and data `run` sends for a reply: when `Gzip` holds, the
   * data is compressed, Content-Encoding becomes "gzip" and Content-Length
   * the compressed length, each stored in place or appended; otherwise both
   * go out as they are.
   */
  function Negotiate(headers: Hash, requestHeaders: map<string, string>, data: string, compress: string -> string): (r: (Hash, string))
    ensures Gzip(headers, requestHeaders) ==>
      && r.1 == compress(data)
      && Get(r.0, "Content-Encoding") == Some("gzip")
      && Get(r.0, "Content-Length") == Some(NatToString(|r.1|))
      && (forall k :: k != "Content-Encoding" && k != "Content-Length" ==> Get(r.0, k) == Get(headers, k))
      && |headers| <= |r.0| <= |headers| + 2
      && (forall i :: 0 <= i < |headers| ==> r.0[i].0 == headers[i].0)
      && r.0[|headers|..] == Added(headers, "Content-Encoding", "gzip") + Added(headers, "Content-Length", NatToString(|r.1|))
    ensures !Gzip(headers, requestHeaders) ==> r == (headers, data)
  {
    if Gzip(headers, requestHeaders) then
      var encoded := Store(headers, "Content-Encoding", "gzip");
      var compressed := compress(data);
      var length := NatToString(|compressed|);
      var full := Store(encoded, "Content-Length", length);
      AddedInOrder(headers, encoded, full, length);
      (full, compressed)
    else
      (headers, data)
  }

  /** Content-Encoding, where it is new, goes in before Content-Length. */
  lemma AddedInOrder(headers: Hash, encoded: Hash, full: Hash, length: string)
    requires encoded == Store(headers, "Content-Encoding", "gzip")
    requires full == Store(encoded, "Content-Length", length)
    ensures full[|headers|..] == Added(headers, "Content-Encoding", "gzip") + Added(headers, "Content-Length", length)
  {
    SameKeysHasKey(headers, encoded, "Content-Length");
    var added := encoded[|headers|..];
    assert forall i :: |headers| <= i < |encoded| ==> encoded[i] == added[i - |headers|];
    StoreTail(encoded, "Content-Length", length, |headers|);
  }

  /** Storing Content-Encoding leaves the presence of Content-Length as it was. */
  lemma SameKeysHasKey(headers: Hash, encoded: Hash, k: string)
    requires encoded == Store(headers, "Content-Encoding", "gzip") && k != "Content-Encoding"
    ensures HasKey(encoded, k) <==> HasKey(headers, k)
  {
    assert Get(encoded, k) == Get(headers, k);
  }

  // ---------------------------------------------------------------------
  // The response text and the access-log line
  // ---------------------------------------------------------------------

  /** The header lines, `key: value` and CRLF each, in the hash's order. */
  function HeaderBlock(headers: seq<Entry>): string {
    Concat(FieldLines(headers))
  }

  function ResponseText(status: int, headers: Hash, data: string): string {
    StatusLine(status) + HeaderBlock(headers) + CRLF + data
  }

  /** `"#{method} #{path} #{status}"`. */
  function AccessEntry(verb: string, path: string, status: int): string {
    verb + " " + path + " " + IntToString(status)
  }

  predicate WellFormedHash(headers: Hash) {
    forall i :: 0 <= i < |headers| ==> IsFieldName(headers[i].0) && IsFieldValue(headers[i].1)
  }

  /**
   * A response whose header names and values fit the header grammar reads
   * back as its status line, then a header block that the request's own
   * header loop turns into exactly the hash's entries, then the data.
   */
  lemma ResponseReadBack(status: int, headers: Hash, data: string)
    requires WellFormedHash(headers)
    ensures var text := ResponseText(status, headers, data);
      && NextLine(text).Some? && NextLine(text).value.0 == StatusLine(status)
      && var scan := ReadHeaders(NextLine(text).value.1, map[], []);
      && scan.Complete? && scan.log == [] && scan.rest == data
      && (forall k :: k in scan.headers <==> HasKey(headers, k))
      && (forall k :: k in scan.headers ==> Get(headers, k) == Some(scan.headers[k]))
  {
    var tail := HeaderBlock(headers) + CRLF + data;
    Regroup(StatusLine(status), HeaderBlock(headers), CRLF, data);
    StatusLineRead(status);
    NextLineOfLine(StatusLine(status), tail);
    FieldsReadBack(headers, data);
    var scan := ReadHeaders(tail, map[], []);
    forall k | k in scan.headers ensures Get(headers, k) == Some(scan.headers[k]) {
      var i :| 0 <= i < |headers| && headers[i].0 == k;
      LastOfKey(headers, i);
    }
  }

  /** In a hash every entry is the last, and the only, one with its key. */
  lemma LastOfKey(headers: Hash, i: int)
    requires 0 <= i < |headers|
    ensures forall i' :: i < i' < |headers| ==> headers[i'].0 != headers[i].0
    ensures Get(headers, headers[i].0) == Some(headers[i].1)
  {
    assert headers[i] in headers;
  }

  // ---------------------------------------------------------------------
  // One exchange, as a function
  // ---------------------------------------------------------------------

  /**
   * Everything one call of `run` produces: the bytes written to the
   * response stream, the access-log line, the error-log lines in order,
   * and what is left unread on the request stream.
   */
  datatype Exchange = Exchange(wire: string, access: string, errors: seq<string>, rest: string)

  /** The handler step of `run`: its reply, or the 500 reply and the logged error. */
  function Invoke(handler: Handler, request: Request): (Reply, seq<string>) {
    match handler(Lower(request.verb), request.path)
    case Returned(reply) => (reply, [])
    case Raised(message, backtrace) => (InternalError, [ErrorEntry(message, backtrace)])
  }

  /**
   * `run` on a request stream holding `input`, whose EOFError carries
   * `trace`: read the request, ask the handler (or answer 400), negotiate
   * compression, write the response and log the exchange.
   */
  function Respond(handler: Handler, compress: string -> string, input: string, trace: seq<string>): Exchange {
    var parsed := ParseRequest(input, trace);
    var (reply, handlerErrors) := Answer(handler, parsed.request);
    var (headers, data) := Negotiate(HeadersOf(reply), RequestHeaders(parsed.request), BodyData(reply.body), compress);
    Exchange(ResponseText(reply.status, headers, data),
             AccessEntry(VerbOf(parsed.request), PathOf(parsed.request), reply.status),
             parsed.log + handlerErrors, parsed.rest)
  }

  /** The handler's answer to a request, or the 400 reply when there is none. */
  function Answer(handler: Handler, request: Option<Request>): (Reply, seq<string>) {
    if request.Some? then Invoke(handler, request.value) else (BadRequest, [])
  }

  /** The method the access log shows: "-" when no request was read. */
  function VerbOf(request: Option<Request>): string {
    if request.Some? then request.value.verb else "-"
  }

  function PathOf(request: Option<Request>): string {
    if request.Some? then request.value.path else "-"
  }

  function RequestHeaders(request: Option<Request>): map<string, string> {
    if request.Some? then request.value.headers else map[]
  }

  /**
   * No request could be read: the handler is not consulted, the response
   * is "400 Bad Request" with no headers and no body, and the access log
   * shows "- - 400"; the error log has what reading logged.
   */
  lemma BadRequestExchange(handler: Handler, compress: string -> string, input: string, trace: seq<string>)
    requires ParseRequest(input, trace).request.None?
    ensures var x := Respond(handler, compress, input, trace);
      && x.wire == "HTTP/1.0 400 Bad Request\r\n\r\n"
      && x.access == "- - 400"
      && x.errors == ParseRequest(input, trace).log
  {
    assert Negotiate([], map[], [], compress) == ([], []);
    BadRequestText();
    AnonymousAccess400();
  }

  lemma BadRequestText()
    ensures ResponseText(400, [], []) == "HTTP/1.0 400 Bad Request\r\n\r\n"
  {
    assert HeaderBlock([]) == [];
    TableStatusLines();
  }

  lemma AnonymousAccess400()
    ensures AccessEntry("-", "-", 400) == "- - 400"
  {
    ThreeDigits(400);
    TableDigits();
  }

  /** An empty request stream: 400, and the EOFError is the only error-log line. */
  lemma EmptyStreamExchange(handler: Handler, compress: string -> string, trace: seq<string>)
    ensures var x := Respond(handler, compress, [], trace);
      && x.wire == "HTTP/1.0 400 Bad Request\r\n\r\n"
      && x.errors == [ErrorEntry(EofMessage, trace)]
  {
    BadRequestExchange(handler, compress, [], trace);
  }

  /**
   * The handler is asked once, with the request's method lower-cased and
   * its path as received: two handlers that agree there give the same
   * exchange, and the method passed is the request's method letter by letter
   * in lower case.
   */
  lemma HandlerArguments(h1: Handler, h2: Handler, compress: string -> string, input: string, trace: seq<string>)
    requires ParseRequest(input, trace).request.Some?
    requires var r := ParseRequest(input, trace).request.value;
      h1(Lower(r.verb), r.path) == h2(Lower(r.verb), r.path)
    ensures Respond(h1, compress, input, trace) == Respond(h2, compress, input, trace)
    ensures var r := ParseRequest(input, trace).request.value;
      |Lower(r.verb)| == |r.verb| >= 1
      && forall i :: 0 <= i < |r.verb| ==> 'a' <= Lower(r.verb)[i] <= 'z' && Lower(r.verb)[i] as int == r.verb[i] as int + 32
  {
    var r := ParseRequest(input, trace).request.value;
    ParsedRequestShape(input, trace);
    LowerOfUpper(r.verb);
  }

  /**
   * A handler that raises: its error is logged after what reading logged,
   * the access log shows the request's method and path with 500, and the
   * response is "500 Internal Server Error" as text/plain, compressed when
   * the client accepts gzip.
   */
  lemma HandlerFailure(handler: Handler, compress: string -> string, input: string, trace: seq<string>)
    requires ParseRequest(input, trace).request.Some?
    requires var r := ParseRequest(input, trace).request.value;
      handler(Lower(r.verb), r.path).Raised?
    ensures var r := ParseRequest(input, trace).request.value;
      var e := handler(Lower(r.verb), r.path);
      var x := Respond(handler, compress, input, trace);
      var gzip := AcceptsGzip(r.headers);
      && x.errors == ParseRequest(input, trace).log + [ErrorEntry(e.message, e.backtrace)]
      && x.access == r.verb + " " + r.path + " 500"
      && (!gzip ==> x.wire == StatusLine(500) + FieldLine(("Content-Type", "text/plain")) + CRLF + "Internal Server Error")
      && (gzip ==>
            var z := compress("Internal Server Error");
            x.wire == StatusLine(500) + FieldLine(("Content-Type", "text/plain")) + FieldLine(("Content-Encoding", "gzip"))
                      + FieldLine(("Content-Length", NatToString(|z|))) + CRLF + z)
  {
    var r := ParseRequest(input, trace).request.value;
    RespondToRequest(handler, compress, input, trace);
    AccessEntry500(r.verb, r.path);
    if AcceptsGzip(r.headers) {
      InternalErrorGzip(r.headers, compress);
    } else {
      InternalErrorPlain(r.headers, compress);
    }
  }

  /** For a request that was read, the exchange is made of the handler's answer to it. */
  lemma RespondToRequest(handler: Handler, compress: string -> string, input: string, trace: seq<string>)
    requires ParseRequest(input, trace).request.Some?
    ensures var parsed := ParseRequest(input, trace);
      var r := parsed.request.value;
      var answer := Invoke(handler, r);
      var n := Negotiate(HeadersOf(answer.0), r.headers, BodyData(answer.0.body), compress);
      Respond(handler, compress, input, trace)
        == Exchange(ResponseText(answer.0.status, n.0, n.1),
                    AccessEntry(r.verb, r.path, answer.0.status),
                    parsed.log + answer.1, parsed.rest)
  {
  }

  lemma AccessEntry500(verb: string, path: string)
    ensures AccessEntry(verb, path, 500) == verb + " " + path + " 500"
  {
    ThreeDigits(500);
    TableDigits();
  }

  predicate AcceptsGzip(requestHeaders: map<string, string>) {
    "Accept-Encoding" in requestHeaders && Contains(requestHeaders["Accept-Encoding"], "gzip")
  }

  /** The 500 reply to a client that does not accept gzip goes out as it is. */
  lemma InternalErrorPlain(requestHeaders: map<string, string>, compress: string -> string)
    requires !AcceptsGzip(requestHeaders)
    ensures var n := Negotiate(HeadersOf(InternalError), requestHeaders, BodyData(InternalError.body), compress);
      ResponseText(500, n.0, n.1) == StatusLine(500) + FieldLine(("Content-Type", "text/plain")) + CRLF + "Internal Server Error"
  {
    var plain: Hash := [("Content-Type", "text/plain")];
    assert HeadersOf(InternalError) == plain;
    assert Negotiate(plain, requestHeaders, "Internal Server Error", compress) == (plain, "Internal Server Error");
    HeaderBlockSnoc([], plain[0]);
    assert [] + [plain[0]] == plain;
  }

  /** The 500 reply to a client that accepts gzip gains the two encoding headers, in order. */
  lemma InternalErrorGzip(requestHeaders: map<string, string>, compress: string -> string)
    requires AcceptsGzip(requestHeaders)
    ensures var n := Negotiate(HeadersOf(InternalError), requestHeaders, BodyData(InternalError.body), compress);
      var z := compress("Internal Server Error");
      ResponseText(500, n.0, n.1)
        == StatusLine(500) + FieldLine(("Content-Type", "text/plain")) + FieldLine(("Content-Encoding", "gzip"))
           + FieldLine(("Content-Length", NatToString(|z|))) + CRLF + z
  {
    var z := compress("Internal Server Error");
    var ct, ce, cl := ("Content-Type", "text/plain"), ("Content-Encoding", "gzip"), ("Content-Length", NatToString(|z|));
    GzipHeaders500(requestHeaders, compress);
    ThreeLineBlock(ct, ce, cl);
    Regroup(FieldLine(ct), FieldLine(ce), FieldLine(cl), []);
    RegroupAfter(StatusLine(500), FieldLine(ct), FieldLine(ce), FieldLine(cl));
  }

  /** Negotiation adds Content-Encoding, then Content-Length, behind the 500 reply's Content-Type. */
  lemma GzipHeaders500(requestHeaders: map<string, string>, compress: string -> string)
    requires AcceptsGzip(requestHeaders)
    ensures var z := compress("Internal Server Error");
      Negotiate(HeadersOf(InternalError), requestHeaders, BodyData(InternalError.body), compress)
        == ([("Content-Type", "text/plain"), ("Content-Encoding", "gzip"), ("Content-Length", NatToString(|z|))], z)
  {
    var e := ("Content-Type", "text/plain");
    assert HeadersOf(InternalError) == [e];
    assert BodyData(InternalError.body) == "Internal Server Error";
    assert Gzip([e], requestHeaders) by {
      assert StartsWith("text/plain", "text/");
      assert Get([e], "Content-Type") == Some("text/plain");
    }
    NegotiateOneEntry(e, requestHeaders, "Internal Server Error", compress);
  }

  /** A one-entry hash that is compressed gains Content-Encoding, then Content-Length. */
  lemma NegotiateOneEntry(e: Entry, requestHeaders: map<string, string>, data: string, compress: string -> string)
    requires Gzip([e], requestHeaders) && e.0 != "Content-Encoding" && e.0 != "Content-Length"
    ensures var z := compress(data);
      Negotiate([e], requestHeaders, data, compress)
        == ([e, ("Content-Encoding", "gzip"), ("Content-Length", NatToString(|z|))], z)
  {
    var z := compress(data);
    assert !HasKey([e], "Content-Encoding");
    var encoded := Store([e], "Content-Encoding", "gzip");
    assert encoded == [e, ("Content-Encoding", "gzip")];
    assert !HasKey(encoded, "Content-Length");
    var full := Store(encoded, "Content-Length", NatToString(|z|));
    assert full == encoded + [("Content-Length", NatToString(|z|))];
    assert Negotiate([e], requestHeaders, data, compress) == (full, z);
    assert full == [e, ("Content-Encoding", "gzip"), ("Content-Length", NatToString(|z|))];
  }

  lemma ThreeLineBlock(a: Entry, b: Entry, c: Entry)
    ensures HeaderBlock([a, b, c]) == FieldLine(a) + FieldLine(b) + FieldLine(c)
  {
    HeaderBlockSnoc([], a);
    assert [] + [a] == [a];
    HeaderBlockSnoc([a], b);
    assert [a] + [b] == [a, b];
    HeaderBlockSnoc([a, b], c);
    assert [a, b] + [c] == [a, b, c];
  }

  /** The header block of a hash with one more entry at the end. */
  lemma HeaderBlockSnoc(headers: seq<Entry>, e: Entry)
    ensures HeaderBlock(headers + [e]) == HeaderBlock(headers) + FieldLine(e)
  {
    assert FieldLines(headers + [e]) == FieldLines(headers) + [FieldLine(e)];
    ConcatSnoc(FieldLines(headers), FieldLine(e));
  }

  /**
   * A handler that returns: nothing is logged beyond what reading logged,
   * the access log shows method, path and the handler's status, and the
   * response is the handler's status line, its headers after negotiation
   * in order, the blank line and the (possibly compressed) data.
   */
  lemma HandlerSuccess(handler: Handler, compress: string -> string, input: string, trace: seq<string>)
    requires ParseRequest(input, trace).request.Some?
    requires var r := ParseRequest(input, trace).request.value;
      handler(Lower(r.verb), r.path).Returned?
    ensures var r := ParseRequest(input, trace).request.value;
      var reply := handler(Lower(r.verb), r.path).reply;
      var x := Respond(handler, compress, input, trace);
      var n := Negotiate(HeadersOf(reply), r.headers, BodyData(reply.body), compress);
      && x.errors == ParseRequest(input, trace).log
      && x.access == r.verb + " " + r.path + " " + IntToString(reply.status)
      && StartsWith(x.wire, StatusLine(reply.status))
      && x.wire == StatusLine(reply.status) + HeaderBlock(n.0) + CRLF + n.1
      && (Gzip(HeadersOf(reply), r.headers) ==> n.1 == compress(BodyData(reply.body)))
      && (!Gzip(HeadersOf(reply), r.headers) ==> n == (HeadersOf(reply), BodyData(reply.body)))
  {
    var r := ParseRequest(input, trace).request.value;
    var reply := handler(Lower(r.verb), r.path).reply;
    var n := Negotiate(HeadersOf(reply), r.headers, BodyData(reply.body), compress);
    RespondToRequest(handler, compress, input, trace);
    Regroup(StatusLine(reply.status), HeaderBlock(n.0), CRLF, n.1);
    PrefixOfAppend(StatusLine(reply.status), HeaderBlock(n.0) + CRLF + n.1);
  }

  // ---------------------------------------------------------------------
  // The objects
  // ---------------------------------------------------------------------

  /** The stream `run` writes the response to. */
  class ResponseStream {
    var written: string

    constructor ()
      ensures written == []
    {
      written := [];
    }

    method Write(data: string)
      modifies this
      ensures written == old(written) + data
    {
      written := written + data;
    }
  }

  /** `HTTPDispatcher`: a handler, the compressor, and the two logs it appends to. */
  class Dispatcher {
    const handler: Handler
    const compress: string -> string
    var accessLog: seq<string>
    var errorLog: seq<string>

    constructor (handler: Handler, compress: string -> string)
      ensures this.handler == handler && this.compress == compress
      ensures accessLog == [] && errorLog == []
    {
      this.handler := handler;
      this.compress := compress;
      accessLog := [];
      errorLog := [];
    }

    /** `log_error(e)`. */
    method LogError(message: string, backtrace: seq<string>)
      modifies this
      ensures errorLog == old(errorLog) + [ErrorEntry(message, backtrace)]
      ensures accessLog == old(accessLog)
    {
      errorLog := errorLog + [ErrorEntry(message, backtrace)];
    }

    /** `read_request`: it computes `ParseRequest` on what the stream holds. */
    method ReadRequest(input: RequestStream) returns (request: Option<Request>)
      modifies this, input
      ensures var parsed := ParseRequest(old(input.remaining), input.eofBacktrace);
        && request == parsed.request
        && errorLog == old(errorLog) + parsed.log
        && input.remaining == parsed.rest
      ensures accessLog == old(accessLog)
    {
      ghost var s0 := input.remaining;
      var first := input.ReadLine();
      if first.None? {
        LogError(EofMessage, input.eofBacktrace);
        return None;
      }
      ghost var afterHead := input.remaining;
      ParseFirstLine(s0, first.value, afterHead, input.eofBacktrace);
      var head := MatchRequestLine(first.value);
      if head.None? {
        return None;
      }
      ghost var log0 := errorLog;
      ghost var logged: seq<string> := [];
      var headers: map<string, string> := map[];
      while true
        invariant errorLog == log0 + logged && accessLog == old(accessLog)
        invariant ReadHeaders(input.remaining, headers, logged) == ReadHeaders(afterHead, map[], [])
        decreases |input.remaining|
      {
        ghost var before := input.remaining;
        var next := input.ReadLine();
        if next.None? {
          ReadHeadersAtEnd(headers, logged);
          LogError(EofMessage, input.eofBacktrace);
          Regroup3(log0, logged, [ErrorEntry(EofMessage, input.eofBacktrace)]);
          return None;
        }
        ReadHeadersTurn(before, next.value, input.remaining, headers, logged);
        if next.value == CRLF {
          break;
        }
        var field := MatchHeader(next.value);
        if field.Some? {
          headers := headers[field.value.0 := field.value.1];
        } else {
          Regroup3(log0, logged, [MalformedEntry(next.value)]);
          errorLog := errorLog + [MalformedEntry(next.value)];
          logged := logged + [MalformedEntry(next.value)];
        }
      }
      request := Some(Request(head.value.verb, head.value.path, headers));
    }

    /** `run`: one exchange on `input` and `output`, as `Respond` describes it. */
    method Run(input: RequestStream, output: ResponseStream)
      modifies this, input, output
      ensures var x := Respond(handler, compress, old(input.remaining), input.eofBacktrace);
        && output.written == old(output.written) + x.wire
        && accessLog == old(accessLog) + [x.access]
        && errorLog == old(errorLog) + x.errors
        && input.remaining == x.rest
    {
      ghost var parsed := ParseRequest(input.remaining, input.eofBacktrace);
      var request := ReadRequest(input);
      var verb, path, requestHeaders := VerbOf(request), PathOf(request), RequestHeaders(request);
      var reply, handlerErrors := CallHandler(request);
      WriteResponse(output, reply, requestHeaders);
      RespondOfParts(handler, compress, old(input.remaining), input.eofBacktrace, reply, handlerErrors);
      Regroup3(old(errorLog), parsed.log, handlerErrors);
      accessLog := accessLog + [AccessEntry(verb, path, reply.status)];
    }

    /**
     * The first half of `run`: the handler's reply to the request, or the 500
     * reply after logging what it raised; the 400 reply when there is no
     * request.
     */
    method CallHandler(request: Option<Request>) returns (reply: Reply, ghost handlerErrors: seq<string>)
      modifies this
      ensures (reply, handlerErrors) == Answer(handler, request)
      ensures errorLog == old(errorLog) + handlerErrors && accessLog == old(accessLog)
    {
      handlerErrors := [];
      if request.Some? {
        var result := handler(Lower(request.value.verb), request.value.path);
        match result {
          case Returned(r) =>
            reply := r;
          case Raised(message, backtrace) =>
            LogError(message, backtrace);
            handlerErrors := [ErrorEntry(message, backtrace)];
            reply := InternalError;
        }
      } else {
        reply := BadRequest;
      }
    }

    /**
     * The second half of `run`: the status line, then the reply's headers and
     * data after negotiation, the headers in the hash's order, then the blank
     * line and the data.
     */
    method WriteResponse(output: ResponseStream, reply: Reply, requestHeaders: map<string, string>)
      modifies output
      ensures var n := Negotiate(HeadersOf(reply), requestHeaders, BodyData(reply.body), compress);
        output.written == old(output.written) + ResponseText(reply.status, n.0, n.1)
    {
      output.Write(StatusLine(reply.status));
      var headers := HeadersOf(reply);
      var gzip := Gzip(headers, requestHeaders);
      var data := BodyData(reply.body);
      if gzip {
        headers := Store(headers, "Content-Encoding", "gzip");
        data := compress(data);
        headers := Store(headers, "Content-Length", NatToString(|data|));
      }
      assert (headers, data) == Negotiate(HeadersOf(reply), requestHeaders, BodyData(reply.body), compress);
      WriteHeaders(output, headers);
      output.Write(CRLF);
      output.Write(data);
      AppendResponse(old(output.written), StatusLine(reply.status), HeaderBlock(headers), data);
    }

    /** `response_headers.each { |key, value| ... }`: one `key: value` line per entry, in order. */
    method WriteHeaders(output: ResponseStream, headers: Hash)
      modifies output
      ensures output.written == old(output.written) + HeaderBlock(headers)
    {
      for i := 0 to |headers|
        invariant output.written == old(output.written) + HeaderBlock(headers[..i])
      {
        output.Write(FieldLine(headers[i]));
        assert headers[..i + 1] == headers[..i] + [headers[i]];
        HeaderBlockSnoc(headers[..i], headers[i]);
      }
      assert headers[..|headers|] == headers;
    }
  }

  /** `Respond` assembled from the handler's answer. */
  lemma RespondOfParts(handler: Handler, compress: string -> string, input: string, trace: seq<string>,
                       reply: Reply, handlerErrors: seq<string>)
    requires (reply, handlerErrors) == Answer(handler, ParseRequest(input, trace).request)
    ensures var parsed := ParseRequest(input, trace);
      var n := Negotiate(HeadersOf(reply), RequestHeaders(parsed.request), BodyData(reply.body), compress);
      Respond(handler, compress, input, trace)
        == Exchange(ResponseText(reply.status, n.0, n.1),
                    AccessEntry(VerbOf(parsed.request), PathOf(parsed.request), reply.status),
                    parsed.log + handlerErrors, parsed.rest)
  {
  }

  lemma AppendResponse(w: string, statusLine: string, block: string, data: string)
    ensures w + (statusLine + block + CRLF + data) == w + statusLine + block + CRLF + data
  {
  }
}
