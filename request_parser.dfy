/**
 * The request side of the HTTP/1.0 dispatcher: reading CRLF-terminated
 * lines from the request stream, matching the Request-Line of section 5.1
 * of RFC 1945, matching header lines of the general form of section 4.2,
 * and the header loop that collects them until the blank line.
 *
 * Each piece is a function, and `RequestStream` is the stream object. The
 * loop that drives it, `Dispatcher.ReadRequest` in module HttpDispatcher, is
 * proved to compute `ParseRequest`.
 */
module RequestParser {
  import opened Wrappers
  import opened Strings

  // ---------------------------------------------------------------------
  // The request stream and `readline("\r\n")`
  // ---------------------------------------------------------------------

  /**
   * `readline("\r\n")` on what is left of the stream: nothing at end of
   * stream (Ruby raises EOFError), otherwise everything up to and including
   * the first CRLF, or the rest of the stream when no CRLF follows.
   */
  function NextLine(s: string): (r: Option<(string, string)>)
    ensures r.None? <==> s == []
    ensures r.Some? ==> r.value.0 + r.value.1 == s && |r.value.0| >= 1
    ensures r.Some? ==> IsLine(r.value.0) || (r.value.1 == [] && NoCrlf(s))
  {
    if s == [] then None
    else
      var e := LineEnd(s, 0);
      assert IsLine(s[..e]) || (e == |s| && NoCrlf(s)) by {
        if 2 <= e && CrlfAt(s, e - 2) {
          forall j | 0 <= j < e - 2 ensures !CrlfAt(s[..e], j) {
            assert !CrlfAt(s, j);
          }
        }
      }
      Some((s[..e], s[e..]))
  }

  /** A whole line at the head of the stream is read as exactly that line. */
  lemma NextLineOfLine(l: string, rest: string)
    requires IsLine(l)
    ensures NextLine(l + rest) == Some((l, rest))
  {
    var s := l + rest;
    var e := LineEnd(s, 0);
    assert CrlfAt(s, |l| - 2);
    forall j | 0 <= j < |l| - 2 ensures !CrlfAt(s, j) {
      assert !CrlfAt(l, j);
    }
    assert e == |l|;
    assert s[..e] == l && s[e..] == rest;
  }

  /** A trailing fragment without CRLF is read as one last line. */
  lemma NextLineOfFragment(f: string)
    requires f != [] && NoCrlf(f)
    ensures NextLine(f) == Some((f, []))
  {
    var e := LineEnd(f, 0);
    if 2 <= e {
      assert !CrlfAt(f, e - 2);
    }
    assert e == |f|;
    assert f[..e] == f && f[e..] == [];
  }

  /**
   * The stream object `read_request` reads from. `eofBacktrace` is the
   * backtrace that the EOFError raised by its `readline` carries.
   */
  class RequestStream {
    var remaining: string
    const eofBacktrace: seq<string>

    constructor (contents: string, backtrace: seq<string>)
      ensures remaining == contents && eofBacktrace == backtrace
    {
      remaining := contents;
      eofBacktrace := backtrace;
    }

    /** `readline("\r\n")`; `None` stands for the EOFError at end of stream. */
    method ReadLine() returns (line: Option<string>)
      modifies this
      ensures old(remaining) == [] ==> line.None? && remaining == old(remaining)
      ensures old(remaining) != [] ==>
        line.Some? && NextLine(old(remaining)) == Some((line.value, remaining))
    {
      var r := NextLine(remaining);
      if r.None? {
        line := None;
      } else {
        line := Some(r.value.0);
        remaining := r.value.1;
      }
    }
  }

  // ---------------------------------------------------------------------
  // Log entries written while reading
  // ---------------------------------------------------------------------

  /** The message of Ruby's EOFError. */
  const EofMessage: string := "end of file reached"

  /** The line `log_error` writes: the message, then the backtrace joined by line feeds. */
  function ErrorEntry(message: string, backtrace: seq<string>): string {
    "Error: " + message + ": " + Join(backtrace, "\n")
  }

  function HexDigit(d: nat): char
    requires d < 16
  {
    if d < 10 then DigitChar(d) else ('A' as int + d - 10) as char
  }

  /** How `String#inspect` writes one character, given the character after it. */
  function EscapeChar(c: char, next: Option<char>): string {
    if c == '"' then "\\\""
    else if c == '\\' then "\\\\"
    else if c == '\n' then "\\n"
    else if c == '\r' then "\\r"
    else if c == '\t' then "\\t"
    else if c as int == 12 then "\\f"
    else if c as int == 11 then "\\v"
    else if c as int == 8 then "\\b"
    else if c as int == 7 then "\\a"
    else if c as int == 27 then "\\e"
    else if c == '#' && (next == Some('{') || next == Some('$') || next == Some('@')) then "\\#"
    else if c as int < 32 || c as int == 127 then
      "\\u00" + [HexDigit(c as int / 16), HexDigit(c as int % 16)]
    else [c]
  }

  function Escaped(s: string): string {
    if s == [] then []
    else EscapeChar(s[0], if |s| > 1 then Some(s[1]) else None) + Escaped(s[1..])
  }

  /** `String#inspect`: the text in double quotes with special characters escaped. */
  function Inspect(s: string): string {
    "\"" + Escaped(s) + "\""
  }

  function MalformedEntry(line: string): string {
    "malformed header: " + Inspect(line)
  }

  // ---------------------------------------------------------------------
  // The Request-Line
  // ---------------------------------------------------------------------

  datatype RequestHead = RequestHead(verb: string, path: string)

  const Http10: string := " HTTP/1.0\r\n"
  const Http11: string := " HTTP/1.1\r\n"

  /**
   * `/\A([A-Z]+) \/([^ ]*) HTTP\/1\.[01]\r\n/`: the method is the text up to
   * the first space and must be upper-case letters; then `/`; the path runs
   * up to the next space; then the version and CRLF.
   */
  function MatchRequestLine(line: string): Option<RequestHead> {
    var (verb, afterVerb) := SplitAt(line, ' ');
    if verb == [] || !AllUpper(verb) || |afterVerb| < 2 || afterVerb[1] != '/' then None
    else
      var (path, version) := SplitAt(afterVerb[2..], ' ');
      if StartsWith(version, Http10) || StartsWith(version, Http11) then Some(RequestHead(verb, path))
      else None
  }

  /** The text of a Request-Line with the given method, path and minor version. */
  function RequestLineText(verb: string, path: string, minor: char): string {
    verb + " /" + path + " HTTP/1." + [minor] + CRLF
  }

  predicate IsMethodToken(m: string) {
    |m| >= 1 && AllUpper(m)
  }

  /** Every Request-Line of the grammar is accepted, with its method and path. */
  lemma RequestLineComplete(m: string, p: string, minor: char, extra: string)
    requires IsMethodToken(m) && ' ' !in p && (minor == '0' || minor == '1')
    ensures MatchRequestLine(RequestLineText(m, p, minor) + extra) == Some(RequestHead(m, p))
  {
    var version := " HTTP/1." + [minor] + CRLF + extra;
    var afterVerb := " /" + (p + version);
    assert ' ' !in m by {
      assert forall j :: 0 <= j < |m| ==> IsUpper(m[j]);
    }
    assert RequestLineText(m, p, minor) + extra == m + afterVerb;
    SplitAtUnique(m, afterVerb, ' ');
    assert afterVerb[2..] == p + version;
    SplitAtUnique(p, version, ' ');
    VersionPrefix(minor, extra);
  }

  lemma VersionPrefix(minor: char, extra: string)
    requires minor == '0' || minor == '1'
    ensures var version := " HTTP/1." + [minor] + CRLF + extra;
      StartsWith(version, Http10) || StartsWith(version, Http11)
  {
    var version := " HTTP/1." + [minor] + CRLF + extra;
    assert version[..11] == " HTTP/1." + [minor] + CRLF;
  }

  /** Whatever is accepted has the Request-Line grammar's shape. */
  lemma RequestLineSound(line: string)
    requires MatchRequestLine(line).Some?
    ensures var h := MatchRequestLine(line).value;
      IsMethodToken(h.verb) && ' ' !in h.path
    ensures var h := MatchRequestLine(line).value;
      var k := |h.verb| + 2 + |h.path|;
      k + 11 <= |line| && (line[k + 8] == '0' || line[k + 8] == '1')
      && StartsWith(line, RequestLineText(h.verb, h.path, line[k + 8]))
  {
    var h := MatchRequestLine(line).value;
    var (verb, afterVerb) := SplitAt(line, ' ');
    var (path, version) := SplitAt(afterVerb[2..], ' ');
    RequestLineParts(line, verb, afterVerb, path, version);
    Reassemble(line, h.verb, h.path, version);
  }

  lemma RequestLineParts(line: string, verb: string, afterVerb: string, path: string, version: string)
    requires line == verb + afterVerb && |afterVerb| >= 2 && afterVerb[0] == ' ' && afterVerb[1] == '/'
    requires afterVerb[2..] == path + version
    ensures line == (verb + " /" + path) + version
  {
    assert afterVerb == " /" + afterVerb[2..];
  }

  lemma Reassemble(line: string, verb: string, path: string, version: string)
    requires line == (verb + " /" + path) + version
    requires StartsWith(version, Http10) || StartsWith(version, Http11)
    ensures var k := |verb| + 2 + |path|;
      k + 11 <= |line| && (line[k + 8] == '0' || line[k + 8] == '1')
      && StartsWith(line, RequestLineText(verb, path, line[k + 8]))
  {
    var a := verb + " /" + path;
    PrefixOfConcat(a, version, 11);
    VersionText(version[..11]);
    assert line[|a| + 8] == version[8];
    RequestLineTextSplit(verb, path, version[8]);
  }

  lemma VersionText(v: string)
    requires v == Http10 || v == Http11
    ensures v == " HTTP/1." + [v[8]] + CRLF
  {
  }

  lemma RequestLineTextSplit(verb: string, path: string, minor: char)
    ensures RequestLineText(verb, path, minor) == (verb + " /" + path) + (" HTTP/1." + [minor] + CRLF)
  {
  }

  // ---------------------------------------------------------------------
  // Header lines
  // ---------------------------------------------------------------------

  /** A name the header pattern accepts: one or more non-`\s` characters. */
  predicate IsFieldName(n: string) {
    |n| >= 1 && NoSpace(n)
  }

  /** A value the header pattern accepts: a non-`\s` character, then no line feed. */
  predicate IsFieldValue(v: string) {
    |v| >= 1 && !IsSpace(v[0]) && '\n' !in v
  }

  /**
   * `/\A(\S+): (\S.*?)\r\n/`: the name runs to the first `\s` character,
   * which must be the space of `": "`; the value runs from there to the
   * first line feed, which must be the one of a CRLF.
   */
  function MatchHeader(line: string): Option<(string, string)> {
    var (name, afterName) := SplitAtSpace(line);
    if |name| < 2 || name[|name| - 1] != ':' || afterName == [] || afterName[0] != ' ' then None
    else
      var (value, afterValue) := SplitAt(afterName[1..], '\n');
      if |value| < 2 || value[|value| - 1] != '\r' || afterValue == [] || IsSpace(value[0]) then None
      else Some((name[..|name| - 1], value[..|value| - 1]))
  }

  function FieldLine(f: (string, string)): string {
    f.0 + ": " + f.1 + CRLF
  }

  /** Every `name: value` line of the pattern is accepted, with that name and value. */
  lemma HeaderComplete(n: string, v: string, extra: string)
    requires IsFieldName(n) && IsFieldValue(v)
    ensures MatchHeader(FieldLine((n, v)) + extra) == Some((n, v))
  {
    var name, value := n + ":", v + "\r";
    var afterName := " " + (value + ("\n" + extra));
    HeaderText(n, v, extra);
    HeaderPieces(n, v);
    SplitAtSpaceUnique(name, afterName);
    assert afterName[1..] == value + ("\n" + extra);
    SplitAtUnique(value, "\n" + extra, '\n');
  }

  lemma HeaderText(n: string, v: string, extra: string)
    ensures FieldLine((n, v)) + extra == (n + ":") + (" " + ((v + "\r") + ("\n" + extra)))
  {
  }

  lemma HeaderPieces(n: string, v: string)
    requires IsFieldName(n) && IsFieldValue(v)
    ensures NoSpace(n + ":") && '\n' !in v + "\r"
    ensures (n + ":")[..|n|] == n && (v + "\r")[..|v|] == v
  {
    assert forall j :: 0 <= j < |n| ==> (n + ":")[j] == n[j];
    assert forall j :: 0 <= j < |v| ==> (v + "\r")[j] == v[j];
  }

  /** Whatever is accepted is a `name: value` line at the head of the text. */
  lemma HeaderSound(line: string)
    requires MatchHeader(line).Some?
    ensures var (n, v) := MatchHeader(line).value;
      IsFieldName(n) && IsFieldValue(v) && StartsWith(line, FieldLine((n, v)))
  {
    var (name, afterName) := SplitAtSpace(line);
    var (value, afterValue) := SplitAt(afterName[1..], '\n');
    HeaderReassemble(line, name, afterName, value, afterValue);
  }

  lemma HeaderReassemble(line: string, name: string, afterName: string, value: string, afterValue: string)
    requires line == name + afterName && NoSpace(name) && |name| >= 2 && name[|name| - 1] == ':'
    requires afterName != [] && afterName[0] == ' '
    requires afterName[1..] == value + afterValue && '\n' !in value && afterValue != [] && afterValue[0] == '\n'
    requires |value| >= 2 && value[|value| - 1] == '\r' && !IsSpace(value[0])
    ensures var n, v := name[..|name| - 1], value[..|value| - 1];
      IsFieldName(n) && IsFieldValue(v) && StartsWith(line, FieldLine((n, v)))
  {
    var n, v := name[..|name| - 1], value[..|value| - 1];
    assert name == n + ":";
    assert value == v + "\r";
    assert IsFieldName(n) by {
      assert forall j :: 0 <= j < |n| ==> n[j] == name[j];
    }
    assert '\n' !in v by {
      assert forall j :: 0 <= j < |v| ==> v[j] == value[j];
    }
    assert afterName == " " + afterName[1..];
    assert afterValue == "\n" + afterValue[1..];
    assert line == FieldLine((n, v)) + afterValue[1..];
  }

  /** A line without CRLF is never a header. */
  lemma MatchHeaderNeedsCrlf(line: string)
    requires NoCrlf(line)
    ensures MatchHeader(line).None?
  {
    if MatchHeader(line).Some? {
      HeaderSound(line);
      var (n, v) := MatchHeader(line).value;
      var k := |FieldLine((n, v))|;
      assert CrlfAt(FieldLine((n, v)), k - 2);
      assert CrlfAt(line, k - 2);
    }
  }

  /** A well-formed header line is a protocol line and not the blank line. */
  lemma FieldLineIsLine(f: (string, string))
    requires IsFieldName(f.0) && IsFieldValue(f.1)
    ensures IsLine(FieldLine(f)) && FieldLine(f) != CRLF
  {
    var l := FieldLine(f);
    assert l == f.0 + ": " + f.1 + CRLF;
    forall j | 0 <= j < |l| - 2 ensures !CrlfAt(l, j) {
      if j < |f.0| {
        assert l[j] == f.0[j];
      } else if j + 1 < |f.0| + 2 + |f.1| && j + 1 >= |f.0| + 2 {
        assert l[j + 1] == f.1[j + 1 - |f.0| - 2];
      }
    }
  }

  // ---------------------------------------------------------------------
  // The header loop and `read_request`
  // ---------------------------------------------------------------------

  /** Ruby's `headers[name] = value` on the request-header hash. */
  function StoreLine(headers: map<string, string>, line: string): map<string, string> {
    match MatchHeader(line)
    case Some((n, v)) => headers[n := v]
    case None => headers
  }

  function LogLine(log: seq<string>, line: string): seq<string> {
    if MatchHeader(line).Some? then log else log + [MalformedEntry(line)]
  }

  lemma LogLineAppends(log: seq<string>, l: string, more: seq<string>)
    ensures LogLine(log, l) + more == log + (LogLine([], l) + more)
  {
    if MatchHeader(l).None? {
      assert LogLine(log, l) == log + [MalformedEntry(l)];
      assert LogLine([], l) == [MalformedEntry(l)];
    }
  }

  datatype HeaderScan =
    | Complete(headers: map<string, string>, log: seq<string>, rest: string)
    | Truncated(log: seq<string>)

  /**
   * The `while` loop of `read_request`: read lines until one equals CRLF,
   * store each matching header, log each other line as malformed; end of
   * stream first is `Truncated`.
   */
  function ReadHeaders(s: string, headers: map<string, string>, log: seq<string>): HeaderScan
    decreases |s|
  {
    match NextLine(s)
    case None => Truncated(log)
    case Some((line, rest)) =>
      if line == CRLF then Complete(headers, log, rest)
      else ReadHeaders(rest, StoreLine(headers, line), LogLine(log, line))
  }

  datatype Request = Request(verb: string, path: string, headers: map<string, string>)

  /** What `read_request` returns, what it logs, and what it leaves unread. */
  datatype ParseResult = ParseResult(request: Option<Request>, log: seq<string>, rest: string)

  /**
   * `read_request` on stream contents `s`: the Request-Line, then the header
   * loop; an EOFError, whose backtrace is `trace`, is logged.
   */
  function ParseRequest(s: string, trace: seq<string>): ParseResult {
    match NextLine(s)
    case None => ParseResult(None, [ErrorEntry(EofMessage, trace)], [])
    case Some((line, rest)) =>
      match MatchRequestLine(line)
      case None => ParseResult(None, [], rest)
      case Some(head) => AfterHeaders(head, ReadHeaders(rest, map[], []), trace)
  }

  /** What `read_request` makes of the header loop's outcome. */
  function AfterHeaders(head: RequestHead, scan: HeaderScan, trace: seq<string>): ParseResult {
    match scan
    case Truncated(log) => ParseResult(None, log + [ErrorEntry(EofMessage, trace)], [])
    case Complete(headers, log, rest) => ParseResult(Some(Request(head.verb, head.path, headers)), log, rest)
  }

  /** `read_request` after its first `readline`: a 400 without logging, or the header loop. */
  lemma ParseFirstLine(s: string, line: string, rest: string, trace: seq<string>)
    requires NextLine(s) == Some((line, rest))
    ensures MatchRequestLine(line).None? ==> ParseRequest(s, trace) == ParseResult(None, [], rest)
    ensures MatchRequestLine(line).Some? ==>
      ParseRequest(s, trace) == AfterHeaders(MatchRequestLine(line).value, ReadHeaders(rest, map[], []), trace)
  {
  }

  /** One turn of the header loop after a `readline` that returned `line`. */
  lemma ReadHeadersTurn(s: string, line: string, rest: string, headers: map<string, string>, log: seq<string>)
    requires NextLine(s) == Some((line, rest))
    ensures line == CRLF ==> ReadHeaders(s, headers, log) == Complete(headers, log, rest)
    ensures line != CRLF ==>
      ReadHeaders(s, headers, log) == ReadHeaders(rest, StoreLine(headers, line), LogLine(log, line))
  {
  }

  /** The header loop at end of stream. */
  lemma ReadHeadersAtEnd(headers: map<string, string>, log: seq<string>)
    ensures ReadHeaders([], headers, log) == Truncated(log)
  {
  }

  /** After an accepted Request-Line, `read_request` runs the header loop on what follows it. */
  lemma ParseAfterRequestLine(requestLine: string, tail: string, trace: seq<string>)
    requires IsLine(requestLine) && MatchRequestLine(requestLine).Some?
    ensures ParseRequest(requestLine + tail, trace)
         == AfterHeaders(MatchRequestLine(requestLine).value, ReadHeaders(tail, map[], []), trace)
  {
    NextLineOfLine(requestLine, tail);
  }

  // ---------------------------------------------------------------------
  // The same loop read off a list of lines
  // ---------------------------------------------------------------------

  function Concat(lines: seq<string>): string {
    if lines == [] then [] else lines[0] + Concat(lines[1..])
  }

  /** The headers collected from `lines`, in order, on top of `headers`. */
  function Apply(headers: map<string, string>, lines: seq<string>): map<string, string>
    decreases |lines|
  {
    if lines == [] then headers else Apply(StoreLine(headers, lines[0]), lines[1..])
  }

  /** The malformed-header entries for `lines`, in order. */
  function MalformedEntries(lines: seq<string>): seq<string> {
    if lines == [] then [] else LogLine([], lines[0]) + MalformedEntries(lines[1..])
  }

  /** Header lines of the stream: whole lines, none of them the blank line. */
  predicate AreHeaderLines(lines: seq<string>) {
    forall k :: 0 <= k < |lines| ==> IsLine(lines[k]) && lines[k] != CRLF
  }

  /** One header line is read, stored or logged, and the loop goes on. */
  lemma ReadHeadersStep(l: string, tail: string, headers: map<string, string>, log: seq<string>)
    requires IsLine(l) && l != CRLF
    ensures ReadHeaders(l + tail, headers, log) == ReadHeaders(tail, StoreLine(headers, l), LogLine(log, l))
  {
    NextLineOfLine(l, tail);
  }

  /** The loop stops at the blank line, having stored and logged every line before it. */
  lemma {:induction false} ReadHeadersOfLines(lines: seq<string>, rest: string, headers: map<string, string>, log: seq<string>)
    requires AreHeaderLines(lines)
    ensures ReadHeaders(Concat(lines) + CRLF + rest, headers, log)
         == Complete(Apply(headers, lines), log + MalformedEntries(lines), rest)
    decreases |lines|
  {
    if lines == [] {
      assert Concat(lines) + CRLF + rest == CRLF + rest;
      NextLineOfLine(CRLF, rest);
    } else {
      var l := lines[0];
      var tail := Concat(lines[1..]) + CRLF + rest;
      Regroup(l, Concat(lines[1..]), CRLF, rest);
      ReadHeadersStep(l, tail, headers, log);
      ReadHeadersOfLines(lines[1..], rest, StoreLine(headers, l), LogLine(log, l));
      LogLineAppends(log, l, MalformedEntries(lines[1..]));
    }
  }

  /** What is logged for a last, unterminated fragment: nothing when it is empty. */
  function FragmentEntries(fragment: string): seq<string> {
    if fragment == [] then [] else [MalformedEntry(fragment)]
  }

  /** End of stream before the blank line: the loop fails, after logging every line read. */
  lemma {:induction false} ReadHeadersTruncated(lines: seq<string>, fragment: string, headers: map<string, string>, log: seq<string>)
    requires AreHeaderLines(lines) && NoCrlf(fragment)
    ensures ReadHeaders(Concat(lines) + fragment, headers, log)
         == Truncated(log + MalformedEntries(lines) + FragmentEntries(fragment))
    decreases |lines|
  {
    if lines == [] {
      assert Concat(lines) + fragment == fragment;
      ReadHeadersOfFragment(fragment, headers, log);
    } else {
      var l := lines[0];
      var tail := Concat(lines[1..]) + fragment;
      Regroup3(l, Concat(lines[1..]), fragment);
      ReadHeadersStep(l, tail, headers, log);
      ReadHeadersTruncated(lines[1..], fragment, StoreLine(headers, l), LogLine(log, l));
      var more := MalformedEntries(lines[1..]);
      assert MalformedEntries(lines) == LogLine([], l) + more;
      LogLineAppends(log, l, more);
      assert LogLine(log, l) + more + FragmentEntries(fragment)
          == log + MalformedEntries(lines) + FragmentEntries(fragment);
    }
  }

  /** A last fragment without CRLF is logged as malformed, and then the stream ends. */
  lemma ReadHeadersOfFragment(fragment: string, headers: map<string, string>, log: seq<string>)
    requires NoCrlf(fragment)
    ensures ReadHeaders(fragment, headers, log)
         == Truncated(log + FragmentEntries(fragment))
  {
    if fragment != [] {
      NextLineOfFragment(fragment);
      MatchHeaderNeedsCrlf(fragment);
      assert fragment != CRLF by {
        assert !CrlfAt(fragment, 0);
      }
      assert NextLine([]) == None;
    }
  }

  /** Line `line` is a header line for `name`. */
  predicate Names(line: string, name: string) {
    MatchHeader(line).Some? && MatchHeader(line).value.0 == name
  }

  /** A name no later line mentions keeps the value it had. */
  lemma {:induction false} ApplyUntouched(headers: map<string, string>, lines: seq<string>, name: string)
    requires forall k :: 0 <= k < |lines| ==> !Names(lines[k], name)
    ensures name in Apply(headers, lines) <==> name in headers
    ensures name in headers ==> Apply(headers, lines)[name] == headers[name]
    decreases |lines|
  {
    if lines != [] {
      assert !Names(lines[0], name);
      ApplyUntouched(StoreLine(headers, lines[0]), lines[1..], name);
    }
  }

  /** Last one wins: a header's value is the one on the last line naming it. */
  lemma {:induction false} ApplyLastWins(headers: map<string, string>, lines: seq<string>, i: nat, name: string, value: string)
    requires i < |lines| && MatchHeader(lines[i]) == Some((name, value))
    requires forall k :: i < k < |lines| ==> !Names(lines[k], name)
    ensures name in Apply(headers, lines) && Apply(headers, lines)[name] == value
    decreases |lines|
  {
    if i == 0 {
      ApplyUntouched(headers[name := value], lines[1..], name);
    } else {
      ApplyLastWins(StoreLine(headers, lines[0]), lines[1..], i - 1, name, value);
    }
  }

  /** A name is present exactly when it was present before or some line names it. */
  lemma {:induction false} ApplyKeys(headers: map<string, string>, lines: seq<string>, name: string)
    ensures name in Apply(headers, lines) <==>
      (name in headers || exists k :: 0 <= k < |lines| && Names(lines[k], name))
    decreases |lines|
  {
    if lines != [] {
      ApplyKeys(StoreLine(headers, lines[0]), lines[1..], name);
      if exists k :: 0 <= k < |lines[1..]| && Names(lines[1..][k], name) {
        var k :| 0 <= k < |lines[1..]| && Names(lines[1..][k], name);
        assert Names(lines[k + 1], name);
      }
      if exists k :: 0 <= k < |lines| && Names(lines[k], name) {
        var k :| 0 <= k < |lines| && Names(lines[k], name);
        if k > 0 {
          assert Names(lines[1..][k - 1], name);
        }
      }
    }
  }

  /** A request whose headers end with the blank line is parsed into method, path and headers. */
  lemma ParseComplete(requestLine: string, lines: seq<string>, rest: string, trace: seq<string>)
    requires IsLine(requestLine) && MatchRequestLine(requestLine).Some?
    requires AreHeaderLines(lines)
    ensures var head := MatchRequestLine(requestLine).value;
      ParseRequest(requestLine + Concat(lines) + CRLF + rest, trace)
        == ParseResult(Some(Request(head.verb, head.path, Apply(map[], lines))), MalformedEntries(lines), rest)
  {
    Regroup(requestLine, Concat(lines), CRLF, rest);
    ParseAfterRequestLine(requestLine, Concat(lines) + CRLF + rest, trace);
    ReadHeadersOfLines(lines, rest, map[], []);
    assert [] + MalformedEntries(lines) == MalformedEntries(lines);
  }

  /** A request cut off before the blank line is no request, and the EOFError is logged last. */
  lemma ParseTruncated(requestLine: string, lines: seq<string>, fragment: string, trace: seq<string>)
    requires IsLine(requestLine) && MatchRequestLine(requestLine).Some?
    requires AreHeaderLines(lines) && NoCrlf(fragment)
    ensures ParseRequest(requestLine + Concat(lines) + fragment, trace)
         == ParseResult(None,
                        MalformedEntries(lines)
                        + FragmentEntries(fragment)
                        + [ErrorEntry(EofMessage, trace)],
                        [])
  {
    Regroup3(requestLine, Concat(lines), fragment);
    ParseAfterRequestLine(requestLine, Concat(lines) + fragment, trace);
    ReadHeadersTruncated(lines, fragment, map[], []);
    assert [] + MalformedEntries(lines) == MalformedEntries(lines);
  }

  /** A first line that is not a Request-Line makes `read_request` return nil without logging. */
  lemma ParseBadRequestLine(s: string, trace: seq<string>)
    requires NextLine(s).Some? && MatchRequestLine(NextLine(s).value.0).None?
    ensures ParseRequest(s, trace) == ParseResult(None, [], NextLine(s).value.1)
  {
  }

  // ---------------------------------------------------------------------
  // Round trip: a request written out by the grammar is read back
  // ---------------------------------------------------------------------

  function FieldLines(fields: seq<(string, string)>): (r: seq<string>)
    ensures |r| == |fields|
    ensures forall k :: 0 <= k < |fields| ==> r[k] == FieldLine(fields[k])
  {
    seq(|fields|, k requires 0 <= k < |fields| => FieldLine(fields[k]))
  }

  predicate WellFormedFields(fields: seq<(string, string)>) {
    forall k :: 0 <= k < |fields| ==> IsFieldName(fields[k].0) && IsFieldValue(fields[k].1)
  }

  function RequestText(verb: string, path: string, minor: char, fields: seq<(string, string)>): string {
    RequestLineText(verb, path, minor) + Concat(FieldLines(fields)) + CRLF
  }

  /**
   * Header lines written in the grammar of section 4.2 of RFC 1945, then the
   * blank line, are read back by the header loop with no log entry: every
   * name sent is present and holds the value of its last occurrence.
   */
  lemma FieldsReadBack(fields: seq<(string, string)>, rest: string)
    requires WellFormedFields(fields)
    ensures var scan := ReadHeaders(Concat(FieldLines(fields)) + CRLF + rest, map[], []);
      && scan.Complete? && scan.log == [] && scan.rest == rest
      && (forall n :: n in scan.headers <==> exists k :: 0 <= k < |fields| && fields[k].0 == n)
      && (forall k :: 0 <= k < |fields| && (forall k' :: k < k' < |fields| ==> fields[k'].0 != fields[k].0)
            ==> scan.headers[fields[k].0] == fields[k].1)
  {
    var lines := FieldLines(fields);
    forall k | 0 <= k < |lines| ensures IsLine(lines[k]) && lines[k] != CRLF {
      FieldLineIsLine(fields[k]);
    }
    forall k | 0 <= k < |lines| ensures MatchHeader(lines[k]) == Some(fields[k]) {
      HeaderComplete(fields[k].0, fields[k].1, []);
      assert FieldLine(fields[k]) + [] == FieldLine(fields[k]);
    }
    NoMalformed(lines);
    ReadHeadersOfLines(lines, rest, map[], []);
    assert [] + MalformedEntries(lines) == [];
    var headers := Apply(map[], lines);
    forall n ensures n in headers <==> exists k :: 0 <= k < |fields| && fields[k].0 == n {
      ApplyKeys(map[], lines, n);
      if exists k :: 0 <= k < |fields| && fields[k].0 == n {
        var k :| 0 <= k < |fields| && fields[k].0 == n;
        assert Names(lines[k], n);
      }
    }
    forall k | 0 <= k < |fields| && (forall k' :: k < k' < |fields| ==> fields[k'].0 != fields[k].0)
      ensures headers[fields[k].0] == fields[k].1
    {
      forall k' | k < k' < |lines| ensures !Names(lines[k'], fields[k].0) {
        assert MatchHeader(lines[k']) == Some(fields[k']);
      }
      ApplyLastWins(map[], lines, k, fields[k].0, fields[k].1);
    }
  }

  /** A Request-Line of the grammar of section 5.1 of RFC 1945 is one protocol line. */
  lemma RequestLineIsLine(verb: string, path: string, minor: char)
    requires IsMethodToken(verb) && NoCrlf(path) && (minor == '0' || minor == '1')
    ensures IsLine(RequestLineText(verb, path, minor))
  {
    assert NoCrlf(verb) by {
      forall j | 0 <= j < |verb| ensures !CrlfAt(verb, j) {
        assert IsUpper(verb[j]);
      }
    }
    NoCrlfConcat(verb, " /");
    NoCrlfConcat(verb + " /", path);
    NoCrlfConcat(verb + " /" + path, " HTTP/1." + [minor]);
    assert verb + " /" + path + " HTTP/1." + [minor] == verb + " /" + path + (" HTTP/1." + [minor]);
    LineOfText(verb + " /" + path + " HTTP/1." + [minor]);
  }

  /**
   * A request written in the grammar of sections 4.2 and 5.1 of RFC 1945
   * parses back to its method and path, with no log entry; every header
   * name sent is present, and holds the value of its last occurrence.
   */
  lemma RequestRoundTrip(verb: string, path: string, minor: char, fields: seq<(string, string)>, body: string, trace: seq<string>)
    requires IsMethodToken(verb) && ' ' !in path && NoCrlf(path) && (minor == '0' || minor == '1')
    requires WellFormedFields(fields)
    ensures var r := ParseRequest(RequestText(verb, path, minor, fields) + body, trace);
      && r.request.Some? && r.log == [] && r.rest == body
      && r.request.value.verb == verb && r.request.value.path == path
      && (forall n :: n in r.request.value.headers <==> exists k :: 0 <= k < |fields| && fields[k].0 == n)
      && (forall k :: 0 <= k < |fields| && (forall k' :: k < k' < |fields| ==> fields[k'].0 != fields[k].0)
            ==> r.request.value.headers[fields[k].0] == fields[k].1)
  {
    var rl := RequestLineText(verb, path, minor);
    var tail := Concat(FieldLines(fields)) + CRLF + body;
    RequestLineComplete(verb, path, minor, []);
    assert rl + [] == rl;
    RequestLineIsLine(verb, path, minor);
    Regroup(rl, Concat(FieldLines(fields)), CRLF, body);
    ParseAfterRequestLine(rl, tail, trace);
    FieldsReadBack(fields, body);
  }

  /** Every request `read_request` returns has a method token and a path without spaces. */
  lemma ParsedRequestShape(s: string, trace: seq<string>)
    requires ParseRequest(s, trace).request.Some?
    ensures var r := ParseRequest(s, trace).request.value;
      IsMethodToken(r.verb) && ' ' !in r.path
  {
    RequestLineSound(NextLine(s).value.0);
  }

  /** `Concat` of lines with one more line at the end. */
  lemma {:induction false} ConcatSnoc(lines: seq<string>, l: string)
    ensures Concat(lines + [l]) == Concat(lines) + l
    decreases |lines|
  {
    if lines == [] {
      assert [] + [l] == [l];
    } else {
      assert (lines + [l])[1..] == lines[1..] + [l];
      ConcatSnoc(lines[1..], l);
    }
  }

  lemma {:induction false} NoMalformed(lines: seq<string>)
    requires forall k :: 0 <= k < |lines| ==> MatchHeader(lines[k]).Some?
    ensures MalformedEntries(lines) == []
    decreases |lines|
  {
    if lines != [] {
      assert MatchHeader(lines[0]).Some?;
      NoMalformed(lines[1..]);
    }
  }
}
