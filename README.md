# sloth's dispatcher and file handler, in Dafny

sloth is a small HTTP/1.0 server written in Ruby. This project models two of its parts and proves
properties about them:

- `HTTPDispatcher` (module `HttpDispatcher`, with the request-reading functions in module
  `RequestParser`). It reads one request from a request stream: the Request-Line, then header
  lines up to the blank line. It asks a handler for `[status, body, headers]` with the method
  lower-cased and the path as sent. It writes the status line, the header lines, a blank line and
  the body to the response stream, deflating text bodies for clients whose Accept-Encoding
  mentions gzip. It appends one line to the access log for every exchange. Malformed header
  lines, end of stream and handler exceptions go to the error log.
- `DirectoryHandler#handle` (module `DirectoryHandler`). It refuses every method but GET and every
  path with a ".." segment. It then joins the path to the base directory in the way
  `File.join` does, and opens the file there if it exists.

The model is built in layers:

- **Functions.** `ParseRequest` and `Respond` describe one exchange as a function of what the
  request stream holds. They return the request read, the bytes written, the access-log line,
  the error-log lines and what is left unread.
- **Objects.** The class `Dispatcher` performs the same exchange step by step. It holds the two
  logs as sequence fields and works on a `RequestStream` object and a `ResponseStream` object.
  Its methods (`ReadRequest`, whose `while` loop reads header lines, `CallHandler`,
  `WriteResponse`, `WriteHeaders` and `Run`) are proved to compute those functions.
- **Lemmas.** They state what the server promises: which Request-Lines and header lines are
  accepted (both directions), last-wins header values, the 400, 500 and success responses
  written out, when compression applies, and a request or response round trip through the
  line readers.

Other modules:

- `Strings` holds the Ruby string operations used.
- `Hashes` is an insertion-ordered hash.
- `Wrappers` holds `Option`.

A `DirectoryHandler` is a datatype value. Its base directory is fixed when it is made, because
the Ruby object never reassigns `@base_dir`. `Handle` is a function of the method, the path and
a file system map.

The model does what the code does, and no more:

- the handler opens only the file at the joined path. It serves no `index.html` for a
  directory, does no MIME lookup and adds no headers;
- it raises NotFound and MethodNotAllowed. The handler's tests expect it to return `[404, nil]`
  and `[405, nil]` instead;
- the dispatcher ends every line it writes with CRLF.

## Model

| member | source | states |
|---|---|---|
| RequestParser.NextLine | lib/http_dispatcher.rb:71 | `readline("\r\n")`: nothing exactly at end of stream; otherwise a line that is a prefix of the stream, which either ends with its first CRLF or is the whole remaining text with no CRLF |
| RequestParser.NextLineOfLine | lib/http_dispatcher.rb:71 | a complete CRLF line at the head of the stream is read as exactly that line, leaving the rest |
| RequestParser.RequestStream.ReadLine | lib/http_dispatcher.rb:71 | the stream method returns the line `NextLine` gives and keeps what follows; at end of stream it returns nothing and changes nothing |
| RequestParser.RequestStream.constructor | lib/http_dispatcher.rb:17 | the request stream `run` is given holds the text still to be read, and the backtrace its EOFError carries |
| RequestParser.NextLineOfFragment | lib/http_dispatcher.rb:71-76 | a last fragment without CRLF is read whole, and the stream is then at its end |
| RequestParser.MatchRequestLine | lib/http_dispatcher.rb:72-74 | the pattern of line 72 as a function from a line to its method and path, or nothing; characterised in both directions by `RequestLineComplete` and `RequestLineSound` |
| RequestParser.MatchHeader | lib/http_dispatcher.rb:77-78 | the pattern of line 77 as a function from a line to its two captures, or nothing; characterised in both directions by `HeaderComplete` and `HeaderSound` |
| RequestParser.ReadHeaders | lib/http_dispatcher.rb:76-82 | the `while` loop as a function of the unread text: it stops at the blank line or at end of stream, storing each header and logging each other line; its outcomes are given by `ReadHeadersOfLines` and `ReadHeadersTruncated` |
| RequestParser.ParseRequest | lib/http_dispatcher.rb:69-88 | `read_request` as a function of the stream's text: the request, the error-log lines and the unread rest; its cases are `ParseComplete`, `ParseTruncated`, `ParseBadRequestLine` and `RequestRoundTrip` |
| RequestParser.AfterHeaders | lib/http_dispatcher.rb:83-87 | the array `[method, path, headers]` after a complete header block, or `nil` and the EOFError entry after a truncated one |
| RequestParser.ErrorEntry | lib/http_dispatcher.rb:65-66 | the error-log line: "Error: ", the message, ": ", and the backtrace joined by line feeds |
| RequestParser.Inspect | lib/http_dispatcher.rb:80 | `String#inspect`: the line in double quotes, with backslash, quote, the named control characters and `#{`, `#$`, `#@` escaped, and other control characters as `\u00XX` |
| RequestParser.MalformedEntry | lib/http_dispatcher.rb:80 | the error-log line for a line that is not a header: "malformed header: " and its inspected text |
| RequestParser.RequestLineComplete | lib/http_dispatcher.rb:72-74 | every line of the form upper-case method, " /", path without spaces, " HTTP/1.0" or " HTTP/1.1", CRLF is accepted with that method and path, whatever follows it |
| RequestParser.RequestLineSound | lib/http_dispatcher.rb:72-74 | everything accepted has a non-empty upper-case method, a path without spaces, and starts with the Request-Line text for them with minor version 0 or 1 |
| RequestParser.HeaderComplete | lib/http_dispatcher.rb:77-78 | every `name: value` CRLF line with a non-blank name and a value that starts with a non-blank and has no line feed is accepted with exactly that name and value |
| RequestParser.HeaderSound | lib/http_dispatcher.rb:77-78 | everything accepted starts with `name: value` CRLF for the returned name and value, which have that shape |
| RequestParser.MatchHeaderNeedsCrlf | lib/http_dispatcher.rb:77-80 | a line without CRLF (the unterminated last fragment) is never a header, so it is logged as malformed |
| RequestParser.ReadHeadersOfLines | lib/http_dispatcher.rb:76-82 | the header loop over complete lines ends at the blank line, having stored every header line in order and logged every other line as malformed, in order, and leaves what follows unread |
| RequestParser.ReadHeadersTruncated | lib/http_dispatcher.rb:76-82 | end of stream before the blank line: the loop fails after logging the malformed lines in order, and also the unterminated fragment if there is one |
| RequestParser.ApplyLastWins | lib/http_dispatcher.rb:78 | a header's value is the one on the last line that names it |
| RequestParser.ApplyKeys | lib/http_dispatcher.rb:78 | a name is in the header map exactly when some accepted line names it |
| RequestParser.ApplyUntouched | lib/http_dispatcher.rb:78 | lines that do not name a header leave its presence and value unchanged |
| RequestParser.ParseComplete | lib/http_dispatcher.rb:70-83 | an accepted Request-Line followed by header lines and the blank line yields the method, the path and the collected headers; only the malformed lines are logged; the body is left unread |
| RequestParser.ParseTruncated | lib/http_dispatcher.rb:70-87 | a request cut off before the blank line yields no request; the log holds the malformed lines, the fragment, then the EOFError entry with its backtrace; the stream is exhausted |
| RequestParser.ParseBadRequestLine | lib/http_dispatcher.rb:70-84 | a first line that is not a Request-Line yields no request, logs nothing, and leaves the rest of the stream unread |
| RequestParser.FieldsReadBack | lib/http_dispatcher.rb:76-82 | header lines written in the header grammar, then the blank line, are read back with no log entry: the key set is exactly the names sent, and each name holds the value of its last occurrence |
| RequestParser.RequestRoundTrip | lib/http_dispatcher.rb:70-83 | a request written in the grammar reads back with its method, its path, its header names and last-occurrence values, no log entry, and the body left unread |
| RequestParser.ParsedRequestShape | lib/http_dispatcher.rb:72-74 | every request read has a non-empty upper-case method and a path without spaces |
| HttpDispatcher.StatusLine | lib/http_dispatcher.rb:33-34 | "HTTP/1.0", the status as decimal text, the reason text and CRLF; read back by `StatusLineRead` and written out for the table by `TableStatusLines` |
| HttpDispatcher.BodyData | lib/http_dispatcher.rb:43 | the data sent for a body: what `read` gives for a readable body, the text of a string, and the empty text for `nil` |
| HttpDispatcher.Gzip | lib/http_dispatcher.rb:38-41 | the condition of lines 38-41; stated independently by `GzipIff` |
| Hashes.Get | lib/http_dispatcher.rb:38-40 | `h[k]`: present exactly when some entry has key `k`, and then that entry's value |
| Hashes.Store | lib/http_dispatcher.rb:46-48 | `h[k] = v`: `k` now maps to `v`, other keys keep their values, existing keys keep their positions and other entries stay as they were, and a new key is appended at the end |
| HttpDispatcher.HeaderBlock | lib/http_dispatcher.rb:51-53 | one `key: value` CRLF line per entry, in the hash's order; read back by `ResponseReadBack` |
| HttpDispatcher.ResponseText | lib/http_dispatcher.rb:34-56 | the whole response: status line, header block, blank line, data; read back by `ResponseReadBack` |
| HttpDispatcher.AccessEntry | lib/http_dispatcher.rb:58 | the access-log line: method, path and status separated by single spaces |
| HttpDispatcher.Invoke | lib/http_dispatcher.rb:23-28 | the handler called with the lower-cased method and the path: its reply and no log line, or after an exception the 500 reply and one error line |
| HttpDispatcher.Answer | lib/http_dispatcher.rb:20-31 | `Invoke` for a request that was read, and the 400 reply with nothing logged when none was |
| HttpDispatcher.Respond | lib/http_dispatcher.rb:17-58 | `run` as a function of the stream's text: the bytes written, the access-log line, the error-log lines and the unread rest; its cases are `BadRequestExchange`, `HandlerFailure` and `HandlerSuccess` |
| HttpDispatcher.ResponseStream.Write | lib/http_dispatcher.rb:34-56 | `response_stream.write(s)` appends exactly `s` to what has been written |
| HttpDispatcher.ReasonPhrase | lib/http_dispatcher.rb:3-9 | the reason text is non-empty exactly for the five codes of the table and is the table's text for them; for other codes it is empty, as `nil` interpolates |
| HttpDispatcher.StatusLineRead | lib/http_dispatcher.rb:33-34 | the status line is one CRLF line, and for a non-negative status its digits read back as the status |
| HttpDispatcher.TableStatusLines | lib/http_dispatcher.rb:3-9 | the five status lines of the table, written out in full |
| HttpDispatcher.GzipIff | lib/http_dispatcher.rb:38-41 | compression applies exactly when the reply's Content-Type starts with "text/" and the request's Accept-Encoding contains "gzip" at some position |
| HttpDispatcher.Negotiate | lib/http_dispatcher.rb:38-49 | when compression applies, the data is compressed, Content-Encoding is "gzip" and Content-Length is the compressed length, other headers keep their values and the existing keys their order, and the new entries come after them: Content-Encoding first, if it was absent, then Content-Length, if it was absent; otherwise headers and data go out unchanged |
| HttpDispatcher.ResponseReadBack | lib/http_dispatcher.rb:33-57 | with header-grammar names and values, the response reads back through the request side's line reader as its status line, then a header block whose map has exactly the hash's keys and values, then the data |
| HttpDispatcher.BadRequestExchange | lib/http_dispatcher.rb:18-58 | when no request can be read, the response is "HTTP/1.0 400 Bad Request" with CRLF and then just a blank line, the access log shows "- - 400", and the error log holds exactly what reading logged |
| HttpDispatcher.EmptyStreamExchange | lib/http_dispatcher.rb:69-88 | an empty request stream gets the 400 response, and the EOFError entry is the only error-log line |
| HttpDispatcher.HandlerArguments | lib/http_dispatcher.rb:22-24 | only the handler's answer at (lower-cased method, path as received) matters; the method passed is the request's method letter by letter in lower case |
| HttpDispatcher.HandlerFailure | lib/http_dispatcher.rb:23-28 | a raising handler: its message and backtrace are logged after what reading logged; the access log shows method, path and 500; the response is status 500 with Content-Type text/plain and body "Internal Server Error", or, for a gzip client, the compressed body after Content-Encoding and Content-Length lines |
| HttpDispatcher.HandlerSuccess | lib/http_dispatcher.rb:21-58 | a returning handler: nothing more is logged; the access log shows method, path and the handler's status; the response is its status line, its negotiated headers in order, a blank line and the (possibly compressed) data |
| HttpDispatcher.InternalErrorGzip | lib/http_dispatcher.rb:27-52 | the 500 reply to a gzip client carries Content-Type, Content-Encoding and Content-Length, in that order, and the compressed text |
| HttpDispatcher.InternalErrorPlain | lib/http_dispatcher.rb:27-52 | the 500 reply to any other client carries just the Content-Type line and the text |
| HttpDispatcher.Dispatcher.constructor | lib/http_dispatcher.rb:11-15 | a dispatcher keeps its handler and starts with both logs empty |
| HttpDispatcher.Dispatcher.LogError | lib/http_dispatcher.rb:65-67 | one error-log line: "Error: ", the message, ": " and the backtrace joined by line feeds; the access log is untouched |
| HttpDispatcher.Dispatcher.ReadRequest | lib/http_dispatcher.rb:69-88 | the reading loop returns `ParseRequest`'s request, appends exactly its log lines, leaves exactly its rest on the stream, and does not touch the access log |
| HttpDispatcher.Dispatcher.CallHandler | lib/http_dispatcher.rb:20-31 | the handler's reply, or the 500 reply after logging the exception, or the 400 reply without a request; exactly the logged lines are appended |
| HttpDispatcher.Dispatcher.WriteResponse | lib/http_dispatcher.rb:33-57 | writes exactly the status line, the negotiated headers, a blank line and the negotiated data |
| HttpDispatcher.Dispatcher.WriteHeaders | lib/http_dispatcher.rb:51-53 | writes one `key: value` CRLF line per entry, in the hash's order |
| HttpDispatcher.Dispatcher.Run | lib/http_dispatcher.rb:17-59 | one call writes exactly `Respond`'s bytes, appends exactly one access-log line and exactly `Respond`'s error lines, and leaves `Respond`'s rest on the request stream |
| DirectoryHandler.Split | lib/directory_handler.rb:13 | `path.split("/")`: the fields between slashes, with the trailing empty fields dropped |
| DirectoryHandler.Traverses | lib/directory_handler.rb:13 | the guard of line 13: some field of the split path is exactly ".."; characterised on the characters by `TraversesIff` |
| DirectoryHandler.FileJoin | lib/directory_handler.rb:14 | `File.join(base, path)` for two strings: a path that starts with a slash follows the base without its trailing slashes; otherwise a slash goes between them unless the base ends with one; see `FileJoinExamples` and `FileJoinStaysUnderBase` |
| DirectoryHandler.TraversesIff | lib/directory_handler.rb:13 | the split-based guard rejects a path exactly when ".." stands in it as a whole segment: at the start or after a slash, and at the end or before a slash |
| DirectoryHandler.TraversalExamples | lib/directory_handler.rb:13 | "../x" and "a/../../x" are rejected |
| DirectoryHandler.LookAlikeExamples | lib/directory_handler.rb:13 | "...", "a.." and "..a" are not rejected: only an exact ".." segment counts |
| DirectoryHandler.FileJoinExamples | lib/directory_handler.rb:14 | `File.join` keeps one slash at the seam and drops the base's trailing slashes before a path that starts with a slash |
| DirectoryHandler.FileJoinStaysUnderBase | lib/directory_handler.rb:13-14 | for a path the guard lets through, the joined path is the base without its trailing slashes, one slash, and a remainder with no ".." segment |
| DirectoryHandler.DirectoryHandler.Handle | lib/directory_handler.rb:11-17 | each outcome exactly when its guard says: MethodNotAllowed for any non-GET method, NotFound for a ".." segment or a missing file, the NUL-in-path error, or the entry at the joined path opened |
| DirectoryHandler.DirectoryHandler.MethodGuard | lib/directory_handler.rb:12 | a non-GET method is refused whatever the path and the file system |
| DirectoryHandler.DirectoryHandler.TraversalGuard | lib/directory_handler.rb:13 | a GET with a ".." segment is NotFound whatever the file system holds |
| DirectoryHandler.DirectoryHandler.OpenedUnderBase | lib/directory_handler.rb:7-16 | what is opened lies under the base directory fixed at construction, with no ".." segment after it, and is the file system's entry there |
| DirectoryHandler.DirectoryHandler.ConsultsOnlyJoinedPath | lib/directory_handler.rb:14-16 | the answer depends on the file system only at the joined path |
| DirectoryHandler.DirectoryHandler.OpensFileContents | lib/directory_handler.rb:14-16 | a GET for an existing regular file opens it with its contents |

## Left out

- Compression is a parameter `compress` that the model does not look inside. The code calls
  `Zlib.deflate`, which produces zlib (RFC 1950) framing and not gzip (RFC 1952), although the
  header says "gzip".
- The file never requires `zlib`. So line 47 raises `NameError` unless some other file has loaded
  it. The model assumes it is loaded.
- A readable body's `read` (line 43) never fails in the model. In the code it runs after the
  status line is written and outside any `rescue`. An error there would end `run` with a partial
  response and no access-log line.
- Streams and logs are values. The request stream is modelled as the text still unread. The
  response stream is modelled as the text written so far. The two logs are modelled as sequences
  of `puts` arguments. Writes to real sockets and files are not modelled.
- The order of writes between the response stream, the access log and the error log is not
  modelled. Only the order within each of them is.
- Bytes are modelled as characters. Content-Length is the length of the compressed text.
  `bytesize` and character count agree only for single-byte text.
- `String#inspect` in the malformed-header entry is modelled for ASCII text in a UTF-8 string,
  with Ruby's named escapes and `\u00XX` for other control characters. Non-ASCII characters,
  invalid encodings and binary strings (which show `\xNN`) are not modelled.
- The handler is a pure function from (method, path) to a reply or an exception. A handler with
  state, side effects or output of its own is not modelled. The method is passed as its
  lower-case name, where the code passes a `Symbol`.
- The aliasing of the handler's header hash is not modelled. The code adds Content-Encoding and
  Content-Length to the handler's own hash object. The model works on a copy.
- Reply fields are typed. Status is an integer, header values are strings, and a body is `nil`,
  a string or a readable object. Other Ruby objects are not modelled (`to_s` of other types,
  non-integer status values).
- Exceptions that are not StandardError (they propagate out of `run`) are not modelled. The
  handler's errors are StandardErrors.
- IO errors other than end of stream are not modelled. For the request stream, the model covers
  only EOFError, with its message "end of file reached".
- One backtrace, the request stream's `eofBacktrace`, serves the EOFError of both `readline`
  calls (lines 71 and 76). Their real backtraces differ.
- `DirectoryHandler#handle` and the dispatcher are modelled separately. Composed, they would not
  fit together: `handle` returns a bare `File` where `run` expects
  `[status, body, headers]`, and its NotFound and MethodNotAllowed exceptions would become 500
  responses.
- The handler's own tests expect `[404, nil]` and `[405, nil]` return values and a
  `[status, stream]` pair. The code raises, or returns the `File`. The model follows the code.
- The file system is a map from joined path text to an entry (regular file or directory). The
  operating system's path resolution is folded into that map: symbolic links, `.` segments and
  repeated slashes.
- `File.open`'s errors are not modelled: every existing entry is opened. For example, the code
  would raise `Errno::EACCES` for a file without read permission. The model answers `Opened`.
- A NUL character in the base or the path is the ArgumentError that `File.join` raises, on line
  14, before `File.exists?` is reached.
- `File.exists?` is read as Ruby defined it before release 3.2: true when the path exists.
  Ruby 3.2 removed it. There, line 15 raises `NoMethodError` for every path that reaches it.
- Concurrency is not modelled. One dispatcher runs one exchange at a time.
