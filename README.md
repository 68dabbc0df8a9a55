# HTTP request parser — Dafny model

This project models the request parser and error responder of a small
HTTP/1.1 static-file server. That is the class `HttpRequest` in
`prog1/server/request.py`. It covers:

- construction over the raw request bytes, read through an in-memory
  `BytesIO` stream;
- `parse_request`, which takes the request line, splits it into method, path
  and version, and collects `Name: Value` header lines into a dictionary;
- `response`, which returns a fixed `HTTP/1.1 400 Bad request` status line;
- the error branch of `handle` together with `send`.

The project has four modules:

- `ByteStrings` (`bytestrings.dfy`) models the parts of Python's `bytes` that
  the parser uses. These are `strip()`, `split()` and `find()`, with ASCII
  whitespace {9, 10, 11, 12, 13, 32}. It also defines where the lines that
  `readline()`/`readlines()` return begin and end.
- `ByteStreams` (`bytestream.dfy`) is a class over a buffer with a read
  position. Its `ReadLine` and `ReadLines` methods scan in loops and are
  proved against the line functions.
- `Requests` (`request.dfy`) holds the `HttpRequest` class with the same
  fields as the source. Because `method` is a Dafny keyword, that field is
  named `requestMethod`. The module also defines the specification
  function `Parse`, the header step `AddHeader` with its fold
  `ApplyHeaders`, and `Response`. The header loop of `parse_request` is the
  method `ReadHeaders`. It models the connection as a class whose
  ghost log `sent` records each `send`.
- `RequestProperties` (`properties.dfy`) proves the properties below.

The parser is looser than HTTP/1.1 asks:

- A request line is rejected only when it does not have exactly three words.
  No method is refused with 405 and no version with 505. `WellFormedRequest`
  holds for any three words.
- A header line is stripped of whitespace at both ends before it is split,
  not only of its line terminator. As a consequence, a header with an empty
  value (`Name: ` then CRLF) is dropped, because stripping removes the space
  that `": "` would need. `EmptyValueDropped` proves this.
- Every line after the request line is scanned for headers, including the
  blank line and any bytes after it. There is no stop at the end of the
  header block.
- `response` ignores its arguments and always returns the same status line.

## Model

| member | source | states |
|---|---|---|
| ByteStrings.Strip | prog1/server/request.py:54 | `bytes.strip()`: the result is no longer than the input |
| ByteStrings.StripShape | prog1/server/request.py:45 | a stripped line is empty exactly when the line is all whitespace; otherwise its first and last bytes are not whitespace |
| ByteStrings.StripUnique | prog1/server/request.py:54 | whitespace, then a core whose edges are not whitespace, then whitespace: stripping gives exactly that core |
| ByteStrings.SplitWhitespace | prog1/server/request.py:45 | `bytes.split()`: every token is non-empty and holds no whitespace |
| ByteStrings.JoinWithEdges | prog1/server/request.py:45 | tokens joined by whitespace runs start and end with a token byte |
| ByteStrings.SplitPadded | prog1/server/request.py:45 | splitting valid tokens separated by any non-empty runs of whitespace, with any whitespace before and after, gives the tokens back |
| ByteStrings.Find | prog1/server/request.py:56 | `bytes.find`: -1 exactly when the pattern does not occur; otherwise the pattern occurs at the result and at no earlier index |
| ByteStrings.LineEnd | prog1/server/request.py:23 | a line from `i` ends just after the first LF, or at the end of the buffer; it is non-empty unless the stream is exhausted |
| ByteStrings.LineEndUnique | prog1/server/request.py:23 | any index with those properties is the line end |
| ByteStrings.FirstLine | prog1/server/request.py:23 | the first line is a prefix of the buffer with no LF before its last byte, and it ends in LF unless it is the whole buffer |
| ByteStrings.LinesFrom | prog1/server/request.py:53 | `readlines()` from position `i` gives no more lines than bytes remain |
| ByteStrings.LinesFromConcat | prog1/server/request.py:53 | the lines `readlines()` returns concatenate back to the rest of the buffer |
| ByteStrings.LinesFromShape | prog1/server/request.py:53 | every line is non-empty and holds an LF only as its last byte; every line but the last ends in LF |
| ByteStrings.LinesFromShift | prog1/server/request.py:53 | reading the lines of `a + b` from `|a| + i` gives the lines of `b` read from `i`, whatever `a` is |
| ByteStreams.ByteStream.constructor | prog1/server/request.py:20 | `BytesIO(request)`: the stream holds the bytes and reads from position 0 |
| ByteStreams.ByteStream.ReadLine | prog1/server/request.py:23 | `readline()` returns the bytes from the read position through the next LF, or to the end, and moves the position past them |
| ByteStreams.ByteStream.ReadLines | prog1/server/request.py:53 | `readlines()` returns every remaining line in order and leaves the stream exhausted |
| Requests.RequestTokens | prog1/server/request.py:45 | the words of the stripped request line are non-empty and hold no whitespace |
| Requests.SplitHeader | prog1/server/request.py:56-58 | a line holds a header exactly when it contains `": "`; then line = name + `": "` + value, and the name contains no `": "` |
| Requests.HeaderOf | prog1/server/request.py:54-58 | a line gives a header exactly when its stripped form contains `": "`, and then the stripped line is name + `": "` + value |
| Requests.AddHeader | prog1/server/request.py:54-59 | one step of the loop keeps every name already stored and adds at most one |
| Requests.ApplyHeaders | prog1/server/request.py:53-59 | the loop over all lines keeps every name already stored and adds at most one name per line |
| Requests.Parse | prog1/server/request.py:14-59 | the request line is a prefix of the buffer; a rejected request has no headers; an accepted one has no more header names than bytes after the request line |
| Requests.Response | prog1/server/request.py:82-86 | the response ends in CRLF |
| Requests.Connection.constructor | prog1/server/request.py:91 | a new connection has been sent nothing |
| Requests.HttpRequest.constructor | prog1/server/request.py:14-36 | the stream holds the raw bytes; the request line is the first `readline()`; fields start unset; after `parse_request` the object's state equals `Parse(raw)`, and the stream is exhausted when the request line has three words, otherwise it stands just after the request line |
| Requests.HttpRequest.ParseRequest | prog1/server/request.py:38-59 | not three words: status 400 and nothing else changes, the stream is not read; three words: method, path, version are the words, the status is unchanged, headers are the fold of the header step over the remaining lines, and the stream is exhausted |
| Requests.HttpRequest.ReadHeaders | prog1/server/request.py:53-59 | the headers become the fold of the header step over every line left in the stream, in order, and the stream is exhausted; no other field changes |
| Requests.HttpRequest.Handle | prog1/server/request.py:61-65 | with a status set, exactly one response, the fixed status line, is appended to what the connection was sent; otherwise nothing |
| Requests.HttpRequest.Send | prog1/server/request.py:88-91 | the response is appended to what the connection was sent |
| RequestProperties.TokenLineEnd | prog1/server/request.py:23 | a line of words separated by any whitespace runs, with any whitespace before them and any whitespace ending in LF after them, is read as the first line exactly up to that LF |
| RequestProperties.TokenLineWords | prog1/server/request.py:45 | the stripped words of such a line are its words |
| RequestProperties.TokenLine | prog1/server/request.py:23-45 | both facts together, whatever follows the line |
| RequestProperties.ResponseWords | prog1/server/request.py:86 | the response is the words `HTTP/1.1 400 Bad request` joined by single spaces, then CRLF, whatever the arguments |
| RequestProperties.ResponseIsStatusLine | prog1/server/request.py:82-86 | the response is one complete line ending in CRLF whose words are `HTTP/1.1`, `400`, `Bad`, `request`, for every status, headers and body |
| RequestProperties.RequestLineAndHeaderLines | prog1/server/request.py:23-53 | the first line runs through the first LF, or is the whole buffer, and holds no other LF; the header loop sees exactly the rest of the buffer, cut after each LF |
| RequestProperties.ParseOutcome | prog1/server/request.py:45-51 | status 400 exactly when the request line does not have three words, with method, path, version unset and headers empty; otherwise no status and the three words in order |
| RequestProperties.ParseAfterFirstLine | prog1/server/request.py:20-59 | when the first line of `line + rest` is `line`, the parse depends only on `line` and the lines of `rest` |
| RequestProperties.WellFormedRequest | prog1/server/request.py:45-59 | any three words, separated by any whitespace runs and padded by any whitespace, with the line ending in LF and no check of method or version, give those fields, no status, and the headers of the following lines |
| RequestProperties.MalformedRequest | prog1/server/request.py:45-49 | a request line, laid out the same way, of any other number of words, zero included, gives status 400 and nothing else |
| RequestProperties.EmptyRequest | prog1/server/request.py:45-49 | an empty buffer gives status 400 |
| RequestProperties.FindAt | prog1/server/request.py:56 | `find` returns the first index at which the pattern occurs |
| RequestProperties.SplitHeaderRoundTrip | prog1/server/request.py:56-58 | `name + ": " + value` splits back into name and value when the name holds no `": "`; the value may hold anything |
| RequestProperties.HeaderLineRoundTrip | prog1/server/request.py:53-58 | a line `Name: Value` ending in whitespace gives exactly that name and value, when the name has no `": "` and no leading whitespace and the value is non-empty without trailing whitespace |
| RequestProperties.EmptyValueDropped | prog1/server/request.py:54-57 | a header line whose value is empty gives no header |
| RequestProperties.BlankLineIsNoHeader | prog1/server/request.py:54-57 | an all-whitespace line, such as the one ending the header block, gives no header |
| RequestProperties.HeaderUntouched | prog1/server/request.py:53-59 | a name that no line carries keeps its presence and its value |
| RequestProperties.LastHeaderWins | prog1/server/request.py:59 | for a duplicated name, the value of the last line that carries it is stored |
| RequestProperties.NonHeaderLineIgnored | prog1/server/request.py:53-59 | a line without a header, wherever it stands, does not change the resulting headers |
| RequestProperties.HeaderNamesHaveNoSeparator | prog1/server/request.py:56-59 | no stored name contains `": "` |
| RequestProperties.ParsedHeaders | prog1/server/request.py:53-59 | after a successful parse there are no more headers than lines after the request line, and no name contains `": "` |

## Left out

- Logging (the logger set up at lines 29-33 and the calls at 47, 74 and 90) writes only diagnostics, so it is not modelled. The `verbose` argument only sets the log level and is dropped too.
- `client_address` (line 22) is set to `None` and never read.
- The `webroot` argument of `handle` is never used, and `address` is only logged (line 74), so `Handle` takes just the connection. The rest of `handle` after line 65 is comments and that log call.
- `handle_GET` and `handle_POST` have empty bodies (`pass`).
- Requests.HttpRequest.Send: records the whole response in a ghost log. The socket's `send` may write only part of its argument or fail, and that is not modelled.
- `BytesIO` is modelled only for `readline()` and `readlines()` from the position the parser leaves.
- `HTTPStatus` is modelled only as its one member used here, `BAD_REQUEST` (code 400).
- Headers are stored as a map, so the insertion order of Python's `dict` is not modelled.
- `handler.py`, `listener.py`, `server.py` and `httpserver.py` (reading from the socket, the worker queue, the listener and startup) are not part of this model.
