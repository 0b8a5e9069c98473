# Rust HTTP server: request-to-response core in Dafny

This project models the pure part of a small Rust HTTP/1.1 server (`src/main.rs`).
The server accepts TCP connections and reads one request from each. It looks up a
handler by the exact (path, method) pair and renders an HTML page from a fixed
template. It then writes back
`HTTP/1.1 <code>\r\nContent-Length: <len>\r\nContent-Type: <type>\r\n\r\n<body>`.

Modules, leaf first:

- `Optional`: the `Option` datatype.
- `Text`: Rust's `str::replace`. It replaces every leftmost, non-overlapping
  occurrence, scanning left to right, and never rescans inserted text.
- `Utf8`: the UTF-8 bytes of a string. `String::len` is the byte count, and
  `as_bytes` is what goes onto the wire. A decoder is included as the inverse.
- `Decimal`: how `{}` formats an unsigned integer, plus a reader for numerals.
- `Render`: `HTML_TEMPLATE`, `create_response`, and the four handlers.
- `Routing`: HTTP methods, route keys, and the route table. The table is built by
  ordered `HashMap::insert` calls and searched by `find_handler`.
- `Framing`: the `format!` of the response and its bytes. It also has a client-side
  reader. The reader splits at the first blank line, reads `Content-Length`, and
  takes that many body bytes. It is the partner of the round-trip lemma.
- `Server`: dispatch with the 404 fallback, and `handle_client` as a function. That
  function maps the outcome of the read and parse to the bytes written, if any.

The request parser (`httparse`, `Method::from_bytes`) is not modelled. Its outcome
is the input datatype `Server.Arrival`:

- `ZeroRead`: the read returned zero bytes, or failed (`stream.read(..)?` at
  src/main.rs:54 returns the error, and nothing is written either way).
- `ParseFailed`: the parser returned an error.
- `Aborted`: an `unwrap` or `expect` on the method or path panics and ends the
  connection's thread.
- `Parsed(text, verb, path)`: a request that is dispatched.

The code counts a partial parse (`Ok(Status::Partial)`) as success. So a request
cut short after a complete request line is still answered. After a non-empty,
successful read, only a parser error or a panic in the unwraps ends the connection
without a response. The model follows the code here.

Substitution order matters in `create_response`. `{title}` is replaced first, then
every `{content}`, including any `{content}` that the title text brought in.
`Render.CreateResponse` states the body exactly for every title and content.
`Render.SubstitutionOrder` states both directions of that ordering: a `{content}`
brought in by the title is replaced, and any content is inserted as it is.

## Model

| member | source | states |
|---|---|---|
| `Text.ReplaceAll` | src/main.rs:26-28 | `str::replace`; no contract of its own; specified by ReplaceAbsent, ReplaceSelf, ReplaceSkip, ReplaceConcat, ReplaceLength and CountPositive |
| `Text.ReplaceAbsent` | src/main.rs:26-28 | replacing a pattern that does not occur leaves the text unchanged |
| `Text.CountPositive` | src/main.rs:26-28 | at least one replacement happens exactly when the pattern occurs somewhere |
| `Text.ReplaceLength` | src/main.rs:26-28 | the result's length is the input length plus, per occurrence, the length difference of replacement and pattern |
| `Text.ReplaceSelf` | src/main.rs:26-28 | replacing a pattern by itself is the identity |
| `Text.ReplaceConcat` | src/main.rs:26-28 | replacement distributes over a concatenation whose second part starts with a character the pattern lacks |
| `Text.ReplaceSkip` | src/main.rs:26-28 | a prefix that lacks the pattern's first character is copied unchanged |
| `Text.CountConcat` | src/main.rs:26-28 | the number of occurrences distributes over the same kind of concatenation |
| `Utf8.Encode` | src/main.rs:84 | `as_bytes`; no contract of its own; specified by EncodeChar, EncodeConcat and its inverse DecodeEncode |
| `Utf8.ByteLength` | src/main.rs:79 | `String::len`; no contract of its own; the number of bytes `Encode` yields, which WireRoundTrip ties to the body bytes written |
| `Utf8.EncodeChar` | src/main.rs:79 | a character takes 1 to 4 bytes; one byte (its code) exactly for ASCII; bytes of 0x80 or more otherwise |
| `Utf8.DecodeEncode` | src/main.rs:79-84 | the bytes written for a string decode back to that string |
| `Utf8.EncodeConcat` | src/main.rs:76-84 | the bytes of a concatenation are the concatenated bytes |
| `Decimal.Format` | src/main.rs:77-79 | a formatted number is digits only, with no leading zero, and one digit exactly below 10 |
| `Decimal.DigitRun` | src/main.rs:77-79 | reader-side partner of `Format`: the length of the longest run of digits at the start of the bytes |
| `Decimal.ReadFormat` | src/main.rs:77-79 | reading back a formatted number followed by a non-digit gives the number and the numeral's length |
| `Decimal.FormatValue` | src/main.rs:77-79 | the digits of a formatted number denote that number |
| `Render.PlaceholdersOnce` | src/main.rs:13-23 | the template holds exactly one `{title}` and exactly one `{content}` |
| `Render.TitleTagKept` | src/main.rs:26-28 | the `{content}` pass leaves a `{title}` as it is |
| `Render.CreateResponse` | src/main.rs:25-31 | content type is text/html; the status code is passed through; the body is the template head, the title after `{content}` substitution, the fixed middle, the content and the tail |
| `Render.PlainSubstitution` | src/main.rs:25-31 | a title without `{content}` is embedded word for word: head, title, middle, content, tail |
| `Render.SubstitutionOrder` | src/main.rs:26-28 | a title that is `{content}` is replaced by the content; every content, `{title}` in it included, is inserted literally |
| `Render.Handle` | src/main.rs:33-47 | every handler answers text/html; status is 404 exactly for the not-found handler and 200 for the others |
| `Render.HelloPage` | src/main.rs:33-35 | the hello handler's body is the template with "Hello Page" and "Hello, Rust HTTP Server!" in place |
| `Render.GoodbyePage` | src/main.rs:37-39 | the goodbye handler's body is the template with "Goodbye Page" and "Goodbye, Rust HTTP Server!" in place |
| `Render.SubmitPage` | src/main.rs:41-43 | the submit handler's body is the template with "Submission Page" and "Data submitted successfully!" in place |
| `Render.NotFoundPage` | src/main.rs:45-47 | the not-found body is the template with "404 - Not Found" and "Not Found" in place |
| `Routing.Register` | src/main.rs:110-112 | an insert maps the key to the new handler, adds only that key, and keeps every other mapping |
| `Routing.Build` | src/main.rs:109-113 | the sequence of `HashMap::insert` calls; no contract of its own; specified by Register and BuildLastWins |
| `Routing.BuildLastWins` | src/main.rs:108-114 | a key is in the built table exactly when it was registered, and it maps to the handler of its last registration |
| `Routing.BuildKeys` | src/main.rs:108-114 | the built table's keys are exactly the registered keys |
| `Routing.BuildLast` | src/main.rs:108-114 | the last registration for a key is in the built table with its handler |
| `Routing.StartupRoutes` | src/main.rs:108-114 | the startup table is exactly {(/hello, GET) to hello, (/bye, GET) to goodbye, (/submit, POST) to submit} |
| `Routing.FindHandler` | src/main.rs:95-101 | a handler is returned exactly when the exact (path, method) key is in the table, and it is the mapped one |
| `Routing.StartupLookup` | src/main.rs:95-114 | with the startup table, lookup succeeds exactly for the three registered pairs, and never yields the not-found handler |
| `Routing.ExactMatch` | src/main.rs:95-101 | another case of the path, the wrong method, a trailing slash or a lower-case method token all miss |
| `Framing.FormatResponse` | src/main.rs:76-82 | the `format!` of the response; no contract of its own; specified through Wire by WireRoundTrip, HeadRoundTrip and StatusLineFirst |
| `Framing.Wire` | src/main.rs:76-84 | `response.as_bytes()`; no contract of its own; specified by WireRoundTrip and StatusLineFirst |
| `Framing.FindBlank` | src/main.rs:77 | reader-side partner of the framing: the position of the first CR LF CR LF, if there is one; None exactly when there is none |
| `Framing.BlankEndsHeader` | src/main.rs:77 | in a header block whose CR bytes all start header lines, the first blank line is the one that ends the block |
| `Framing.HeadRoundTrip` | src/main.rs:76-80 | the framed header block reads back as the status code, the Content-Length value and the content type |
| `Framing.StatusLineFirst` | src/main.rs:77-78 | the framed bytes start with `HTTP/1.1 `, the decimal status code and CR LF |
| `Framing.WireRoundTrip` | src/main.rs:76-82 | reading framed bytes recovers the status, the content type and the body bytes; the bytes after the blank line are exactly the body's UTF-8 bytes, and the Content-Length value read from the header block equals their number |
| `Server.Dispatch` | src/main.rs:73-74 | dispatch never fails and always answers HTML; on a hit it is the mapped handler's response; on a miss it is the not-found response with status 404 |
| `Server.HandleClient` | src/main.rs:56-82 | no bytes for an empty or failed read, a parse error or an aborted request, and bytes for every parsed request; ConnectionAnswer states what those bytes carry |
| `Server.StartupHandlersOk` | src/main.rs:108-114 | every handler registered at startup answers with status 200 |
| `Server.StartupStatus` | src/main.rs:73-74 | with the startup table, the status is 200 exactly for the three registered pairs, and 404 otherwise |
| `Server.ConnectionAnswer` | src/main.rs:73-82 | a parsed request's bytes read back as the dispatched status, text/html and the body's bytes; the bytes after the blank line are exactly the body's bytes, with nothing after them; those bytes decode to the body |
| `Server.HtmlAnswer` | src/main.rs:76-84 | any HTML response reads back off the written bytes as its status, text/html and its body bytes; the bytes after the blank line are exactly the body's bytes; those bytes decode to the body |
| `Server.HelloScenario` | src/main.rs:110 | GET /hello reads back as status 200 with the hello page |
| `Server.SubmitScenario` | src/main.rs:112 | POST /submit reads back as status 200 with the submission page |
| `Server.MissScenario` | src/main.rs:73-74 | any request whose key is not in the startup table reads back as status 404 with the not-found page |
| `Server.MissExamples` | src/main.rs:108-114 | /missing with GET, /hello with POST and /Hello with GET are not in the startup table |

## Left out

- `TcpListener::bind`, the `incoming()` accept loop, `std::thread::spawn` and the `Arc` around the table (src/main.rs:106, 116-130): socket I/O and concurrency. The table is an immutable value, so sharing it between connections needs no model.
- `stream.read` into the 1024-byte buffer, `write_all`, `flush` and their error logging (src/main.rs:53-54, 84-90): I/O side effects. The model stops at the bytes that would be written.
- The `httparse` parser and `Method::from_bytes` (src/main.rs:61-71): foreign library code. Their outcome is the input datatype `Server.Arrival`. The model does not say which byte strings lead to which outcome.
- `String::from_utf8_lossy` (src/main.rs:60): the request text is taken as given. No handler reads it.
- A failed `stream.read` (src/main.rs:54): the error is returned and logged by the spawning thread (src/main.rs:121-123); no response is written, which is the outcome `Server.Arrival.ZeroRead` already gives, so it has no variant of its own.
- `env_logger` initialisation and `error!` logging: side effects only.
- `Text.ReplaceAll` requires a non-empty pattern. Rust's `replace` with an empty pattern inserts the replacement before the first character, between every two characters and after the last (`"abc".replace("", "-")` is `"-a-b-c-"`); the source only replaces the fixed non-empty placeholders.
- `Framing.WireRoundTrip` requires a content type without CR. Every handler's content type is text/html. A content type with CR LF would end the header block early.
