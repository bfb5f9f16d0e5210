# A minimal HTTP/1.1 server, modelled in Dafny

The server accepts TCP connections and handles each one on its own thread. For each connection it:

- reads one request: a request line, header lines up to the blank line, and a body whose length `Content-Length` announces;
- routes the request by method and target:
  - `/` is a health check;
  - `/echo/<text>` returns `<text>` up to the next "/echo/";
  - `/user-agent` returns the `User-Agent` header;
  - `/files/<name>` reads (GET) or writes (POST) a file under the directory given with `--directory`;
- writes back one response.

The model covers the three parts where the server makes its own decisions, all in `src/main.rs`.

- **Request parser** (`request.dfy`, `request_properties.dfy`, `request_examples.dfy`).
  - `Request.Parse` defines what `parse_request` returns for each input.
  - `Request.ParseRequest` is the source's loop, written as a method. It reads lines from a `LineReader` into a reused line buffer and is proved to compute `Parse`.
  - The lemmas cover the request-line tokens, how header lines are stored (the last value for a name wins), the empty-value quirk, and how the body is bounded.
- **Router** (`router.dfy`, `router_properties.dfy`, `router_examples.dfy`).
  - `handle_connection`, `handle_get`, `handle_post`, `parse_files_path`, `read_file`, `save_file` and `parse_directory` are pure functions.
  - The file system is a value, `Router.FileSystem`, that holds the outcome of each of the four calls the server makes.
  - A connection ends in one of three ways: a reply (`Reply`), a panic of its thread (`Panic`, which sends no reply), or never (`Stall`).
  - One lemma per row of the dispatch table states which reply or panic each request gets.
- **Response writers** (`response.dfy`).
  - `write_status`, `write_header`, `write_text` and `write_file` append to a `Buffer`, as the source appends to a `String` or `Vec<u8>`.
  - Each writer is proved to produce the bytes of its specification function.
  - The partner of the writers is `Response.ReadResponse`, a client that reads the status line and the header fields, then takes exactly `Content-Length` bytes as the body.
  - The framing lemmas prove that this client reads back the intended status line, fields and body. A text response leaves its extra CRLF after the body; a file response leaves nothing.

`text.dfy` holds the parts of Rust's `str` and integer API the server relies on: `find`, `split`, `split_once`, `trim`, `u64::from_str` and decimal formatting.

Throughout, a `char` stands for one octet of the connection. So the length of a string is its byte length, which is the number `Content-Length` counts.

## Model

| member | source | states |
|---|---|---|
| Text.Split | src/main.rs:46 | `str::split`: no piece holds the separator, and there is one piece exactly when the separator does not occur. |
| Text.SplitJoins | src/main.rs:46 | The pieces of `split`, joined with the separator, give back the string. |
| Text.FirstPiece | src/main.rs:46 | The first piece of `split` is the text before the separator's leftmost occurrence, or the whole string when there is none. |
| Request.NextLine | src/main.rs:45 | One `read_line` returns the input up to and including the first line feed, or all of it when there is none. The result is never empty on non-empty input, holds no inner line feed, and the rest is exactly what follows it. |
| Request.Bounded | src/main.rs:52-54 | The reader made by `take(length)` yields a prefix of the remaining input: exactly `length` bytes, or all that remains when fewer do. |
| Request.ScanHeaders | src/main.rs:50-69 | The header loop. Where it stops at the blank line, what it leaves for the body is a proper suffix of its input. |
| Request.Finish | src/main.rs:51-56 | After the header loop: it fails exactly when the loop never ends or `Content-Length` does not parse as a `u64`. A parsed request keeps the method, the target and the header map. It has a body exactly when `Content-Length` is present, and the body is bounded by the parsed length. |
| Request.Parse | src/main.rs:42-72 | `parse_request`: the request line is refused exactly when it holds no space, and the method and target of a parsed request hold no space. |
| Request.ParseRequest | src/main.rs:42-72 | The request loop over a reused line buffer computes `Parse` on every input. |
| Request.LineReader.ReadLine | src/main.rs:50 | Consumes exactly one line: the returned chunk and the new remaining input are `NextLine` of the old remaining input. |
| RequestProperties.LineRead | src/main.rs:45 | A line without an inner line feed is read whole, and the rest is left unread. |
| RequestProperties.RequestLineTokens | src/main.rs:45-47 | For a request line "M P V" the method is exactly M and the target exactly P; the request is never refused as malformed, and the rest of the input goes to the header loop. |
| RequestProperties.RequestLineSplit | src/main.rs:46-47 | Splitting "M P V" on single spaces gives at least two pieces, the first two being M and P. |
| RequestProperties.MalformedRequestLineIff | src/main.rs:46-47 | `parts[1]` fails exactly when the first line holds no space; any line with a space yields two tokens. |
| RequestProperties.FieldLineRead | src/main.rs:50 | A well-formed header line is read whole by one `read_line`, and the rest is left unread. |
| RequestProperties.FieldLineSplits | src/main.rs:59-61 | A well-formed header line holds ": " and, trimmed, splits at it into exactly its name and value. |
| RequestProperties.HeaderLineStored | src/main.rs:59-68 | A well-formed "name: value" line is stored as name → value (replacing any earlier value) and the buffer is cleared. |
| RequestProperties.OtherLineIgnored | src/main.rs:59-68 | A line without ": " adds nothing to the header map and is discarded. |
| RequestProperties.BlankLineRead | src/main.rs:50 | The blank line is read whole by one `read_line`. |
| RequestProperties.BlankLineEnds | src/main.rs:51-56 | A line that is exactly CRLF ends the header loop with the headers unchanged and the rest of the input unread. |
| RequestProperties.StepStore | src/main.rs:50-68 | One loop turn on a line that splits: the map gets name → value and the buffer is cleared. |
| RequestProperties.StepKeep | src/main.rs:59-62 | One loop turn on a line with ": " that does not split once trimmed: `continue` keeps the line in the buffer. |
| RequestProperties.NoSeparatorAfterName | src/main.rs:60 | A name with no colon, followed by ":", holds no ": ", so `split_once` fails on it. |
| RequestProperties.EmptyValueLineRead | src/main.rs:50 | "name: " + CRLF is read whole by one `read_line`. |
| RequestProperties.EmptyValueLineUnsplit | src/main.rs:59-62 | For any name without a colon, "name: " + CRLF holds ": ". Trimmed, it is "name:" less any leading white space, which `split_once` cannot split. |
| RequestProperties.EmptyValueKept | src/main.rs:59-62 | For any name without a colon or line feed, "name: " + CRLF cannot be split once trimmed, so the line stays in the buffer. |
| RequestProperties.JoinedLineSplits | src/main.rs:59-61 | The kept empty-value line with the next line appended splits into the name, less any leading white space, and CRLF + the next line. |
| RequestProperties.KeptLineJoinsNext | src/main.rs:50-68 | The next line is appended to the kept buffer, and the pair is stored under the first name, less any leading white space. |
| RequestProperties.EmptyValueJoinsNextLine | src/main.rs:50-69 | A header with an empty value swallows the next header line. The map gets the first name, less any leading white space, → CRLF + the next line. |
| RequestProperties.EmptyValueHidesBlankLine | src/main.rs:50-69 | An empty-value header right before the blank line hides the blank line: the loop goes on past it. |
| RequestProperties.KeptLineWithBlank | src/main.rs:59-62 | The kept empty-value line with the blank line appended still does not split. |
| RequestProperties.LastValueWins | src/main.rs:65 | Of header fields inserted in order, the last value sent for a name is the one kept. |
| RequestProperties.FieldsMapKeeps | src/main.rs:65 | A name not sent again keeps its value. |
| RequestProperties.ScanFields | src/main.rs:50-69 | Well-formed header lines and the blank line fill the map in order and stop right after the blank line. |
| RequestProperties.RequestTextSplits | src/main.rs:45 | A client's request written as its request line up to and including the line feed, followed by the rest of the request. |
| RequestProperties.ParseRequestText | src/main.rs:42-72 | A well-formed request parses to its method, target and the header map built in order, with the bytes after the blank line left for the body. |
| RequestProperties.ParseFailsIff | src/main.rs:50-56 | Once the request line has two tokens, parsing fails on `Content-Length` exactly when it is present at the blank line and does not parse as a `u64`. It never returns exactly when the input ends before the blank line. |
| RequestProperties.BodyBounded | src/main.rs:51-55 | A body exists exactly when `Content-Length` is present. It is the input's bytes starting right after the blank line: the parsed length of them, or all that remain when fewer do. |
| RequestExamples.OneFieldRequest | src/main.rs:50-69 | A request with one well-formed header field parses with that field as its only header. |
| RequestExamples.CanParseGet | src/main.rs:246-255 | The GET request of the source's test parses to its method, target and `User-Agent`, with no body. |
| RequestExamples.PostHeaders | src/main.rs:258-269 | The two header fields of the source's POST test give the expected map. |
| RequestExamples.PostHeaderRead | src/main.rs:258-269 | The header of the source's POST test is read to its blank line, leaving "hello" for the body. |
| RequestExamples.LengthFive | src/main.rs:52-54 | `Content-Length: 5` bounds the body to the first five bytes after the blank line. |
| RequestExamples.CanParsePost | src/main.rs:258-274 | The POST request of the source's test parses with both headers, and its body reader yields "hello". |
| RequestExamples.BodyStopsAtLength | src/main.rs:52-54 | With `Content-Length: 5`, however many bytes follow the blank line, the body is the first five only. |
| RequestExamples.NegativeLengthRefused | src/main.rs:53 | A `Content-Length` of "-5" is not a `u64`, so the request is refused. |
| Response.StatusResponse | src/main.rs:169-173 | Definition of the bytes `write_status` writes: "HTTP/1.1 ", the code in decimal, a space, the message, and two CRLFs. `StatusFraming` proves how a client reads them. |
| Response.HeaderBlock | src/main.rs:199-205 | Definition of the bytes `write_header` writes: the 200 status line, the `Content-Type` and `Content-Length` field lines, and the empty line. `HeaderFraming` proves how a client reads them. |
| Response.TextResponse | src/main.rs:187-190 | Definition of the bytes `write_text` writes: the header with the text's byte length, the text and CRLF. `TextFraming` proves how a client reads them. |
| Response.FileResponse | src/main.rs:192-197 | Definition of the bytes `write_file` writes: the header with the data's length, then the data. `FileFraming` proves how a client reads them. |
| Response.ReadResponse | src/main.rs:199-205 | Not part of the server: the client used as the writers' reference. It reads the status line and the header fields, then takes exactly `Content-Length` bytes as the body. The framing lemmas below are stated against it. |
| Response.WriteStatus | src/main.rs:169-173 | `write_status` produces exactly the status line and the empty line. |
| Response.StatusBytes | src/main.rs:169-173 | The exact bytes of a status-only reply with each code the server sends: 200, 201, 404, 500 and 503. |
| Response.Buffer.Write | src/main.rs:171 | A write appends its bytes at the end of the buffer. |
| Response.WriteHeader | src/main.rs:199-205 | Appends the 200 status line, `Content-Type`, `Content-Length` and the empty line. |
| Response.WriteText | src/main.rs:187-190 | Appends the header with the byte length of the text, then the text and CRLF. |
| Response.WriteFile | src/main.rs:192-197 | Appends the header with the length of the data, then the data and nothing else. |
| Response.NoCarriageReturnInDecimal | src/main.rs:202 | A written length holds no carriage return, so it cannot break its header line. |
| Response.LineFirst | src/main.rs:200-203 | A client finds a written line exactly where it ends. |
| Response.ReadFieldLine | src/main.rs:201-202 | A client reads a written "name: value" line as the field name → value. |
| Response.ReadFieldsEnd | src/main.rs:203 | A client stops reading fields at the empty line and leaves what follows unread. |
| Response.StatusFraming | src/main.rs:169-173 | A status-only reply reads back as its status line, with no field, an empty body and nothing after it. |
| Response.ReadHeaderFields | src/main.rs:199-205 | The header a writer writes reads back as exactly the `Content-Type` and `Content-Length` fields. |
| Response.HeaderFraming | src/main.rs:199-205 | After the header, a client takes exactly the payload as the body, since `Content-Length` is its length, and leaves the following bytes unread. |
| Response.HeaderFramingAtEnd | src/main.rs:192-197 | The same, when nothing follows the payload. |
| Response.ContentTypesOnOneLine | src/main.rs:20-21 | Neither content type holds a carriage return. |
| Response.TextFraming | src/main.rs:187-190 | A text reply reads back with the text as its body. `Content-Length` counts the text only, so the trailing CRLF is left over. |
| Response.FileFraming | src/main.rs:192-197 | A file reply reads back with the data as its body and nothing left over. |
| Router.ReadFile | src/main.rs:175-185 | Succeeds exactly for a readable non-directory, with its contents. A missing path or a directory gives NotFound. |
| Router.SaveFile | src/main.rs:162-167 | Panics exactly when the file cannot be created; otherwise gives the outcome of copying the body into it. |
| Router.JoinPath | src/main.rs:157 | An absolute name replaces the directory. Otherwise the name is appended, with or without a separator. |
| Router.Segment | src/main.rs:154-155 | Piece 1 of `split(prefix)` on a target that starts with the prefix. It is the rest of the target up to the leftmost occurrence of the prefix in it, or the whole rest when there is none. It holds no prefix. |
| Router.FilesPath | src/main.rs:153-160 | The file name after "/files/" joined onto the directory, or onto "." without one, so "./" + name. The name is used whole, and an absolute name replaces the directory. |
| Router.HandleGet | src/main.rs:91-129 | A GET always gets a reply, except for a panic when a file under /files/ cannot be read. |
| Router.HandlePost | src/main.rs:131-151 | A POST gets a reply or panics for one of three reasons (no body, file not created, copy failed), and panics only for a target under /files/. |
| Router.Dispatch | src/main.rs:79-86 | The handlers never stall and never panic for a parser's reason. |
| Router.HandleConnection | src/main.rs:75-89 | A request line without a space and an unparsable `Content-Length` each panic, and a header that never ends stalls, each in both directions. Every parsed request is answered as `Dispatch` answers it. |
| Router.ParseDirectory | src/main.rs:207-221 | A directory is configured exactly for three arguments whose second is `--directory`, and it is the third. |
| RouterProperties.RootIsOk | src/main.rs:96-97 | GET / gets a bare 200. |
| RouterProperties.UserAgentReturned | src/main.rs:98-102 | GET /user-agent returns the `User-Agent` header as text, or empty text without one. |
| RouterProperties.EchoReturnsSegment | src/main.rs:103-108 | GET /echo/… returns as text the part of the target after "/echo/", up to the leftmost "/echo/" in it. |
| RouterProperties.UnknownTargetNotFound | src/main.rs:127 | A GET for any other target gets 404. |
| RouterProperties.FileGetOutcome | src/main.rs:109-126 | GET /files/… returns the file's data when it is a readable file, and 404 when it is missing or a directory. Any other error panics; each outcome is stated in both directions. |
| RouterProperties.FileResponseNotStatus | src/main.rs:113-119 | A file reply is never the 404 reply. |
| RouterProperties.FilePostOutcome | src/main.rs:131-147 | POST /files/… gets 201 when the body is copied, and 404 when the copy reports NotFound. It panics without a body, when the file cannot be created, or on any other copy error; each in both directions. |
| RouterProperties.PostElsewhereFails | src/main.rs:149 | A POST to any target outside /files/ gets 500. |
| RouterProperties.OtherMethodUnavailable | src/main.rs:82-85 | Any method other than GET and POST gets 503 "Server Internal Error". |
| RouterProperties.TraversalNotPrevented | src/main.rs:153-160 | Every file name that starts with "../" (and holds no further "/files/") is joined onto a directory not ending in "/" as it is, so the path leads out of the directory. |
| RouterProperties.ReasonPhrasesOnOneLine | src/main.rs:84-149 | No reason phrase holds a carriage return. |
| RouterProperties.StatusWhole | src/main.rs:169-173 | A status-only reply is one whole response, with nothing after it. |
| RouterProperties.TextWhole | src/main.rs:187-190 | A text reply is one whole response followed by its stray CRLF. |
| RouterProperties.FileWhole | src/main.rs:192-197 | A file reply is exactly one whole response, with nothing after it. |
| RouterProperties.GetRepliesWhole | src/main.rs:91-129 | Every reply to a GET reads back as one whole response. Exactly the text replies (`Content-Type` text/plain) are followed by a CRLF; the others by nothing. |
| RouterProperties.PostRepliesWhole | src/main.rs:131-151 | Every reply to a POST reads back as one whole response, with nothing after it (all are status-only). |
| RouterProperties.RepliesAreWhole | src/main.rs:79-88 | Every reply the server writes reads back as one whole response, exactly the text replies (`Content-Type` text/plain) are followed by a CRLF; the others by nothing. |
| RouterExamples.UserAgentConnection | src/main.rs:75-102 | A GET /user-agent connection is answered with the client's `User-Agent` as text. |
| RouterExamples.EchoStopsAtNextPrefix | src/main.rs:103-105 | /echo/abc/echo/def echoes only "abc". |
| RouterExamples.EchoStopsAtLeftmostPrefix | src/main.rs:103-105 | /echo/x/echo/echo/y echoes "x", not "x/echo": "/echo/echo/" holds "/echo/" twice, overlapping, and the echo stops at the first. |
| RouterExamples.DeleteConnection | src/main.rs:79-85 | A DELETE request is answered with 503. |
| RouterExamples.TraversalExample | src/main.rs:153-160 | The one case /files/../secret under the directory /srv: the path is /srv/../secret, outside /srv. |

## Left out

- Sockets, the listener loop and the thread per connection (`main`, src/main.rs:223-239): I/O and concurrency. A panic is modelled as the outcome `Panic`, which sends no reply and affects no other connection.
- `stream.write` may write only part of the response, and the count it returns is not checked; the model takes the whole reply as sent.
- The file system calls are not modelled. `Router.FileSystem` holds their outcomes as given functions of the path.
  - `copy` is a function of the body and the path alone, so one connection's writes are not seen by later reads.
  - A partly written file after a failed copy is not modelled.
- UTF-8: each `char` is one octet. The model does not capture these behaviours:
  - `read_line` fails on invalid UTF-8; for the first line that is a panic, and in the header loop it ends the loop early and returns the request without a body;
  - `to_str` in `parse_files_path` fails on a non-UTF-8 path;
  - `trim` strips white space that takes more than one octet (next item).
- Text.Trim: strips only the one-octet white space characters (space, tab, line feed, vertical tab, form feed, carriage return). Rust's `str::trim`, used on each header line at src/main.rs:60, also strips the Unicode white space characters that take two or three octets in UTF-8: U+0085, U+00A0, U+1680, U+2000 to U+200A, U+2028, U+2029, U+202F, U+205F and U+3000. A header line that starts or ends with one of these keeps those octets in the model. For example, "Content-Length: 5" followed by U+00A0 and CRLF is refused as an unparsable length, while the source strips the U+00A0 and reads a body of 5 bytes.
- The request line must be read by a `read_line` that does not fail; an I/O error there (a panic) is not modelled.
- Logging (`println!`) is left out.
- The connection's bytes are a finite string given up front. A client that sends the blank line later than the rest is not distinguished from one that sends it at once.
- Request.ParseRequest: the source loops for ever once the input ends before the blank line, because `read_line` keeps returning Ok(0) with the line unchanged. The model returns `HeadersUnterminated`, and `HandleConnection` maps it to `Stall`.
- RouterProperties.RepliesAreWhole: it requires the target, the `User-Agent` value and every file to be shorter than 2^64 bytes, the range a `u64` `Content-Length` can state.

## Behaviour of the code worth knowing

The model follows the code in each of these cases.

- Echo: the echoed text is the part of the target after "/echo/" up to the leftmost "/echo/" in it (the second piece of `split("/echo/")`), not the whole remainder. Embedded slashes are kept.
- POST to a target outside /files/: the reply is 500 "Internal Server Error", not 404.
- Unknown method: the reply is 503 with the reason phrase "Server Internal Error".
- POST to /files/ when the parent directory is missing: `File::create(..).unwrap()` panics before any copy, so the reply is not 404. The 404 branch of `handle_post` is reached only when `io::copy` reports NotFound.
- POST to /files/ without `Content-Length` panics ("no reader for request") before any file is created.
- A header with an empty value ("Name: " + CRLF) is not stored. The next line is appended to it, and the pair is stored under the first name with CRLF and the whole next line as its value. When the blank line follows such a header, it is not recognised and the loop reads on.
