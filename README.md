# htf fetcher: a verified model of the wire-level core

htf is a small synchronous HTTP/1.1 client in a single header, `fetcher.hpp`. `Fetch`
does four things:

- it splits a URL into host, port and path;
- it resolves the host and connects;
- it writes a `GET` request with the caller's header fields;
- it parses the raw answer into a result: a kind, a status code, a header map and the content.

The content is undone from chunked transfer encoding when the server declares it.

This project models that core in Dafny and proves properties of the model:

| module (file) | models |
|---|---|
| `Common` (common.dfy) | the C++ string operations the code relies on: `find` of a character and of a substring, `substr`, the exceptions that can escape (`invalid_argument`, `out_of_range`, `length_error`) and the line layout of a header block |
| `Numbers` (numbers.dfy) | `std::stoi` (leading white space, sign, digits, `int` range) and `stoh`, the hexadecimal reader built on a `stringstream` (white space, hex digits, 0 when a character other than a hex digit comes first, saturation at `SIZE_MAX`), with decimal and hexadecimal writers as their inverses |
| `Results` (results.dfy) | `EResultType`, `ResultTypeToStr`, the `TResult` record and the `size_t` conversion of the code `-1` |
| `Url` (url.dfy) | `ParseUrl`: the scheme prefix, the first `/`, the optional `:port` read by `stoi` and truncated to `unsigned short` |
| `Fields` (fields.dfy) | header field lines `name: value\r\n` and the field-line reader of the response, as a function over text |
| `Request` (request.dfy) | the request builder of `Fetch`, as a method that appends piece by piece, proved against the request text |
| `Response` (response.dfy) | the response reader: the delimiter search, the status-line loop, the header-field loop, the reads until end of stream and the choice of the content, as methods proved against specification functions |
| `Chunked` (chunked.dfy) | the chunked decoder loop, proved against a step function. Also: an encoder, and the proof that decoding an encoding gives back the data |
| `ResponseFacts` (response_facts.dfy) | what the reader makes of a well-formed response: round trips, the error path of a line without `:`, and the first-byte loss in a response without header fields |
| `Fetcher` (fetch.dfy) | `Fetch` as a whole, with the network as a parameter: lookup, connect and send outcomes, and the data of each read |

Behaviour the model keeps as the code has it, where an HTTP client might be expected to
behave otherwise:

- A status line with fewer than two spaces leaves the code unassigned and parsing goes on. It is not an `HttpError` (`Response.StatusCode` gives `None`).
- A chunk size token that starts with a character other than white space or a hex digit reads as 0. It is not an error (`Numbers.Stoh`).
- A chunk of size 0 does not stop the decoder; the scan goes on to the end of the content.
- Only the first read is searched for the header delimiter.
- `ResolvedUrl` is never assigned.
- The header map is an `unordered_map`: the request writes the caller's fields in the map's iteration order, which is a parameter `order` here.

Two places where the code does not do what it evidently means are listed under
Findings. Each one is modelled as written and as intended. The rest of the model uses
the intended behaviour.

## Model

| member | source | states |
|---|---|---|
| Results.ResultTypeToStr | fetcher.hpp:105-118 | every kind gets a name other than "Unknown", and the name can be read back to the kind |
| Results.ResultTypeNamesDistinct | fetcher.hpp:105-118 | two kinds with the same name are the same kind |
| Results.AsSizeT | fetcher.hpp:99 | storing an int into the size_t Code keeps values in range and adds 2^64 to negative ones |
| Results.ErrorCodeIsSizeMax | fetcher.hpp:162 | the code -1 of every failure is stored as SIZE_MAX |
| Numbers.Stoi | fetcher.hpp:296 | stoi returns an int within [INT_MIN, INT_MAX] or throws invalid_argument/out_of_range, never length_error |
| Numbers.DigitRun | fetcher.hpp:296 | the run of digits stoi reads: all digits, and ends at the first non-digit |
| Numbers.StoiOfDigits | fetcher.hpp:296 | stoi of a digit run that fits an int, followed by a non-digit, returns the run's decimal value |
| Numbers.StoiOfDecimalText | fetcher.hpp:219 | stoi reads back the decimal text of every code up to INT_MAX, whatever non-digit follows |
| Numbers.DecValueOfDecimalText | fetcher.hpp:296 | the decimal writer and the digit value are inverse |
| Numbers.HexExtract | fetcher.hpp:308-309 | the stream extraction skips leading white space, gives 0 when a character other than a hex digit comes first, and saturates at SIZE_MAX |
| Numbers.Stoh | fetcher.hpp:305-311 | stoh never exceeds SIZE_MAX |
| Numbers.HexExtractDigits | fetcher.hpp:309 | a hex digit run followed by a non-digit is read as its value, clamped at SIZE_MAX |
| Numbers.HexValueOfHexText | fetcher.hpp:305-311 | the hex writer and the hex digit value are inverse |
| Numbers.StohOfHexText | fetcher.hpp:305-311 | stoh reads back the hex text (either case) of every value up to SIZE_MAX |
| Numbers.StohSkipsSpace | fetcher.hpp:308-309 | a leading white-space character does not change what stoh reads |
| Common.Find | fetcher.hpp:285 | a found index holds the character |
| Common.FindFacts | fetcher.hpp:285-286 | find returns the first occurrence, and npos exactly when the character is absent |
| Common.FindSub | fetcher.hpp:204 | a found position holds "\r\n\r\n" |
| Common.FindSubFacts | fetcher.hpp:204-209 | the position is the first occurrence, and npos means none at all |
| Common.FindSubIs | fetcher.hpp:204 | an occurrence with none before it is the position find returns |
| Common.Substr | fetcher.hpp:258-260 | substr yields the n characters starting at pos when they exist, and all the characters from pos when fewer remain |
| Common.Concat | fetcher.hpp:245-249 | joins the strings of the reads |
| Common.ConcatAppend | fetcher.hpp:246-249 | appending one more read appends its string |
| Common.BlankLineIsFirstDelimiter | fetcher.hpp:204 | in a head of non-empty lines without '\r', the first "\r\n\r\n" is the one after the last line |
| Common.NoDelimiterInsideLines | fetcher.hpp:204 | no "\r\n\r\n" starts inside such a block of lines |
| Url.Remainder | fetcher.hpp:282-284 | "http://" is removed exactly when the URL starts with it |
| Url.ParseUrl | fetcher.hpp:280-303 | the path always starts with '/' and is "/" or the text from the first '/'; only stoi of the port can throw |
| Url.ParseUrlWithoutPath | fetcher.hpp:285-289 | without '/', the whole remainder is the host, the port 80 and the path "/" |
| Url.ParseUrlWithoutPort | fetcher.hpp:297-300 | a host without ':' before the path gets port 80 |
| Url.ParseUrlWithPort | fetcher.hpp:291-296 | with ":port", the port is stoi of the text, truncated to 16 bits, and a stoi exception propagates |
| Url.ParseUrlOfUrlText | fetcher.hpp:280-303 | parsing "http://host:port/path" gives back host, port and path |
| Fields.FieldText | fetcher.hpp:187 | a field line is the name, ": " and the value |
| Fields.FieldBlockAppend | fetcher.hpp:186-188 | writing one more field appends its line |
| Fields.ParseFieldLines | fetcher.hpp:226-240 | reading field lines only adds keys to the map it starts from, on success and on a line without ':' |
| Fields.ParseFieldLinesNone | fetcher.hpp:226 | with no further line end, reading stops with the map so far |
| Fields.ParseFieldLinesMissing | fetcher.hpp:230-234 | a line without ':' ends reading with HttpError and the map so far |
| Fields.ParseFieldLinesStep | fetcher.hpp:228-239 | a line with ':' stores name (up to the first ':') and value (from two past it), or underflows when the ':' is within two of the line end |
| Fields.ParseFieldLinesStored | fetcher.hpp:235-239 | the stored pair and the text after the line |
| Fields.ParseOneField | fetcher.hpp:235-239 | a well-formed field line is read back as its own name and value |
| Fields.ParseFieldBlock | fetcher.hpp:226-240 | a block of well-formed fields is read as their map, later fields overriding earlier ones |
| Fields.FieldBlockRoundTrip | fetcher.hpp:226-240 | reading a written block gives exactly the map of its fields |
| Fields.MapOf | fetcher.hpp:236-237 | storing fields one by one keeps every earlier key, and the last field's value is the one stored under its name |
| Fields.MapOfAppend | fetcher.hpp:236-237 | the last write of a name wins |
| Fields.MapOfKeys | fetcher.hpp:236-237 | the keys are the start keys plus the field names, and other keys keep their values |
| Request.CallerFields | fetcher.hpp:186-188 | one field per visited key |
| Request.CallerFieldsAt | fetcher.hpp:186-188 | the k-th field is the k-th visited key with its value |
| Request.CallerFieldsPrefix | fetcher.hpp:186-188 | visiting one more key appends its field |
| Request.RequestText | fetcher.hpp:181-189 | the request text starts with the request line "GET path HTTP/1.1\r\n" and ends with "Connection: close\r\n\r\n" |
| Request.BuildRequest | fetcher.hpp:181-189 | the built request is the request line, Host unless the caller gave one, every caller field in iteration order, and "Connection: close" with the blank line |
| Request.HostBlock | fetcher.hpp:182-184 | before the caller's fields the request holds "Host: host\r\n" exactly when the caller's map has no "Host" |
| Request.AppendField | fetcher.hpp:186-188 | each loop pass appends "name: value\r\n" for the next key |
| Request.MapOfCallerFields | fetcher.hpp:186-188 | the caller's fields, read as a map, carry every caller key with its value and nothing else |
| Request.CountCallerFields | fetcher.hpp:186-188 | each caller key is written exactly once |
| Request.ExactlyOneHostField | fetcher.hpp:182-188 | the request always carries exactly one Host field |
| Request.CallerFieldWritten | fetcher.hpp:186-188 | every caller field appears in the request as "name: value\r\n" |
| Request.CallerFieldIndex | fetcher.hpp:186-188 | every caller field is among the request's fields |
| Request.RequestTextWithClose | fetcher.hpp:189 | "Connection: close" is the last field line, followed by the blank line |
| Request.RequestFieldsWellFormed | fetcher.hpp:181-189 | with host and caller fields free of '\r' and names free of ':', every request field can be read back |
| Request.RequestFieldMap | fetcher.hpp:181-189 | the request's fields form the map Host, then the caller's fields, then Connection=close |
| Request.RequestAsServerReadsIt | fetcher.hpp:181-189 | a server reading the request's header block gets that map |
| Response.DelimFound | fetcher.hpp:204-209 | a found delimiter is "\r\n\r\n" within the first read |
| Response.StatusEnd | fetcher.hpp:216 | the status loop stops at or before the delimiter, at the first '\r' or before the first '\n' |
| Response.StatusEndFromFirst | fetcher.hpp:216 | no earlier position stops the loop |
| Response.StatusEndIs | fetcher.hpp:216 | the first stopping position is where the loop ends |
| Response.CodeText | fetcher.hpp:216-223 | the token taken is free of spaces and lies strictly inside the line, and a line without a space has none |
| Response.ReadCode | fetcher.hpp:219 | the code is stoi of the token between the first two spaces, None without two spaces; stoi exceptions propagate |
| Response.StatusCode | fetcher.hpp:216-223 | the status code is an int, only stoi's exceptions escape, and a status line without a space assigns no code |
| Response.CodeTextOfSpaces | fetcher.hpp:216-223 | the token between the first two spaces is the one read |
| Response.CodeTextOfOneSpace | fetcher.hpp:216-223 | with one space, no code is read |
| Response.CodeTextOfNoSpace | fetcher.hpp:216-223 | with no space, no code is read |
| Response.ScanStatusLine | fetcher.hpp:211-224 | the loop's code is StatusCode of the text before the stop, and it ends at StatusEnd |
| Response.StatusCodeOfScan | fetcher.hpp:216-223 | the loop's space count and token positions give StatusCode of the text read |
| Response.FindIn | fetcher.hpp:228 | the first ':' of a line lies within the line |
| Response.FindInFacts | fetcher.hpp:228 | it is the first ':', and None means the line has none |
| Response.CrlfIn | fetcher.hpp:229 | a line end found by the field loop lies before the loop's end |
| Response.CrlfInFacts | fetcher.hpp:229 | it is the first line end, and None means there is none |
| Response.ScanOne | fetcher.hpp:227-229 | one character of a line keeps the loop state: no line end yet, delim at the first ':' |
| Response.LineWithoutColon | fetcher.hpp:230-234 | a line end with no ':' seen gives HttpError |
| Response.LineUnderflows | fetcher.hpp:236-237 | a ':' within two of the line end makes the value length negative, and std::string throws length_error |
| Response.LineStored | fetcher.hpp:235-239 | a line end after "name: value" stores the pair and continues after the line |
| Response.ScanEnd | fetcher.hpp:226 | reaching the loop's end returns the map so far |
| Response.NoLineLeft | fetcher.hpp:226 | without another line end the map so far is the result |
| Response.ReadFieldChar | fetcher.hpp:227-239 | one pass of the field loop: it stops with the loop's own error, or moves to a state with the same outcome |
| Response.ParseHeaderFields | fetcher.hpp:224-240 | the field loop computes FieldsIn over the text from after the status line to the delimiter, and ends at max(e+2, d+1) |
| Response.FieldsIn | fetcher.hpp:226-240 | reading the field lines of the buffer never drops a key of the map it starts from, on success and on a line without ':' |
| Response.FieldsInIsParse | fetcher.hpp:226-240 | the loop over the buffer reads that text exactly as the field-line reader does |
| Response.UntilEof | fetcher.hpp:246-249 | the reads kept are those before the first empty one |
| Response.UntilEofAt | fetcher.hpp:246-249 | the first empty read is where reading stops |
| Response.ReadRest | fetcher.hpp:246-249 | the reading loop appends the reads until the first empty one |
| Response.FirstBody | fetcher.hpp:244 | the first read is its head, the delimiter and the body part |
| Response.Decoded | fetcher.hpp:251-252 | the content is decoded only when the map holds "Transfer-Encoding" (exact case) equal to "chunked" (`DeclaresChunked`), otherwise it is the raw body; decoding never lengthens it |
| Response.StoredCode | fetcher.hpp:219 | a code in range is stored as read; an absent one stays absent |
| Response.ResponseSpec | fetcher.hpp:198-266 | the reader yields Success or HttpError, HttpError carries SIZE_MAX and no content, and a first read without delimiter is HttpError |
| Response.AfterStatus | fetcher.hpp:224-266 | after the status line: Success or HttpError, with HttpError carrying SIZE_MAX and no content |
| Response.BodyIs | fetcher.hpp:244-266 | the content is the body part and the later reads, dechunked when the headers say chunked |
| Response.ReadResponse | fetcher.hpp:198-266 | the reader as a method computes ResponseSpec |
| Response.ReadFieldsAndBody | fetcher.hpp:224-266 | the header loop, the reads and the decoding compute AfterStatus |
| Chunked.SizeTextIsSubstr | fetcher.hpp:258 | `substr(start, i - start)` with the count in size_t is the text from start to the line end, and the whole rest of the content when start is one past i and the count wraps |
| Chunked.Run | fetcher.hpp:254-264 | the decoder loop from any state adds at most as many bytes as are left to scan |
| Chunked.RunAtChunk | fetcher.hpp:257-262 | a pass at a line end adds at most the bytes after that line end |
| Chunked.Dechunk | fetcher.hpp:251-266 | the decoded body is never longer than the content |
| Chunked.DecodeChunked | fetcher.hpp:251-266 | the decoder loop computes Dechunk of the content |
| Chunked.RunAtCrlf | fetcher.hpp:257-263 | at a line end the loop appends the chunk and jumps past its data and the next line end |
| Chunked.RunElsewhere | fetcher.hpp:256 | elsewhere the loop only moves on |
| Chunked.RunSkip | fetcher.hpp:256-257 | a stretch with no line end leaves the output unchanged |
| Chunked.RunFrame | fetcher.hpp:256-263 | a size line and its data append exactly that data |
| Chunked.RunChunk | fetcher.hpp:256-263 | an encoded chunk decodes to its data |
| Chunked.RunLastChunk | fetcher.hpp:256-264 | the last chunk "0\r\n\r\n" adds nothing |
| Chunked.RunChunks | fetcher.hpp:256-264 | a sequence of encoded chunks decodes to their concatenation |
| Chunked.DechunkEncode | fetcher.hpp:251-266 | decoding the chunked encoding of any parts, each within SIZE_MAX, gives their concatenation |
| Chunked.StepWrapping | fetcher.hpp:257-263 | one pass of the loop with size_t wrap-around keeps start at most one past i |
| Chunked.IterateWrapping | fetcher.hpp:256-264 | a helper for WrappingLoopNeverEnds: k passes of the wrapping loop, keeping the bound StepWrapping needs |
| Chunked.HangLayout | fetcher.hpp:257-261 | the 19-character content " ffffffffffffffec\r\n" has its only line end at 17 and a size of SIZE_MAX-19 |
| Chunked.HangStep | fetcher.hpp:261-262 | one pass over that content returns the loop to a stuck state |
| Chunked.WrappingLoopNeverEnds | fetcher.hpp:256-264 | on that content the loop as written never ends |
| ResponseFacts.StatusLineCode | fetcher.hpp:216-223 | "version code reason", with no space in the version, reads back code |
| ResponseFacts.LayoutDelimiter | fetcher.hpp:204 | the delimiter of a head of plain lines is after its last field line |
| ResponseFacts.LayoutStatusEnd | fetcher.hpp:216 | the status loop stops at the end of a plain status line |
| ResponseFacts.ResponseLayout | fetcher.hpp:204-244 | in a well-formed response the reader finds the status line, the field block and the body where they were written |
| ResponseFacts.ResponseOfHead | fetcher.hpp:198-249 | the outcome of a response of plain lines is determined by its status code, its field lines and its body |
| ResponseFacts.ResponseRoundTrip | fetcher.hpp:198-266 | a response written from a code, well-formed fields and a body is read as Success with that code, the fields' map and the body |
| ResponseFacts.ChunkedResponseRoundTrip | fetcher.hpp:251-266 | with "Transfer-Encoding: chunked" and a chunked body, the content is the concatenated parts |
| ResponseFacts.ResponseMissingColon | fetcher.hpp:230-234 | a field line without ':' gives HttpError with SIZE_MAX, the map of the lines before it and no content |
| ResponseFacts.BadLineAfterBlock | fetcher.hpp:230-234 | the reader stops at the bad line with the map of the fields before it |
| ResponseFacts.BodyStartAsWritten | fetcher.hpp:244 | the code starts the body at i + 3: right after the delimiter when the status loop stops before it, one byte later when the status loop stops at the delimiter itself (a plain status line with no field line after it) |
| ResponseFacts.FirstBodyAsWritten | fetcher.hpp:244 | the body part as the code takes it lies after the delimiter, and the only failure is std::string's length_error |
| ResponseFacts.BodyStartWithFieldLines | fetcher.hpp:244 | with at least one field line, the body start as written is right after the delimiter |
| ResponseFacts.NoFieldLinesDropsFirstByte | fetcher.hpp:244 | after a plain status line with no field line, the body start as written skips the first body byte, and throws length_error for an empty body |
| ResponseFacts.HelloLosesItsFirstByte | fetcher.hpp:244 | "HTTP/1.1 200 OK\r\n\r\nhello" gives "ello" as written |
| Fetcher.Failure | fetcher.hpp:160-167 | a failure result has its kind, the code SIZE_MAX, no headers and no content |
| Fetcher.Connected | fetcher.hpp:159-266 | the request is sent exactly when lookup and connect succeed; every non-Success result carries SIZE_MAX and no content; Success comes only after a successful send |
| Fetcher.FetchSpec | fetcher.hpp:145-266 | a ParseUrl exception propagates out of Fetch, and a parsed URL goes on with the request built from it |
| Fetcher.Fetch | fetcher.hpp:145-278 | Fetch as a method computes FetchSpec, both the result and the request it sends |
| Fetcher.FetchRoundTrip | fetcher.hpp:145-278 | fetching "http://host:port/path" from a server that answers well-formed text sends the request for that path and returns the server's code, its header map and its content |

## Left out

- Sockets, WSAStartup/WSACleanup, socket creation, close and shutdown are left out. So is the `timeout` parameter, which Fetch never uses. Lookup, connect and send are reduced to their outcomes in `Fetcher.Peer`.
- `InitializationError` (Windows only, fetcher.hpp:146-154) is left out. It depends on the platform, not on the protocol.
- Each read's buffer size (2000, then 1000) and `recv` errors are left out. Reads are a finite sequence of strings, and reading stops at the first empty one. A negative `recv` count is not modelled.
- Only the first read is searched for the delimiter and scanned for the status line and fields, as in the code.
- `GetUrl` and `TException` are left out. They only rethrow a non-Success result; main.cpp is an example program and is not part of this model.
- `TResult.ResolvedUrl` is never assigned by Fetch, and `TAddr.Protocol` is never assigned by ParseUrl, so neither is modelled.
- Numbers.Stoh: the "0x" prefix and the sign are not modelled, although `stringstream >> hex` accepts both. A size token "0x1a" reads as 0 here, and "-5" reads as 0 rather than as a wrapped size_t.
- Numbers.Stoh: an empty or all-blank token reads as 0 here. In the code the extraction fails at the end of input before it stores anything, so stoh returns its uninitialised `x` (fetcher.hpp:306-310). The decoder meets such a token when a line end sits where a size line starts, as in content that begins with "\r\n". Numbers.HexExtract and Chunked.DecodeChunked inherit this.
- Numbers.HexExtract: reads an empty or all-blank text as 0, where the stream extraction fails at the end of input and leaves its target unwritten (see Numbers.Stoh).
- Response.FirstBody: starts the body of the first read right after "\r\n\r\n", as intended. The code starts it at i + 3 (fetcher.hpp:244), one byte later when the status line is plain and no field line follows it: "HTTP/1.1 200 OK\r\n\r\nhello" gives "ello", and an empty body throws length_error. The as-written start is ResponseFacts.FirstBodyAsWritten; see Findings.
- Response.ReadFieldsAndBody: uses Response.FirstBody, so when the status line is plain and no field line follows it, it keeps the first body byte the code drops, and returns Success where the code throws length_error on an empty body.
- Response.AfterStatus: the same intended body start as Response.ReadFieldsAndBody, which computes it.
- Response.BodyIs: states the content from the intended body start, not the code's i + 3 when the status line is plain and no field line follows it.
- Response.ResponseSpec: its Success content carries the intended body start, so when the status line is plain and no field line follows it, it keeps the byte the code drops and does not throw on an empty body.
- Response.ReadResponse: computes Response.ResponseSpec, with the same intended body start.
- ResponseFacts.ResponseLayout: finds the body from Response.FirstBody, so when the status line is plain and no field line follows it, it does not show the dropped byte or the length_error.
- ResponseFacts.ResponseOfHead: states the content from Response.FirstBody, with the same gap.
- Fetcher.Connected: its Success content comes from Response.ResponseSpec and inherits the intended body start.
- Fetcher.FetchSpec: inherits the intended body start from Fetcher.Connected.
- Fetcher.Fetch: computes Fetcher.FetchSpec, with the same intended body start.
- Fetcher.FetchRoundTrip: states the server's content for any fields; when the status line is plain and no field line follows it, the code as written drops the first byte, or throws length_error for an empty body.
- Chunked.DecodeChunked, Chunked.Run, Chunked.RunAtChunk and Chunked.Dechunk: their index arithmetic is on unbounded integers. The size_t wrap-around of the same loop is modelled separately (`Chunked.StepWrapping`); see Findings.
- A socket that fails to open is not checked by the code, and is not modelled.

Strings are sequences of characters that stand for bytes. Behaviour the model keeps as the code has it:

- `Code` is absent (`None`) where the code leaves it unassigned: when the status line has fewer than two spaces.
- After `HttpError` from a line without ':', the header map read so far is kept. The code never clears `res.Headers`.

## Findings

| source | as written | input that shows it | evidently intended | confidence | as-written member | corrected member |
|---|---|---|---|---|---|---|
| fetcher.hpp:261 | `i += chunkSize + 2` in size_t wraps around for a size near SIZE_MAX, moving `i` backwards | content " ffffffffffffffec\r\n" (size SIZE_MAX-19): `i` returns to 0 and the loop never ends | skip the chunk's data, or stop when it runs past the end | not executed | Chunked.WrappingLoopNeverEnds | Chunked.DechunkEncode |
| fetcher.hpp:244 | the body starts at `i + 3` where `i` is where the field loop ended; when the status line is plain and no field line follows, the loop ends one later | "HTTP/1.1 200 OK\r\n\r\nhello" gives content "ello"; "HTTP/1.1 200 OK\r\n\r\n" throws length_error | the body starts right after "\r\n\r\n" | not executed | ResponseFacts.HelloLosesItsFirstByte | ResponseFacts.ResponseRoundTrip |
