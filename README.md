# HTTP/1.1 request parser, modelled in Dafny

This project models the request parser of `httpfromtcp`, an HTTP/1.1 server written from scratch
in Go. The parser reads bytes from a stream in chunks of any size. It builds a request in four
states: request line, headers, body and done. Its parts are:

- the request line parser: `method SP target SP HTTP/1.1`, an allow-list of methods, version
  `HTTP/1.1` stored as `1.1`, and a target that starts with `/`, `http://` or `https://`;
- the header map: one `name: value` line at a time, with the token check on the name,
  canonical capitalisation (`content-type` becomes `Content-Type`), and repeated names joined
  with `, `;
- the state machine, which consumes complete lines only, keeps a 4096-byte buffer, compacts it
  after each parse, and checks the body against `Content-Length` at end of input;
- the earlier whole-input parser of the `learn-http-protocol-golang` snapshot, which reads the
  whole stream and parses only its first line.

Files:

- `wrappers.dfy`: `Option` and `Result`.
- `gotext.dfy`: the parts of Go's `strings`, `bytes` and `strconv` that the parser calls.
  A byte is the character with the same code, so `string(b)` is the identity.
- `headers.dfy` (module `HeaderFields`): field-line parsing, canonical names, the header map
  and the `Headers` class.
- `requestline.dfy` (module `RequestLines`): request-line parsing and the `RequestLine` class.
- `request.dfy` (module `Requests`):
  - `Run`, a pure function that specifies parse;
  - the `Request` class, whose methods are proved equal to `Run`;
  - the chunk reader and `RequestFromReader`, with their buffer and compaction.
- `scenarios.dfy` (module `RequestScenarios`): what any request built from accepted lines
  parses to.
- `tests.dfy` (module `TestRequests`): the requests of the repository's tests.
- `legacy.dfy` (module `LegacyRequests`): the earlier whole-input parser.

The main results:

- `Final(input)` is the result of parsing the whole input at once. `RequestFromReader`'s result
  is stated in terms of it, for every chunk size (`Requests.RequestFromReader`,
  `Requests.ParseInChunks`). So how the input is cut into chunks never changes the parsed
  request. It can only decide whether the 4096-byte buffer overflows, which happens exactly
  when the bytes held plus the next chunk reach 4096 (`Requests.Turn`).
- Parsing `a + b` is parsing `a`, then the unconsumed rest of `a` followed by `b`
  (`Requests.Compose`).
- A request whose lines are all accepted parses to its request line, its combined header
  fields and its whole body. It is refused exactly when `Content-Length` does not give the
  body's length (`RequestScenarios.WellFormedRequest`).

## Model

| member | source | states |
|---|---|---|
| GoText.Split | httpfromtcp/internal/requestline/requestline.go:20 | `strings.Split`: at least one piece, and with a one-character separator no piece holds it |
| GoText.SplitCount | httpfromtcp/internal/requestline/requestline.go:20-24 | splitting on a character gives one piece more than the character's number of occurrences |
| GoText.Fields | httpfromtcp/internal/headers/headers.go:16 | `strings.Fields`: every field is non-empty and free of white space |
| GoText.FieldsOfTwo | httpfromtcp/internal/headers/headers.go:16-19 | two words with white space around and between them are exactly two fields |
| GoText.FieldsTwoShape | httpfromtcp/internal/headers/headers.go:16-19 | the converse: a text with exactly two fields is white space, the first field, at least one white-space character, the second field and white space |
| GoText.IndexCRLF | httpfromtcp/internal/request/request.go:156 | `bytes.Index(data, "\r\n")`: the first CR LF pair, none before it; none exactly when there is no pair |
| GoText.SplitCRLFFirst | learn-http-protocol-golang/httpfromtcp/internal/request/request.go:26 | the first piece of a split on CR LF is the text before the first pair |
| GoText.Atoi | httpfromtcp/internal/request/request.go:145 | `strconv.Atoi`: an accepted text is an optional sign followed by digits only, and its value is the decimal value of those digits, negated after `-`, within 64 bits |
| GoText.AtoiSpelling | httpfromtcp/internal/request/request.go:145-148 | for every sign and rest: accepted exactly when the rest is one or more digits whose signed value fits 64 bits, with that value; so the empty text, a lone sign, `1a` and ` 1` are refused |
| GoText.AtoiLeadingZero | httpfromtcp/internal/request/request.go:145 | a leading zero is accepted and changes nothing: `007` reads as 7, with or without a sign |
| GoText.AtoiExamples | httpfromtcp/internal/request/request.go:145-148 | `13`, `+5` and `-0` are read as 13, 5 and 0; the empty text, `+`, `1a` and ` 1` are refused |
| GoText.AtoiDecimal | httpfromtcp/internal/request/request.go:145 | Atoi reads back the decimal spelling of every value that fits, unsigned, with `+` or with `-` |
| HeaderFields.IsTokenChar | httpfromtcp/internal/headers/headers.go:40 | the character class of the name pattern; it admits neither white space nor `:` |
| HeaderFields.ValidFieldName | httpfromtcp/internal/headers/headers.go:39-49 | `validateFieldName`: one or more token characters, so an accepted name is non-empty and holds no white space and no `:` |
| HeaderFields.ValidFieldNameExamples | httpfromtcp/internal/headers/headers.go:39-49 | the token pattern accepts `Host`, `content-type`, `X-` and refuses `H@st`, `H,st`, the empty name, `Host:` and a backtick |
| HeaderFields.CanonicalForm | httpfromtcp/internal/headers/headers.go:51-57 | the canonical form is missing exactly when some `-` segment is empty, where Go's `part[:1]` panics |
| HeaderFields.ConvertFieldNameToCanonicalForm | httpfromtcp/internal/headers/headers.go:51-57 | the loop over the `-` segments gives the canonical form; it fails (Go panics) on an empty segment |
| HeaderFields.CanonicalFormIsCharwise | httpfromtcp/internal/headers/headers.go:51-57 | split, recapitalise, join is the character-wise rule: upper case after a `-` or at the start, lower case elsewhere |
| HeaderFields.CanonicalCharsKeepsDashes | httpfromtcp/internal/headers/headers.go:54-56 | canonical capitalisation keeps the length and every `-` in place |
| HeaderFields.CanonicalCharsKeepsValid | httpfromtcp/internal/headers/headers.go:24-28 | a valid token name stays a valid token name after capitalisation |
| HeaderFields.CanonicalCharsIdempotent | httpfromtcp/internal/headers/headers.go:51-57 | capitalising twice is capitalising once |
| HeaderFields.CanonicalFormProperties | httpfromtcp/internal/headers/headers.go:51-57 | for a name without empty segments: defined, same length and dashes, segment cases as above, validity kept, idempotent |
| HeaderFields.CanonicalFormExample | httpfromtcp/internal/headers/headers_test.go:43-49 | `content-type` becomes `Content-Type` |
| HeaderFields.ValidNameCanPanic | httpfromtcp/internal/headers/headers.go:54 | `X-`, `-X` and `a--b` pass the name check and have no canonical form |
| HeaderFields.DoubleDashPanics | httpfromtcp/internal/headers/headers.go:54 | `a--b` passes the name check but canonicalisation fails on it |
| HeaderFields.ParseFieldLine | httpfromtcp/internal/headers/headers.go:15-29 | an accepted line gives a valid token name and a non-empty value without white space |
| HeaderFields.ParseFieldLineShape | httpfromtcp/internal/headers/headers.go:15-29 | the converse of ParseFieldLineByName: an accepted line is exactly white space, a valid name without empty segments, `:`, white space, the stored value and white space; the stored name is that name's canonical form |
| HeaderFields.ParseFieldLineCanonical | httpfromtcp/internal/headers/headers.go:28 | the name of an accepted line is in canonical form and has no empty segment |
| HeaderFields.ParseFieldLineByName | httpfromtcp/internal/headers/headers.go:16-29 | `name:` then white space then a value is refused for an invalid name or an empty segment, and otherwise gives the canonical name and the value |
| HeaderFields.ParseFieldLineSpaceBeforeColon | httpfromtcp/internal/headers/headers.go:16-19 | white space between the name and the colon makes three fields: refused as malformed |
| HeaderFields.ParseFieldLineSpacingExample | httpfromtcp/internal/headers/headers_test.go:19-25 | `       Host : localhost:42069       ` is refused as malformed |
| HeaderFields.ParseFieldLineAtSign | httpfromtcp/internal/headers/headers_test.go:27-33 | `H@st: loclahost:42069` is refused for its name |
| HeaderFields.ParseFieldLineComma | httpfromtcp/internal/headers/headers_test.go:35-41 | `H,st: loclahost:42069` is refused for its name |
| HeaderFields.ParseFieldLineNoColon | httpfromtcp/internal/headers/headers.go:20-22 | `Host localhost:42069` is refused for the missing colon |
| HeaderFields.ParseFieldLinePanic | httpfromtcp/internal/headers/headers.go:54 | `X-: 1` is refused with EmptyNameSegment instead of panicking |
| HeaderFields.Combine | httpfromtcp/internal/headers/headers.go:30-35 | a new name is inserted, a known one gets `, ` and the value appended, no other entry changes |
| HeaderFields.CombineAllPresent | httpfromtcp/internal/headers/headers.go:30-32 | values of a known name are appended in order, joined by `, ` |
| HeaderFields.CombineInOrder | httpfromtcp/internal/headers/headers_test.go:51-60 | values of a new name end up joined by `, ` in the order received |
| HeaderFields.Headers.constructor | httpfromtcp/internal/headers/headers.go:11-13 | a new header map is empty |
| HeaderFields.Headers.Get | httpfromtcp/internal/request/request.go:141 | `Headers.Get`: a value exactly for a name that was recorded, and then the value recorded under it |
| HeaderFields.Headers.ParseLine | httpfromtcp/internal/headers/headers.go:15-37 | a refused line leaves the map unchanged; an accepted one combines its canonical name and value into it |
| RequestLines.ValidMethod | httpfromtcp/internal/requestline/requestline.go:51-57 | `validateMethod`: membership in the allow-list; every allowed method is non-empty upper-case letters, so the check is case-sensitive |
| RequestLines.ValidRequestTarget | httpfromtcp/internal/requestline/requestline.go:67-75 | `validateRequestTarget`: accepted exactly when the target starts with `/`, `http://` or `https://`; the emptiness check adds nothing |
| RequestLines.ValidateHttpVersion | httpfromtcp/internal/requestline/requestline.go:59-65 | accepted exactly for `HTTP/1.1`, giving `1.1` |
| RequestLines.ParseRequestLine | httpfromtcp/internal/requestline/requestline.go:19-49 | an accepted line has an allowed method, a valid target without a space, and version `1.1` |
| RequestLines.ParseRequestLineRebuilds | httpfromtcp/internal/requestline/requestline.go:19-49 | an accepted line is exactly `method target HTTP/1.1` with single spaces |
| RequestLines.ParseRequestLineOfTokens | httpfromtcp/internal/requestline/requestline.go:20-42 | three space-free tokens are judged in the order method, version, target, and kept verbatim when accepted |
| RequestLines.MalformedIffNotTwoSpaces | httpfromtcp/internal/requestline/requestline.go:20-24 | refused as malformed exactly when the line does not hold two spaces |
| RequestLines.MissingMethodExample | httpfromtcp/internal/request/request_test.go:33-37 | `/coffee HTTP/1.1` is malformed |
| RequestLines.MethodOutOfOrderExample | httpfromtcp/internal/request/request_test.go:49-53 | `/coffee GET HTTP/1.1` fails the method check |
| RequestLines.UnsupportedVersionExample | httpfromtcp/internal/request/request_test.go:55-59 | `GET / HTTP/4` fails the version check |
| RequestLines.RequestLine.constructor | httpfromtcp/internal/requestline/requestline.go:15-17 | a new request line has empty fields |
| RequestLines.RequestLine.ParseLine | httpfromtcp/internal/requestline/requestline.go:19-49 | the fields are stored only when every check passes; a refused line leaves them as they were |
| Requests.Init | httpfromtcp/internal/request/request.go:31-36 | a new request reads the request line first, with empty request-line fields, no headers and no body |
| Requests.RunWithoutLine | httpfromtcp/internal/request/request.go:104-108 | input without a CR LF leaves a new request as it is: nothing consumed, no error |
| Requests.FindNextCRLF | httpfromtcp/internal/request/request.go:155-161 | the end of the first line after `start`, terminator included, with no CR LF pair before it |
| Requests.FindNextCRLFNone | httpfromtcp/internal/request/request.go:155-161 | no line end is found exactly when the data from `start` on holds no CR LF pair |
| Requests.RequestLineStep | httpfromtcp/internal/request/request.go:104-116 | nothing is consumed on an error or an incomplete line; when a line is consumed the state becomes ReadingHeaders, with headers and body untouched |
| Requests.HeaderStep | httpfromtcp/internal/request/request.go:118-134 | nothing is consumed on an error or an incomplete line; only the header map and the state can change, and the state only to ReadingBody |
| Requests.BodyStep | httpfromtcp/internal/request/request.go:136-153 | the data is appended and Done is set on the last chunk; BadContentLength exactly for a non-numeric Content-Length; BodyLengthMismatch exactly for another number at the last chunk |
| Requests.StepOnce | httpfromtcp/internal/request/request.go:81-92 | the state never goes back; Done only on the last chunk; a line phase without a complete line changes nothing |
| Requests.Run | httpfromtcp/internal/request/request.go:74-102 | consumed bytes stay within the data, and none on an error; the state never goes back; a run in the body phase consumes all |
| Requests.LineStepNeedsCRLF | httpfromtcp/internal/request/request.go:105-108 | in a line phase a step does something exactly when the data holds a CR LF pair |
| Requests.RunLeavesNoLine | httpfromtcp/internal/request/request.go:94-98 | a run that stops in a line phase leaves no complete line unconsumed |
| Requests.RunBody | httpfromtcp/internal/request/request.go:136-153 | in the body phase a run is one body step |
| Requests.StepPrefix | httpfromtcp/internal/request/request.go:105 | in a line phase, bytes after a complete line do not change the step |
| Requests.Compose | httpfromtcp/internal/request/request.go:40-65 | parsing `a + b` is parsing `a`, then `a`'s unconsumed rest followed by `b`, with the consumed counts added |
| Requests.ErrorPersists | httpfromtcp/internal/request/request.go:53-55 | an error in a prefix is the error of the whole input |
| Requests.RunIdle | httpfromtcp/internal/request/request.go:61-64 | after a run short of Done, parsing its unconsumed rest again does nothing |
| Requests.RunRequestLine | httpfromtcp/internal/request/request.go:104-116 | a complete request line is stored and consumed with its CR LF, or refuses the request with its reason |
| Requests.RunHeaderLine | httpfromtcp/internal/request/request.go:118-134 | a complete non-empty header line is combined into the map, or refuses the request with its reason |
| Requests.RunBlankLine | httpfromtcp/internal/request/request.go:124-128 | the empty line starts the body phase, whatever the headers |
| Requests.Request.constructor | httpfromtcp/internal/request/request.go:31-36 | a new request is in ReadingRequestLine with empty fields, headers and body |
| Requests.Request.ParseRequestLinePart | httpfromtcp/internal/request/request.go:104-116 | updates the request as RequestLineStep says |
| Requests.Request.ParseHeaderPart | httpfromtcp/internal/request/request.go:118-134 | updates the request as HeaderStep says |
| Requests.Request.ParseBodyPart | httpfromtcp/internal/request/request.go:136-153 | updates the request as BodyStep says |
| Requests.Request.ParseStep | httpfromtcp/internal/request/request.go:81-88 | updates the request as StepOnce says |
| Requests.Request.Parse | httpfromtcp/internal/request/request.go:74-102 | the loop leaves the request and the consumed count that Run gives |
| Requests.ChunkReader.constructor | httpfromtcp/internal/request/request_test.go:125-127 | a reader positioned at the start of its data |
| Requests.ChunkReader.Read | httpfromtcp/internal/request/request_test.go:129-137 | copies the next min(perRead, unread, room) bytes into `p[from:]`, changes nothing else in `p`, and reports end of input exactly when nothing was left |
| Requests.FeedChunk | httpfromtcp/internal/request/request.go:41-55 | parsing the held bytes plus a new chunk continues the run over the whole input received so far |
| Requests.FinishedRun | httpfromtcp/internal/request/request.go:40-71 | when the loop ends in Done, the request is Final(input) |
| Requests.StuckRun | httpfromtcp/internal/request/request.go:40-65 | a run still short of Done after end of input means Final(input) is neither done nor failed |
| Requests.TurnKeepsTracks | httpfromtcp/internal/request/request.go:41-64 | one turn of the loop keeps the link between the buffer, the bytes received and Final(input) |
| Requests.MoveToFront | httpfromtcp/internal/request/request.go:62 | `copy(buffer, buffer[from:to])` moves the slice to the front and keeps the rest |
| Requests.ReadChunk | httpfromtcp/internal/request/request.go:41-43 | the chunk read, min(perRead, unread, room) bytes, is appended to the held bytes; a positive chunk size reads something before end of input |
| Requests.Compact | httpfromtcp/internal/request/request.go:61-64 | the buffer keeps exactly the unconsumed bytes, at its front |
| Requests.ParseAndCompact | httpfromtcp/internal/request/request.go:51-64 | a parse error is the error of parsing the bytes received so far and of Final(input); otherwise the run over the bytes received continues |
| Requests.Turn | httpfromtcp/internal/request/request.go:41-64 | the buffer overflows exactly when the held bytes plus min(perRead, unread) reach 4096, and then nothing is parsed; a parse failure is the error of the bytes received and of Final(input); otherwise the loop invariant is kept |
| Requests.ReadLoop | httpfromtcp/internal/request/request.go:40-65 | the loop ends on overflow, on Final(input)'s error, in Done, or at end of input; it overflows when the first 4096 bytes hold no CR LF, and on any 4096-byte input when one read fills the buffer |
| Requests.RequestFromReader | httpfromtcp/internal/request/request.go:30-72 | success gives exactly Final(input); a failure is overflow of a 4096-byte input, Final's parse error, or (the Go loop never ending) an input Final leaves unfinished; overflow is certain when the first 4096 bytes hold no CR LF, or when one read fills the buffer |
| Requests.ParseInChunks | httpfromtcp/internal/request/request_test.go:119-137 | for every positive chunk size and input under 4096 bytes, reading in chunks succeeds exactly when Final(input) is Done without error, and with the same request; a longer input whose first 4096 bytes hold no CR LF overflows for every chunk size |
| RequestScenarios.RunHeaderBlock | httpfromtcp/internal/request/request.go:118-134 | accepted header lines are consumed one by one, their fields combined in order |
| RequestScenarios.WellFormedRequest | httpfromtcp/internal/request/request.go:74-153 | accepted lines give a Done request with their fields and the whole body; no error exactly when Content-Length is absent or equals the body length; which error otherwise |
| RequestScenarios.ContentLengthRequest | httpfromtcp/internal/request/request.go:141-151 | with Content-Length `n`, a body of `n` bytes gives Done with every byte consumed; any other length gives BodyLengthMismatch |
| RequestScenarios.RefusedRequestLine | httpfromtcp/internal/request/request.go:104-113 | a refused request line refuses the request, whatever follows |
| TestRequests.AcceptedRequestLine | httpfromtcp/internal/requestline/requestline.go:19-49 | an allowed method and a valid space-free target with `HTTP/1.1` are accepted verbatim |
| TestRequests.AcceptedFieldLine | httpfromtcp/internal/headers/headers.go:15-37 | `name: value` with a valid name and a space-free value is accepted with the canonical name |
| TestRequests.HostLine | httpfromtcp/internal/headers/headers_test.go:11-17 | `Host: localhost:42069` is accepted as Host with that value |
| TestRequests.CurlHeaders | httpfromtcp/internal/request/request_test.go:83-98 | the Host, User-Agent and Accept lines are accepted, with names as written |
| TestRequests.CurlRequest | httpfromtcp/internal/request/request_test.go:13-31 | the GET request of the tests parses to Done with its method, target, `1.1`, the three fields and an empty body |
| TestRequests.BodyRequest | httpfromtcp/internal/request/request_test.go:100-116 | the POST request with Content-Length 13 is Done with a 13-byte body, and refused for any other length |
| TestRequests.RefusedTestLines | httpfromtcp/internal/request/request_test.go:33-59 | the tests' bad request lines refuse the request: malformed, bad method, bad version |
| TestRequests.ChunkedCurlTest | httpfromtcp/internal/request/request_test.go:61-98 | the GET request read 3 or 1 bytes at a time is Done with its request line and three fields |
| TestRequests.ChunkedBodyTest | httpfromtcp/internal/request/request_test.go:100-116 | the POST request read in chunks is Done with its two fields and its 13-byte body |
| LegacyRequests.ParseLegacyLine | learn-http-protocol-golang/httpfromtcp/internal/request/request.go:31-49 | agrees with the later request-line parser, except that a line refused only for its target is accepted |
| LegacyRequests.RequestFromReader | learn-http-protocol-golang/httpfromtcp/internal/request/request.go:20-60 | the "no request line" error never occurs |
| LegacyRequests.OnlyFirstLineMatters | learn-http-protocol-golang/httpfromtcp/internal/request/request.go:26-31 | nothing after the first CR LF changes the result |
| LegacyRequests.AnyTargetAccepted | learn-http-protocol-golang/httpfromtcp/internal/request/request.go:37-55 | any space-free target, the empty one included, is accepted verbatim |
| LegacyRequests.EmptyTargetAccepted | learn-http-protocol-golang/httpfromtcp/internal/request/request.go:37-55 | `GET  HTTP/1.1` is accepted here and refused by the later parser |
| LegacyRequests.LegacyAccepted | learn-http-protocol-golang/httpfromtcp/internal/request/request_test.go:13-47 | the tests' good requests are accepted with version `1.1`, whatever follows the first line |
| LegacyRequests.LegacyRefused | learn-http-protocol-golang/httpfromtcp/internal/request/request.go:31-49 | a line refused other than for its target refuses the request, for the same reason |
| LegacyRequests.LegacyRefusedLines | learn-http-protocol-golang/httpfromtcp/internal/request/request_test.go:33-59 | the tests' bad request lines are refused: malformed, bad method, bad version |
| LegacyRequests.EveryTargetRefusedAsWritten | learn-http-protocol-golang/httpfromtcp/internal/request/request.go:78-86 | the target check as written refuses every target |
| LegacyRequests.TargetCheckCorrected | learn-http-protocol-golang/httpfromtcp/internal/request/request.go:78-86 | the check with `&&` refuses exactly the targets the later parser's `validateRequestTarget` refuses: `/` and `http://localhost` pass, the empty target and `coffee` do not |

## Left out

- Sockets, the TCP and HTTP listeners, the UDP sender, the line channel of the earlier snapshot
  and the server (`cmd/*`, `main.go`, `internal/server/server.go`) are not part of this model.
- Error messages are modelled as constructors of `ParseError`, `HeaderError`,
  `RequestLineError` and `LegacyError`, without their `fmt` text.
- The field-name regular expression is modelled as a character-class predicate over the same
  characters. White space and case mapping are ASCII only.
- A read error other than end of input (`request.go:57-59`) cannot come from the chunk reader,
  so that branch is not modelled. The earlier parser's `io.ReadAll` error is not modelled either.
- Requests.RequestFromReader: Go loops forever on an input that ends short of Done. The model
  takes a `fuel` bound and reports `OutOfFuel` when it runs out. It proves that, with a positive
  chunk size and fuel above the input length, `OutOfFuel` happens only for inputs that
  `Final` leaves unfinished.
- The "incomplete request" return at `request.go:67-69` cannot be reached, because the loop
  exits only in Done. It is not modelled.
- `Headers.Get` is called at `request.go:141` but not defined in the shown sources. It is
  modelled as a lookup of the exact key.
- `parseLine` and `ParseLine` are modelled as one method, `Headers.ParseLine`.
- Go's panic in `convertFieldNameToConanocalForm` on an empty `-` segment is modelled as the
  error `EmptyNameSegment`, and the map is left unchanged.
- The model follows the code, which departs from common HTTP handling in these ways:
  - the body phase is entered after the empty line even without `Content-Length`;
  - the body completes only at end of input;
  - a body longer than `Content-Length` is refused only at end of input;
  - a non-numeric `Content-Length` fails with its own error, `BadContentLength`.
- Requests.ParseInChunks: for an input of 4096 bytes or more, whether the buffer overflows
  can depend on the chunk size. Two 4000-byte header lines overflow when one read fills the
  buffer, but not when one byte is read at a time. The model states the exact condition for
  one turn (`Requests.Turn`) and two conditions on the input that make overflow certain. It
  gives no closed form over the input and the chunk size.
- LegacyRequests.LegacyAccepted: the earlier snapshot's tests expect version `HTTP/1.1`, but its
  code stores `1.1`. The model follows the code.

## Findings

| source | as written | input that shows it | evidently intended | confidence | as-written member | corrected member |
|---|---|---|---|---|---|---|
| learn-http-protocol-golang/httpfromtcp/internal/request/request.go:82 | the three prefix tests are joined with a logical or of negations, so a target must start with `/`, `http://` and `https://` at once | `/coffee` is refused | `&&`, as in `requestline.go:71`: refuse only a target with none of the prefixes | not executed; the function is also never called | LegacyRequests.EveryTargetRefusedAsWritten | LegacyRequests.TargetCheckCorrected |
| httpfromtcp/internal/headers/headers.go:54 | `part[:1]` on an empty segment of a name that passed the token check | the header line `X-: 1` (also `-X`, `a--b`) makes the parser panic | refuse the line with an error | not executed | HeaderFields.ValidNameCanPanic | HeaderFields.ParseFieldLinePanic |
