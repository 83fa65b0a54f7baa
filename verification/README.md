# Verification of ferro

A Dafny model of the server's core with machine-checked proofs. It covers the
HTTP/1.1 byte-stream engine from the socket to the client's reader, the calendar
and the HTTP dates on top of it, conditional and range requests, the JSON parser
and the configuration file, the rate limiter, and CRC-32.

`dafny verify dfyconfig.toml` checks all of it.

## How the model is laid out

Where the source loops or updates an object, the model has a method or a class
with the same branches, constants and errors, proved equal to a function; the
theorems are about that function. Bytes are Dafny characters (`Bytes.dfy`), so
that literals can be written as text. Every statement ranges over all sequences of
them. A string of the source is the sequence of its UTF-8 bytes.

- `Bytes`, `Ascii`, `Numerals`, `Utf8`: searching, splitting, trimming, numerals,
  the well-formedness of UTF-8 and Unicode whitespace.
- `UnicodeSpaces`: whitespace by scalar value, and what trimming takes off.
- `Http`, `Chunked`, `ChunkedCodec`, `RequestParser`, `RequestPrinter`: the
  incremental parser, and printed requests as its inverse.
- `HeaderRules`, `RequestRules`: the grammar of a request and the meaning of its framing,
  host, connection and expectation fields, stated without the parser's functions.
- `Verdicts`, `Stability`, `Segmentation`: what a buffer is answered with, when more
  bytes can change that, and what the cuts of a stream can change.
- `ShortLines`, `Witnesses`: limits within which nothing can change, and requests that
  show what does change beyond them.
- `Connections`, `Draining`, `Announcements`: the connection object, its drain loop, and
  what it adds to every response.
- `Responses`, `ResponseReader`: the serializer, and a reader that undoes it.
- `Reactor`, `ReactorRuns`, `EndToEnd`: the plaintext reactor over a socket that may
  do anything a non-blocking socket may do, and whole runs of it.
- `Calendar`, `HttpDate`, `Conditional`, `RangeRules`: dates, revalidation, and every
  form of a range request with its answer.
- `StaticPaths`: from a request path to the asset that answers it.
- `RateLimiter`, `RateQuota`, `RateDecisions`: the bounded limiter against one that never
  evicts, and each of its decisions from the times of a peer's own requests.
- `Json`, `JsonParser`: the JSON parser.
- `JsonStrings`, `JsonNumerals`, `JsonText`, `JsonGrammar`, `JsonUnicode`: everything
  that a string, a number or a document may look like, and the parser as the reading of
  exactly that.
- `Doubles`: what a number keeps on its way through a double.
- `Configuration`, `ConfigText`, `ConfigRoundTrip`, `LoadedConfig`, `ConfigRules`: reading
  and writing the configuration, and which value loads as which configuration.
- `Crc32`: the checksum.
- `Widths`: where the 64-bit additions of the source and the unbounded ones of the
  model are the same.

## Where a promise holds only in part

Four natural promises are not true of the code as it stands. Each is stated with
the exact condition under which it holds, and with an input that fails it.

- The answer to a stream depends on its segmentation when a head ends in the three
  bytes below the head limit (an unterminated head is judged by the buffer's length,
  a terminated one by the terminator's index; request.rs:174, 180), when a chunk or
  trailer line of 8 KiB or more is terminated (it is refused if it is seen before
  its line feed; request.rs:505, 528), or when an unsupported expectation comes with
  a body (417 if the body is late; conn.rs:136-147). `Segmentation.SegmentationIndependence`,
  `Draining.FinalsIndependentOfSegments` and `Verdicts.SettledIsExact` are
  equivalences with the predicate that excludes exactly these.
  `Witnesses.HeadWindow`, `Witnesses.LongSizeLine` and `Witnesses.ExpectationRaces` give
  a family of streams for each, and `WindowExists`, `LongLineExists` and `RaceExists` one
  request each. `ShortLines.ModestStreamsAreIndependent` and
  `EndToEnd.CalmPipelineIsServed` are corollaries under limits that can be checked
  beforehand.
- Not every refusal of the parser is its last word. `Stability.FinalIsExact` says, from
  the buffer alone, when a verdict is the verdict on every extension.
  `Stability.VerdictChanges` says that any other is one of two refusals and that some
  extension changes it: a head over the limit that ends in part of its blank line
  (`Witnesses.WindowExists`), and an unterminated chunk or trailer line over its limit that
  can still be terminated well (`Witnesses.LongLineExists`).
- The documentation of `to_json_string` says that parsing its output yields an equal
  configuration (config.rs:211-215). That fails for integers that a double cannot
  hold, such as 2^53 + 1 (`ConfigRoundTrip.LargeSettingIsLost`), and for invalid
  configurations. `ConfigRoundTrip.SavedLoads` is the equivalence. Configurations
  that came from a file are never affected (`LoadedConfig.LoadedIsStable`).
- Eviction shows when the limiter fails open (security.rs:61), and only then:
  `RateLimiting.VisibleExactlyByFailing` says so run by run, and
  `RateLimiting.InvisibleExactlyIfNoneFails` over all continuations of a state. As many
  peers as the table holds and one more reach that state
  (`RateLimiting.FailingOpenIsReachable`); no more peers than the table holds never do
  (`RateLimiting.EvictionIsInvisibleToFew`).

## Model

| member | source | states |
|---|---|---|
| `Bytes.FindFromFirst` | crates/core/src/http/request.rs:586-593 | nothing matches before the position that the search reports, and nothing matches at all if it reports none |
| `Bytes.SplitLines` | crates/core/src/http/request.rs:596-612 | splitting a block at CRLF gives CRLF-free lines that join back to the block |
| `Bytes.SplitJoin` | crates/core/src/http/request.rs:596-612 | joining CRLF-free lines and splitting the result gives those lines |
| `Bytes.FirstBlank` | crates/core/src/http/request.rs:171-180 | where non-empty lines end in a blank line, that blank line is the first one in the buffer |
| `Ascii.TrimOws` | crates/core/src/http/request.rs:277-293 | the two loops strip spaces and tabs from both ends, as the recursive trim does |
| `Ascii.TrimSplits` | crates/core/src/http/request.rs:277-293 | trimming removes only spaces and tabs, and leaves none at either end |
| `Ascii.EqIgnoreCaseIs` | crates/core/src/http/request.rs:97-105 | two texts are equal but for case if and only if each byte is the same or the same ASCII letter in the other case |
| `Numerals.AsciiToU32Saturating` | crates/core/src/http/request.rs:364-372 | the accumulating loop computes the decimal value, capped at the largest 32-bit number |
| `Numerals.ParsesExactlyU64` | crates/core/src/http/request.rs:480-482 | a text parses as an unsigned 64-bit number if and only if it is that number in decimal, with any leading zeros and perhaps a plus, and fits |
| `Numerals.ParsesExactlyI64` | crates/core/src/http/date.rs:44-47 | the same for a signed number, with a minus in front of the magnitude |
| `Numerals.HexDigitsAre` | crates/core/src/http/request.rs:560-579 | the hexadecimal digits of either case, in their order |
| `UnicodeSpaces.TrimSpaced` | crates/core/src/http/request.rs:447-487 | whitespace of any kind around text that starts and ends visibly is what `trim` removes; the whitespace is given by its scalar values |
| `UnicodeSpaces.TrimSplits` | crates/core/src/http/request.rs:447-487 | a text is its trimmed core between whitespace characters, nothing else is taken off |
| `Chunked.ParseHex` | crates/core/src/http/request.rs:560-579 | the loop accepts exactly the non-empty hexadecimal strings whose value fits 64 bits, and returns that value |
| `Chunked.FindLine` | crates/core/src/http/request.rs:499-509 | searching the rest of the buffer gives the first CRLF at or after the cursor |
| `Chunked.DecodeChunked` | crates/core/src/http/request.rs:497-557 | the nested loops compute the decoder function, errors and their order included |
| `Chunked.ReadTrailers` | crates/core/src/http/request.rs:521-542 | the trailer loop ends at the first blank line, waits, or refuses an over-long open line |
| `ChunkedCodec.DecodeOfText` | crates/core/src/http/request.rs:495-557 | every encoding of section 7.1 of RFC 9112 (any chunking, size digits, extensions, trailers and following bytes) decodes to its body and its length; only the body limit can refuse it |
| `ChunkedCodec.DecodedParses` | crates/core/src/http/request.rs:495-557 | from any position, what decodes is the text of some encoding of what was returned |
| `ChunkedCodec.DecodesExactlyEncodings` | crates/core/src/http/request.rs:495-557 | the decoder completes with a body and a length if and only if that prefix is an encoding of that body and the body is within the limit |
| `ChunkedCodec.DecodedIsStable` | crates/core/src/http/request.rs:495-557 | a decoded body stays decoded whatever follows its encoding |
| `RequestParser.ParseWith` | crates/core/src/http/request.rs:170-237 | the incremental parser computes the verdict function, every error in the source's order |
| `RequestParser.ParseHeaders` | crates/core/src/http/request.rs:196-207 | the header loop computes the fields, stopping at the first error |
| `RequestParser.ParseHeaderLine` | crates/core/src/http/request.rs:406-437 | one header line, with its error cases |
| `RequestParser.SplitLinesOf` | crates/core/src/http/request.rs:596-612 | the line iterator, run to its end, yields the split of the block |
| `RequestParser.FindExpectation` | crates/core/src/http/request.rs:253-275 | the scan of raw lines finds what the first Expect field asks for |
| `RequestPrinter.MethodReads` | crates/core/src/http/method.rs:22-54 | every method token reads back as its method and holds neither space nor CR |
| `RequestPrinter.LineReads` | crates/core/src/http/request.rs:295-329 | a printed request line parses to its method, target and version |
| `RequestPrinter.FieldReads` | crates/core/src/http/request.rs:406-437 | a header line with any optional whitespace around its value parses to its field |
| `RequestPrinter.HeadReads` | crates/core/src/http/request.rs:171-212 | the head of a well-formed request is found at its blank line and parses to it, whatever follows |
| `RequestPrinter.RequestReads` | crates/core/src/http/request.rs:170-237 | round trip: a well-formed request, printed with any optional whitespace and any chunking and followed by any bytes, parses to itself and consumes exactly its text |
| `RequestPrinter.ParsedIsWellFormed` | crates/core/src/http/request.rs:170-237 | every request the parser returns is well formed and prints within the head limit |
| `RequestPrinter.ParsesExactlyWellFormed` | crates/core/src/http/request.rs:170-237 | a request is the result of some parse if and only if it is well formed and its tightest head is within the limit |
| `HeaderRules.FramingIs` | crates/core/src/http/request.rs:447-487 | how a body is framed, case by case and for every header list: both fields conflict; one transfer-encoding that is chunked in any case; any other coding; neither field; one content-length of zeros and a decimal numeral between whitespace, up to 64 bits or beyond; any other content-length |
| `HeaderRules.BadLengths` | crates/core/src/http/request.rs:471-482 | two content-lengths, a blank one, and one with a visible byte that is no digit are refused |
| `HeaderRules.HostIs` | crates/core/src/http/request.rs:384-404 | a head passes if it has exactly one host field of visible bytes, or none under HTTP/1.0; otherwise it is BadHost |
| `HeaderRules.KeepAliveIs` | crates/core/src/http/request.rs:97-105 | a request keeps its connection exactly if its first connection field is keep-alive, or it is HTTP/1.1 and that field is not close |
| `HeaderRules.PersistsByCase` | crates/core/src/http/request.rs:97-105 | the cases of that: no field, close, keep-alive in any case, anything else |
| `RequestRules.VersionIs` | crates/core/src/http/request.rs:336-360 | of a version of two decimal numbers only major 1 is supported; minor 0 is HTTP/1.0 and any other HTTP/1.1 |
| `RequestRules.VersionShape` | crates/core/src/http/request.rs:336-350 | a version token is malformed if and only if it is not two such numbers |
| `RequestRules.LineIs` | crates/core/src/http/request.rs:295-329 | the verdict on a request line of three parts: the method, the length of the target, its text, the version |
| `RequestRules.LineShape` | crates/core/src/http/request.rs:295-307 | a request line that is not three parts one space apart is malformed |
| `RequestRules.TokenBytes` | crates/core/src/http/request.rs:581-583 | token bytes are the visible ASCII bytes without the delimiters |
| `RequestRules.FieldExactly` | crates/core/src/http/request.rs:406-437 | a line reads as a field if and only if it is its name, a colon and its value between optional whitespace |
| `RequestRules.HeadersAre` | crates/core/src/http/request.rs:196-206 | the fields of a head, or the error of its first bad line: the 65th is too many, an earlier one is malformed |
| `RequestRules.HeadIs` | crates/core/src/http/request.rs:184-210 | the checks of a head in their order, the first failure deciding |
| `RequestRules.WellFormedIs` | crates/core/src/http/request.rs:170-237 | the requests that can be sent and received, from their parts and fields alone |
| `RequestRules.LengthRequestReads` | crates/core/src/http/request.rs:208-220 | round trip with the length spelled out: a request whose fields announce its length, in any spelling, parses to itself and ends there, and waits while its last bytes are missing |
| `RequestRules.SpelledLengthReads` | crates/core/src/http/request.rs:208-220 | the same with `Content-Length:` and the decimal length behind any other fields |
| `RequestRules.LongLengthIsRefused` | crates/core/src/http/request.rs:211-214 | a length beyond the body limit is BodyTooLarge as soon as the head is there, and one beyond 64 bits is no length |
| `RequestRules.PrintedRequestIsAnswered` | crates/core/src/conn.rs:150-165 | a printed request at the front of the buffer is answered, leaves what follows it, and closes the connection exactly if its fields and version say so |
| `RequestRules.ExpectationIs` | crates/core/src/http/request.rs:253-274 | the first expect field decides: 100-continue in any case, or unsupported |
| `Stability.VerdictExtends` | crates/core/src/http/request.rs:170-237 | a final verdict, a request with its consumed length or a refusal, is the verdict on every extension of the buffer |
| `Stability.VerdictChanges` | crates/core/src/http/request.rs:174-182 | any other verdict is the refusal of a long unterminated head or of an over-long chunk or trailer line, and some extension changes it |
| `Stability.FinalIsExact` | crates/core/src/http/request.rs:170-237 | a verdict is the same on every extension if and only if the buffer is final: an unterminated head does not end in a front of a blank line at an index within the limit, and a chunked body does not stop at an over-long line that more bytes can make a size line or close as a trailer |
| `Stability.HeaderLinesAreNotEmpty` | crates/core/src/http/request.rs:197-201 | the header loop's test for an empty line never succeeds, because the terminator found is the first |
| `Verdicts.DecodeOfPrefix` | crates/core/src/http/request.rs:502-530 | a prefix of a chunked body is unfinished, or decodes like the whole, or is refused at a line that is later terminated |
| `Verdicts.LongLineCut` | crates/core/src/http/request.rs:505-530 | where such a long line is, some prefix is refused |
| `Verdicts.SettledPrefix` | crates/core/src/http/request.rs:170-237 | on a settled buffer every prefix waits or already has the final answer |
| `Verdicts.UnsettledPrefix` | crates/core/src/http/request.rs:170-237 | on any other buffer some prefix is refused and the whole is answered differently |
| `Verdicts.SettledIsExact` | crates/core/src/http/request.rs:174-180 | the prefixes of a buffer never contradict its answer if and only if it is settled: outside the three-byte window of the head limit, without an over-long framing line, without an unsupported expectation racing a body |
| `Segmentation.ReplyIsStable` | crates/core/src/http/request.rs:170-237 | a complete request parses the same from any prefix that holds it |
| `Segmentation.AnswersInTwoParts` | crates/core/src/conn.rs:117-181 | answering a first part and then the rest of a settled stream is answering the whole |
| `Segmentation.SegmentationIndependence` | crates/core/src/conn.rs:104-181 | all ways of cutting a stream draw the answers of the uncut stream if and only if the stream is settled |
| `ShortLines.ShortEncoding` | crates/core/src/http/request.rs:502-542 | the decoder meets no over-long line in a chunked body whose size lines and trailer lines are short, whatever follows |
| `ShortLines.ModestStreamIsSettled` | crates/core/src/http/request.rs:170-237 | a stream whose heads end clear of their limit, whose framing lines are short and which asks for nothing unsupported is settled |
| `ShortLines.ModestStreamsAreIndependent` | crates/core/src/conn.rs:104-181 | over whole runs, such a stream draws the same final responses however it is cut |
| `Witnesses.EarlyRefusalIsUnsettled` | crates/core/src/conn.rs:117-181 | a prefix refused although the whole is answered otherwise makes some cut of the stream draw other answers than the stream |
| `Witnesses.HeadWindow` | crates/core/src/http/request.rs:171-182 | every request whose head ends in the last three bytes below the limit is refused with 431 when its blank line comes late, answered when it does not, and its stream is not settled |
| `Witnesses.LongSizeLine` | crates/core/src/http/request.rs:505-519 | every chunked request with a size line over the limit is refused before the line ends and complete after, and its stream is not settled |
| `Witnesses.ExpectationRaces` | crates/core/src/conn.rs:136-147 | every request with a body and an unsupported expectation is refused with 417 while the body is missing and answered when it is there |
| `Witnesses.WindowExists` | crates/core/src/http/request.rs:171-182 | one request of the first kind: HeadTooLarge turns into a complete request |
| `Witnesses.LongLineExists` | crates/core/src/http/request.rs:505-519 | one of the second kind: MalformedChunk turns into a complete request |
| `Witnesses.RaceExists` | crates/core/src/conn.rs:136-147 | one of the third kind: 417 or an answer, by when the body arrives |
| `Connections.Connection.constructor` | crates/core/src/conn.rs:65-105 | a new connection has an empty buffer and owes no interim response |
| `Connections.Connection.Feed` | crates/core/src/conn.rs:108-110 | feeding appends to the buffer and changes nothing else |
| `Connections.Connection.Step` | crates/core/src/conn.rs:117-181 | a step consumes one request, or sends one interim or closing response, or waits; the new state and the bytes written are those of the transition function, and the step closes exactly after a refusal or after a request that its fields and version do not keep |
| `Announcements.ConnectionIsSent` | crates/core/src/conn.rs:186-204 | the Connection field that reaches the wire last says whether the connection is kept, whatever the handler added |
| `Announcements.DateIsSent` | crates/core/src/conn.rs:192-199 | with a clock, the Date field that reaches the wire last reads back as the time of the answer; without one the server adds none |
| `Announcements.ClosingIsAnnounced` | crates/core/src/conn.rs:117-181 | every final answer announces close exactly when the connection closes after it |
| `Announcements.FinalizedIsSent` | crates/core/src/conn.rs:186-212 | the fields of a finalized response on the wire, all of them and in order: the handler's, Connection, the date if there is a clock, the three security fields if they are wanted, the length where a body may follow |
| `Announcements.RefusalIsSent` | crates/core/src/conn.rs:166-230 | a buffer that does not parse is answered with the status of its error (431, 414, 413, 501, 505 or 400), its status line and reason as plain text, and close |
| `Announcements.UnmetExpectationIsSent` | crates/core/src/conn.rs:136-147 | an unsupported expectation ahead of a missing body is answered with 417, its text and close |
| `Announcements.InterimIs` | crates/core/src/conn.rs:129-135 | the interim response, every byte of it |
| `Announcements.OwnStatusLine` | crates/core/src/http/status.rs:44-71 | the status lines of the answers that the server itself makes: 100, 200, 206, 304 and 416 |
| `Draining.AdvanceDecreases` | crates/core/src/conn.rs:117-181 | twice the buffer length, plus one while no 100 was sent, strictly decreases on every write that does not close |
| `Draining.DrainAnswers` | crates/core/src/conn.rs:117-181 | with interim responses deleted, draining a connection gives the answers to its buffer, closes when they do and keeps the same rest |
| `Draining.FinalsIndependentOfSegments` | crates/core/src/conn.rs:104-181 | over whole runs of the connection, the final responses and the close do not depend on the segmentation if and only if the stream is settled |
| `Draining.ExpectationAgrees` | crates/core/src/http/request.rs:253-275 | on every head that parses, the raw-line scanner and the parsed fields agree on the expectation |
| `Draining.RunIsPaced` | crates/core/src/conn.rs:123-147 | in every run each interim 100 stands alone before a final answer |
| `Draining.InterimsAreAskedFor` | crates/core/src/conn.rs:123-147 | between two final responses there is at most one 100, and a request that it precedes asked for it |
| `Draining.InterimIsAskedFor` | crates/core/src/conn.rs:128-135 | a 100 is written if and only if the buffer holds a head that parses and asks for 100-continue, its body is incomplete, and none was written for it |
| `Draining.EveryInterimIsAskedFor` | crates/core/src/conn.rs:117-181 | that holds of every 100 of every run, whether a response or a refusal follows it |
| `Responses.Serialize` | crates/core/src/http/response.rs:58-97 | the appending loops produce the status line, the surviving fields, one Content-Length where a body is allowed, the blank line and the body |
| `ResponseReader.SurvivingAreSent` | crates/core/src/http/response.rs:67-80 | the fields that reach the wire, in order, are exactly the caller's but for Content-Length and those with a CR, LF or NUL |
| `ResponseReader.OneContentLength` | crates/core/src/http/response.rs:82-89 | there is exactly one Content-Length and it is the body's length, except that there is none with a status from 100 to 199, 204 or 304 |
| `ResponseReader.BodyIsSent` | crates/core/src/http/response.rs:91-96 | no byte follows the head for HEAD and with those statuses; otherwise the body does |
| `ResponseReader.StatusLineReads` | crates/core/src/http/status.rs:44-71 | a three-digit status line reads back its code, whatever reason phrase it carries |
| `ResponseReader.ResponseReads` | crates/core/src/http/response.rs:58-97 | a serialized response reads back its status, surviving fields and body wherever it stands in a stream |
| `ResponseReader.StreamReads` | crates/core/src/http/response.rs:58-106 | from the concatenation of any responses, HEAD and body-less ones included, a reader recovers all of them in order |
| `Reactor.Conn.constructor` | crates/std-server/src/transport_mio.rs:65-92 | a new reactor connection has nothing queued and is not closing |
| `Reactor.Conn.HandleReady` | crates/std-server/src/transport_mio.rs:355-387 | one readiness event: the new state is that of the event function, and the connection is dropped exactly when the event function says so |
| `Reactor.Conn.FlushOut` | crates/std-server/src/transport_mio.rs:383-386 | the second half of an event writes and re-arms as the flush function does |
| `Reactor.Conn.PlainReadIn` | crates/std-server/src/transport_mio.rs:391-403 | every byte read is fed in order, up to a block, a close or an error |
| `Reactor.Conn.DrainInto` | crates/std-server/src/transport_mio.rs:364-376 | the inner loop queues exactly the bytes of a drain, in order, and marks the connection as closing when a response closes |
| `Reactor.Conn.PlainWriteOut` | crates/std-server/src/transport_mio.rs:407-420 | under any partial writes, what was sent and what stays queued are the queue, in order |
| `Reactor.Conn.UpdateInterest` | crates/std-server/src/transport_mio.rs:486-508 | interest in writability is on exactly when bytes are queued; the connection is done exactly when it is closing and nothing is queued |
| `ReactorRuns.HandleConserves` | crates/std-server/src/transport_mio.rs:355-387 | one event conserves bytes: sent plus queued grows by exactly what the state machine wrote |
| `ReactorRuns.BytesConserved` | crates/std-server/src/transport_mio.rs:355-420 | over every run, under any reads and partial writes, sent plus queued is the in-order concatenation of everything written; a flushed drop leaves nothing queued; a kept connection waits to write exactly when bytes are queued |
| `ReactorRuns.NothingAfterClose` | crates/std-server/src/transport_mio.rs:356-376 | after a closing response nothing is ever queued again |
| `EndToEnd.PipelineAnswers` | crates/core/src/conn.rs:117-181 | a pipeline of well-formed requests is answered request by request |
| `EndToEnd.CalmPipelineIsSettled` | crates/core/src/conn.rs:117-181 | a pipeline whose heads are clear of the limit, whose chunked bodies have short framing lines, and which asks for nothing unsupported ahead of a body is a settled stream |
| `EndToEnd.EventsRead` | crates/core/src/http/response.rs:58-97 | a client's reader, skipping interim responses, reads the final responses out of what a run wrote |
| `EndToEnd.ReactorServes` | crates/std-server/src/transport_mio.rs:355-420 | for a settled stream, whatever the reads and writes were, the client reads the answers of the uncut stream |
| `EndToEnd.PipelineIsServed` | crates/std-server/src/transport_mio.rs:355-420 | a client that pipelines any well-formed requests, with bodies of either framing, in a settled stream reads exactly the service's finalized responses, in order, whatever the segmentation, the read sizes and the partial writes |
| `EndToEnd.CalmPipelineIsServed` | crates/std-server/src/transport_mio.rs:355-420 | the same for every pipeline of calm requests, chunked ones included |
| `EndToEnd.WholeStreamArrives` | crates/std-server/src/transport_mio.rs:355-420 | every stream can be read and answered in full, so the two results above always apply to some run |
| `Calendar.CivilFollowsCalendar` | crates/core/src/http/date.rs:80-92 | the closed form is the Gregorian calendar: day 0 is 1970-01-01, every result is a valid date, and the next day count is the next calendar day, for every integer |
| `Calendar.CivilOfDays` | crates/core/src/http/date.rs:65-92 | reading the day count of a valid date gives the date, for all years |
| `Calendar.DaysOfCivil` | crates/core/src/http/date.rs:65-92 | the day count of the date read from a count is that count, for all counts |
| `Calendar.NextDayCounts` | crates/core/src/http/date.rs:67-76 | the next calendar day counts one more, across month, year, century and era ends |
| `Calendar.CivilRanges` | crates/core/src/http/date.rs:80-92 | the ranges noted beside the intermediate values hold |
| `HttpDate.DateReads` | crates/core/src/http/date.rs:13-63 | round trip: the printed date of every 64-bit second count parses back to it, years of more than four digits included |
| `HttpDate.WeekdayAdvances` | crates/core/src/http/date.rs:13-20 | day 0 is a Thursday and the weekday advances by one each day |
| `HttpDate.DateIsSpelled` | crates/core/src/http/date.rs:13-34 | the printed date: the names of its weekday and month, and its numbers with leading zeros |
| `HttpDate.ExampleDate` | crates/core/src/http/date.rs:13-63 | the example of section 5.6.7 of RFC 9110 is printed as it stands there, and read back |
| `HttpDate.ParsesExactlyDates` | crates/core/src/http/date.rs:40-63 | a text is read as a time if and only if it is a date of that form not before the epoch: any first word, a day up to 31, a month name, a year, a time of day in its ranges, GMT |
| `RateLimiting.RateLimiter.constructor` | crates/core/src/security.rs:38-44 | a new limiter has an empty table |
| `RateLimiting.RateLimiter.CheckPeer` | crates/core/src/security.rs:48-72 | the decision and the new table are those of the transition function, and the table stays within its bound |
| `RateLimiting.RateLimiter.EvictExpired` | crates/core/src/security.rs:98-114 | exactly the stale entries are removed, at most once a second |
| `RateDecisions.EvictionKeeps` | crates/core/src/security.rs:98-114 | an eviction keeps exactly the entries of a ban or a window that is not over |
| `RateLimiting.TableIsBounded` | crates/core/src/security.rs:9-72 | in every run the table never exceeds its bound |
| `RateLimiting.StepRepresents` | crates/core/src/security.rs:48-96 | one step of the bounded limiter simulates one step of the limiter that never evicts |
| `RateLimiting.EvictionIsInvisible` | crates/core/src/security.rs:48-114 | with a non-decreasing clock and no fail-open step, the bounded limiter decides as one that tracks every peer for ever |
| `RateLimiting.FailingOpenIsVisible` | crates/core/src/security.rs:56-63 | wherever the limiter fails open, repeating the request tells it apart from one that never evicts, for every configuration that can deny at all |
| `RateLimiting.NobodyIsDenied` | crates/core/src/security.rs:74-96 | under the other configurations, a window of zero seconds with some requests allowed, neither limiter ever denies |
| `RateLimiting.VisibleExactlyByFailing` | crates/core/src/security.rs:48-96 | a chronological run never fails open if and only if no front of it, with its last request repeated any number of times, is decided otherwise than without eviction |
| `RateLimiting.InvisibleExactlyIfNoneFails` | crates/core/src/security.rs:48-114 | no chronological continuation of a state is decided otherwise than without eviction if and only if none fails open |
| `RateLimiting.FailingOpenIsReachable` | crates/core/src/security.rs:56-63 | from a new limiter, as many different peers as the table holds, all at one time, make the next peer fail open, whatever the limits are |
| `RateLimiting.FewPeersNeverFailOpen` | crates/core/src/security.rs:56-63 | with no more different peers than the table holds no request fails open |
| `RateLimiting.EvictionIsInvisibleToFew` | crates/core/src/security.rs:48-114 | every chronological run of so few peers is decided as without eviction |
| `RateQuota.RecordUsesAllowance` | crates/core/src/security.rs:74-96 | each Allow uses up one unit of what the peer can still be granted in an interval |
| `RateQuota.AllowsWithinAllowance` | crates/core/src/security.rs:74-96 | over a run, the grants of an interval stay within the allowance at its start |
| `RateQuota.RateIsBounded` | crates/core/src/security.rs:74-96 | any interval of L seconds grants a peer at most (L / min(window, ban) + 2) * requests, although expired bans restart windows early |
| `RateDecisions.DecisionsAreTheRule` | crates/core/src/security.rs:48-96 | in every chronological run of a new limiter in which no request fails open, the decisions on a peer's requests are given by their times alone: each window grants its first requests, the next one starts a ban, those of the ban wait for its end, the one after starts anew |
| `RateDecisions.FirstWindow` | crates/core/src/security.rs:83-95 | within a window the first `requests` hits are allowed, the next is denied for the length of a ban, and every further one of the ban for what is left of it, without moving its end |
| `RateDecisions.NewWindow` | crates/core/src/security.rs:83-87 | the first hit after a window starts a new count |
| `RateDecisions.NewCountAfterBan` | crates/core/src/security.rs:83-87 | so does the first hit after a ban |
| `RateDecisions.DisabledAllows` | crates/core/src/security.rs:48-51 | switched off, the limiter allows everything |
| `Crc32.Checksum` | crates/core/src/compress.rs:22-32 | the byte loop computes the checksum function |
| `Crc32.FeedByte` | crates/core/src/compress.rs:25-29 | the bit loop is eight register shifts of the xored register |
| `Crc32.StepInjective` | crates/core/src/compress.rs:26-29 | a register shift loses nothing |
| `Crc32.StepLinear` | crates/core/src/compress.rs:26-29 | a register shift is linear over xor |
| `Crc32.RegisterIsWordSteps` | crates/core/src/compress.rs:24-30 | up to four byte steps are one xor with their little-endian word and eight shifts a byte |
| `Crc32.BurstsAreSeparated` | crates/core/src/compress.rs:22-32 | two different inputs of one length that agree outside four consecutive bytes never have the same CRC-32 |
| `Crc32.CheckValue` | crates/core/src/compress.rs:22-32 | the checksum of the digits 1 to 9 is CBF43926 |
| `Widths.CheckedIsExact` | crates/core/src/http/request.rs:544-545 | decoding with checked 64-bit additions is the decoding of the model, except in buffers where the decoder comes to a size line whose data and line end would lie beyond 2^64 - 1 |
| `Widths.OverflowIsUnfinished` | crates/core/src/http/request.rs:544-546 | there the model waits: every body and every refusal of the model is free of overflow |
| `Widths.YearRangeIsExact` | crates/core/src/http/date.rs:67-75 | the years all of whose dates are counted without overflow are exactly those from -25252734927764584 to 25252734927766553 |
| `Widths.SecondsRange` | crates/core/src/http/date.rs:58-62 | the second counts of all dates up to the year 584554051222 fit 64 bits, and those of no date from two years later on |
| `Widths.SecondsRangeIsExact` | crates/core/src/http/date.rs:58-62 | the years all of whose second counts fit 64 bits are exactly those up to 584554051222 |
| `Widths.PrintedDatesFit` | crates/core/src/http/date.rs:13-92 | for every 64-bit second count, the printed date is counted back to it without overflow |
| `Widths.RunFits` | crates/core/src/security.rs:74-96 | in a run of fewer than 2^64 requests, at times that leave room for a ban, neither the count nor the end of a ban overflows |
| `Widths.LateBanOverflows` | crates/core/src/security.rs:87-90 | a denied request at any later time overflows: the bound on the time is exact |
| `Conditional.Evaluate` | crates/core/src/http/conditional.rs:19-27 | precondition first, then range; computes the evaluated response |
| `Conditional.CopyFields` | crates/core/src/http/conditional.rs:56-64 | the copying loops carry over the named fields that are present, in order |
| `Conditional.StatusTells` | crates/core/src/http/conditional.rs:19-47 | a 200 response becomes a 304 exactly when it is not modified; ranges never give 304 |
| `Conditional.FileFields` | crates/core/src/handler/static_files.rs:71-87 | a served file carries its date and its tag |
| `Conditional.RevalidationByDate` | crates/core/src/http/conditional.rs:31-47 | without If-None-Match, If-Modified-Since of time a against modification time b gives 304 if and only if b <= a, for all 64-bit a and b |
| `StaticPaths.PercentDecode` | crates/core/src/handler/static_files.rs:118-137 | the loop computes the decoded text, refusing malformed escapes and what is not UTF-8 |
| `StaticPaths.DecodesExactlySpellings` | crates/core/src/handler/static_files.rs:118-147 | a path decodes to a text if and only if the text is UTF-8 and the path spells it byte by byte, plain or escaped, in either case |
| `StaticPaths.Sanitize` | crates/core/src/handler/static_files.rs:100-115 | the loop collects the segments that are kept, or refuses |
| `StaticPaths.SanitizedIsSafe` | crates/core/src/handler/static_files.rs:100-115 | a path is refused if and only if a segment is `..` or holds a control byte or a backslash; otherwise what is left are its segments but for the empty ones and `.`, in order |
| `StaticPaths.SanitizingIsIdempotent` | crates/core/src/handler/static_files.rs:100-115 | joining the kept segments and sanitizing again changes nothing |
| `StaticPaths.CandidateParts` | crates/core/src/handler/static_files.rs:44-66 | a path for a directory, the root or one that ends in a slash, has one candidate for each index file, of its segments and then those of the file; any other path has one, of its segments |
| `StaticPaths.NoCandidates` | crates/core/src/handler/static_files.rs:44-46 | there is no candidate if and only if the path does not decode or a segment climbs |
| `StaticPaths.CandidatesStayInside` | crates/core/src/handler/static_files.rs:44-66 | with index files of safe segments, every segment of every candidate of every request path is safe: none climbs out of the root |
| `StaticPaths.ServeStatic` | crates/core/src/handler/static_files.rs:24-38 | the first candidate that has an asset answers, and nothing answers if and only if none has |
| `StaticPaths.StaticExists` | crates/core/src/handler/static_files.rs:92-97 | a path exists if and only if some candidate is present, so it agrees with serving |
| `Conditional.EtagInjective` | crates/core/src/handler/static_files.rs:85-87 | a tag determines the file's length and modification time |
| `RangeRules.TagIs` | crates/core/src/handler/static_files.rs:85-87 | a tag as it is written: the length and the time in hexadecimal, a hyphen between |
| `Conditional.NotModifiedFields` | crates/core/src/http/conditional.rs:56-64 | a 304 has no body and, for every name, exactly the original's tag, date, cache control and vary fields |
| `Conditional.RevalidationByTag` | crates/core/src/http/conditional.rs:31-53 | a list of tags, weak or strong and however spaced, gives 304 if and only if one of them is of the file's length and modification time |
| `Conditional.ParseSingleRange` | crates/core/src/http/conditional.rs:103-138 | a satisfiable range always lies within the body: start <= end < length |
| `RangeRules.RangeIs` | crates/core/src/http/conditional.rs:103-138 | every range, however spaced and with any spelling of its numbers, is read as what its two ends ask for: open-ended, up to the length, backwards, beyond the end, a suffix |
| `RangeRules.OpenRangeReads` | crates/core/src/http/conditional.rs:125-130 | `bytes=a-` runs to the last byte, or is unsatisfiable from the length on |
| `RangeRules.ParsesExactlyRanges` | crates/core/src/http/conditional.rs:103-138 | a text is read as a range if and only if it is spelled so, or its first end lies at or beyond the length, whatever follows its hyphen |
| `RangeRules.OtherRangesAreIgnored` | crates/core/src/http/conditional.rs:103-108 | other units, lists and texts without a hyphen are no range |
| `Conditional.RangeReads` | crates/core/src/http/conditional.rs:103-138 | a printed range within the body reads back as itself |
| `Conditional.SuffixReads` | crates/core/src/http/conditional.rs:112-123 | a suffix range selects the last bytes, or the whole body if it asks for more, or nothing can satisfy it |
| `Conditional.RangeIsServed` | crates/core/src/http/conditional.rs:69-92 | the partial response of a range is that slice of the body, says where it belongs, and keeps the type, tag and date |
| `RangeRules.RangeIsAnswered` | crates/core/src/http/conditional.rs:69-92 | what every range request is answered with: 206 with the slice, where it belongs and the fields of the full response; 416 with `bytes */` and the length and nothing else; or the full response |
| `RangeRules.OpenRangeIsServed` | crates/core/src/http/conditional.rs:69-92 | a resumed download gets everything from the place it asks for |
| `RangeRules.OthersAreUnchanged` | crates/core/src/http/conditional.rs:19-27 | other statuses, requests without a range and ranges that are none get the response as it is |
| `RangeRules.StarMatches` | crates/core/src/http/conditional.rs:31-36 | If-None-Match with a star makes any 200 a 304 |
| `RangeRules.NothingToCompare` | crates/core/src/http/conditional.rs:37-46 | without both dates, or with one that is none, nothing is not modified |
| `RangeRules.FileIs` | crates/core/src/handler/static_files.rs:71-82 | a served file has its content type, says that ranges are welcome, and carries its validators if it has a time |
| `Conditional.PartialFields` | crates/core/src/http/conditional.rs:77-91 | a partial response carries its Content-Range, and the type, tag and date of the full one |
| `Conditional.RangesTile` | crates/core/src/http/conditional.rs:69-138 | the partial bodies of any partition of a file into consecutive ranges concatenate to the file |
| `JsonParser.Parser.SkipSpaces` | crates/core/src/json.rs:150-158 | the cursor method for whitespace returns what the recursive function of the input and the old position does, leaves the cursor where it does, and fails with the same error |
| `JsonParser.Parser.ConsumeDigits` | crates/core/src/json.rs:393-402 | the cursor method for a run of digits returns what the recursive function of the input and the old position does, leaves the cursor where it does, and fails with the same error |
| `JsonParser.Parser.ParseFraction` | crates/core/src/json.rs:374-377 | the cursor method for an optional fraction returns what the recursive function of the input and the old position does, leaves the cursor where it does, and fails with the same error |
| `JsonParser.Parser.ParseExponent` | crates/core/src/json.rs:378-383 | the cursor method for an optional exponent returns what the recursive function of the input and the old position does, leaves the cursor where it does, and fails with the same error |
| `JsonParser.Parser.ParseNumber` | crates/core/src/json.rs:367-391 | the cursor method for a number returns what the recursive function of the input and the old position does, leaves the cursor where it does, and fails with the same error |
| `JsonParser.Parser.ReadHex4` | crates/core/src/json.rs:331-344 | the cursor method for four hexadecimal digits returns what the recursive function of the input and the old position does, leaves the cursor where it does, and fails with the same error |
| `JsonParser.Parser.ParseUnicodeEscape` | crates/core/src/json.rs:303-329 | the cursor method for a Unicode escape, surrogate pairs included returns what the recursive function of the input and the old position does, leaves the cursor where it does, and fails with the same error |
| `JsonParser.Parser.ParseEscape` | crates/core/src/json.rs:283-301 | the cursor method for an escape returns what the recursive function of the input and the old position does, leaves the cursor where it does, and fails with the same error |
| `JsonParser.Parser.ParseString` | crates/core/src/json.rs:252-281 | the cursor method for a string returns what the recursive function of the input and the old position does, leaves the cursor where it does, and fails with the same error |
| `JsonParser.Parser.ParseBool` | crates/core/src/json.rs:346-356 | the cursor method for a boolean returns what the recursive function of the input and the old position does, leaves the cursor where it does, and fails with the same error |
| `JsonParser.Parser.ParseNull` | crates/core/src/json.rs:358-365 | the cursor method for null returns what the recursive function of the input and the old position does, leaves the cursor where it does, and fails with the same error |
| `JsonParser.Parser.ParseValue` | crates/core/src/json.rs:160-173 | the cursor method for a value returns what the recursive function of the input and the old position does, leaves the cursor where it does, and fails with the same error |
| `JsonParser.Parser.ParseObject` | crates/core/src/json.rs:186-221 | the cursor method for an object returns what the recursive function of the input and the old position does, leaves the cursor where it does, and fails with the same error |
| `JsonParser.Parser.ParseArray` | crates/core/src/json.rs:223-250 | the cursor method for an array returns what the recursive function of the input and the old position does, leaves the cursor where it does, and fails with the same error |
| `JsonParser.Parser.constructor` | crates/core/src/json.rs:119-124 | the cursor starts at the front of the input |
| `JsonParser.Parser.ExpectByte` | crates/core/src/json.rs:175-184 | one expected byte, or the error that tells a wrong byte from the end |
| `JsonParser.Parser.ParseMember` | crates/core/src/json.rs:196-209 | one key, colon and value of an object |
| `JsonParser.Parse` | crates/core/src/json.rs:119-131 | the parser object computes the document function, trailing data included |
| `Json.ValueAt` | crates/core/src/json.rs:160-173 | a value that parses ends strictly after its start and within the input, so parsing terminates |
| `JsonStrings.EscapeJson` | crates/core/src/config.rs:636-650 | the escaping loop |
| `JsonUnicode.ScalarRoundTrip` | crates/core/src/json.rs:303-329 | the UTF-8 encoding of every scalar value is one well-formed sequence that decodes to it |
| `JsonUnicode.SequenceIsScalar` | crates/core/src/json.rs:263-276 | every well-formed sequence is the encoding of a scalar value: nothing overlong, no surrogate, nothing beyond the last code point |
| `JsonUnicode.ScalarEscapeReads` | crates/core/src/json.rs:303-344 | the escape of every scalar value, a surrogate pair above U+FFFF, reads as its UTF-8 bytes |
| `JsonUnicode.LoneSurrogateIsRefused` | crates/core/src/json.rs:303-329 | a lone surrogate escape is refused as invalid Unicode |
| `JsonStrings.SpellingReads` | crates/core/src/json.rs:252-344 | every spelling of a string, character by character, as it is or by any of its escapes, reads as what it spells |
| `JsonStrings.SpellingParses` | crates/core/src/json.rs:252-344 | a quoted string that reads is a spelling of what it reads as |
| `JsonStrings.CanonicalIsSpelling` | crates/core/src/config.rs:636-650 | the escaped text that the writer makes of a UTF-8 string is one of its spellings |
| `JsonNumerals.NumeralReads` | crates/core/src/json.rs:367-402 | every numeral, with any sign, leading zeros, fraction and exponent, reads as its text |
| `JsonNumerals.NumeralParses` | crates/core/src/json.rs:367-402 | a number that reads is written as such a numeral |
| `JsonText.ValueReads` | crates/core/src/json.rs:160-250 | any text of any value, with any whitespace, spellings and numerals, reads back in place within the nesting limit, and fails for its depth beyond it |
| `JsonText.DocumentReads` | crates/core/src/json.rs:119-131 | a document, however written, parses to its value if it nests at most 64 deep, and is refused with DepthExceeded otherwise |
| `JsonGrammar.ValueParses` | crates/core/src/json.rs:160-250 | a value that reads is the text of some document of that value, nested within the limit |
| `JsonGrammar.DocumentParses` | crates/core/src/json.rs:119-131 | whatever the parser accepts is a rendering of the value it returns |
| `JsonGrammar.ParsesExactlyRenderings` | crates/core/src/json.rs:119-131 | the parser returns a value if and only if the text is a rendering of that value at most 64 deep: its grammar, in both directions |
| `Doubles.SmallIsExact` | crates/core/src/json.rs:62-76 | integers below 2^53 are exact |
| `Doubles.IntegerSurvives` | crates/core/src/json.rs:62-76 | a printed integer reads back as itself if and only if it is a double, or is the largest 64-bit number |
| `Doubles.MaximumRoundsUp` | crates/core/src/json.rs:62-76 | the largest 64-bit number rounds up to 2^64, which the accessor's saturating cast brings back |
| `Doubles.FirstLoss` | crates/core/src/json.rs:62-76 | 2^53 + 1 reads back as 2^53 |
| `Configuration.ReadStringArray` | crates/core/src/config.rs:596-608 | the loop reads an array of strings and names the index of the first other item |
| `Configuration.ReadStringMap` | crates/core/src/config.rs:610-624 | the loop reads an object of strings and names the key of the first other member |
| `ConfigText.JsonStringArray` | crates/core/src/config.rs:653-665 | the loop writes the compact array of the strings |
| `ConfigText.JsonStringObject` | crates/core/src/config.rs:668-685 | the loop writes the object of the pairs, one a line |
| `ConfigText.AppendServer` | crates/core/src/config.rs:220-246 | the pushes of this section append the text of its JSON document |
| `ConfigText.AppendStatic` | crates/core/src/config.rs:248-265 | the pushes of this section append the text of its JSON document |
| `ConfigText.AppendCompression` | crates/core/src/config.rs:267-273 | the pushes of this section append the text of its JSON document |
| `ConfigText.AppendRateLimit` | crates/core/src/config.rs:280-297 | the pushes of this section append the text of its JSON document |
| `ConfigText.AppendSecurity` | crates/core/src/config.rs:275-302 | the pushes of this section append the text of its JSON document |
| `ConfigText.AppendTls` | crates/core/src/config.rs:304-314 | the pushes of this section append the text of its JSON document |
| `ConfigText.AppendAdmin` | crates/core/src/config.rs:316-325 | the pushes of this section append the text of its JSON document |
| `ConfigText.AppendLogging` | crates/core/src/config.rs:327-336 | the pushes of this section append the text of its JSON document |
| `ConfigText.ToJsonString` | crates/core/src/config.rs:216-344 | the whole sequence of pushes writes the text of the configuration's JSON document |
| `ConfigRoundTrip.ConfigFits` | crates/core/src/config.rs:216-344 | the saved document is well-formed JSON, three levels deep |
| `ConfigRoundTrip.ConfigReads` | crates/core/src/config.rs:169-209 | reading the value of the saved document gives the configuration back exactly when it is valid and its integers survive |
| `ConfigRoundTrip.SavedLoads` | crates/core/src/config.rs:211-216 | the documented round trip, made exact: saving and loading gives the configuration back if and only if it is valid and each integer field survives being read as a double, for all strings |
| `ConfigRoundTrip.LargeSettingIsLost` | crates/core/src/config.rs:211-216 | a valid configuration that does not round-trip: a connection limit of 2^53 + 1 |
| `LoadedConfig.EmptyObjectLoadsDefaults` | crates/core/src/config.rs:161-209 | the empty object, in any layout, loads the default configuration |
| `LoadedConfig.OmittedSectionsKeepDefaults` | crates/core/src/config.rs:169-209 | every section that a configuration leaves out keeps its default |
| `LoadedConfig.SectionsStandAlone` | crates/core/src/config.rs:169-209 | reading a section changes that section only, and nothing if it is not there |
| `ConfigRules.LoadsExactly` | crates/core/src/config.rs:169-209 | a value loads as a configuration if and only if it is an object, every setting that is there has its own type and width and the configuration's value, every other has its default, and the configuration is sound |
| `ConfigRules.ValidateIs` | crates/core/src/config.rs:346-377 | validation passes exactly what is sound, and otherwise names the first fault |
| `ConfigRules.WrongTypeIsNamed` | crates/core/src/config.rs:537-594 | a setting of the wrong type, or a port that is too large, is named with its section |
| `ConfigRules.LookupIs` | crates/core/src/json.rs:29-34 | a key finds the first member that has it, and nothing if none has |
| `LoadedConfig.ValueIsText` | crates/core/src/json.rs:252-329 | every string that parses is valid UTF-8, escapes and surrogate pairs included |
| `LoadedConfig.FromJsonKeeps` | crates/core/src/config.rs:169-209 | a configuration that loads is valid, within its integer widths, and holds only text and surviving integers |
| `LoadedConfig.LoadedIsStable` | crates/core/src/config.rs:211-216 | whatever text a configuration was loaded from, saving it and loading that gives the same configuration, without exception |

## Left out

- TLS, `mio` polling, accepting, listeners, signals, threads and the idle sweep: operating-system and foreign code. A socket is a script of arbitrary read and write results; the request handler is an arbitrary function of request and context.
- The size of the reactor's read buffer: a read result may hold any number of bytes.
- `crates/embedded`: smoltcp is not part of this model.
- A closed or failed socket: what was read just before it is fed but not answered, as in the source; what the peer then sees is not modelled.
- Clock: the end-to-end results fix the time of day; byte conservation holds for any times.
- `Chunked.DecodeChunked`: positions are unbounded; where the unchecked addition of a chunk size (request.rs:544) overflows is stated exactly by `Widths.CheckedIsExact`, but what the source does after a wrap-around is not modelled. The end of a fixed-length body (request.rs:215) is taken to fit: body limits near 2^64 are not modelled.
- `RateLimiting.RateLimiter.CheckPeer`: times and counts are unbounded; `Widths.RunFits` and `Widths.LateBanOverflows` state when the additions at security.rs:88 and 90 fit, but what a wrap-around leads to is not modelled.
- `HttpDate.DateReads`: the arithmetic is unbounded; `Widths.PrintedDatesFit`, `Widths.YearRangeIsExact` and `Widths.SecondsRangeIsExact` state when it fits 64 bits, but what a wrap-around leads to is not modelled.
- `RequestParser.SplitLinesOf`: the lazy line iterator is run to its end before the lines are used, so the source's early stop at an error is not visible.
- `ConfigText.ToJsonString`: one method a section, where the source has one long function.
- `Configuration.FromJson`: the source's mutable slots are threaded as record values through functions, so their partial update before an error, which no caller can see, is not modelled.
- `Doubles.IntegerSurvives`: rounding is modelled for plain digits only; numerals with a sign, a fraction or an exponent keep their text and are read by an arbitrary function (for `LoadedConfig.LoadedIsStable`, one whose results come from doubles).
- `JsonParser.Parser.ParseNumber`: a number is kept as its text and the fraction and the exponent are methods of their own; the source turns the text into a double at once, which never fails on a numeral.
- `Configuration.ReadUsize`: `usize` is taken to be 64 bits wide.
- `JsonStrings.EscapeJson`: works byte by byte where the source works character by character; only ASCII is ever escaped.
- `Crc32.Checksum`: the gzip container and DEFLATE (foreign code) around the checksum are left out.
- `Conditional.FileFields`: the content type of a file is a parameter; the table in `mime.rs` is left out.
- `StaticPaths.ServeStatic`: the asset source is an arbitrary function of the path, so a file that changes between two lookups is not modelled.
- `router.rs`, `query.rs`, `Request::path`: short lookups that would only add easy members.
- `webui`, SHA-256, the filesystem and firmware crates: user interface, a restated standard, and wiring.
