/** Streams at the edges: requests whose answer depends on how their bytes arrive,
    and refusals that later bytes take back. */
module Witnesses {
  import opened Bytes
  import opened Ascii
  import opened Numerals
  import opened Utf8
  import opened Http
  import Chunked
  import opened ChunkedCodec
  import opened RequestParser
  import opened RequestPrinter
  import opened Verdicts
  import opened Segmentation
  import opened ResponseReader
  import opened Draining

  // ----- every request of a kind -----

  /** A prefix that is refused although the whole is answered otherwise: some cut of
      the stream draws other answers than the stream. */
  lemma EarlyRefusalIsUnsettled(stream: bytes, m: nat, maxBody: nat)
    requires m <= |stream| && VerdictOf(stream[..m], maxBody).Refuse?
    requires VerdictOf(stream[..m], maxBody) != VerdictOf(stream, maxBody)
    ensures !SettledStream(stream, maxBody)
    ensures exists segments ::
              Concat(segments) == stream && RunAnswers([], segments, maxBody) != Answers(stream, maxBody)
  {
    hide VerdictOf; hide Settled; hide RunAnswers; hide Answers; hide Concat;
    SettledIsExact(stream, maxBody);
    SegmentationIndependence(stream, maxBody);
  }

  /** The head window: a head that ends in the last three bytes below its limit is
      refused when its blank line comes late, and answered when it does not. */
  lemma HeadWindow(r: Request, fields: seq<Field>, maxBody: nat)
    requires WellFormed(r, maxBody) && ValidFields(r, fields) && BodyFraming(r.headers) == Ok(Fixed(0))
    requires MAX_HEAD_BYTES - 3 < |HeadText(r, fields)| <= MAX_HEAD_BYTES
    ensures var stream := HeadText(r, fields) + BLANK;
            var buf := stream[..MAX_HEAD_BYTES + 1];
            && Parse(buf, maxBody) == Err(HeadTooLarge)
            && Parse(buf + stream[MAX_HEAD_BYTES + 1..], maxBody) == Ok(Complete(r, |stream|))
            && VerdictOf(buf, maxBody) == Refuse(431) && VerdictOf(stream, maxBody) == Reply(r, |stream|)
            && !SettledStream(stream, maxBody)
            && exists segments ::
                 Concat(segments) == stream && RunAnswers([], segments, maxBody) != Answers(stream, maxBody)
  {
    hide FindSubslice; hide HeadOf; hide HeadText; hide WellFormed; hide ValidFields; hide BodyFraming; hide BodyOf;
    hide Concat;
    hide Answers; hide RunAnswers; hide SettledStream; hide Expectation;
    var head := HeadText(r, fields);
    var stream, m := head + BLANK, MAX_HEAD_BYTES + 1;
    NoBodyText(r, maxBody);
    HeadReads(r, fields, maxBody, []);
    assert head + BLANK + [] == stream;
    RequestReads(r, fields, [], [], maxBody);
    assert head + BLANK + [] + [] == stream;
    HeadOfPrefix(stream, m);
    assert stream[..m] + stream[m..] == stream;
    EarlyRefusalIsUnsettled(stream, m, maxBody);
  }

  lemma NoBodyText(r: Request, maxBody: nat)
    requires WellFormed(r, maxBody) && BodyFraming(r.headers) == Ok(Fixed(0))
    ensures BodyText(r, []) && r.body == []
  {
    hide BodyFraming; hide ValidHeader; hide ValidateHost; hide ValidTarget;
  }

  /** The long line: an open size line over the limit is refused, and terminating it
      makes the request complete. */
  lemma LongSizeLine(r: Request, fields: seq<Field>, maxBody: nat)
    requires WellFormed(r, maxBody) && ValidFields(r, fields) && |HeadText(r, fields)| <= MAX_HEAD_BYTES
    requires BodyFraming(r.headers) == Ok(ChunkedBody) && r.body == []
    ensures var line := Zeros(MAX_CHUNK_LINE_BYTES + 1);
            var buf := HeadText(r, fields) + BLANK + line;
            && Parse(buf, maxBody) == Err(MalformedChunk)
            && Parse(buf + BLANK, maxBody) == Ok(Complete(r, |buf + BLANK|))
            && !SettledStream(buf + BLANK, maxBody)
            && exists segments :: Concat(segments) == buf + BLANK
                                  && RunAnswers([], segments, maxBody) != Answers(buf + BLANK, maxBody)
  {
    hide FindSubslice; hide HeadOf; hide HeadText; hide WellFormed; hide ValidFields; hide BodyFraming; hide Concat;
    hide Chunked.DecodeFrom;
    hide Answers; hide RunAnswers; hide SettledStream; hide Expectation; hide Encodes;
    var line := Zeros(MAX_CHUNK_LINE_BYTES + 1);
    var head := HeadText(r, fields);
    var buf := head + BLANK + line;
    HeadReads(r, fields, maxBody, line);
    assert buf[|head| + 4..] == line;
    LongZerosAreRefused(maxBody);
    ZerosEncodeNothing();
    assert head + BLANK + (line + BLANK) + [] == buf + BLANK;
    RequestReads(r, fields, line + BLANK, [], maxBody);
    assert (buf + BLANK)[..|buf|] == buf;
    EarlyRefusalIsUnsettled(buf + BLANK, |buf|, maxBody);
  }

  lemma LongZerosAreRefused(maxBody: nat)
    ensures Chunked.Decode(Zeros(MAX_CHUNK_LINE_BYTES + 1), maxBody) == Err(MalformedChunk)
  {
    hide Zeros; hide FindFrom;
    var line := Zeros(MAX_CHUNK_LINE_BYTES + 1);
    FindFromFirst(line, CRLF, 0);
    var found := FindFrom(line, CRLF, 0);
    if found.Some? {
      CrlfAt(line, found.value);
    }
  }

  lemma ZerosEncodeNothing()
    ensures var text := Zeros(MAX_CHUNK_LINE_BYTES + 1) + BLANK;
            exists e: Encoding :: Encodes(e, text, [], |text|)
  {
    hide Zeros; hide Value;
    var size := Zeros(MAX_CHUNK_LINE_BYTES + 1);
    var text := size + BLANK;
    var e := Encoding([], Chunk(size, [], []), []);
    assert size + [] == size;
    ValueOfZeros(|size|, [], 16);
    NoValue();
    assert ChunkedCodec.Text(e) == text;
    NothingIsFree();
    assert Encodes(e, text, [], |text|);
  }

  lemma NoValue()
    ensures Value([], 16) == 0
  {
  }

  lemma NothingIsFree()
    ensures CrlfFree([])
  {
  }

  /** The race: an unsupported expectation is refused while the body is missing, and
      the request is answered when the body is there. */
  lemma ExpectationRaces(r: Request, fields: seq<Field>, maxBody: nat)
    requires WellFormed(r, maxBody) && ValidFields(r, fields) && |HeadText(r, fields)| <= MAX_HEAD_BYTES
    requires BodyFraming(r.headers) == Ok(Fixed(|r.body|)) && r.body != [] && ExpectationOf(r.headers) == Unsupported
    ensures var head := HeadText(r, fields) + BLANK;
            && VerdictOf(head, maxBody) == Refuse(417)
            && VerdictOf(head + r.body, maxBody) == Reply(r, |head + r.body|)
            && !SettledStream(head + r.body, maxBody)
            && exists segments :: Concat(segments) == head + r.body
                                  && RunAnswers([], segments, maxBody) != Answers(head + r.body, maxBody)
  {
    hide FindSubslice; hide HeadOf; hide HeadText; hide WellFormed; hide ValidFields; hide BodyFraming; hide Concat;
    hide Answers; hide RunAnswers; hide SettledStream; hide Expectation; hide ExpectationOf;
    var head := HeadText(r, fields);
    var stream := head + BLANK + r.body;
    BodyIsWithinLimit(r, maxBody);
    HeadReads(r, fields, maxBody, []);
    assert head + BLANK + [] == head + BLANK;
    ExpectationAgrees(head + BLANK, |head|);
    assert stream + [] == stream;
    RequestReads(r, fields, r.body, [], maxBody);
    assert stream[..|head| + 4] == head + BLANK;
    EarlyRefusalIsUnsettled(stream, |head| + 4, maxBody);
  }

  lemma BodyIsWithinLimit(r: Request, maxBody: nat)
    requires WellFormed(r, maxBody)
    ensures |r.body| <= maxBody
  {
    hide BodyFraming; hide ValidHeader; hide ValidateHost; hide ValidTarget;
  }

  // ----- one request of each kind -----

  /** A GET of the root with `Host: a` and other fields. */
  function Sample(others: seq<Header>, body: bytes): Request {
    Request(Get, "/", Http11, [Header("Host", "a")] + others, body)
  }

  lemma SampleIsWellFormed(others: seq<Header>, body: bytes, maxBody: nat)
    requires forall h :: h in others ==> ValidHeader(h) && !EqIgnoreCase(h.name, "host")
    requires |others| < MAX_HEADERS && |body| <= maxBody
    requires BodyFraming(Sample(others, body).headers) in {Ok(Fixed(|body|)), Ok(ChunkedBody)}
    ensures WellFormed(Sample(others, body), maxBody)
            && ValidFields(Sample(others, body), Tight(Sample(others, body).headers))
  {
    hide EqIgnoreCase; hide BodyFraming; hide ValidUtf8; hide IsToken;
    AsciiIsValid("/");
    HostIsValid();
    var host := Header("Host", "a");
    NamedNone(others, "host");
    assert ([host] + others)[1..] == others;
  }

  lemma HostIsValid()
    ensures ValidHeader(Header("Host", "a")) && EqIgnoreCase("Host", "host") && IsValidHostValue("a")
  {
    AsciiIsValid("a");
  }

  function Letters(n: nat): (s: bytes)
    ensures |s| == n && forall i :: 0 <= i < n ==> s[i] == 'a'
  {
    seq(n, _ => 'a')
  }

  /** A request whose head is as long as a head may be. */
  function WindowRequest(): Request {
    Sample([Header("X", Letters(MAX_HEAD_BYTES - 26))], [])
  }

  /** A chunked request without a body. */
  function LongLineRequest(): Request {
    Sample([Header("Transfer-Encoding", "chunked")], [])
  }

  /** A request with a body and an expectation that is not 100-continue. */
  function RaceRequest(): Request {
    Sample([Header("Expect", "x"), Header("Content-Length", "1")], "a")
  }

  function HeadOfRequest(r: Request): bytes {
    HeadText(r, Tight(r.headers)) + BLANK
  }

  lemma WindowExists(maxBody: nat)
    ensures |HeadOfRequest(WindowRequest())| == MAX_HEAD_BYTES + 4
    ensures var stream := HeadOfRequest(WindowRequest()); var buf := stream[..MAX_HEAD_BYTES + 1];
            && !SettledStream(stream, maxBody)
            && Parse(buf, maxBody) == Err(HeadTooLarge)
            && Parse(buf + stream[MAX_HEAD_BYTES + 1..], maxBody) == Ok(Complete(WindowRequest(), |stream|))
  {
    hide HeadText; hide WellFormed; hide ValidFields; hide BodyFraming; hide Parse; hide SettledStream; hide Sample;
    hide Tight;
    hide Letters; hide RunAnswers; hide Answers; hide Concat; hide VerdictOf;
    var r := WindowRequest();
    WindowIsWellFormed(maxBody);
    WindowLength();
    HeadWindow(r, Tight(r.headers), maxBody);
  }

  lemma WindowIsWellFormed(maxBody: nat)
    ensures var r := WindowRequest();
            WellFormed(r, maxBody) && ValidFields(r, Tight(r.headers)) && BodyFraming(r.headers) == Ok(Fixed(0))
  {
    hide EqIgnoreCase; hide ValidUtf8; hide WellFormed; hide ValidFields; hide Letters;
    var text := Letters(MAX_HEAD_BYTES - 26);
    AsciiIsValid(text);
    var host, h := Header("Host", "a"), Header("X", text);
    var headers := [host] + [h];
    LengthsTell("X");
    LengthsTell("Host");
    NamedNone(headers, "transfer-encoding");
    NamedNone(headers, "content-length");
    SampleIsWellFormed([h], [], maxBody);
  }

  lemma LengthsTell(name: bytes)
    ensures |name| < 10 ==> !EqIgnoreCase(name, "transfer-encoding") && !EqIgnoreCase(name, "content-length")
    ensures |name| != 4 ==> !EqIgnoreCase(name, "host")
    ensures |name| != 6 ==> !EqIgnoreCase(name, "expect")
    ensures |name| != 17 ==> !EqIgnoreCase(name, "transfer-encoding")
    ensures |name| != 14 ==> !EqIgnoreCase(name, "content-length")
  {
  }

  lemma WindowLength()
    ensures |HeadText(WindowRequest(), Tight(WindowRequest().headers))| == MAX_HEAD_BYTES
  {
    hide Letters;
    var r := WindowRequest();
    var host, h := Header("Host", "a"), Header("X", Letters(MAX_HEAD_BYTES - 26));
    assert r.headers == [host, h];
    var fields := Tight(r.headers);
    assert fields == [Field(host, [], []), Field(h, [], [])];
    assert |LineText(r)| == 14;
    assert |fields[0].Text()| == 6 && |fields[1].Text()| == MAX_HEAD_BYTES - 24;
    var lines := [LineText(r)] + FieldLines(fields);
    assert lines == [LineText(r), fields[0].Text(), fields[1].Text()];
    assert lines[1..] == [fields[0].Text(), fields[1].Text()];
    assert lines[1..][1..] == [fields[1].Text()];
    assert |JoinCrlf(lines[1..][1..])| == MAX_HEAD_BYTES - 24;
    assert |JoinCrlf(lines[1..])| == 6 + 2 + MAX_HEAD_BYTES - 24;
  }

  lemma LongLineExists(maxBody: nat)
    ensures var buf := HeadOfRequest(LongLineRequest()) + Zeros(MAX_CHUNK_LINE_BYTES + 1);
            && !SettledStream(buf + BLANK, maxBody)
            && Parse(buf, maxBody) == Err(MalformedChunk)
            && Parse(buf + BLANK, maxBody) == Ok(Complete(LongLineRequest(), |buf + BLANK|))
  {
    hide HeadText; hide WellFormed; hide ValidFields; hide BodyFraming; hide Parse; hide SettledStream; hide Tight;
    hide RunAnswers; hide Answers; hide Concat; hide VerdictOf; hide Zeros;
    var r := LongLineRequest();
    LongLineIsWellFormed(maxBody);
    LongSizeLine(r, Tight(r.headers), maxBody);
  }

  lemma LongLineIsWellFormed(maxBody: nat)
    ensures var r := LongLineRequest();
            && WellFormed(r, maxBody) && ValidFields(r, Tight(r.headers)) && BodyFraming(r.headers) == Ok(ChunkedBody)
            && |HeadText(r, Tight(r.headers))| <= MAX_HEAD_BYTES
  {
    hide EqIgnoreCase; hide ValidUtf8; hide WellFormed; hide ValidFields; hide HeadText; hide Trim;
    AsciiIsValid("chunked");
    TrimSolid("chunked");
    SameNames();
    var host, h := Header("Host", "a"), Header("Transfer-Encoding", "chunked");
    var headers := [host] + [h];
    LengthsTell("Host");
    LengthsTell("Transfer-Encoding");
    NamedNone(headers, "content-length");
    NamedNone([host], "transfer-encoding");
    NamedAppend([host], [h], "transfer-encoding");
    assert [h][1..] == [];
    TransferIsToken();
    SampleIsWellFormed([h], [], maxBody);
    LongLineLength();
  }

  lemma SameNames()
    ensures EqIgnoreCase("Transfer-Encoding", "transfer-encoding") && EqIgnoreCase("chunked", "chunked")
    ensures EqIgnoreCase("Expect", "expect") && EqIgnoreCase("Content-Length", "content-length")
    ensures !EqIgnoreCase("x", "100-continue")
  {
  }

  lemma TransferIsToken()
    ensures IsToken("Transfer-Encoding") && IsToken("Expect") && IsToken("Content-Length")
  {
  }

  lemma LongLineLength()
    ensures |HeadText(LongLineRequest(), Tight(LongLineRequest().headers))| <= MAX_HEAD_BYTES
  {
    var r := LongLineRequest();
    var host, h := Header("Host", "a"), Header("Transfer-Encoding", "chunked");
    assert r.headers == [host, h];
    var fields := Tight(r.headers);
    assert fields == [Field(host, [], []), Field(h, [], [])];
    var lines := [LineText(r)] + FieldLines(fields);
    assert lines == [LineText(r), fields[0].Text(), fields[1].Text()];
    assert lines[1..] == [fields[0].Text(), fields[1].Text()];
    assert lines[1..][1..] == [fields[1].Text()];
    assert |JoinCrlf(lines[1..][1..])| < 40;
    assert |JoinCrlf(lines[1..])| < 60;
  }

  lemma RaceExists(maxBody: nat)
    requires maxBody >= 1
    ensures var head := HeadOfRequest(RaceRequest());
            && !SettledStream(head + "a", maxBody)
            && VerdictOf(head, maxBody) == Refuse(417)
            && VerdictOf(head + "a", maxBody) == Reply(RaceRequest(), |head + "a"|)
  {
    hide HeadText; hide WellFormed; hide ValidFields; hide BodyFraming; hide SettledStream; hide Tight;
    hide RunAnswers; hide Answers; hide Concat; hide VerdictOf; hide ExpectationOf;
    var r := RaceRequest();
    RaceIsWellFormed(maxBody);
    ExpectationRaces(r, Tight(r.headers), maxBody);
  }

  lemma RaceIsWellFormed(maxBody: nat)
    requires maxBody >= 1
    ensures var r := RaceRequest();
            && WellFormed(r, maxBody) && ValidFields(r, Tight(r.headers)) && BodyFraming(r.headers) == Ok(Fixed(1))
            && ExpectationOf(r.headers) == Unsupported && |HeadText(r, Tight(r.headers))| <= MAX_HEAD_BYTES
  {
    hide EqIgnoreCase; hide ValidHeader; hide WellFormed; hide ValidFields; hide HeadText; hide BodyFraming;
    hide ExpectationOf;
    RaceFraming();
    RaceFieldsAreValid();
    LengthsTell("Expect");
    LengthsTell("Content-Length");
    SampleIsWellFormed([Header("Expect", "x"), Header("Content-Length", "1")], "a", maxBody);
    RaceLength();
  }

  lemma RaceFieldsAreValid()
    ensures ValidHeader(Header("Expect", "x")) && ValidHeader(Header("Content-Length", "1"))
  {
    hide ValidUtf8; hide IsToken;
    AsciiIsValid("x");
    AsciiIsValid("1");
    TransferIsToken();
  }

  lemma RaceFraming()
    ensures BodyFraming(RaceRequest().headers) == Ok(Fixed(1)) && ExpectationOf(RaceRequest().headers) == Unsupported
  {
    hide EqIgnoreCase; hide Named; hide Trim; hide Value; hide ParseU64;
    var headers := RaceRequest().headers;
    TrimSolid("1");
    OneIsOne();
    SameNames();
    LengthsTell("Host");
    LengthsTell("Expect");
    LengthsTell("Content-Length");
    assert forall h :: h in headers ==> h.name == "Host" || h.name == "Expect" || h.name == "Content-Length";
    NamedNone(headers, "transfer-encoding");
    RaceNames();
  }

  lemma OneIsOne()
    ensures ParseU64("1") == Some(1) && AllDigits("1")
  {
    assert "1"[..0] == [];
    assert Value("1", 10) == 1;
  }

  lemma RaceNames()
    ensures var headers := RaceRequest().headers;
            && Named(headers, "content-length") == [Header("Content-Length", "1")]
            && Named(headers, "expect") == [Header("Expect", "x")]
  {
    hide EqIgnoreCase;
    SameNames();
    LengthsTell("Host");
    LengthsTell("Expect");
    LengthsTell("Content-Length");
    var host, e, l := Header("Host", "a"), Header("Expect", "x"), Header("Content-Length", "1");
    var headers := RaceRequest().headers;
    assert headers == [host, e, l] && headers[1..] == [e, l] && [e, l][1..] == [l] && [l][1..] == [];
    assert Named([l], "content-length") == [l] && Named([l], "expect") == [];
    assert Named([e, l], "content-length") == [l] && Named([e, l], "expect") == [e];
  }

  lemma RaceLength()
    ensures |HeadText(RaceRequest(), Tight(RaceRequest().headers))| <= MAX_HEAD_BYTES
  {
    var r := RaceRequest();
    var host, e, l := Header("Host", "a"), Header("Expect", "x"), Header("Content-Length", "1");
    assert r.headers == [host, e, l];
    var fields := Tight(r.headers);
    assert fields == [Field(host, [], []), Field(e, [], []), Field(l, [], [])];
    var lines := [LineText(r)] + FieldLines(fields);
    assert lines == [LineText(r), fields[0].Text(), fields[1].Text(), fields[2].Text()];
    assert lines[1..] == [fields[0].Text(), fields[1].Text(), fields[2].Text()];
    assert lines[1..][1..] == [fields[1].Text(), fields[2].Text()];
    assert lines[1..][1..][1..] == [fields[2].Text()];
    assert |JoinCrlf(lines[1..][1..][1..])| < 20;
    assert |JoinCrlf(lines[1..][1..])| < 40;
    assert |JoinCrlf(lines[1..])| < 60;
  }
}
