/** Request text and the parser as its inverse (sections 3, 5 and 6 of RFC 9112). */
module RequestPrinter {
  import opened Bytes
  import opened Ascii
  import opened Numerals
  import opened Utf8
  import opened Http
  import opened Chunked
  import opened ChunkedCodec
  import opened RequestParser

  // ----- request text -----

  function VersionText(version: Version): bytes {
    match version case Http10 => "HTTP/1.0" case Http11 => "HTTP/1.1"
  }

  function LineText(r: Request): bytes {
    r.verb.Token() + " " + (r.target + " " + VersionText(r.version))
  }

  /** A field with the optional whitespace around its value. */
  datatype Field = Field(header: Header, before: bytes, after: bytes) {
    function Text(): bytes {
      header.name + ":" + (before + header.value + after)
    }
  }

  function HeadersIn(fields: seq<Field>): seq<Header> {
    seq(|fields|, i requires 0 <= i < |fields| => fields[i].header)
  }

  function FieldLines(fields: seq<Field>): seq<bytes> {
    seq(|fields|, i requires 0 <= i < |fields| => fields[i].Text())
  }

  function HeadText(r: Request, fields: seq<Field>): bytes {
    JoinCrlf([LineText(r)] + FieldLines(fields))
  }

  /** The fields of a request without any optional whitespace. */
  function Tight(headers: seq<Header>): seq<Field> {
    seq(|headers|, i requires 0 <= i < |headers| => Field(headers[i], [], []))
  }

  /** `text` carries the body the way the header fields announce it. */
  ghost predicate BodyText(r: Request, text: bytes) {
    match BodyFraming(r.headers)
    case Ok(Fixed(length)) => length == |r.body| && text == r.body
    case Ok(ChunkedBody) => exists e: Encoding :: Encodes(e, text, r.body, |text|)
    case Err(_) => false
  }

  // ----- well-formed requests -----

  predicate ValidTarget(target: bytes) {
    target != [] && |target| <= MAX_TARGET_BYTES && ValidUtf8(target) && ' ' !in target && '\r' !in target
  }

  predicate ValidHeader(h: Header) {
    IsToken(h.name) && IsTrimmed(h.value) && ValidUtf8(h.value) && '\r' !in h.value
  }

  /** Requests that the parser can produce. */
  predicate WellFormed(r: Request, maxBody: nat) {
    && ValidTarget(r.target)
    && |r.headers| <= MAX_HEADERS && (forall h :: h in r.headers ==> ValidHeader(h))
    && ValidateHost(r.headers, r.version).Ok?
    && |r.body| <= maxBody
    && BodyFraming(r.headers) in {Ok(Fixed(|r.body|)), Ok(ChunkedBody)}
  }

  ghost predicate ValidFields(r: Request, fields: seq<Field>) {
    HeadersIn(fields) == r.headers && forall f :: f in fields ==> AllOws(f.before) && AllOws(f.after)
  }

  // ----- the parser reads request text -----

  lemma MethodReads(m: Method)
    ensures Method.FromBytes(m.Token()) == Some(m) && ' ' !in m.Token() && '\r' !in m.Token()
  {
  }

  lemma VersionReads(version: Version)
    ensures VersionOf(VersionText(version)) == Ok(version)
    ensures ' ' !in VersionText(version) && '\r' !in VersionText(version)
  {
    var token := VersionText(version);
    var minor := if version == Http10 then "0" else "1";
    assert token[..5] == "HTTP/";
    assert token[5..] == "1." + minor;
    IndexOfIs("1." + minor, '.', 1);
    assert ("1." + minor)[..1] == "1" && ("1." + minor)[2..] == minor;
    assert "1"[..0] == [] && minor[..0] == [];
    assert Value("1", 10) == 1 && Value(minor, 10) == if version == Http10 then 0 else 1;
  }

  lemma LineReads(r: Request)
    requires ValidTarget(r.target)
    ensures RequestLineOf(LineText(r)) == Ok(RequestLine(r.verb, r.target, r.version))
    ensures '\r' !in LineText(r)
  {
    hide VersionOf; hide ValidUtf8;
    var token, version := r.verb.Token(), VersionText(r.version);
    var rest := r.target + " " + version;
    MethodReads(r.verb);
    VersionReads(r.version);
    assert LineText(r)[..|token|] == token && LineText(r)[|token| + 1..] == rest;
    IndexOfIs(LineText(r), ' ', |token|);
    assert rest[..|r.target|] == r.target && rest[|r.target| + 1..] == version;
    IndexOfIs(rest, ' ', |r.target|);
  }

  lemma FieldReads(f: Field)
    requires ValidHeader(f.header) && AllOws(f.before) && AllOws(f.after)
    ensures HeaderOf(f.Text()) == Ok(f.header)
    ensures f.Text() != [] && '\r' !in f.Text()
  {
    hide ValidUtf8; hide TrimmedOws; hide IndexOf;
    var name, text := f.header.name, f.Text();
    forall c | c in name ensures c != ':' && c != '\r' {
      TokenByteIsPlain(c);
    }
    assert text[..|name|] == name && text[|name| + 1..] == f.before + f.header.value + f.after;
    IndexOfIs(text, ':', |name|);
    TrimPadded(f.before, f.header.value, f.after);
    TokenIsUtf8(name);
  }

  lemma TokenIsUtf8(s: bytes)
    requires IsToken(s)
    ensures ValidUtf8(s)
  {
    hide ValidUtf8;
    AsciiIsValid(s);
  }

  lemma {:induction false} FieldsRead(fields: seq<Field>, before: seq<Header>)
    requires forall f :: f in fields ==> ValidHeader(f.header) && AllOws(f.before) && AllOws(f.after)
    requires |before| + |fields| <= MAX_HEADERS
    ensures HeadersOf(FieldLines(fields), before) == Ok(before + HeadersIn(fields))
    decreases |fields|
  {
    hide HeaderOf; hide ValidHeader;
    var lines := FieldLines(fields);
    if fields == [] {
      assert before + HeadersIn(fields) == before;
    } else {
      FieldReads(fields[0]);
      FieldsRead(fields[1..], before + [fields[0].header]);
      assert lines[1..] == FieldLines(fields[1..]);
      assert before + HeadersIn(fields) == before + [fields[0].header] + HeadersIn(fields[1..]);
    }
  }

  lemma NowhereIn(c: byte, s: bytes)
    requires c !in s
    ensures forall i :: 0 <= i < |s| ==> s[i] != c
  {
    forall i | 0 <= i < |s| ensures s[i] != c {
      var b := s[i];
      assert b in s;
    }
  }

  /** CR-free lines make a head without a bare CR. */
  lemma {:induction false} NoBareCr(lines: seq<bytes>)
    requires |lines| > 0 && forall l :: l in lines ==> '\r' !in l
    ensures !HasBareCr(JoinCrlf(lines) + BLANK)
    decreases |lines|
  {
    var head := JoinCrlf(lines) + BLANK;
    var l := lines[0];
    if |lines| == 1 {
      assert head == l + BLANK;
      NowhereIn('\r', l);
      assert forall j :: 0 <= j < |l| ==> head[j] == l[j] != '\r';
      forall i | 0 <= i < |head| && head[i] == '\r' ensures i + 1 < |head| && head[i + 1] == '\n' {
      }
    } else {
      var rest := JoinCrlf(lines[1..]) + BLANK;
      NoBareCr(lines[1..]);
      assert head == l + CRLF + rest;
      NowhereIn('\r', l);
      assert forall j :: 0 <= j < |l| ==> head[j] == l[j] != '\r';
      forall i | 0 <= i < |head| && head[i] == '\r' ensures i + 1 < |head| && head[i + 1] == '\n' {
        if i >= |l| + 2 {
          assert rest[i - |l| - 2] == '\r';
        }
      }
    }
  }

  lemma CrFreeIsCrlfFree(s: bytes)
    requires '\r' !in s
    ensures CrlfFree(s)
  {
    forall i: nat ensures !MatchAt(s, CRLF, i) {
      CrlfAt(s, i);
    }
  }

  /** The head of any request with valid parts, whatever its framing is. */
  lemma HeadIsRead(r: Request, fields: seq<Field>, rest: bytes)
    requires ValidTarget(r.target) && |r.headers| <= MAX_HEADERS && forall h :: h in r.headers ==> ValidHeader(h)
    requires ValidateHost(r.headers, r.version).Ok? && ValidFields(r, fields)
    ensures var head := HeadText(r, fields); var buf := head + BLANK + rest;
            && FindSubslice(buf, BLANK) == Some(|head|)
            && buf[..|head| + 4] == head + BLANK
            && HeadOf(head + BLANK) ==
               match BodyFraming(r.headers)
               case Ok(framing) => Ok(RequestHead(RequestLine(r.verb, r.target, r.version), r.headers, framing))
               case Err(e) => Err(e)
  {
    hide FindFrom; hide SplitFrom; hide ValidHeader; hide LineText; hide ValidateHost; hide BodyFraming;
    hide RequestLineOf; hide HeadersOf; hide HasBareCr; hide JoinCrlf; hide ValidTarget;
    var lines := [LineText(r)] + FieldLines(fields);
    var head := JoinCrlf(lines);
    var buf := head + BLANK + rest;
    LineReads(r);
    forall f | f in fields ensures ValidHeader(f.header) {
      var i :| 0 <= i < |fields| && fields[i] == f;
      assert HeadersIn(fields)[i] in r.headers;
    }
    forall k | 0 <= k < |lines| ensures '\r' !in lines[k] && (k > 0 ==> lines[k] != []) && CrlfFree(lines[k]) {
      if k > 0 { FieldReads(fields[k - 1]); }
      CrFreeIsCrlfFree(lines[k]);
    }
    assert MatchAt(buf, head, 0) && MatchAt(buf, BLANK, |head|);
    FirstBlank(buf, 0, lines);
    NoBareCr(lines);
    SplitJoin(head, 0, lines);
    assert (head + BLANK)[..|head|] == head;
    assert lines[1..] == FieldLines(fields);
    FieldsRead(fields, []);
    assert [] + HeadersIn(fields) == r.headers;
  }

  /** The head of a request text, whatever follows its blank line. */
  lemma HeadReads(r: Request, fields: seq<Field>, maxBody: nat, rest: bytes)
    requires WellFormed(r, maxBody) && ValidFields(r, fields)
    ensures var head := HeadText(r, fields); var buf := head + BLANK + rest;
            && FindSubslice(buf, BLANK) == Some(|head|)
            && buf[..|head| + 4] == head + BLANK
            && HeadOf(head + BLANK) ==
               Ok(RequestHead(RequestLine(r.verb, r.target, r.version), r.headers, BodyFraming(r.headers).value))
  {
    hide HeadOf; hide HeadText; hide ValidHeader; hide ValidateHost; hide BodyFraming; hide ValidTarget;
    hide FindSubslice; hide ValidFields;
    HeadIsRead(r, fields, rest);
  }

  /** Printing a well-formed request, with any optional whitespace and any valid
      chunking, and appending anything parses back to the same request and stops
      where the text does. */
  lemma RequestReads(r: Request, fields: seq<Field>, body: bytes, ext: bytes, maxBody: nat)
    requires WellFormed(r, maxBody) && ValidFields(r, fields) && BodyText(r, body)
    requires |HeadText(r, fields)| <= MAX_HEAD_BYTES
    ensures var text := HeadText(r, fields) + BLANK + body;
            Parse(text + ext, maxBody) == Ok(Complete(r, |text|))
  {
    hide FindSubslice; hide HeadOf; hide HeadText; hide BodyFraming; hide Encodes; hide DecodeFrom; hide ValidHeader;
    hide ValidateHost; hide ValidTarget;
    var head := HeadText(r, fields);
    var buf := head + BLANK + body + ext;
    assert buf == head + BLANK + (body + ext);
    HeadReads(r, fields, maxBody, body + ext);
    assert buf[|head| + 4..] == body + ext;
    match BodyFraming(r.headers).value
    case Fixed(length) =>
      assert buf[|head| + 4..|head| + 4 + length] == body;
    case ChunkedBody =>
      var e: Encoding :| Encodes(e, body, r.body, |body|);
      EncodesExtended(e, body, r.body, ext);
      DecodesExactlyEncodings(body + ext, maxBody, r.body, |body|);
  }

  lemma EncodesExtended(e: Encoding, text: bytes, body: bytes, ext: bytes)
    requires Encodes(e, text, body, |text|)
    ensures Encodes(e, text + ext, body, |text|)
  {
    hide ChunkedCodec.Text; hide Valid; hide Body;
    assert ChunkedCodec.Text(e) == text;
  }

  // ----- everything the parser returns is well formed -----

  /** In a head without bare CR, no line contains a CR. */
  lemma {:induction false} LinesHaveNoCr(block: bytes, pos: nat)
    requires pos <= |block| && !HasBareCr(block + BLANK)
    ensures forall l :: l in SplitFrom(block, pos) ==> '\r' !in l
    decreases |block| - pos
  {
    hide FindFrom; hide HasBareCr;
    FindFromFirst(block, CRLF, pos);
    match FindFrom(block, CRLF, pos)
    case None =>
      NoCrBetween(block, pos, |block|);
    case Some(k) =>
      CrlfAt(block, k);
      NoCrBetween(block, pos, k);
      LinesHaveNoCr(block, k + 2);
  }

  lemma NoCrBetween(block: bytes, pos: nat, k: nat)
    requires pos <= k <= |block| && !HasBareCr(block + BLANK)
    requires forall j: nat :: pos <= j < k ==> !MatchAt(block, CRLF, j)
    requires k < |block| ==> block[k] == '\r'
    ensures '\r' !in block[pos..k]
  {
    var head := block + BLANK;
    forall j | pos <= j < k ensures block[j] != '\r' {
      CrlfAt(block, j);
      assert head[j] == block[j] && (j + 1 < |block| ==> head[j + 1] == block[j + 1]);
      assert j + 1 == |block| ==> head[j + 1] == '\r';
    }
  }

  lemma SubHasNo(s: bytes, i: nat, j: nat, c: byte)
    requires i <= j <= |s| && c !in s
    ensures c !in s[i..j]
  {
    NowhereIn(c, s);
  }

  lemma VersionIsLong(token: bytes)
    requires VersionOf(token).Ok?
    ensures |token| >= 8
  {
  }

  lemma MethodReadsBack(token: bytes)
    ensures Method.FromBytes(token).Some? ==> Method.FromBytes(token).value.Token() == token
  {
  }

  lemma LineIsValid(line: bytes, r: Request)
    requires RequestLineOf(line) == Ok(RequestLine(r.verb, r.target, r.version)) && '\r' !in line
    ensures ValidTarget(r.target) && |LineText(r)| <= |line|
  {
    hide VersionOf; hide ValidUtf8; hide IndexOf; hide Method.Token; hide Method.FromBytes;
    var i := IndexOf(line, ' ').value;
    var rest := line[i + 1..];
    var j := IndexOf(rest, ' ').value;
    SubHasNo(line, i + 1, |line|, '\r');
    SubHasNo(rest, 0, j, '\r');
    assert rest[..j] == r.target;
    VersionIsLong(rest[j + 1..]);
    MethodReadsBack(line[..i]);
  }

  lemma HeaderIsValid(line: bytes)
    requires HeaderOf(line).Ok? && '\r' !in line
    ensures var h := HeaderOf(line).value; ValidHeader(h) && |Field(h, [], []).Text()| <= |line|
  {
    hide ValidUtf8; hide TrimmedOws;
    var colon := IndexOf(line, ':').value;
    var rest := line[colon + 1..];
    var pre, post := TrimSplits(rest);
    var h := HeaderOf(line).value;
    assert rest == pre + h.value + post;
    SubHasNo(line, colon + 1, |line|, '\r');
    assert rest[|pre|..|pre| + |h.value|] == h.value;
    SubHasNo(rest, |pre|, |pre| + |h.value|, '\r');
  }

  lemma {:induction false} HeadersAreValid(lines: seq<bytes>, before: seq<Header>)
    requires HeadersOf(lines, before).Ok? && |before| <= MAX_HEADERS
    requires forall l :: l in lines ==> '\r' !in l
    ensures var headers := HeadersOf(lines, before).value;
            && |headers| == |before| + |lines| <= MAX_HEADERS && before <= headers
            && var found := headers[|before|..];
               forall k :: 0 <= k < |lines| ==>
                 ValidHeader(found[k]) && |Field(found[k], [], []).Text()| <= |lines[k]|
    decreases |lines|
  {
    hide HeaderOf; hide ValidHeader; hide Field.Text;
    if lines != [] {
      var h := HeaderOf(lines[0]).value;
      HeaderIsValid(lines[0]);
      HeadersAreValid(lines[1..], before + [h]);
      var headers := HeadersOf(lines, before).value;
      var found, rest := headers[|before|..], headers[|before + [h]|..];
      assert headers[|before|] == (before + [h])[|before|];
      assert found == [h] + rest;
      forall k | 0 <= k < |lines|
        ensures ValidHeader(found[k]) && |Field(found[k], [], []).Text()| <= |lines[k]|
      {
        if k > 0 {
          assert lines[k] == lines[1..][k - 1] && found[k] == rest[k - 1];
        }
      }
    }
  }

  lemma {:induction false} JoinShorter(a: seq<bytes>, b: seq<bytes>)
    requires |a| == |b| > 0 && forall k :: 0 <= k < |a| ==> |a[k]| <= |b[k]|
    ensures |JoinCrlf(a)| <= |JoinCrlf(b)|
  {
    if |a| > 1 {
      JoinShorter(a[1..], b[1..]);
    }
  }

  /** A request that was parsed is well formed, and its tightest text is within
      the head limit. */
  lemma ParsedIsWellFormed(buf: bytes, maxBody: nat)
    requires Parse(buf, maxBody).Ok? && Parse(buf, maxBody).value.Complete?
    ensures var r := Parse(buf, maxBody).value.request;
            WellFormed(r, maxBody) && |HeadText(r, Tight(r.headers))| <= MAX_HEAD_BYTES
  {
    hide FindSubslice; hide HeadOf; hide ValidTarget; hide ValidHeader; hide ValidateHost; hide BodyFraming;
    hide DecodeFrom;
    hide LineText; hide Field.Text;
    var i := FindSubslice(buf, BLANK).value;
    var head := HeadOf(buf[..i + 4]).value;
    var r := Parse(buf, maxBody).value.request;
    HeadIsValid(buf, i, r);
    BodyIsWithin(buf, i + 4, head, maxBody);
  }

  lemma BodyIsWithin(buf: bytes, headEnd: nat, head: RequestHead, maxBody: nat)
    requires headEnd <= |buf| && BodyOf(buf, headEnd, head, maxBody).Ok?
             && BodyOf(buf, headEnd, head, maxBody).value.Complete?
    ensures var body := BodyOf(buf, headEnd, head, maxBody).value.request.body;
            |body| <= maxBody && (head.framing == ChunkedBody || head.framing == Fixed(|body|))
  {
    hide DecodeFrom; hide Encodes;
    if head.framing == ChunkedBody {
      var Decoded(body, consumed) := Decode(buf[headEnd..], maxBody).value;
      DecodesExactlyEncodings(buf[headEnd..], maxBody, body, consumed);
    }
  }

  lemma HeadIsValid(buf: bytes, i: nat, r: Request)
    requires FindSubslice(buf, BLANK) == Some(i) && HeadOf(buf[..i + 4]).Ok?
    requires var head := HeadOf(buf[..i + 4]).value;
             RequestLine(r.verb, r.target, r.version) == head.line && r.headers == head.headers
    ensures ValidTarget(r.target)
    ensures |r.headers| <= MAX_HEADERS && forall h :: h in r.headers ==> ValidHeader(h)
    ensures ValidateHost(r.headers, r.version).Ok? && BodyFraming(r.headers) == Ok(HeadOf(buf[..i + 4]).value.framing)
    ensures |HeadText(r, Tight(r.headers))| <= i
  {
    hide FindFrom; hide SplitFrom; hide RequestLineOf; hide HeadersOf; hide ValidateHost; hide BodyFraming;
    hide ValidTarget; hide ValidHeader; hide LineText; hide HasBareCr; hide JoinCrlf; hide Field.Text;
    var block := buf[..i];
    assert buf[..i + 4] == block + BLANK;
    assert (block + BLANK)[..i] == block;
    var lines := SplitCrlf(block);
    LinesHaveNoCr(block, 0);
    SplitLines(block, 0);
    LineIsValid(lines[0], r);
    HeadersAreValid(lines[1..], []);
    assert r.headers[0..] == r.headers;
    var tight := [LineText(r)] + FieldLines(Tight(r.headers));
    forall k | 0 <= k < |lines| ensures |tight[k]| <= |lines[k]| {
      if k > 0 { assert lines[k] == lines[1..][k - 1]; }
    }
    JoinShorter(tight, lines);
    forall h | h in r.headers ensures ValidHeader(h) {
      var k :| 0 <= k < |r.headers| && r.headers[k] == h;
    }
  }

  /** A body as a single chunk. */
  function OneChunk(body: bytes): Encoding {
    Encoding(if body == [] then [] else [Chunk(Hex(|body|), [], body)], Chunk("0", [], []), [])
  }

  lemma OneChunkEncodes(body: bytes)
    requires |body| <= U64_MAX
    ensures Encodes(OneChunk(body), ChunkedCodec.Text(OneChunk(body)), body, |ChunkedCodec.Text(OneChunk(body))|)
  {
    hide Print; hide ChunkedCodec.Text;
    var e := OneChunk(body);
    ValueOfPrint(|body|, 16);
    assert Value("0", 16) == 0 by { assert "0"[..0] == []; }
    CrFreeIsCrlfFree([]);
    assert HexSize("0") == Ok(0);
    if body != [] {
      assert e.chunks[1..] == [];
      assert Body(e.chunks) == body + [];
    }
  }

  /** The requests that some buffer parses to are exactly the well-formed ones
      whose tightest head is within the limit. */
  lemma ParsesExactlyWellFormed(r: Request, maxBody: nat)
    requires maxBody <= U64_MAX
    ensures (exists buf: bytes, n: nat :: Parse(buf, maxBody) == Ok(Complete(r, n)))
            <==> WellFormed(r, maxBody) && |HeadText(r, Tight(r.headers))| <= MAX_HEAD_BYTES
  {
    hide Parse; hide WellFormed; hide HeadText; hide BodyText;
    if exists buf: bytes, n: nat :: Parse(buf, maxBody) == Ok(Complete(r, n)) {
      var buf: bytes, n: nat :| Parse(buf, maxBody) == Ok(Complete(r, n));
      ParsedIsWellFormed(buf, maxBody);
    }
    if WellFormed(r, maxBody) && |HeadText(r, Tight(r.headers))| <= MAX_HEAD_BYTES {
      var body := TightBody(r, maxBody);
      assert HeadersIn(Tight(r.headers)) == r.headers;
      RequestReads(r, Tight(r.headers), body, [], maxBody);
    }
  }

  lemma TightBody(r: Request, maxBody: nat) returns (body: bytes)
    requires WellFormed(r, maxBody) && maxBody <= U64_MAX
    ensures BodyText(r, body)
  {
    hide BodyFraming; hide Encodes; hide ValidHeader; hide ValidTarget; hide ValidateHost; hide ChunkedCodec.Text;
    if BodyFraming(r.headers) == Ok(ChunkedBody) {
      OneChunkEncodes(r.body);
      body := ChunkedCodec.Text(OneChunk(r.body));
    } else {
      body := r.body;
    }
  }
}
