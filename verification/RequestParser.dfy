/** The incremental request parser. */
module RequestParser {
  import opened Bytes
  import opened Ascii
  import opened Numerals
  import opened Utf8
  import opened Http
  import opened Chunked

  // ----- request line -----

  function VersionOf(token: bytes): Result<Version, ParseError> {
    if !("HTTP/" <= token) then Err(MalformedRequestLine)
    else
      var rest := token[5..];
      match IndexOf(rest, '.')
      case None => Err(MalformedRequestLine)
      case Some(dot) =>
        var major, minor := rest[..dot], rest[dot + 1..];
        if major == [] || minor == [] || !AllDigits(major) || !AllDigits(minor) then Err(MalformedRequestLine)
        else if SaturatedU32(major) != 1 then Err(UnsupportedVersion)
        else if SaturatedU32(minor) == 0 then Ok(Http10)
        else Ok(Http11)
  }

  datatype RequestLine = RequestLine(verb: Method, target: bytes, version: Version)

  function RequestLineOf(line: bytes): Result<RequestLine, ParseError> {
    match IndexOf(line, ' ')
    case None => Err(MalformedRequestLine)
    case Some(i) =>
      var rest := line[i + 1..];
      match IndexOf(rest, ' ')
      case None => Err(MalformedRequestLine)
      case Some(j) =>
        var methodTok, targetTok, versionTok := line[..i], rest[..j], rest[j + 1..];
        if ' ' in versionTok then Err(MalformedRequestLine)
        else
          match Method.FromBytes(methodTok)
          case None => if IsToken(methodTok) then Err(UnknownMethod) else Err(MalformedRequestLine)
          case Some(verb) =>
            if |targetTok| > MAX_TARGET_BYTES then Err(TargetTooLong)
            else if !ValidUtf8(targetTok) || targetTok == [] then Err(MalformedRequestLine)
            else
              var version :- VersionOf(versionTok);
              Ok(RequestLine(verb, targetTok, version))
  }

  // ----- header fields -----

  function HeaderOf(line: bytes): Result<Header, ParseError> {
    match IndexOf(line, ':')
    case None => Err(MalformedHeader)
    case Some(colon) =>
      var name, value := line[..colon], TrimmedOws(line[colon + 1..]);
      if !IsToken(name) then Err(MalformedHeader)
      else if !ValidUtf8(name) || !ValidUtf8(value) then Err(MalformedHeader)
      else Ok(Header(name, value))
  }

  method ParseHeaderLine(line: bytes) returns (r: Result<Header, ParseError>)
    ensures r == HeaderOf(line)
  {
    var colon := IndexOf(line, ':');
    if colon.None? || !IsToken(line[..colon.value]) {
      return Err(MalformedHeader);
    }
    var value := TrimOws(line[colon.value + 1..]);
    if !ValidUtf8(line[..colon.value]) || !ValidUtf8(value) {
      return Err(MalformedHeader);
    }
    return Ok(Header(line[..colon.value], value));
  }

  /** The fields of the header lines, given the fields before them. */
  function HeadersOf(lines: seq<bytes>, before: seq<Header>): Result<seq<Header>, ParseError> {
    if lines == [] then Ok(before)
    else if lines[0] == [] then Err(MalformedHeader)
    else if |before| >= MAX_HEADERS then Err(TooManyHeaders)
    else
      var header :- HeaderOf(lines[0]);
      HeadersOf(lines[1..], before + [header])
  }

  predicate HasBareCr(head: bytes) {
    exists i :: 0 <= i < |head| && head[i] == '\r' && !(i + 1 < |head| && head[i + 1] == '\n')
  }

  // ----- host and framing -----

  predicate IsValidHostValue(host: bytes) {
    host != [] && forall i :: 0 <= i < |host| ==> host[i] > ' ' && host[i] as int != 0x7f
  }

  function ValidateHost(headers: seq<Header>, version: Version): Result<(), ParseError> {
    var hosts := Named(headers, "host");
    if |hosts| > 1 then Err(BadHost)
    else if |hosts| == 1 then
      if IsValidHostValue(hosts[0].value) then Ok(()) else Err(BadHost)
    else if version == Http11 then Err(BadHost)
    else Ok(())
  }

  datatype Framing = Fixed(length: nat) | ChunkedBody

  function BodyFraming(headers: seq<Header>): Result<Framing, ParseError> {
    var codings, lengths := Named(headers, "transfer-encoding"), Named(headers, "content-length");
    if codings != [] && lengths != [] then Err(ConflictingFraming)
    else if codings != [] then
      if |codings| == 1 && EqIgnoreCase(Trim(codings[0].value), "chunked") then Ok(ChunkedBody)
      else Err(UnsupportedTransferEncoding)
    else if |lengths| > 1 then Err(BadContentLength)
    else if |lengths| == 1 then
      var raw := Trim(lengths[0].value);
      if raw == [] || !AllDigits(raw) then Err(BadContentLength)
      else match ParseU64(raw) case Some(length) => Ok(Fixed(length)) case None => Err(BadContentLength)
    else Ok(Fixed(0))
  }

  // ----- the head -----

  datatype RequestHead = RequestHead(line: RequestLine, headers: seq<Header>, framing: Framing)

  /** The verdict on a head, its terminating blank line included. */
  function HeadOf(head: bytes): Result<RequestHead, ParseError>
    requires |head| >= 4
  {
    if HasBareCr(head) then Err(BareCr)
    else
      var lines := SplitCrlf(head[..|head| - 4]);
      var line :- RequestLineOf(lines[0]);
      var headers :- HeadersOf(lines[1..], []);
      var _ :- ValidateHost(headers, line.version);
      var framing :- BodyFraming(headers);
      Ok(RequestHead(line, headers, framing))
  }

  // ----- the whole request -----

  function MakeRequest(head: RequestHead, body: bytes): Request {
    Request(head.line.verb, head.line.target, head.line.version, head.headers, body)
  }

  /** The verdict on the body of a request whose head ends at `headEnd`. */
  function BodyOf(buf: bytes, headEnd: nat, head: RequestHead, maxBody: nat): (r: Result<Parsed, ParseError>)
    requires headEnd <= |buf|
    ensures r.Ok? && r.value.Complete? ==> headEnd <= r.value.consumed <= |buf|
  {
    match head.framing
    case Fixed(length) =>
      if length > maxBody then Err(BodyTooLarge)
      else if |buf| < headEnd + length then Ok(Partial)
      else Ok(Complete(MakeRequest(head, buf[headEnd..headEnd + length]), headEnd + length))
    case ChunkedBody =>
      var outcome :- Decode(buf[headEnd..], maxBody);
      match outcome
      case Unfinished => Ok(Partial)
      case Decoded(body, consumed) => Ok(Complete(MakeRequest(head, body), headEnd + consumed))
  }

  /** The verdict on a buffer; a complete request lies within it and takes at
      least its blank line. */
  function Parse(buf: bytes, maxBody: nat): (r: Result<Parsed, ParseError>)
    ensures r.Ok? && r.value.Complete? ==> 4 <= r.value.consumed <= |buf|
  {
    match FindSubslice(buf, BLANK)
    case None => if |buf| > MAX_HEAD_BYTES then Err(HeadTooLarge) else Ok(Partial)
    case Some(i) =>
      if i > MAX_HEAD_BYTES then Err(HeadTooLarge)
      else
        var head :- HeadOf(buf[..i + 4]);
        BodyOf(buf, i + 4, head, maxBody)
  }

  /** The line iterator of the source, run to its end. */
  method SplitLinesOf(block: bytes) returns (lines: seq<bytes>)
    ensures lines == SplitCrlf(block)
  {
    hide FindFrom;
    lines := [];
    var pos := 0;
    while true
      invariant pos <= |block| && lines + SplitFrom(block, pos) == SplitCrlf(block)
      decreases |block| - pos
    {
      var found := FindLine(block, pos);
      if found.None? {
        lines := lines + [block[pos..]];
        return;
      }
      assert lines + SplitFrom(block, pos)
          == lines + [block[pos..pos + found.value]] + SplitFrom(block, pos + found.value + 2);
      lines := lines + [block[pos..pos + found.value]];
      pos := pos + found.value + 2;
    }
  }

  method ParseWith(buf: bytes, maxBody: nat) returns (r: Result<Parsed, ParseError>)
    ensures r == Parse(buf, maxBody)
  {
    hide FindFrom; hide SplitFrom; hide RequestLineOf; hide HeaderOf; hide ValidateHost; hide BodyFraming;
    hide DecodeFrom;
    var found := FindSubslice(buf, BLANK);
    if found.None? {
      return if |buf| > MAX_HEAD_BYTES then Err(HeadTooLarge) else Ok(Partial);
    }
    if found.value > MAX_HEAD_BYTES {
      return Err(HeadTooLarge);
    }
    var headEnd := found.value + 4;
    var headBytes := buf[..headEnd];
    if HasBareCr(headBytes) {
      return Err(BareCr);
    }
    assert headBytes[..|headBytes| - 4] == buf[..headEnd - 4];
    var lines := SplitLinesOf(buf[..headEnd - 4]);
    var line := RequestLineOf(lines[0]);
    if line.Err? {
      return Err(line.error);
    }
    var headers := ParseHeaders(lines[1..]);
    if headers.Err? {
      return Err(headers.error);
    }
    var host := ValidateHost(headers.value, line.value.version);
    if host.Err? {
      return Err(host.error);
    }
    var framing := BodyFraming(headers.value);
    if framing.Err? {
      return Err(framing.error);
    }
    var head := RequestHead(line.value, headers.value, framing.value);
    match framing.value
    case Fixed(length) =>
      if length > maxBody {
        return Err(BodyTooLarge);
      }
      if |buf| < headEnd + length {
        return Ok(Partial);
      }
      return Ok(Complete(MakeRequest(head, buf[headEnd..headEnd + length]), headEnd + length));
    case ChunkedBody =>
      var outcome := DecodeChunked(buf[headEnd..], maxBody);
      match outcome
      case Err(e) => return Err(e);
      case Ok(Unfinished) => return Ok(Partial);
      case Ok(Decoded(body, consumed)) => return Ok(Complete(MakeRequest(head, body), headEnd + consumed));
  }

  /** The header loop of the parser. */
  method ParseHeaders(lines: seq<bytes>) returns (r: Result<seq<Header>, ParseError>)
    ensures r == HeadersOf(lines, [])
  {
    hide HeaderOf;
    var headers := [];
    for k := 0 to |lines|
      invariant HeadersOf(lines, []) == HeadersOf(lines[k..], headers)
    {
      if lines[k] == [] {
        return Err(MalformedHeader);
      }
      if |headers| >= MAX_HEADERS {
        return Err(TooManyHeaders);
      }
      var header := ParseHeaderLine(lines[k]);
      if header.Err? {
        return Err(header.error);
      }
      assert lines[k..][1..] == lines[k + 1..];
      headers := headers + [header.value];
    }
    return Ok(headers);
  }

  // ----- the Expect scanner -----

  datatype ExpectAction = NoExpect | Continue | Unsupported

  /** What the first `Expect` field among raw header lines asks for. */
  function ExpectOf(lines: seq<bytes>): ExpectAction {
    if lines == [] then NoExpect
    else
      match IndexOf(lines[0], ':')
      case Some(colon) =>
        if EqIgnoreCase(lines[0][..colon], "expect") then
          if EqIgnoreCase(TrimmedOws(lines[0][colon + 1..]), "100-continue") then Continue else Unsupported
        else ExpectOf(lines[1..])
      case None => ExpectOf(lines[1..])
  }

  function Expectation(buf: bytes): ExpectAction {
    match FindSubslice(buf, BLANK)
    case None => NoExpect
    case Some(i) => ExpectOf(SplitCrlf(buf[..i])[1..])
  }

  method FindExpectation(buf: bytes) returns (r: ExpectAction)
    ensures r == Expectation(buf)
  {
    hide FindFrom; hide SplitFrom; hide IndexOf; hide TrimmedOws;
    var found := FindSubslice(buf, BLANK);
    if found.None? {
      return NoExpect;
    }
    var all := SplitLinesOf(buf[..found.value]);
    var lines := all[1..];
    for k := 0 to |lines|
      invariant ExpectOf(lines) == ExpectOf(lines[k..])
    {
      var colon := IndexOf(lines[k], ':');
      if colon.Some? && EqIgnoreCase(lines[k][..colon.value], "expect") {
        var value := TrimOws(lines[k][colon.value + 1..]);
        return if EqIgnoreCase(value, "100-continue") then Continue else Unsupported;
      }
      assert lines[k..][1..] == lines[k + 1..];
    }
    return NoExpect;
  }
}
