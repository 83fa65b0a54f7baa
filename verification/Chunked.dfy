/** The chunked transfer decoder against the grammar of chunked bodies
    (section 7.1 of RFC 9112). */
module Chunked {
  import opened Bytes
  import opened Numerals
  import opened Http

  datatype ChunkOutcome = Unfinished | Decoded(body: bytes, consumed: nat)

  // ----- chunk sizes -----

  /** A chunk size: hexadecimal digits that fit a 64-bit `usize`. */
  function HexSize(s: bytes): Result<nat, ParseError> {
    if s != [] && AllHex(s) && Value(s, 16) <= U64_MAX then Ok(Value(s, 16)) else Err(MalformedChunk)
  }

  method ParseHex(s: bytes) returns (r: Result<nat, ParseError>)
    ensures r == HexSize(s)
  {
    if s == [] {
      return Err(MalformedChunk);
    }
    var value := 0;
    for i := 0 to |s|
      invariant AllHex(s[..i]) && value == Value(s[..i], 16) <= U64_MAX
    {
      if !IsHexDigit(s[i]) {
        return Err(MalformedChunk);
      }
      assert s[..i + 1][..i] == s[..i];
      value := value * 16 + HexDigitValue(s[i]);
      if value > U64_MAX {
        if AllHex(s) { ValueGrows(s, i + 1, 16); }
        return Err(MalformedChunk);
      }
    }
    assert s[..|s|] == s;
    return Ok(value);
  }

  /** The size token of a size line: what precedes any extension. */
  function SizeToken(line: bytes): bytes {
    match IndexOf(line, ';') case Some(i) => line[..i] case None => line
  }

  // ----- the decoder as a function of positions -----

  /** Skips trailer lines; the position after the final blank line. */
  function SkipTrailers(buf: bytes, pos: nat): (r: Result<Option<nat>, ParseError>)
    requires pos <= |buf|
    ensures r.Ok? && r.value.Some? ==> pos < r.value.value <= |buf|
    decreases |buf| - pos
  {
    match FindFrom(buf, CRLF, pos)
    case None => if |buf| - pos > MAX_CHUNK_LINE_BYTES then Err(MalformedChunk) else Ok(None)
    case Some(k) => if k == pos then Ok(Some(pos + 2)) else SkipTrailers(buf, k + 2)
  }

  function DecodeFrom(buf: bytes, pos: nat, body: bytes, maxBody: nat): (r: Result<ChunkOutcome, ParseError>)
    requires pos <= |buf|
    ensures r.Ok? && r.value.Decoded? ==> pos < r.value.consumed <= |buf|
    decreases |buf| - pos
  {
    match FindFrom(buf, CRLF, pos)
    case None => if |buf| - pos > MAX_CHUNK_LINE_BYTES then Err(MalformedChunk) else Ok(Unfinished)
    case Some(k) =>
      var size :- HexSize(SizeToken(buf[pos..k]));
      if size == 0 then
        var skipped :- SkipTrailers(buf, k + 2);
        match skipped
        case None => Ok(Unfinished)
        case Some(end) => Ok(Decoded(body, end))
      else if |buf| < k + 2 + size + 2 then Ok(Unfinished)
      else if buf[k + 2 + size..k + 2 + size + 2] != CRLF then Err(MalformedChunk)
      else if |body + buf[k + 2..k + 2 + size]| > maxBody then Err(BodyTooLarge)
      else DecodeFrom(buf, k + 2 + size + 2, body + buf[k + 2..k + 2 + size], maxBody)
  }

  function Decode(buf: bytes, maxBody: nat): Result<ChunkOutcome, ParseError> {
    DecodeFrom(buf, 0, [], maxBody)
  }

  // ----- the loops of the source -----

  /** The source's search of the bytes from `pos` on. */
  method FindLine(buf: bytes, pos: nat) returns (found: Option<nat>)
    requires pos <= |buf|
    ensures found.None? ==> FindFrom(buf, CRLF, pos) == None
    ensures found.Some? ==> FindFrom(buf, CRLF, pos) == Some(pos + found.value)
  {
    FindInSuffix(buf, CRLF, pos);
    found := FindSubslice(buf[pos..], CRLF);
  }

  method DecodeChunked(buf: bytes, maxBody: nat) returns (r: Result<ChunkOutcome, ParseError>)
    ensures r == Decode(buf, maxBody)
  {
    hide FindFrom; hide SkipTrailers; hide HexSize; hide SizeToken;
    var pos := 0;
    var body := [];
    while true
      invariant pos <= |buf|
      invariant Decode(buf, maxBody) == DecodeFrom(buf, pos, body, maxBody)
      decreases |buf| - pos
    {
      var found := FindLine(buf, pos);
      if found.None? {
        return if |buf| - pos > MAX_CHUNK_LINE_BYTES then Err(MalformedChunk) else Ok(Unfinished);
      }
      var sizeLine := buf[pos..pos + found.value];
      var size := ParseHex(SizeToken(sizeLine));
      if size.Err? {
        return Err(size.error);
      }
      var dataStart := pos + found.value + 2;
      if size.value == 0 {
        r := ReadTrailers(buf, dataStart, body);
        return;
      }
      var dataEnd := dataStart + size.value;
      if |buf| < dataEnd + 2 {
        return Ok(Unfinished);
      }
      if buf[dataEnd..dataEnd + 2] != CRLF {
        return Err(MalformedChunk);
      }
      body := body + buf[dataStart..dataEnd];
      if |body| > maxBody {
        return Err(BodyTooLarge);
      }
      pos := dataEnd + 2;
    }
  }

  method ReadTrailers(buf: bytes, start: nat, body: bytes) returns (r: Result<ChunkOutcome, ParseError>)
    requires start <= |buf|
    ensures SkipTrailers(buf, start).Err? ==> r == Err(SkipTrailers(buf, start).error)
    ensures SkipTrailers(buf, start) == Ok(None) ==> r == Ok(Unfinished)
    ensures forall end :: SkipTrailers(buf, start) == Ok(Some(end)) ==> r == Ok(Decoded(body, end))
  {
    hide FindFrom; hide MatchAt;
    var tpos := start;
    while true
      invariant tpos <= |buf| && SkipTrailers(buf, tpos) == SkipTrailers(buf, start)
      decreases |buf| - tpos
    {
      var found := FindLine(buf, tpos);
      if found.None? {
        return if |buf| - tpos > MAX_CHUNK_LINE_BYTES then Err(MalformedChunk) else Ok(Unfinished);
      }
      if found.value == 0 {
        return Ok(Decoded(body, tpos + 2));
      }
      MatchFits(buf, CRLF, tpos + found.value);
      tpos := tpos + found.value + 2;
    }
  }
}
