/** The decoder accepts exactly the encodings of section 7.1 of RFC 9112. */
module ChunkedCodec {
  import opened Bytes
  import Numerals
  import opened Http
  import opened Chunked

  /** One chunk: its size in hexadecimal, its extensions verbatim, its data. */
  datatype Chunk = Chunk(size: bytes, ext: bytes, data: bytes)

  /** A chunked body: data chunks, the zero-size chunk, trailer lines. */
  datatype Encoding = Encoding(chunks: seq<Chunk>, last: Chunk, trailers: seq<bytes>)

  ghost predicate ValidSizeLine(c: Chunk) {
    HexSize(c.size) == Ok(|c.data|) && CrlfFree(c.ext) && (c.ext != [] ==> c.ext[0] == ';')
  }

  ghost predicate ValidChunks(chunks: seq<Chunk>) {
    forall c :: c in chunks ==> ValidSizeLine(c) && c.data != []
  }

  ghost predicate ValidTrailers(trailers: seq<bytes>) {
    forall t :: t in trailers ==> CrlfFree(t) && t != []
  }

  ghost predicate Valid(e: Encoding) {
    ValidChunks(e.chunks) && ValidSizeLine(e.last) && e.last.data == [] && ValidTrailers(e.trailers)
  }

  function ChunkText(c: Chunk): bytes {
    c.size + c.ext + CRLF + (c.data + CRLF)
  }

  function ChunksText(chunks: seq<Chunk>): bytes {
    if chunks == [] then [] else ChunkText(chunks[0]) + ChunksText(chunks[1..])
  }

  function TrailersText(trailers: seq<bytes>): bytes {
    if trailers == [] then CRLF else trailers[0] + CRLF + TrailersText(trailers[1..])
  }

  function EndText(e: Encoding): bytes {
    e.last.size + e.last.ext + CRLF + TrailersText(e.trailers)
  }

  function Text(e: Encoding): bytes {
    ChunksText(e.chunks) + EndText(e)
  }

  function Body(chunks: seq<Chunk>): bytes {
    if chunks == [] then [] else chunks[0].data + Body(chunks[1..])
  }

  // ----- every encoding decodes -----

  /** The size line of a chunk: where it ends and what its token says. */
  lemma SizeLineRead(buf: bytes, pos: nat, c: Chunk)
    requires pos <= |buf| && ValidSizeLine(c) && MatchAt(buf, c.size + c.ext + CRLF, pos)
    ensures FindFrom(buf, CRLF, pos) == Some(pos + |c.size + c.ext|)
    ensures SizeToken(buf[pos..pos + |c.size + c.ext|]) == c.size
  {
    hide HexSize; hide FindFrom;
    var line := c.size + c.ext;
    MatchConcat(buf, line, CRLF, pos);
    SizeLineIsFree(c);
    LineEnd(buf, pos, line);
    assert buf[pos..pos + |line|] == line;
    if c.ext != [] {
      assert line[..|c.size|] == c.size;
      IndexOfIs(line, ';', |c.size|);
    } else {
      assert line == c.size;
    }
  }

  lemma SizeLineIsFree(c: Chunk)
    requires ValidSizeLine(c)
    ensures CrlfFree(c.size + c.ext) && ';' !in c.size
  {
    hide Numerals.Value;
    var line := c.size + c.ext;
    forall i: nat ensures !MatchAt(line, CRLF, i) {
      CrlfAt(line, i);
      if |c.size| <= i {
        CrlfAt(c.ext, i - |c.size|);
      } else {
        assert line[i] == c.size[i];
      }
    }
  }

  /** A data chunk is read as one step of the decoder. */
  lemma ChunkRead(buf: bytes, pos: nat, c: Chunk, body: bytes, maxBody: nat)
    requires pos <= |buf| && ValidSizeLine(c) && c.data != [] && MatchAt(buf, ChunkText(c), pos)
    ensures DecodeFrom(buf, pos, body, maxBody) ==
            if |body + c.data| > maxBody then Err(BodyTooLarge)
            else DecodeFrom(buf, pos + |ChunkText(c)|, body + c.data, maxBody)
  {
    hide FindFrom; hide SizeToken; hide HexSize; hide SkipTrailers;
    var head := c.size + c.ext + CRLF;
    MatchConcat(buf, head, c.data + CRLF, pos);
    MatchConcat(buf, c.data, CRLF, pos + |head|);
    SizeLineRead(buf, pos, c);
    assert buf[pos + |head|..pos + |head| + |c.data|] == c.data;
  }

  lemma {:induction false} TrailersRead(buf: bytes, pos: nat, trailers: seq<bytes>)
    requires pos <= |buf| && ValidTrailers(trailers) && MatchAt(buf, TrailersText(trailers), pos)
    ensures SkipTrailers(buf, pos) == Ok(Some(pos + |TrailersText(trailers)|))
    decreases |trailers|
  {
    hide FindFrom;
    if trailers == [] {
      assert CrlfFree([]);
      LineEnd(buf, pos, []);
    } else {
      var t := trailers[0];
      MatchConcat(buf, t + CRLF, TrailersText(trailers[1..]), pos);
      MatchConcat(buf, t, CRLF, pos);
      LineEnd(buf, pos, t);
      TrailersRead(buf, pos + |t| + 2, trailers[1..]);
    }
  }

  lemma EndRead(buf: bytes, pos: nat, e: Encoding, body: bytes, maxBody: nat)
    requires pos <= |buf| && Valid(e) && MatchAt(buf, EndText(e), pos)
    ensures DecodeFrom(buf, pos, body, maxBody) == Ok(Decoded(body, pos + |EndText(e)|))
  {
    hide FindFrom; hide SizeToken; hide HexSize; hide SkipTrailers;
    var head := e.last.size + e.last.ext + CRLF;
    MatchConcat(buf, head, TrailersText(e.trailers), pos);
    SizeLineRead(buf, pos, e.last);
    TrailersRead(buf, pos + |head|, e.trailers);
  }

  /** Decoding from where the rest of an encoding begins. */
  lemma {:induction false} DecodeRest(buf: bytes, pos: nat, e: Encoding, body: bytes, maxBody: nat)
    requires pos <= |buf| && Valid(e) && |body| <= maxBody && MatchAt(buf, Text(e), pos)
    ensures DecodeFrom(buf, pos, body, maxBody) ==
            if |body + Body(e.chunks)| > maxBody then Err(BodyTooLarge)
            else Ok(Decoded(body + Body(e.chunks), pos + |Text(e)|))
    decreases |e.chunks|
  {
    hide DecodeFrom; hide ValidSizeLine; hide ChunkText; hide TrailersText; hide ValidTrailers; hide MatchAt;
    MatchConcat(buf, ChunksText(e.chunks), EndText(e), pos);
    if e.chunks == [] {
      EndRead(buf, pos, e, body, maxBody);
      assert body + [] == body;
    } else {
      var c, rest := e.chunks[0], e.(chunks := e.chunks[1..]);
      MatchConcat(buf, ChunkText(c), ChunksText(rest.chunks), pos);
      MatchConcat(buf, ChunksText(rest.chunks), EndText(rest), pos + |ChunkText(c)|);
      MatchFits(buf, ChunkText(c), pos);
      ChunkRead(buf, pos, c, body, maxBody);
      assert body + Body(e.chunks) == body + c.data + Body(rest.chunks);
      if |body + c.data| <= maxBody {
        DecodeRest(buf, pos + |ChunkText(c)|, rest, body + c.data, maxBody);
      }
    }
  }

  /** Every encoding decodes to its body, whatever follows it; only the body
      limit can refuse it. */
  lemma DecodeOfText(e: Encoding, ext: bytes, maxBody: nat)
    requires Valid(e)
    ensures Decode(Text(e) + ext, maxBody) ==
            if |Body(e.chunks)| > maxBody then Err(BodyTooLarge)
            else Ok(Decoded(Body(e.chunks), |Text(e)|))
  {
    hide DecodeFrom; hide HexSize;
    DecodeRest(Text(e) + ext, 0, e, [], maxBody);
    assert [] + Body(e.chunks) == Body(e.chunks);
  }

  // ----- everything decoded is an encoding -----

  lemma LineThere(buf: bytes, pos: nat, k: nat)
    requires pos <= |buf| && FindFrom(buf, CRLF, pos) == Some(k)
    ensures pos <= k && k + 2 <= |buf| && MatchAt(buf, buf[pos..k], pos) && MatchAt(buf, CRLF, k)
  {
    hide FindFrom;
  }

  /** The size token is a front of its line, and extensions start at a semicolon. */
  lemma TokenEnds(line: bytes)
    ensures var size := SizeToken(line);
            |size| <= |line| && size == line[..|size|] && (|size| < |line| ==> line[|size|] == ';')
  {
    hide IndexOf;
  }

  lemma SizeLineParses(buf: bytes, pos: nat, k: nat, data: bytes) returns (c: Chunk)
    requires pos <= |buf| && FindFrom(buf, CRLF, pos) == Some(k)
    requires HexSize(SizeToken(buf[pos..k])) == Ok(|data|)
    ensures c.data == data && ValidSizeLine(c)
    ensures MatchAt(buf, c.size + c.ext + CRLF, pos) && pos + |c.size + c.ext| == k
  {
    hide HexSize; hide FindFrom; hide SizeToken; hide MatchAt; hide CrlfFree;
    LineThere(buf, pos, k);
    var line := buf[pos..k];
    var size := SizeToken(line);
    TokenEnds(line);
    c := Chunk(size, line[|size|..], data);
    assert line == size + c.ext;
    MatchConcat(buf, line, CRLF, pos);
    LineIsFree(buf, pos, k);
    SuffixIsFree(line, |size|);
  }

  lemma {:induction false} TrailersParse(buf: bytes, pos: nat) returns (trailers: seq<bytes>)
    requires pos <= |buf| && SkipTrailers(buf, pos).Ok? && SkipTrailers(buf, pos).value.Some?
    ensures ValidTrailers(trailers) && MatchAt(buf, TrailersText(trailers), pos)
    ensures SkipTrailers(buf, pos) == Ok(Some(pos + |TrailersText(trailers)|))
    decreases |buf| - pos
  {
    hide FindFrom;
    var k := FindFrom(buf, CRLF, pos).value;
    if k == pos {
      trailers := [];
    } else {
      var rest := TrailersParse(buf, k + 2);
      var t := buf[pos..k];
      trailers := [t] + rest;
      MatchConcat(buf, t + CRLF, TrailersText(rest), pos);
      MatchConcat(buf, t, CRLF, pos);
      LineIsFree(buf, pos, k);
    }
  }

  lemma EndParses(buf: bytes, pos: nat, k: nat) returns (e: Encoding)
    requires pos <= |buf| && FindFrom(buf, CRLF, pos) == Some(k) && HexSize(SizeToken(buf[pos..k])) == Ok(0)
    requires SkipTrailers(buf, k + 2).Ok? && SkipTrailers(buf, k + 2).value.Some?
    ensures Valid(e) && e.chunks == [] && MatchAt(buf, Text(e), pos)
    ensures SkipTrailers(buf, k + 2).value.value == pos + |Text(e)|
  {
    hide FindFrom; hide SizeToken; hide HexSize; hide SkipTrailers; hide MatchAt; hide ValidSizeLine;
    hide ValidTrailers;
    hide TrailersText;
    var last := SizeLineParses(buf, pos, k, []);
    var trailers := TrailersParse(buf, k + 2);
    e := Encoding([], last, trailers);
    MatchConcat(buf, last.size + last.ext + CRLF, TrailersText(trailers), pos);
    assert Text(e) == EndText(e);
  }

  lemma {:induction false} DecodedParses(buf: bytes, pos: nat, body: bytes, maxBody: nat) returns (e: Encoding)
    requires pos <= |buf| && DecodeFrom(buf, pos, body, maxBody).Ok?
             && DecodeFrom(buf, pos, body, maxBody).value.Decoded?
    ensures Valid(e) && MatchAt(buf, Text(e), pos)
    ensures DecodeFrom(buf, pos, body, maxBody) == Ok(Decoded(body + Body(e.chunks), pos + |Text(e)|))
    decreases |buf| - pos
  {
    hide FindFrom; hide SizeToken; hide HexSize; hide SkipTrailers; hide Valid; hide Text; hide ChunkText;
    hide ValidSizeLine;
    hide Body; hide MatchAt;
    var k := FindFrom(buf, CRLF, pos).value;
    var size := HexSize(SizeToken(buf[pos..k])).value;
    if size == 0 {
      e := EndParses(buf, pos, k);
      NoBody(body);
    } else {
      var data := buf[k + 2..k + 2 + size];
      var c := SizeLineParses(buf, pos, k, data);
      var rest := DecodedParses(buf, k + 2 + size + 2, body + data, maxBody);
      e := rest.(chunks := [c] + rest.chunks);
      ChunkThere(buf, k + 2, size);
      ChunkTextFound(buf, pos, k, c);
      ChunkBefore(c, rest);
      MatchConcat(buf, ChunkText(c), Text(rest), pos);
      assert body + (data + Body(rest.chunks)) == body + data + Body(rest.chunks);
    }
  }

  lemma ChunkThere(buf: bytes, start: nat, size: nat)
    requires start + size + 2 <= |buf| && buf[start + size..start + size + 2] == CRLF
    ensures MatchAt(buf, buf[start..start + size], start) && MatchAt(buf, CRLF, start + size)
  {
  }

  lemma NoBody(body: bytes)
    ensures body + Body([]) == body
  {
  }

  lemma ChunkBefore(c: Chunk, rest: Encoding)
    requires Valid(rest) && ValidSizeLine(c) && c.data != []
    ensures var e := rest.(chunks := [c] + rest.chunks);
            Valid(e) && Text(e) == ChunkText(c) + Text(rest) && Body(e.chunks) == c.data + Body(rest.chunks)
  {
    hide ValidSizeLine; hide ValidTrailers; hide ChunkText; hide TrailersText;
    var e := rest.(chunks := [c] + rest.chunks);
    assert e.chunks[1..] == rest.chunks;
    assert EndText(e) == EndText(rest);
  }

  lemma ChunkTextFound(buf: bytes, pos: nat, k: nat, c: Chunk)
    requires pos <= k && pos + |c.size + c.ext| == k && MatchAt(buf, c.size + c.ext + CRLF, pos)
    requires MatchAt(buf, c.data, k + 2) && MatchAt(buf, CRLF, k + 2 + |c.data|)
    ensures MatchAt(buf, ChunkText(c), pos) && pos + |ChunkText(c)| == k + 2 + |c.data| + 2
  {
    MatchConcat(buf, c.data, CRLF, k + 2);
    MatchConcat(buf, c.size + c.ext + CRLF, c.data + CRLF, pos);
  }

  ghost predicate Encodes(e: Encoding, buf: bytes, body: bytes, consumed: nat) {
    Valid(e) && Text(e) <= buf && |Text(e)| == consumed && Body(e.chunks) == body
  }

  /** The decoder completes on exactly the encodings of bodies within the limit. */
  lemma DecodesExactlyEncodings(buf: bytes, maxBody: nat, body: bytes, consumed: nat)
    ensures Decode(buf, maxBody) == Ok(Decoded(body, consumed))
            <==> |body| <= maxBody && exists e: Encoding :: Encodes(e, buf, body, consumed)
  {
    hide DecodeFrom; hide HexSize;
    if exists e: Encoding :: Encodes(e, buf, body, consumed) {
      var e: Encoding :| Encodes(e, buf, body, consumed);
      DecodeOfText(e, buf[consumed..], maxBody);
      assert buf == Text(e) + buf[consumed..];
    }
    if Decode(buf, maxBody) == Ok(Decoded(body, consumed)) {
      var e := DecodedParses(buf, 0, [], maxBody);
      assert [] + Body(e.chunks) == body;
      DecodeOfText(e, buf[consumed..], maxBody);
      assert buf == Text(e) + buf[consumed..];
      assert Encodes(e, buf, body, consumed);
    }
  }

  /** What was decoded does not change when the bytes after it do. */
  lemma DecodedIsStable(buf: bytes, other: bytes, maxBody: nat)
    requires Decode(buf, maxBody).Ok? && Decode(buf, maxBody).value.Decoded?
    requires Decode(buf, maxBody).value.consumed <= |other|
    requires other[..Decode(buf, maxBody).value.consumed] == buf[..Decode(buf, maxBody).value.consumed]
    ensures Decode(other, maxBody) == Decode(buf, maxBody)
  {
    hide DecodeFrom; hide HexSize; hide Text;
    var Decoded(body, consumed) := Decode(buf, maxBody).value;
    DecodesExactlyEncodings(buf, maxBody, body, consumed);
    var e: Encoding :| Encodes(e, buf, body, consumed);
    assert Text(e) == buf[..consumed];
    assert Encodes(e, other, body, consumed);
    DecodesExactlyEncodings(other, maxBody, body, consumed);
  }
}
