/** Streams whose framing lines are short: conditions that a sender can check, under
    which segmentation cannot matter. */
module ShortLines {
  import opened Bytes
  import opened Http
  import opened Chunked
  import opened ChunkedCodec
  import opened RequestParser
  import opened Verdicts
  import opened Segmentation
  import Connections
  import opened Draining

  // ----- encodings with short lines -----

  predicate IsShort(c: Chunk) {
    |c.size + c.ext| < 8192
  }

  /** Every size line and every trailer line is shorter than the line limit. */
  predicate HasShortLines(e: Encoding) {
    && (forall c :: c in e.chunks ==> IsShort(c)) && IsShort(e.last)
    && forall t :: t in e.trailers ==> |t| < 8192
  }

  lemma {:induction false} TrailersAreShort(buf: bytes, pos: nat, trailers: seq<bytes>)
    requires pos <= |buf| && ValidTrailers(trailers) && MatchAt(buf, TrailersText(trailers), pos)
    requires forall t :: t in trailers ==> |t| < 8192
    ensures !LongTrailer(buf, pos)
    decreases |trailers|
  {
    hide FindFrom;
    if trailers == [] {
      assert CrlfFree([]);
      LineEnd(buf, pos, []);
    } else {
      var t := trailers[0];
      MatchConcat(buf, t + CRLF, TrailersText(trailers[1..]), pos);
      MatchConcat(buf, t, CRLF, pos);
      LineEnd(buf, pos, t);
      TrailersAreShort(buf, pos + |t| + 2, trailers[1..]);
    }
  }

  lemma ChunkIsShort(buf: bytes, pos: nat, c: Chunk, bodyLength: nat, maxBody: nat)
    requires pos <= |buf| && ValidSizeLine(c) && c.data != [] && IsShort(c) && MatchAt(buf, ChunkText(c), pos)
    ensures pos + |ChunkText(c)| <= |buf|
    ensures LongLine(buf, pos, bodyLength, maxBody) ==>
              LongLine(buf, pos + |ChunkText(c)|, bodyLength + |c.data|, maxBody)
  {
    hide FindFrom; hide SizeToken; hide HexSize; hide LongTrailer;
    var head := c.size + c.ext + CRLF;
    MatchConcat(buf, head, c.data + CRLF, pos);
    MatchConcat(buf, c.data, CRLF, pos + |head|);
    SizeLineRead(buf, pos, c);
  }

  lemma EndIsShort(buf: bytes, pos: nat, e: Encoding, bodyLength: nat, maxBody: nat)
    requires pos <= |buf| && Valid(e) && HasShortLines(e) && MatchAt(buf, EndText(e), pos)
    ensures !LongLine(buf, pos, bodyLength, maxBody)
  {
    hide FindFrom; hide SizeToken; hide HexSize; hide LongTrailer;
    var head := e.last.size + e.last.ext + CRLF;
    MatchConcat(buf, head, TrailersText(e.trailers), pos);
    SizeLineRead(buf, pos, e.last);
    TrailersAreShort(buf, pos + |head|, e.trailers);
  }

  /** The decoder meets no long line in an encoding of short ones. */
  lemma {:induction false} ShortEncoding(buf: bytes, pos: nat, e: Encoding, bodyLength: nat, maxBody: nat)
    requires pos <= |buf| && Valid(e) && HasShortLines(e) && MatchAt(buf, ChunkedCodec.Text(e), pos)
    ensures !LongLine(buf, pos, bodyLength, maxBody)
    decreases |e.chunks|
  {
    hide LongLine; hide ValidSizeLine; hide ChunkText; hide EndText; hide ValidTrailers; hide MatchAt; hide IsShort;
    MatchConcat(buf, ChunksText(e.chunks), EndText(e), pos);
    if e.chunks == [] {
      EndIsShort(buf, pos, e, bodyLength, maxBody);
    } else {
      var c, rest := e.chunks[0], e.(chunks := e.chunks[1..]);
      MatchConcat(buf, ChunkText(c), ChunksText(rest.chunks), pos);
      MatchConcat(buf, ChunksText(rest.chunks), EndText(rest), pos + |ChunkText(c)|);
      SameEnd(e, rest);
      ChunkIsShort(buf, pos, c, bodyLength, maxBody);
      ShortEncoding(buf, pos + |ChunkText(c)|, rest, bodyLength + |c.data|, maxBody);
    }
  }

  lemma SameEnd(e: Encoding, rest: Encoding)
    requires rest.last == e.last && rest.trailers == e.trailers
    ensures EndText(rest) == EndText(e)
  {
  }

  // ----- streams within the limits -----

  /** The head ends clear of its limit, the framing lines of a chunked body stay
      below theirs, and no unsupported expectation is asked. */
  predicate Modest(buf: bytes, maxBody: nat) {
    match FindSubslice(buf, BLANK)
    case None => true
    case Some(i) =>
      && i + 3 <= 16384 && Expectation(buf) != Unsupported
      && match HeadOf(buf[..i + 4])
         case Err(_) => true
         case Ok(head) => head.framing == ChunkedBody ==> !LongLine(buf[i + 4..], 0, 0, maxBody)
  }

  predicate ModestStream(buf: bytes, maxBody: nat)
    decreases |buf|
  {
    && Modest(buf, maxBody)
    && var v := VerdictOf(buf, maxBody);
       Continues(v) ==> ModestStream(buf[v.consumed..], maxBody)
  }

  lemma ModestIsSettled(buf: bytes, maxBody: nat)
    requires Modest(buf, maxBody)
    ensures Settled(buf, maxBody)
  {
    hide FindSubslice; hide HeadOf; hide Expectation; hide LongLine; hide Decode;
  }

  lemma {:induction false} ModestStreamIsSettled(stream: bytes, maxBody: nat)
    requires ModestStream(stream, maxBody)
    ensures SettledStream(stream, maxBody)
    decreases |stream|
  {
    hide VerdictOf; hide Modest; hide Settled; hide Request.KeepAlive;
    ModestIsSettled(stream, maxBody);
    var v := VerdictOf(stream, maxBody);
    if Continues(v) {
      ModestStreamIsSettled(stream[v.consumed..], maxBody);
    }
  }

  /** A stream within the limits draws the same final answers in any segments. */
  lemma ModestStreamsAreIndependent(stream: bytes, segments: seq<bytes>, maxBody: nat)
    requires ModestStream(stream, maxBody) && Concat(segments) == stream
    ensures Finals(RunEvents(Connections.ConnState([], false), segments, maxBody)) == Answers(stream, maxBody)
  {
    hide *;
    ModestStreamIsSettled(stream, maxBody);
    FinalsIndependentOfSegments(stream, maxBody);
  }
}
