/** What a buffer is answered with, and when more bytes can change the answer. */
module Verdicts {
  import opened Bytes
  import Numerals
  import opened Http
  import opened Chunked
  import opened RequestParser

  /** The status reported for a parse error. */
  function ErrorStatus(e: ParseError): nat {
    match e
    case UnsupportedVersion => 505
    case UnknownMethod => 501
    case UnsupportedTransferEncoding => 501
    case BodyTooLarge => 413
    case TargetTooLong => 414
    case HeadTooLarge => 431
    case TooManyHeaders => 431
    case _ => 400
  }

  /** The final answer to a buffer, interim responses aside: none yet, a request
      to dispatch, or a refusal that closes the connection. */
  datatype Verdict = Wait | Reply(request: Request, consumed: nat) | Refuse(status: nat)

  function VerdictOf(buf: bytes, maxBody: nat): (v: Verdict)
    ensures v.Reply? ==> 4 <= v.consumed <= |buf|
  {
    match Parse(buf, maxBody)
    case Ok(Partial) => if Expectation(buf) == Unsupported then Refuse(417) else Wait
    case Ok(Complete(request, consumed)) => Reply(request, consumed)
    case Err(e) => Refuse(ErrorStatus(e))
  }

  // ----- chunked bodies -----

  /** A terminated trailer line that, cut before its line feed, is over the limit. */
  predicate LongTrailer(buf: bytes, pos: nat)
    requires pos <= |buf|
    decreases |buf| - pos
  {
    match FindFrom(buf, CRLF, pos)
    case None => false
    case Some(k) => k != pos && (k - pos >= MAX_CHUNK_LINE_BYTES || LongTrailer(buf, k + 2))
  }

  /** The decoder comes past a terminated line that, cut before its line feed, is
      over the limit. */
  predicate LongLine(buf: bytes, pos: nat, bodyLength: nat, maxBody: nat)
    requires pos <= |buf|
    decreases |buf| - pos
  {
    match FindFrom(buf, CRLF, pos)
    case None => false
    case Some(k) =>
      || k - pos >= MAX_CHUNK_LINE_BYTES
      || match HexSize(SizeToken(buf[pos..k]))
         case Err(_) => false
         case Ok(size) =>
           var next := k + 2 + size + 2;
           if size == 0 then LongTrailer(buf, k + 2)
           else next <= |buf| && buf[next - 2..next] == CRLF && bodyLength + size <= maxBody
                && LongLine(buf, next, bodyLength + size, maxBody)
  }

  lemma {:induction false} TrailersOfPrefix(buf: bytes, m: nat, pos: nat)
    requires pos <= m <= |buf|
    ensures var whole, part := SkipTrailers(buf, pos), SkipTrailers(buf[..m], pos);
            part == whole || part == Ok(None) || (part == Err(MalformedChunk) && LongTrailer(buf, pos))
    decreases |buf| - pos
  {
    hide FindFrom;
    FindInPrefix(buf, m, CRLF, pos);
    match FindFrom(buf, CRLF, pos)
    case None =>
    case Some(k) =>
      if k + 2 <= m && k != pos {
        TrailersOfPrefix(buf, m, k + 2);
      }
  }

  /** A complete data chunk is one step of the decoder. */
  lemma DecodeStep(buf: bytes, pos: nat, body: bytes, maxBody: nat, k: nat, size: nat)
    requires pos <= |buf| && FindFrom(buf, CRLF, pos) == Some(k) && HexSize(SizeToken(buf[pos..k])) == Ok(size)
             && size > 0
    requires k + 2 + size + 2 <= |buf| && buf[k + 2 + size..k + 2 + size + 2] == CRLF && |body| + size <= maxBody
    ensures DecodeFrom(buf, pos, body, maxBody) ==
            DecodeFrom(buf, k + 2 + size + 2, body + buf[k + 2..k + 2 + size], maxBody)
  {
    hide FindFrom; hide SizeToken; hide HexSize; hide SkipTrailers;
  }

  lemma LongLineStep(buf: bytes, pos: nat, bodyLength: nat, maxBody: nat, k: nat, size: nat)
    requires pos <= |buf| && FindFrom(buf, CRLF, pos) == Some(k) && HexSize(SizeToken(buf[pos..k])) == Ok(size)
             && size > 0
    requires k + 2 + size + 2 <= |buf| && buf[k + 2 + size..k + 2 + size + 2] == CRLF && bodyLength + size <= maxBody
    ensures LongLine(buf, pos, bodyLength, maxBody) <==>
            k - pos >= MAX_CHUNK_LINE_BYTES || LongLine(buf, k + 2 + size + 2, bodyLength + size, maxBody)
  {
    hide FindFrom; hide SizeToken; hide HexSize; hide LongTrailer;
  }

  lemma PrefixOfPrefix(buf: bytes, m: nat, k: nat)
    requires k <= m <= |buf|
    ensures buf[..m][..k] == buf[..k]
  {
  }

  lemma SuffixOfPrefix(buf: bytes, m: nat, k: nat)
    requires k <= m <= |buf|
    ensures buf[..m][k..] == buf[k..][..m - k]
  {
  }

  lemma SliceOfPrefix(buf: bytes, m: nat, i: nat, j: nat)
    requires i <= j <= m <= |buf|
    ensures buf[..m][i..j] == buf[i..j]
  {
  }

  /** The last step of a prefix: no terminated line, or a bad size. */
  lemma NoSizeOfPrefix(buf: bytes, m: nat, pos: nat, body: bytes, maxBody: nat)
    requires pos <= m <= |buf|
    requires match FindFrom(buf, CRLF, pos)
             case None => true
             case Some(k) => m < k + 2 || HexSize(SizeToken(buf[pos..k])).Err?
    ensures var whole, part := DecodeFrom(buf, pos, body, maxBody), DecodeFrom(buf[..m], pos, body, maxBody);
            part == whole || part == Ok(Unfinished)
                || (part == Err(MalformedChunk) && LongLine(buf, pos, |body|, maxBody))
  {
    hide SizeToken; hide HexSize; hide SkipTrailers; hide LongTrailer; hide FindFrom;
    FindInPrefix(buf, m, CRLF, pos);
    match FindFrom(buf, CRLF, pos)
    case None =>
    case Some(k) =>
      if k + 2 <= m {
        SliceOfPrefix(buf, m, pos, k);
      }
  }

  /** The last step of a prefix: the end of the body. */
  lemma EndOfPrefix(buf: bytes, m: nat, pos: nat, body: bytes, maxBody: nat, k: nat)
    requires pos <= m <= |buf| && FindFrom(buf, CRLF, pos) == Some(k) && k + 2 <= m
    requires HexSize(SizeToken(buf[pos..k])) == Ok(0)
    ensures var whole, part := DecodeFrom(buf, pos, body, maxBody), DecodeFrom(buf[..m], pos, body, maxBody);
            part == whole || part == Ok(Unfinished)
                || (part == Err(MalformedChunk) && LongLine(buf, pos, |body|, maxBody))
  {
    hide SizeToken; hide HexSize; hide SkipTrailers; hide LongTrailer; hide FindFrom;
    FindInPrefix(buf, m, CRLF, pos);
    SliceOfPrefix(buf, m, pos, k);
    TrailersOfPrefix(buf, m, k + 2);
  }

  /** The last step of a prefix: a data chunk that is cut, broken or too much. */
  lemma ChunkOfPrefix(buf: bytes, m: nat, pos: nat, body: bytes, maxBody: nat, k: nat, size: nat)
    requires pos <= m <= |buf| && FindFrom(buf, CRLF, pos) == Some(k) && k + 2 <= m
    requires HexSize(SizeToken(buf[pos..k])) == Ok(size) && size > 0
    requires m < k + 2 + size + 2 || buf[k + 2 + size..k + 2 + size + 2] != CRLF || |body| + size > maxBody
    ensures var whole, part := DecodeFrom(buf, pos, body, maxBody), DecodeFrom(buf[..m], pos, body, maxBody);
            part == whole || part == Ok(Unfinished)
  {
    hide SizeToken; hide HexSize; hide SkipTrailers; hide FindFrom;
    FindInPrefix(buf, m, CRLF, pos);
    SliceOfPrefix(buf, m, pos, k);
    if k + 2 + size + 2 <= m {
      SliceOfPrefix(buf, m, k + 2 + size, k + 2 + size + 2);
      SliceOfPrefix(buf, m, k + 2, k + 2 + size);
    }
  }

  /** A data chunk within a prefix is one step of the prefix and of the whole. */
  lemma ChunkSteps(buf: bytes, m: nat, pos: nat, body: bytes, maxBody: nat, k: nat, size: nat)
    requires pos <= m <= |buf| && FindFrom(buf, CRLF, pos) == Some(k) && HexSize(SizeToken(buf[pos..k])) == Ok(size)
             && size > 0
    requires k + 2 + size + 2 <= m && buf[k + 2 + size..k + 2 + size + 2] == CRLF && |body| + size <= maxBody
    ensures var next, more := k + 2 + size + 2, body + buf[k + 2..k + 2 + size];
            && DecodeFrom(buf, pos, body, maxBody) == DecodeFrom(buf, next, more, maxBody)
            && DecodeFrom(buf[..m], pos, body, maxBody) == DecodeFrom(buf[..m], next, more, maxBody)
            && (LongLine(buf, pos, |body|, maxBody) <==>
                k - pos >= MAX_CHUNK_LINE_BYTES || LongLine(buf, next, |more|, maxBody))
  {
    hide FindFrom; hide SizeToken; hide HexSize; hide DecodeFrom; hide LongLine;
    FindInPrefix(buf, m, CRLF, pos);
    SliceOfPrefix(buf, m, pos, k);
    SliceOfPrefix(buf, m, k + 2 + size, k + 2 + size + 2);
    SliceOfPrefix(buf, m, k + 2, k + 2 + size);
    DecodeStep(buf, pos, body, maxBody, k, size);
    DecodeStep(buf[..m], pos, body, maxBody, k, size);
    LongLineStep(buf, pos, |body|, maxBody, k, size);
  }

  /** A prefix of a chunked body is unfinished or decodes like the whole, long
      lines aside. */
  lemma {:induction false} DecodeOfPrefix(buf: bytes, m: nat, pos: nat, body: bytes, maxBody: nat)
    requires pos <= m <= |buf|
    ensures var whole, part := DecodeFrom(buf, pos, body, maxBody), DecodeFrom(buf[..m], pos, body, maxBody);
            part == whole || part == Ok(Unfinished)
                || (part == Err(MalformedChunk) && LongLine(buf, pos, |body|, maxBody))
    decreases |buf| - pos
  {
    hide FindFrom; hide SizeToken; hide HexSize; hide DecodeFrom; hide LongLine;
    match FindFrom(buf, CRLF, pos)
    case None => NoSizeOfPrefix(buf, m, pos, body, maxBody);
    case Some(k) =>
      if m < k + 2 || HexSize(SizeToken(buf[pos..k])).Err? {
        NoSizeOfPrefix(buf, m, pos, body, maxBody);
      } else {
        var size := HexSize(SizeToken(buf[pos..k])).value;
        var end := k + 2 + size;
        if size == 0 {
          EndOfPrefix(buf, m, pos, body, maxBody, k);
        } else if m < end + 2 || buf[end..end + 2] != CRLF || |body| + size > maxBody {
          ChunkOfPrefix(buf, m, pos, body, maxBody, k, size);
        } else {
          ChunkSteps(buf, m, pos, body, maxBody, k, size);
          DecodeOfPrefix(buf, m, end + 2, body + buf[k + 2..end], maxBody);
        }
      }
  }

  lemma {:induction false} LongTrailerCut(buf: bytes, pos: nat) returns (m: nat)
    requires pos <= |buf| && LongTrailer(buf, pos)
    ensures pos <= m <= |buf| && SkipTrailers(buf[..m], pos) == Err(MalformedChunk)
    decreases |buf| - pos
  {
    hide FindFrom;
    var k := FindFrom(buf, CRLF, pos).value;
    if k - pos >= MAX_CHUNK_LINE_BYTES {
      m := k + 1;
    } else {
      m := LongTrailerCut(buf, k + 2);
    }
    FindInPrefix(buf, m, CRLF, pos);
  }

  /** Just before the line feed of a long line the decoder gives up. */
  lemma CutBeforeLineFeed(buf: bytes, pos: nat, body: bytes, maxBody: nat, k: nat)
    requires pos <= |buf| && FindFrom(buf, CRLF, pos) == Some(k) && k - pos >= MAX_CHUNK_LINE_BYTES
    ensures k + 1 <= |buf| && DecodeFrom(buf[..k + 1], pos, body, maxBody) == Err(MalformedChunk)
  {
    hide FindFrom;
    FindInPrefix(buf, k + 1, CRLF, pos);
  }

  lemma TrailersCut(buf: bytes, pos: nat, body: bytes, maxBody: nat, k: nat, m: nat)
    requires pos <= |buf| && FindFrom(buf, CRLF, pos) == Some(k) && HexSize(SizeToken(buf[pos..k])) == Ok(0)
    requires k + 2 <= m <= |buf| && SkipTrailers(buf[..m], k + 2) == Err(MalformedChunk)
    ensures DecodeFrom(buf[..m], pos, body, maxBody) == Err(MalformedChunk)
  {
    hide FindFrom; hide SizeToken; hide HexSize; hide SkipTrailers;
    FindInPrefix(buf, m, CRLF, pos);
    SliceOfPrefix(buf, m, pos, k);
  }

  /** Past a long line there is a cut at which the decoder gives up. */
  lemma {:induction false} LongLineCut(buf: bytes, pos: nat, body: bytes, maxBody: nat) returns (m: nat)
    requires pos <= |buf| && LongLine(buf, pos, |body|, maxBody)
    ensures pos <= m <= |buf| && DecodeFrom(buf[..m], pos, body, maxBody) == Err(MalformedChunk)
    decreases |buf| - pos
  {
    hide FindFrom; hide SizeToken; hide HexSize; hide SkipTrailers; hide LongTrailer; hide DecodeFrom;
    var k := FindFrom(buf, CRLF, pos).value;
    if k - pos >= MAX_CHUNK_LINE_BYTES {
      m := k + 1;
      CutBeforeLineFeed(buf, pos, body, maxBody, k);
    } else {
      var size := HexSize(SizeToken(buf[pos..k])).value;
      if size == 0 {
        m := LongTrailerCut(buf, k + 2);
        TrailersCut(buf, pos, body, maxBody, k, m);
      } else {
        var end := k + 2 + size;
        m := LongLineCut(buf, end + 2, body + buf[k + 2..end], maxBody);
        ChunkSteps(buf, m, pos, body, maxBody, k, size);
      }
    }
  }

  // ----- whole requests -----

  /** When the bytes received so far can settle a body's answer too early. */
  predicate SettledBody(buf: bytes, headEnd: nat, framing: Framing, refused: bool, maxBody: nat)
    requires headEnd <= |buf|
  {
    match framing
    case Fixed(length) => length > maxBody || length == 0 || !refused || |buf| < headEnd + length
    case ChunkedBody =>
      var rest := buf[headEnd..];
      var outcome := Decode(rest, maxBody);
      if refused then outcome == Ok(Unfinished) && !LongLine(rest, 0, 0, maxBody)
      else outcome == Err(MalformedChunk) || !LongLine(rest, 0, 0, maxBody)
  }

  /** The answer to `buf` cannot depend on how `buf` arrived: its head ends clear
      of the three-byte window below the head limit (or draws the same status
      either way), an unsupported expectation does not race a body, and no
      chunked framing line reaches its limit (or the body is malformed anyway). */
  predicate Settled(buf: bytes, maxBody: nat) {
    match FindSubslice(buf, BLANK)
    case None => true
    case Some(i) =>
      i > MAX_HEAD_BYTES
      || match HeadOf(buf[..i + 4])
         case Err(e) => i + 3 <= MAX_HEAD_BYTES || ErrorStatus(e) == 431
         case Ok(head) =>
           i + 3 <= MAX_HEAD_BYTES
           && SettledBody(buf, i + 4, head.framing, Expectation(buf) == Unsupported, maxBody)
  }

  /** The head of a prefix: there once it is complete, then the same. */
  lemma HeadOfPrefix(buf: bytes, m: nat)
    requires m <= |buf|
    ensures FindSubslice(buf[..m], BLANK) ==
            match FindSubslice(buf, BLANK) case None => None case Some(i) => if i + 4 <= m then Some(i) else None
    ensures FindSubslice(buf[..m], BLANK).Some? ==> Expectation(buf[..m]) == Expectation(buf)
  {
    hide SplitFrom; hide ExpectOf;
    FindInPrefix(buf, m, BLANK, 0);
    match FindSubslice(buf[..m], BLANK)
    case None =>
    case Some(i) =>
      assert buf[..m][..i] == buf[..i];
  }

  /** A prefix that ends inside the head is only ever refused for its length. */
  lemma VerdictInHead(buf: bytes, m: nat, maxBody: nat)
    requires m <= |buf| && FindSubslice(buf[..m], BLANK).None?
    ensures VerdictOf(buf[..m], maxBody) == if m > MAX_HEAD_BYTES then Refuse(431) else Wait
  {
    hide FindFrom;
  }

  /** A buffer with a complete head is answered by its head or its body. */
  lemma VerdictPastHead(buf: bytes, i: nat, maxBody: nat)
    requires FindSubslice(buf, BLANK) == Some(i) && i <= MAX_HEAD_BYTES
    ensures VerdictOf(buf, maxBody) ==
            match HeadOf(buf[..i + 4])
            case Err(e) => Refuse(ErrorStatus(e))
            case Ok(head) =>
              match BodyOf(buf, i + 4, head, maxBody)
              case Ok(Partial) => if Expectation(buf) == Unsupported then Refuse(417) else Wait
              case Ok(Complete(request, consumed)) => Reply(request, consumed)
              case Err(e) => Refuse(ErrorStatus(e))
  {
    hide FindFrom; hide HeadOf; hide BodyOf; hide Expectation;
  }

  /** A body cut short is unfinished, or has the answer of the whole, or is
      refused at a long chunk line. */
  lemma BodyOfPrefix(buf: bytes, m: nat, headEnd: nat, head: RequestHead, maxBody: nat)
    requires headEnd <= m <= |buf|
    ensures var whole, part := BodyOf(buf, headEnd, head, maxBody), BodyOf(buf[..m], headEnd, head, maxBody);
            part == whole || part == Ok(Partial)
            || (head.framing == ChunkedBody && part == Err(MalformedChunk) && LongLine(buf[headEnd..], 0, 0, maxBody))
  {
    hide DecodeFrom; hide LongLine;
    match head.framing
    case Fixed(length) =>
      if headEnd + length <= m {
        assert buf[..m][headEnd..headEnd + length] == buf[headEnd..headEnd + length];
      }
    case ChunkedBody =>
      DecodeOfPrefix(buf[headEnd..], m - headEnd, 0, [], maxBody);
      assert buf[..m][headEnd..] == buf[headEnd..][..m - headEnd];
  }

  /** A settled buffer: every prefix waits or has the answer of the whole. */
  lemma SettledPrefix(buf: bytes, m: nat, maxBody: nat)
    requires Settled(buf, maxBody) && m <= |buf|
    ensures VerdictOf(buf[..m], maxBody) == Wait || VerdictOf(buf[..m], maxBody) == VerdictOf(buf, maxBody)
  {
    hide FindSubslice; hide HeadOf; hide BodyOf; hide Expectation; hide LongLine; hide DecodeFrom; hide VerdictOf;
    HeadOfPrefix(buf, m);
    assert buf[..|buf|] == buf;
    if FindSubslice(buf[..m], BLANK).None? {
      VerdictInHead(buf, m, maxBody);
      if m > MAX_HEAD_BYTES { LongHead(buf, m, maxBody); }
    } else {
      var i := FindSubslice(buf, BLANK).value;
      assert buf[..m][..i + 4] == buf[..i + 4];
      if i > MAX_HEAD_BYTES {
        LongHead(buf, m, maxBody);
        LongHead(buf, |buf|, maxBody);
      } else {
        VerdictPastHead(buf, i, maxBody);
        VerdictPastHead(buf[..m], i, maxBody);
        if HeadOf(buf[..i + 4]).Ok? {
          SettledBodyPrefix(buf, m, i + 4, HeadOf(buf[..i + 4]).value, Expectation(buf) == Unsupported, maxBody);
        }
      }
    }
  }

  /** An over-long head is refused by every buffer that shows it is over-long. */
  lemma LongHead(buf: bytes, m: nat, maxBody: nat)
    requires m <= |buf| && m > MAX_HEAD_BYTES
    requires Settled(buf, maxBody)
    requires FindSubslice(buf[..m], BLANK).Some? ==> FindSubslice(buf[..m], BLANK).value > MAX_HEAD_BYTES
    ensures VerdictOf(buf[..m], maxBody) == Refuse(431) && VerdictOf(buf, maxBody) == Refuse(431)
  {
    hide FindFrom; hide HeadOf; hide BodyOf; hide Expectation; hide SettledBody;
    HeadOfPrefix(buf, m);
  }

  lemma SettledBodyPrefix(buf: bytes, m: nat, headEnd: nat, head: RequestHead, refused: bool, maxBody: nat)
    requires headEnd <= m <= |buf| && SettledBody(buf, headEnd, head.framing, refused, maxBody)
    ensures var whole, part := BodyOf(buf, headEnd, head, maxBody), BodyOf(buf[..m], headEnd, head, maxBody);
            part == whole || (part == Ok(Partial) && !refused)
  {
    hide DecodeFrom; hide LongLine;
    BodyOfPrefix(buf, m, headEnd, head, maxBody);
  }

  /** An unsettled buffer: some prefix is refused, and the whole is not answered
      that way. */
  lemma UnsettledPrefix(buf: bytes, maxBody: nat) returns (m: nat)
    requires !Settled(buf, maxBody)
    ensures m <= |buf| && VerdictOf(buf[..m], maxBody).Refuse?
            && VerdictOf(buf[..m], maxBody) != VerdictOf(buf, maxBody)
  {
    hide FindSubslice; hide HeadOf; hide BodyOf; hide Expectation; hide LongLine; hide DecodeFrom; hide VerdictOf;
    var i := FindSubslice(buf, BLANK).value;
    VerdictPastHead(buf, i, maxBody);
    if i + 3 > MAX_HEAD_BYTES {
      m := MAX_HEAD_BYTES + 1;
      HeadOfPrefix(buf, m);
      VerdictInHead(buf, m, maxBody);
      if HeadOf(buf[..i + 4]).Ok? { BodyErrors(buf, i + 4, HeadOf(buf[..i + 4]).value, maxBody); }
    } else {
      var head := HeadOf(buf[..i + 4]).value;
      var refused := Expectation(buf) == Unsupported;
      m := UnsettledBody(buf, i + 4, head, refused, maxBody);
      HeadOfPrefix(buf, m);
      assert buf[..m][..i + 4] == buf[..i + 4];
      VerdictPastHead(buf[..m], i, maxBody);
    }
  }

  /** A prefix on which an unsettled body is answered too early. */
  lemma UnsettledBody(buf: bytes, headEnd: nat, head: RequestHead, refused: bool, maxBody: nat) returns (m: nat)
    requires headEnd <= |buf| && !SettledBody(buf, headEnd, head.framing, refused, maxBody)
    ensures headEnd <= m <= |buf|
    ensures var whole, part := BodyOf(buf, headEnd, head, maxBody), BodyOf(buf[..m], headEnd, head, maxBody);
            || (refused && part == Ok(Partial) && whole != Ok(Partial))
            || (part == Err(MalformedChunk) && whole != Err(MalformedChunk))
    ensures BodyOf(buf, headEnd, head, maxBody).Err? ==>
              BodyOf(buf, headEnd, head, maxBody).error in {MalformedChunk, BodyTooLarge}
  {
    hide DecodeFrom; hide LongLine;
    BodyErrors(buf, headEnd, head, maxBody);
    var rest := buf[headEnd..];
    if head.framing == ChunkedBody && LongLine(rest, 0, 0, maxBody)
        && (refused ==> Decode(rest, maxBody) == Ok(Unfinished)) {
      m := LongLineCut(rest, 0, [], maxBody);
      m := headEnd + m;
      assert buf[..m][headEnd..] == rest[..m - headEnd];
    } else {
      m := headEnd;
      assert buf[..m][headEnd..] == [];
      DecodeOfNothing(maxBody);
    }
  }

  lemma DecodeOfNothing(maxBody: nat)
    ensures Decode([], maxBody) == Ok(Unfinished)
  {
  }

  lemma {:induction false} DecodeErrors(buf: bytes, pos: nat, body: bytes, maxBody: nat)
    requires pos <= |buf|
    ensures DecodeFrom(buf, pos, body, maxBody).Err? ==>
              DecodeFrom(buf, pos, body, maxBody).error in {MalformedChunk, BodyTooLarge}
    decreases |buf| - pos
  {
    hide FindFrom; hide SizeToken; hide Numerals.Value;
    match FindFrom(buf, CRLF, pos)
    case None =>
    case Some(k) =>
      match HexSize(SizeToken(buf[pos..k]))
      case Err(_) =>
      case Ok(size) =>
        var next := k + 2 + size + 2;
        if size == 0 {
          TrailerErrors(buf, k + 2);
        } else if next <= |buf| {
          DecodeErrors(buf, next, body + buf[k + 2..next - 2], maxBody);
        }
  }

  lemma {:induction false} TrailerErrors(buf: bytes, pos: nat)
    requires pos <= |buf|
    ensures SkipTrailers(buf, pos).Err? ==> SkipTrailers(buf, pos).error == MalformedChunk
    decreases |buf| - pos
  {
    hide FindFrom;
    match FindFrom(buf, CRLF, pos)
    case None =>
    case Some(k) =>
      if k != pos {
        TrailerErrors(buf, k + 2);
      }
  }

  /** A body is refused only for its chunking or its size. */
  lemma BodyErrors(buf: bytes, headEnd: nat, head: RequestHead, maxBody: nat)
    requires headEnd <= |buf|
    ensures BodyOf(buf, headEnd, head, maxBody).Err? ==>
              BodyOf(buf, headEnd, head, maxBody).error in {MalformedChunk, BodyTooLarge}
  {
    hide DecodeFrom;
    DecodeErrors(buf[headEnd..], 0, [], maxBody);
  }

  /** Exactly the settled buffers have an answer that no prefix contradicts. */
  lemma SettledIsExact(buf: bytes, maxBody: nat)
    ensures Settled(buf, maxBody) <==>
            forall m: nat | m <= |buf| ::
              VerdictOf(buf[..m], maxBody) == Wait || VerdictOf(buf[..m], maxBody) == VerdictOf(buf, maxBody)
  {
    hide Settled; hide VerdictOf;
    if Settled(buf, maxBody) {
      forall m: nat | m <= |buf|
        ensures VerdictOf(buf[..m], maxBody) == Wait || VerdictOf(buf[..m], maxBody) == VerdictOf(buf, maxBody)
      {
        SettledPrefix(buf, m, maxBody);
      }
    } else {
      var m := UnsettledPrefix(buf, maxBody);
    }
  }
}
