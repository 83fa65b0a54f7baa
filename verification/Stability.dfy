/** Parser verdicts, errors included, under bytes that are still to come. */
module Stability {
  import opened Bytes
  import Ascii
  import opened Numerals
  import Utf8
  import opened Http
  import opened Chunked
  import opened RequestParser
  import opened Verdicts

  // ----- chunked bodies -----

  /** The trailer section has no blank line yet. */
  predicate OpenTrailer(buf: bytes, pos: nat)
    requires pos <= |buf|
    decreases |buf| - pos
  {
    match FindFrom(buf, CRLF, pos)
    case None => true
    case Some(k) => k != pos && OpenTrailer(buf, k + 2)
  }

  /** An unterminated size line whose token is a size already, perhaps but for a
      final CR that may turn out to end the line. */
  predicate CanBecomeSize(line: bytes) {
    || HexSize(SizeToken(line)).Ok?
    || (line != [] && line[|line| - 1] == '\r' && HexSize(SizeToken(line[..|line| - 1])).Ok?)
  }

  /** The decoder comes to an unterminated line that more bytes can make good: any
      trailer line, or a size line that can still be one. */
  predicate Undecided(buf: bytes, pos: nat, bodyLength: nat, maxBody: nat)
    requires pos <= |buf|
    decreases |buf| - pos
  {
    match FindFrom(buf, CRLF, pos)
    case None => CanBecomeSize(buf[pos..])
    case Some(k) =>
      match HexSize(SizeToken(buf[pos..k]))
      case Err(_) => false
      case Ok(size) =>
        var next := k + 2 + size + 2;
        if size == 0 then OpenTrailer(buf, k + 2)
        else next <= |buf| && buf[next - 2..next] == CRLF && bodyLength + size <= maxBody
             && Undecided(buf, next, bodyLength + size, maxBody)
  }

  // ----- what cannot change -----

  lemma {:induction false} TrailersExtend(buf: bytes, m: nat, pos: nat)
    requires pos <= m <= |buf| && !OpenTrailer(buf[..m], pos)
    ensures SkipTrailers(buf, pos) == SkipTrailers(buf[..m], pos)
    decreases |buf| - pos
  {
    hide FindFrom;
    FindInPrefix(buf, m, CRLF, pos);
    var k := FindFrom(buf, CRLF, pos).value;
    if k != pos {
      TrailersExtend(buf, m, k + 2);
    }
  }

  /** Digits only grow: a line that is no size front stays none. */
  lemma TokenGrows(line: bytes, more: bytes)
    requires line != [] && HexSize(SizeToken(line + more)).Ok?
    ensures HexSize(SizeToken(line)).Ok?
  {
    hide Value;
    var whole := line + more;
    match IndexOf(line, ';')
    case Some(i) =>
      assert whole[..i] == line[..i];
      IndexOfIs(whole, ';', i);
    case None =>
      var token := SizeToken(whole);
      TokenCovers(line, more);
      ValueGrows(token, |line|, 16);
      forall i | 0 <= i < |line| ensures IsHexDigit(line[i]) {
        assert token[..|line|][i] == token[i];
      }
  }

  lemma TokenCovers(line: bytes, more: bytes)
    requires ';' !in line
    ensures |line| <= |SizeToken(line + more)| && SizeToken(line + more)[..|line|] == line
  {
    hide IndexOf;
  }

  /** A bad open size line is refused by any extension. */
  lemma BadLineExtends(buf: bytes, m: nat, pos: nat, body: bytes, maxBody: nat)
    requires pos <= m <= |buf| && FindFrom(buf[..m], CRLF, pos).None? && !CanBecomeSize(buf[..m][pos..])
    requires m - pos > MAX_CHUNK_LINE_BYTES
    ensures DecodeFrom(buf, pos, body, maxBody) == Err(MalformedChunk)
  {
    hide FindFrom; hide SizeToken; hide HexSize;
    var line := buf[..m][pos..];
    FindInPrefix(buf, m, CRLF, pos);
    match FindFrom(buf, CRLF, pos)
    case None =>
    case Some(k) =>
      LineStaysBad(buf, m, pos, k);
      SizeErrors(SizeToken(buf[pos..k]));
  }

  lemma SizeErrors(token: bytes)
    ensures HexSize(token).Err? ==> HexSize(token).error == MalformedChunk
  {
  }

  lemma LineStaysBad(buf: bytes, m: nat, pos: nat, k: nat)
    requires pos < m <= |buf| && m < k + 2 <= |buf| && MatchAt(buf, CRLF, k) && pos <= k
    requires !CanBecomeSize(buf[..m][pos..])
    ensures HexSize(SizeToken(buf[pos..k])).Err?
  {
    hide SizeToken; hide HexSize;
    var line := buf[..m][pos..];
    if k < m {
      CrlfAt(buf, k);
      assert line[|line| - 1] == '\r';
      assert line[..|line| - 1] == buf[pos..k];
    } else {
      assert buf[pos..k] == line + buf[m..k];
      if HexSize(SizeToken(buf[pos..k])).Ok? {
        TokenGrows(line, buf[m..k]);
      }
    }
  }

  lemma UndecidedStep(buf: bytes, pos: nat, bodyLength: nat, maxBody: nat, k: nat, size: nat)
    requires pos <= |buf| && FindFrom(buf, CRLF, pos) == Some(k) && HexSize(SizeToken(buf[pos..k])) == Ok(size)
             && size > 0
    requires k + 2 + size + 2 <= |buf| && buf[k + 2 + size..k + 2 + size + 2] == CRLF && bodyLength + size <= maxBody
    ensures Undecided(buf, pos, bodyLength, maxBody) <==> Undecided(buf, k + 2 + size + 2, bodyLength + size, maxBody)
  {
    hide FindFrom; hide SizeToken; hide HexSize; hide OpenTrailer; hide CanBecomeSize;
  }

  /** A bad size line, or the last one with the trailers after it. */
  lemma EndExtends(buf: bytes, m: nat, pos: nat, body: bytes, maxBody: nat, k: nat)
    requires pos <= m <= |buf| && FindFrom(buf, CRLF, pos) == Some(k) && k + 2 <= m
    requires HexSize(SizeToken(buf[pos..k])).Err? || HexSize(SizeToken(buf[pos..k])) == Ok(0)
    requires !Undecided(buf[..m], pos, |body|, maxBody)
    ensures DecodeFrom(buf, pos, body, maxBody) == DecodeFrom(buf[..m], pos, body, maxBody)
  {
    hide FindFrom; hide SizeToken; hide HexSize; hide SkipTrailers; hide OpenTrailer; hide CanBecomeSize;
    FindInPrefix(buf, m, CRLF, pos);
    SliceOfPrefix(buf, m, pos, k);
    if HexSize(SizeToken(buf[pos..k])).Ok? {
      TrailersExtend(buf, m, k + 2);
    }
  }

  lemma OpenLineRefused(buf: bytes, pos: nat, body: bytes, maxBody: nat)
    requires pos <= |buf| && FindFrom(buf, CRLF, pos).None?
    ensures DecodeFrom(buf, pos, body, maxBody) ==
            if |buf| - pos > MAX_CHUNK_LINE_BYTES then Err(MalformedChunk) else Ok(Unfinished)
    ensures Undecided(buf, pos, |body|, maxBody) <==> CanBecomeSize(buf[pos..])
  {
    hide CanBecomeSize;
  }

  /** A decoder that stopped elsewhere has nothing more to learn. */
  lemma {:induction false} DecodeExtends(buf: bytes, m: nat, pos: nat, body: bytes, maxBody: nat)
    requires pos <= m <= |buf| && !Undecided(buf[..m], pos, |body|, maxBody)
    requires DecodeFrom(buf[..m], pos, body, maxBody) != Ok(Unfinished)
    ensures DecodeFrom(buf, pos, body, maxBody) == DecodeFrom(buf[..m], pos, body, maxBody)
    decreases |buf| - pos
  {
    hide FindFrom; hide SizeToken; hide HexSize; hide OpenTrailer; hide DecodeFrom; hide Undecided; hide CanBecomeSize;
    var p := buf[..m];
    match FindFrom(p, CRLF, pos)
    case None =>
      OpenLineRefused(p, pos, body, maxBody);
      BadLineExtends(buf, m, pos, body, maxBody);
    case Some(k) =>
      FindInPrefix(buf, m, CRLF, pos);
      SliceOfPrefix(buf, m, pos, k);
      match HexSize(SizeToken(buf[pos..k]))
      case Err(_) => EndExtends(buf, m, pos, body, maxBody, k);
      case Ok(size) =>
        var end := k + 2 + size;
        if size == 0 {
          EndExtends(buf, m, pos, body, maxBody, k);
        } else if m < end + 2 || buf[end..end + 2] != CRLF || |body| + size > maxBody {
          ChunkOfPrefix(buf, m, pos, body, maxBody, k, size);
        } else {
          ChunkSteps(buf, m, pos, body, maxBody, k, size);
          SliceOfPrefix(buf, m, end, end + 2);
          UndecidedStep(p, pos, |body|, maxBody, k, size);
          DecodeExtends(buf, m, end + 2, body + buf[k + 2..end], maxBody);
        }
  }

  // ----- what can change -----

  /** Nothing before the end of an open text becomes a CRLF when one is appended. */
  lemma LineCloses(buf: bytes, pos: nat, ext: bytes)
    requires pos <= |buf| && FindFrom(buf, CRLF, pos).None?
    ensures CRLF <= ext ==> FindFrom(buf + ext, CRLF, pos) == Some(|buf|)
    ensures ext == "\n" && pos < |buf| && buf[|buf| - 1] == '\r' ==> FindFrom(buf + ext, CRLF, pos) == Some(|buf| - 1)
  {
    hide FindFrom;
    var whole := buf + ext;
    assert whole[..|buf|] == buf;
    FindInPrefix(whole, |buf|, CRLF, pos);
    if CRLF <= ext {
      CrlfAt(whole, |buf|);
      assert ext[..2] == CRLF && whole[|buf|] == ext[0] && whole[|buf| + 1] == ext[1];
      NoCrlfBefore(buf, pos, ext, |buf|);
    } else if ext == "\n" && pos < |buf| && buf[|buf| - 1] == '\r' {
      CrlfAt(whole, |buf| - 1);
      NoCrlfBefore(buf, pos, ext, |buf| - 1);
    }
  }

  lemma NoCrlfBefore(buf: bytes, pos: nat, ext: bytes, k: nat)
    requires pos <= k <= |buf| && FindFrom(buf, CRLF, pos).None? && MatchAt(buf + ext, CRLF, k)
    requires k == |buf| ==> ext[0] != '\n'
    requires ext != []
    ensures FindFrom(buf + ext, CRLF, pos) == Some(k)
  {
    hide FindFrom;
    var whole := buf + ext;
    FindFromFirst(buf, CRLF, pos);
    forall j: nat | pos <= j < k ensures !MatchAt(whole, CRLF, j) {
      CrlfAt(whole, j);
      CrlfAt(buf, j);
      if j + 1 < |buf| {
        assert !MatchAt(buf, CRLF, j);
      }
    }
    FindFromIs(whole, CRLF, pos, k);
  }

  /** Nothing is after the last line yet. */
  lemma NothingAfter(buf: bytes, k: nat)
    requires k + 2 == |buf|
    ensures SkipTrailers(buf, k + 2) == Ok(None)
  {
  }

  /** A size line at the very end is waited on. */
  lemma SizeAtEnd(buf: bytes, pos: nat, body: bytes, maxBody: nat, k: nat)
    requires pos <= |buf| && FindFrom(buf, CRLF, pos) == Some(k) && k + 2 == |buf|
             && HexSize(SizeToken(buf[pos..k])).Ok?
    ensures DecodeFrom(buf, pos, body, maxBody) == Ok(Unfinished)
  {
    hide FindFrom; hide SizeToken; hide HexSize; hide SkipTrailers;
    NothingAfter(buf, k);
  }

  /** An open size line that can be one is made one. */
  lemma LineBecomesSize(buf: bytes, pos: nat, body: bytes, maxBody: nat) returns (ext: bytes)
    requires pos <= |buf| && FindFrom(buf, CRLF, pos).None? && CanBecomeSize(buf[pos..])
    ensures DecodeFrom(buf + ext, pos, body, maxBody) == Ok(Unfinished)
  {
    hide FindFrom; hide SizeToken; hide HexSize; hide DecodeFrom;
    var line := buf[pos..];
    if HexSize(SizeToken(line)).Ok? {
      ext := CRLF;
      LineCloses(buf, pos, ext);
      assert (buf + ext)[pos..|buf|] == line;
      SizeAtEnd(buf + ext, pos, body, maxBody, |buf|);
    } else {
      ext := "\n";
      LineCloses(buf, pos, ext);
      assert (buf + ext)[pos..|buf| - 1] == line[..|line| - 1];
      SizeAtEnd(buf + ext, pos, body, maxBody, |buf| - 1);
    }
  }

  /** An open trailer section can always be closed. */
  lemma {:induction false} TrailersClose(buf: bytes, pos: nat)
    requires pos <= |buf| && OpenTrailer(buf, pos)
    ensures SkipTrailers(buf + BLANK, pos).Ok? && SkipTrailers(buf + BLANK, pos).value.Some?
    decreases |buf| - pos
  {
    hide FindFrom;
    var whole := buf + BLANK;
    match FindFrom(buf, CRLF, pos)
    case None =>
      LineCloses(buf, pos, BLANK);
      BlankLine(whole, |buf| + 2);
    case Some(k) =>
      assert whole[..|buf|] == buf;
      FindInPrefix(whole, |buf|, CRLF, pos);
      TrailersClose(buf, k + 2);
  }

  lemma BlankLine(buf: bytes, pos: nat)
    requires pos + 2 <= |buf| && buf[pos..pos + 2] == CRLF
    ensures SkipTrailers(buf, pos) == Ok(Some(pos + 2))
  {
  }

  /** Some extension lets an undecided decoder go on. */
  lemma {:induction false} DecodeGoesOn(buf: bytes, pos: nat, body: bytes, maxBody: nat) returns (ext: bytes)
    requires pos <= |buf| && Undecided(buf, pos, |body|, maxBody)
    ensures DecodeFrom(buf + ext, pos, body, maxBody).Ok?
    decreases |buf| - pos
  {
    hide FindFrom; hide SizeToken; hide HexSize; hide OpenTrailer; hide DecodeFrom; hide CanBecomeSize; hide Undecided;
    match FindFrom(buf, CRLF, pos)
    case None =>
      OpenLineRefused(buf, pos, body, maxBody);
      ext := LineBecomesSize(buf, pos, body, maxBody);
    case Some(k) =>
      UndecidedSize(buf, pos, |body|, maxBody, k);
      var size := HexSize(SizeToken(buf[pos..k])).value;
      if size == 0 {
        ext := BLANK;
        TrailersGoOn(buf, pos, body, maxBody, k);
      } else {
        var end := k + 2 + size;
        UndecidedStep(buf, pos, |body|, maxBody, k, size);
        ext := DecodeGoesOn(buf, end + 2, body + buf[k + 2..end], maxBody);
        var whole := buf + ext;
        assert whole[..|buf|] == buf;
        WholeStep(whole, |buf|, pos, body, maxBody, k, size);
      }
  }

  lemma UndecidedSize(buf: bytes, pos: nat, bodyLength: nat, maxBody: nat, k: nat)
    requires pos <= |buf| && FindFrom(buf, CRLF, pos) == Some(k) && Undecided(buf, pos, bodyLength, maxBody)
    ensures HexSize(SizeToken(buf[pos..k])).Ok?
    ensures var size := HexSize(SizeToken(buf[pos..k])).value; var end := k + 2 + size;
            if size == 0 then OpenTrailer(buf, k + 2)
            else end + 2 <= |buf| && buf[end..end + 2] == CRLF && bodyLength + size <= maxBody
  {
    hide FindFrom; hide SizeToken; hide HexSize; hide OpenTrailer; hide CanBecomeSize;
  }

  lemma TrailersGoOn(buf: bytes, pos: nat, body: bytes, maxBody: nat, k: nat)
    requires pos <= |buf| && FindFrom(buf, CRLF, pos) == Some(k) && HexSize(SizeToken(buf[pos..k])) == Ok(0)
    requires OpenTrailer(buf, k + 2)
    ensures DecodeFrom(buf + BLANK, pos, body, maxBody).Ok?
  {
    hide FindFrom; hide SizeToken; hide HexSize; hide SkipTrailers; hide OpenTrailer;
    var whole := buf + BLANK;
    assert whole[..|buf|] == buf;
    FindInPrefix(whole, |buf|, CRLF, pos);
    SliceOfPrefix(whole, |buf|, pos, k);
    TrailersClose(buf, k + 2);
  }

  lemma WholeStep(whole: bytes, m: nat, pos: nat, body: bytes, maxBody: nat, k: nat, size: nat)
    requires pos <= m <= |whole| && FindFrom(whole[..m], CRLF, pos) == Some(k)
    requires HexSize(SizeToken(whole[..m][pos..k])) == Ok(size) && size > 0
    requires k + 2 + size + 2 <= m && whole[..m][k + 2 + size..k + 2 + size + 2] == CRLF && |body| + size <= maxBody
    ensures DecodeFrom(whole, pos, body, maxBody) ==
            DecodeFrom(whole, k + 2 + size + 2, body + whole[..m][k + 2..k + 2 + size], maxBody)
  {
    hide FindFrom; hide SizeToken; hide HexSize; hide DecodeFrom;
    FindInPrefix(whole, m, CRLF, pos);
    SliceOfPrefix(whole, m, pos, k);
    SliceOfPrefix(whole, m, k + 2 + size, k + 2 + size + 2);
    SliceOfPrefix(whole, m, k + 2, k + 2 + size);
    DecodeStep(whole, pos, body, maxBody, k, size);
  }

  lemma {:induction false} UndecidedIsMalformed(buf: bytes, pos: nat, body: bytes, maxBody: nat)
    requires pos <= |buf| && Undecided(buf, pos, |body|, maxBody)
    ensures DecodeFrom(buf, pos, body, maxBody) in {Ok(Unfinished), Err(MalformedChunk)}
    decreases |buf| - pos
  {
    hide FindFrom; hide SizeToken; hide HexSize; hide SkipTrailers; hide OpenTrailer; hide CanBecomeSize;
    match FindFrom(buf, CRLF, pos)
    case None =>
    case Some(k) =>
      var size := HexSize(SizeToken(buf[pos..k])).value;
      if size == 0 {
        OpenTrailersAreMalformed(buf, k + 2);
      } else {
        UndecidedIsMalformed(buf, k + 2 + size + 2, body + buf[k + 2..k + 2 + size], maxBody);
      }
  }

  lemma {:induction false} OpenTrailersAreMalformed(buf: bytes, pos: nat)
    requires pos <= |buf| && OpenTrailer(buf, pos)
    ensures SkipTrailers(buf, pos) in {Ok(None), Err(MalformedChunk)}
    decreases |buf| - pos
  {
    hide FindFrom;
    match FindFrom(buf, CRLF, pos)
    case None =>
    case Some(k) => OpenTrailersAreMalformed(buf, k + 2);
  }

  // ----- heads -----

  /** The buffer ends in a front of the blank line, at an index within the limit. */
  predicate EndsInBlank(buf: bytes) {
    exists i :: 0 <= i <= MAX_HEAD_BYTES && |buf| - 3 <= i < |buf| && buf[i..] == BLANK[..|buf| - i]
  }

  /** A long head without its blank line: no extension brings one within the limit. */
  lemma LongHeadExtends(buf: bytes, ext: bytes, maxBody: nat)
    requires FindSubslice(buf, BLANK).None? && |buf| > MAX_HEAD_BYTES && !EndsInBlank(buf)
    ensures Parse(buf + ext, maxBody) == Err(HeadTooLarge)
  {
    hide FindFrom; hide HeadOf; hide BodyOf; hide Expectation; hide EndsInBlank;
    var whole, m := buf + ext, |buf|;
    assert whole[..m] == buf;
    HeadOfPrefix(whole, m);
    match FindSubslice(whole, BLANK)
    case None =>
    case Some(i) =>
      if i <= MAX_HEAD_BYTES {
        BlankAcross(buf, ext, i);
      }
  }

  lemma BlankAcross(buf: bytes, ext: bytes, i: nat)
    requires MatchAt(buf + ext, BLANK, i) && i <= MAX_HEAD_BYTES && |buf| - 3 <= i < |buf|
    ensures EndsInBlank(buf)
  {
    assert buf[i..] == (buf + ext)[i..i + 4][..|buf| - i];
  }

  /** One that ends in a front of the blank line: the rest of it ends the head. */
  lemma LongHeadEnds(buf: bytes, maxBody: nat) returns (ext: bytes)
    requires FindSubslice(buf, BLANK).None? && |buf| > MAX_HEAD_BYTES && EndsInBlank(buf)
    ensures Parse(buf + ext, maxBody) != Err(HeadTooLarge)
  {
    hide Parse; hide FindSubslice; hide MatchAt;
    var i :| 0 <= i <= MAX_HEAD_BYTES && |buf| - 3 <= i < |buf| && buf[i..] == BLANK[..|buf| - i];
    ext := BLANK[|buf| - i..];
    BlankCompletes(buf, i);
    FoundBy(buf + ext, i);
    ShortHeadIsNotTooLarge(buf + ext, maxBody);
  }

  lemma BlankCompletes(buf: bytes, i: nat)
    requires |buf| - 3 <= i < |buf| && buf[i..] == BLANK[..|buf| - i]
    ensures MatchAt(buf + BLANK[|buf| - i..], BLANK, i)
  {
    var k := |buf| - i;
    assert (buf + BLANK[k..])[i..i + 4] == BLANK[..k] + BLANK[k..];
  }

  lemma FoundBy(buf: bytes, i: nat)
    requires MatchAt(buf, BLANK, i)
    ensures FindSubslice(buf, BLANK).Some? && FindSubslice(buf, BLANK).value <= i
  {
    hide FindFrom;
    FindFromFirst(buf, BLANK, 0);
  }

  lemma ShortHeadIsNotTooLarge(buf: bytes, maxBody: nat)
    requires FindSubslice(buf, BLANK).Some? && FindSubslice(buf, BLANK).value <= MAX_HEAD_BYTES
    ensures Parse(buf, maxBody) != Err(HeadTooLarge)
  {
    hide FindSubslice; hide HeadOf; hide BodyOf;
    var i := FindSubslice(buf, BLANK).value;
    HeadErrors(buf[..i + 4]);
    if HeadOf(buf[..i + 4]).Ok? {
      BodyErrors(buf, i + 4, HeadOf(buf[..i + 4]).value, maxBody);
    }
  }

  /** A head that has its blank line is never called too large by its contents. */
  lemma HeadErrors(head: bytes)
    requires |head| >= 4
    ensures HeadOf(head) != Err(HeadTooLarge)
  {
    hide SplitFrom; hide RequestLineOf; hide HeadersOf; hide HasBareCr;
    var lines := SplitCrlf(head[..|head| - 4]);
    LineErrors(lines[0]);
    FieldErrors(lines[1..], []);
  }

  lemma LineErrors(line: bytes)
    ensures RequestLineOf(line) != Err(HeadTooLarge)
  {
    hide IndexOf; hide Method.FromBytes; hide Utf8.ValidUtf8;
  }

  lemma {:induction false} FieldErrors(lines: seq<bytes>, before: seq<Header>)
    ensures HeadersOf(lines, before) != Err(HeadTooLarge)
    decreases |lines|
  {
    hide IndexOf; hide Ascii.TrimmedOws; hide Utf8.ValidUtf8;
    if lines != [] && lines[0] != [] && |before| < MAX_HEADERS && HeaderOf(lines[0]).Ok? {
      FieldErrors(lines[1..], before + [HeaderOf(lines[0]).value]);
    }
  }

  // ----- whole requests -----

  /** The verdict cannot change any more, from the buffer alone: a head too long to
      be saved by the blank line it ends in, a head or a fixed-length body with its
      verdict, or a chunked body that stops short of a line that can be made good. */
  predicate Final(buf: bytes, maxBody: nat) {
    match FindSubslice(buf, BLANK)
    case None => !EndsInBlank(buf)
    case Some(i) =>
      || i > MAX_HEAD_BYTES
      || match HeadOf(buf[..i + 4])
         case Err(_) => true
         case Ok(head) => head.framing == ChunkedBody ==> !Undecided(buf[i + 4..], 0, 0, maxBody)
  }

  lemma BodyExtends(buf: bytes, m: nat, headEnd: nat, head: RequestHead, maxBody: nat)
    requires headEnd <= m <= |buf| && BodyOf(buf[..m], headEnd, head, maxBody) != Ok(Partial)
    requires head.framing == ChunkedBody ==> !Undecided(buf[..m][headEnd..], 0, 0, maxBody)
    ensures BodyOf(buf, headEnd, head, maxBody) == BodyOf(buf[..m], headEnd, head, maxBody)
  {
    hide DecodeFrom; hide Undecided;
    match head.framing
    case Fixed(length) =>
      if headEnd + length <= m {
        SliceOfPrefix(buf, m, headEnd, headEnd + length);
      }
    case ChunkedBody =>
      SuffixOfPrefix(buf, m, headEnd);
      DecodeExtends(buf[headEnd..], m - headEnd, 0, [], maxBody);
  }

  /** A final verdict, with the same number of bytes consumed, is the verdict on
      every extension too. */
  lemma VerdictExtends(buf: bytes, ext: bytes, maxBody: nat)
    requires Parse(buf, maxBody) != Ok(Partial) && Final(buf, maxBody)
    ensures Parse(buf + ext, maxBody) == Parse(buf, maxBody)
  {
    hide FindSubslice; hide HeadOf; hide BodyOf; hide Undecided; hide Expectation; hide EndsInBlank;
    var whole, m := buf + ext, |buf|;
    assert whole[..m] == buf;
    HeadOfPrefix(whole, m);
    match FindSubslice(buf, BLANK)
    case None => LongHeadExtends(buf, ext, maxBody);
    case Some(i) =>
      if i <= MAX_HEAD_BYTES {
        PrefixOfPrefix(whole, m, i + 4);
        if HeadOf(buf[..i + 4]).Ok? {
          BodyExtends(whole, m, i + 4, HeadOf(buf[..i + 4]).value, maxBody);
        }
      }
  }

  /** Any other verdict is one of two refusals, and some extension changes it. */
  lemma VerdictChanges(buf: bytes, maxBody: nat) returns (ext: bytes)
    requires Parse(buf, maxBody) != Ok(Partial) && !Final(buf, maxBody)
    ensures Parse(buf, maxBody) == Err(if FindSubslice(buf, BLANK).None? then HeadTooLarge else MalformedChunk)
    ensures Parse(buf + ext, maxBody) != Parse(buf, maxBody)
  {
    hide FindSubslice; hide HeadOf; hide DecodeFrom; hide Undecided; hide EndsInBlank; hide Expectation;
    match FindSubslice(buf, BLANK)
    case None => ext := LongHeadEnds(buf, maxBody);
    case Some(i) =>
      var rest := buf[i + 4..];
      UndecidedIsMalformed(rest, 0, [], maxBody);
      ext := DecodeGoesOn(rest, 0, [], maxBody);
      var whole := buf + ext;
      assert whole[..|buf|] == buf;
      HeadOfPrefix(whole, |buf|);
      PrefixOfPrefix(whole, |buf|, i + 4);
      assert whole[i + 4..] == rest + ext;
  }

  /** When a verdict is final, exactly. */
  lemma FinalIsExact(buf: bytes, maxBody: nat)
    requires Parse(buf, maxBody) != Ok(Partial)
    ensures (forall ext :: Parse(buf + ext, maxBody) == Parse(buf, maxBody)) <==> Final(buf, maxBody)
  {
    hide Parse; hide Final;
    if Final(buf, maxBody) {
      forall ext ensures Parse(buf + ext, maxBody) == Parse(buf, maxBody) {
        VerdictExtends(buf, ext, maxBody);
      }
    } else {
      var ext := VerdictChanges(buf, maxBody);
    }
  }

  /** The header loop never sees an empty line: the terminator found is the
      first, so its test for one cannot succeed. */
  lemma HeaderLinesAreNotEmpty(buf: bytes)
    requires FindSubslice(buf, BLANK).Some?
    ensures var lines := SplitCrlf(buf[..FindSubslice(buf, BLANK).value])[1..];
            forall k :: 0 <= k < |lines| ==> lines[k] != []
  {
    hide FindFrom; hide SplitFrom;
    OnlyFirstLineEmpty(buf, 0, FindSubslice(buf, BLANK).value);
  }
}
