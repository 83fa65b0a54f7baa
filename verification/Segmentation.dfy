/** How a byte stream is cut into segments, and what the cuts can change. */
module Segmentation {
  import opened Bytes
  import Http
  import Chunked
  import ChunkedCodec
  import RequestParser
  import opened Verdicts

  /** A complete request parses the same whatever follows its bytes. */
  lemma ReplyIsStable(buf: bytes, m: nat, maxBody: nat)
    requires VerdictOf(buf, maxBody).Reply? && VerdictOf(buf, maxBody).consumed <= m <= |buf|
    ensures VerdictOf(buf[..m], maxBody) == VerdictOf(buf, maxBody)
  {
    hide FindSubslice; hide RequestParser.HeadOf; hide RequestParser.Expectation; hide Chunked.DecodeFrom;
    var i := FindSubslice(buf, BLANK).value;
    HeadOfPrefix(buf, m);
    PrefixOfPrefix(buf, m, i + 4);
    var head := RequestParser.HeadOf(buf[..i + 4]).value;
    match head.framing
    case Fixed(length) =>
      SliceOfPrefix(buf, m, i + 4, i + 4 + length);
    case ChunkedBody =>
      var rest := buf[i + 4..];
      SuffixOfPrefix(buf, m, i + 4);
      PrefixOfPrefix(rest, m - (i + 4), Chunked.Decode(rest, maxBody).value.consumed);
      ChunkedCodec.DecodedIsStable(rest, rest[..m - (i + 4)], maxBody);
  }

  // ----- the answers to a stream -----

  /** Whether the connection goes on after this answer. */
  predicate Continues(v: Verdict) {
    v.Reply? && v.request.KeepAlive()
  }

  /** The final answers to a buffer, until one waits or closes. */
  function Answers(buf: bytes, maxBody: nat): seq<Verdict>
    decreases |buf|
  {
    var v := VerdictOf(buf, maxBody);
    if v == Wait then [] else [v] + (if Continues(v) then Answers(buf[v.consumed..], maxBody) else [])
  }

  predicate Closed(buf: bytes, maxBody: nat)
    decreases |buf|
  {
    var v := VerdictOf(buf, maxBody);
    v != Wait && (!Continues(v) || Closed(buf[v.consumed..], maxBody))
  }

  /** The bytes left waiting after the answers. */
  function Rest(buf: bytes, maxBody: nat): (rest: bytes)
    decreases |buf|
  {
    var v := VerdictOf(buf, maxBody);
    if Continues(v) then Rest(buf[v.consumed..], maxBody) else buf
  }

  /** The answers when the stream arrives in segments, each answered as far as
      it goes before the next. */
  function RunAnswers(buf: bytes, segments: seq<bytes>, maxBody: nat): seq<Verdict>
    decreases |segments|
  {
    if segments == [] then []
    else
      var now := buf + segments[0];
      Answers(now, maxBody) +
      (if Closed(now, maxBody) then [] else RunAnswers(Rest(now, maxBody), segments[1..], maxBody))
  }

  /** The answers when the stream arrives in two parts. */
  function InTwo(a: bytes, c: bytes, maxBody: nat): seq<Verdict> {
    Answers(a, maxBody) + (if Closed(a, maxBody) then [] else Answers(Rest(a, maxBody) + c, maxBody))
  }

  function Concat(segments: seq<bytes>): bytes {
    if segments == [] then [] else segments[0] + Concat(segments[1..])
  }

  /** Every request of the stream is settled, as far as the connection goes. */
  predicate SettledStream(buf: bytes, maxBody: nat)
    decreases |buf|
  {
    && Settled(buf, maxBody)
    && var v := VerdictOf(buf, maxBody);
       Continues(v) ==> SettledStream(buf[v.consumed..], maxBody)
  }

  // ----- settled streams: the cuts do not matter -----

  lemma {:induction false} RestWaits(buf: bytes, maxBody: nat)
    requires !Closed(buf, maxBody)
    ensures VerdictOf(Rest(buf, maxBody), maxBody) == Wait
    decreases |buf|
  {
    hide VerdictOf;
    var v := VerdictOf(buf, maxBody);
    if v != Wait {
      RestWaits(buf[v.consumed..], maxBody);
    }
  }

  /** Answering a first part and then the rest is answering the whole. */
  lemma {:induction false} AnswersInTwoParts(a: bytes, c: bytes, maxBody: nat)
    requires SettledStream(a + c, maxBody)
    ensures Answers(a + c, maxBody) == InTwo(a, c, maxBody)
    ensures !Closed(a, maxBody) ==> SettledStream(Rest(a, maxBody) + c, maxBody)
    decreases |a|
  {
    hide VerdictOf; hide Settled; hide Http.Request.KeepAlive;
    var v := VerdictOf(a, maxBody);
    SettledPrefix(a + c, |a|, maxBody);
    assert (a + c)[..|a|] == a;
    if v != Wait && Continues(v) {
      var next := a[v.consumed..];
      assert (a + c)[v.consumed..] == next + c;
      AnswersInTwoParts(next, c, maxBody);
    }
  }

  lemma {:induction false} SettledRun(buf: bytes, segments: seq<bytes>, maxBody: nat)
    requires VerdictOf(buf, maxBody) == Wait && SettledStream(buf + Concat(segments), maxBody)
    ensures RunAnswers(buf, segments, maxBody) == Answers(buf + Concat(segments), maxBody)
    decreases |segments|
  {
    hide VerdictOf; hide Settled; hide Closed; hide Rest;
    if segments == [] {
      assert buf + [] == buf;
    } else {
      var now, later := buf + segments[0], Concat(segments[1..]);
      assert buf + Concat(segments) == now + later;
      AnswersInTwoParts(now, later, maxBody);
      if !Closed(now, maxBody) {
        RestWaits(now, maxBody);
        SettledRun(Rest(now, maxBody), segments[1..], maxBody);
      }
    }
  }

  // ----- unsettled streams: some cut matters -----

  /** Where a stream is not settled, cutting it in two at some byte changes its
      answers. */
  lemma {:induction false} UnsettledRun(stream: bytes, maxBody: nat) returns (m: nat)
    requires !SettledStream(stream, maxBody)
    ensures m <= |stream|
    ensures InTwo(stream[..m], stream[m..], maxBody) != Answers(stream, maxBody)
    decreases |stream|
  {
    hide VerdictOf; hide Settled; hide Http.Request.KeepAlive;
    if !Settled(stream, maxBody) {
      m := UnsettledPrefix(stream, maxBody);
      assert InTwo(stream[..m], stream[m..], maxBody)[0] == VerdictOf(stream[..m], maxBody);
    } else {
      var v := VerdictOf(stream, maxBody);
      var k := UnsettledRun(stream[v.consumed..], maxBody);
      m := v.consumed + k;
      CutLater(stream, k, maxBody);
      var next := stream[v.consumed..];
      assert InTwo(stream[..m], stream[m..], maxBody)[1..] == InTwo(next[..k], next[k..], maxBody);
      assert Answers(stream, maxBody)[1..] == Answers(next, maxBody);
    }
  }

  /** A cut after the first reply cuts what follows it. */
  lemma CutLater(stream: bytes, k: nat, maxBody: nat)
    requires Continues(VerdictOf(stream, maxBody)) && VerdictOf(stream, maxBody).consumed + k <= |stream|
    ensures var v := VerdictOf(stream, maxBody);
            var next := stream[v.consumed..];
            && InTwo(stream[..v.consumed + k], stream[v.consumed + k..], maxBody) ==
               [v] + InTwo(next[..k], next[k..], maxBody)
            && Answers(stream, maxBody) == [v] + Answers(next, maxBody)
  {
    hide VerdictOf; hide Http.Request.KeepAlive;
    var v := VerdictOf(stream, maxBody);
    var next := stream[v.consumed..];
    var m := v.consumed + k;
    ReplyIsStable(stream, m, maxBody);
    assert stream[..m][v.consumed..] == next[..k];
    assert stream[m..] == next[k..];
  }

  lemma RunInTwo(a: bytes, c: bytes, maxBody: nat)
    ensures RunAnswers([], [a, c], maxBody) == InTwo(a, c, maxBody)
    ensures Concat([a, c]) == a + c
  {
    hide Answers; hide Closed; hide Rest;
    assert [] + a == a && [a, c][1..] == [c] && [c][1..] == [];
    assert Concat([c]) == c;
    if !Closed(a, maxBody) {
      var r := Rest(a, maxBody);
      assert RunAnswers(r, [c], maxBody) == Answers(r + c, maxBody) + [];
    }
  }

  /** Segmentation independence, exactly: all ways of cutting a stream draw the
      answers of the uncut stream if and only if the stream is settled. */
  lemma SegmentationIndependence(stream: bytes, maxBody: nat)
    ensures SettledStream(stream, maxBody) <==>
            forall segments :: Concat(segments) == stream ==>
              RunAnswers([], segments, maxBody) == Answers(stream, maxBody)
  {
    hide *;
    if SettledStream(stream, maxBody) {
      NothingWaits(maxBody);
      forall segments | Concat(segments) == stream
        ensures RunAnswers([], segments, maxBody) == Answers(stream, maxBody)
      {
        assert [] + stream == stream;
        SettledRun([], segments, maxBody);
      }
    } else {
      var m := UnsettledRun(stream, maxBody);
      RunInTwo(stream[..m], stream[m..], maxBody);
      assert stream[..m] + stream[m..] == stream;
    }
  }

  lemma NothingWaits(maxBody: nat)
    ensures VerdictOf([], maxBody) == Wait
  {
  }
}
