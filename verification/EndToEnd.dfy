/** From the client's requests to the client's responses: pipelining through the
    whole server, under any segmentation and any partial reads and writes. */
module EndToEnd {
  import opened Bytes
  import opened Http
  import opened HeaderRules
  import Chunked
  import opened ChunkedCodec
  import opened RequestParser
  import opened RequestPrinter
  import opened Verdicts
  import opened Segmentation
  import ShortLines
  import opened Responses
  import opened ResponseReader
  import opened Connections
  import opened Draining
  import opened Reactor
  import opened ReactorRuns

  // ----- what the client sends -----

  /** A request with the whitespace and the body text it is sent with. */
  datatype Sent = Sent(request: Request, fields: seq<Field>, body: bytes) {
    function Text(): bytes {
      HeadText(request, fields) + BLANK + body
    }
  }

  ghost predicate Sendable(s: Sent, maxBody: nat) {
    && WellFormed(s.request, maxBody) && ValidFields(s.request, s.fields) && BodyText(s.request, s.body)
    && |HeadText(s.request, s.fields)| <= MAX_HEAD_BYTES
  }

  /** Pipelined requests; only the last may ask to close. */
  ghost predicate Pipeline(sents: seq<Sent>, maxBody: nat) {
    && (forall s :: s in sents ==> Sendable(s, maxBody))
    && (forall k :: 0 <= k < |sents| - 1 ==> Persists(sents[k].request.headers, sents[k].request.version))
  }

  function StreamOf(sents: seq<Sent>): bytes {
    if sents == [] then [] else sents[0].Text() + StreamOf(sents[1..])
  }

  function Replies(sents: seq<Sent>): seq<Verdict> {
    seq(|sents|, i requires 0 <= i < |sents| => Reply(sents[i].request, |sents[i].Text()|))
  }

  lemma PipelineRest(sents: seq<Sent>, maxBody: nat)
    requires Pipeline(sents, maxBody) && sents != []
    ensures Sendable(sents[0], maxBody) && Pipeline(sents[1..], maxBody)
    ensures |sents| > 1 ==> sents[0].request.KeepAlive()
  {
    hide Sendable; hide Request.KeepAlive; hide Persists;
    assert sents[0] in sents;
    KeepAliveIs(sents[0].request);
    forall k | 0 <= k < |sents[1..]| - 1
      ensures Persists(sents[1..][k].request.headers, sents[1..][k].request.version)
    {
      assert sents[1..][k] == sents[k + 1];
    }
  }

  /** A pipeline is answered request by request. */
  lemma {:induction false} PipelineAnswers(sents: seq<Sent>, maxBody: nat)
    requires Pipeline(sents, maxBody)
    ensures Answers(StreamOf(sents), maxBody) == Replies(sents)
    decreases |sents|
  {
    hide VerdictOf; hide Sent.Text; hide Request.KeepAlive; hide Sendable; hide Pipeline; hide Answers; hide Replies;
    if sents == [] {
      NothingIsAnswered(maxBody);
    } else {
      var first, rest := sents[0], sents[1..];
      PipelineRest(sents, maxBody);
      RequestIsAnswered(first, StreamOf(rest), maxBody);
      assert StreamOf(sents)[|first.Text()|..] == StreamOf(rest);
      PipelineAnswers(rest, maxBody);
      FirstReply(sents);
      FirstAnswer(StreamOf(sents), first.request, |first.Text()|, maxBody);
      if |sents| == 1 {
        NothingIsAnswered(maxBody);
      }
    }
  }

  lemma NothingIsAnswered(maxBody: nat)
    ensures Answers([], maxBody) == [] && Replies([]) == []
  {
    hide VerdictOf;
    NothingWaits(maxBody);
  }

  lemma FirstReply(sents: seq<Sent>)
    requires sents != []
    ensures Replies(sents) == [Reply(sents[0].request, |sents[0].Text()|)] + Replies(sents[1..])
  {
    hide Sent.Text;
  }

  lemma FirstAnswer(buf: bytes, request: Request, n: nat, maxBody: nat)
    requires n <= |buf| && VerdictOf(buf, maxBody) == Reply(request, n)
    ensures Answers(buf, maxBody) ==
            [Reply(request, n)] + (if request.KeepAlive() then Answers(buf[n..], maxBody) else [])
  {
    hide VerdictOf; hide Request.KeepAlive;
  }

  lemma RequestIsAnswered(s: Sent, ext: bytes, maxBody: nat)
    requires Sendable(s, maxBody)
    ensures VerdictOf(s.Text() + ext, maxBody) == Reply(s.request, |s.Text()|)
  {
    hide Parse; hide HeadText; hide WellFormed; hide ValidFields; hide BodyText; hide Expectation;
    RequestReads(s.request, s.fields, s.body, ext, maxBody);
  }

  /** A chunked body text with short framing lines only. */
  ghost predicate HasShortEncoding(s: Sent) {
    exists e: Encoding :: Encodes(e, s.body, s.request.body, |s.body|) && ShortLines.HasShortLines(e)
  }

  /** Requests whose heads are clear of the limit, that ask for no unsupported
      expectation ahead of a body, and whose chunked bodies have short framing lines
      make a settled stream. */
  ghost predicate Calm(s: Sent) {
    && |HeadText(s.request, s.fields)| + 3 <= MAX_HEAD_BYTES
    && match BodyFraming(s.request.headers)
       case Ok(Fixed(length)) => s.request.body == [] || ExpectationOf(s.request.headers) != Unsupported
       case Ok(ChunkedBody) => ExpectationOf(s.request.headers) != Unsupported && HasShortEncoding(s)
       case Err(_) => false
  }

  lemma CalmIsSettled(s: Sent, ext: bytes, maxBody: nat)
    requires Sendable(s, maxBody) && Calm(s)
    ensures Settled(s.Text() + ext, maxBody)
  {
    hide FindSubslice; hide HeadOf; hide HeadText; hide Expectation; hide ExpectationOf; hide WellFormed;
    hide ValidFields;
    hide BodyText; hide BodyFraming; hide LongLine; hide Chunked.Decode; hide HasShortEncoding;
    var head := HeadText(s.request, s.fields);
    var buf := s.Text() + ext;
    assert buf == head + BLANK + (s.body + ext);
    HeadReads(s.request, s.fields, maxBody, s.body + ext);
    ExpectationAgrees(buf, |head|);
    assert buf[|head| + 4..] == s.body + ext;
    if BodyFraming(s.request.headers) == Ok(ChunkedBody) {
      ShortBodyIsNotLong(s, ext, maxBody);
    } else {
      FixedLengthFits(s, maxBody);
    }
  }

  lemma FixedLengthFits(s: Sent, maxBody: nat)
    requires Sendable(s, maxBody) && BodyFraming(s.request.headers).Ok? && BodyFraming(s.request.headers).value.Fixed?
    ensures BodyFraming(s.request.headers) == Ok(Fixed(|s.request.body|))
  {
    hide BodyFraming; hide ValidHeader; hide ValidateHost;
  }

  lemma ShortBodyIsNotLong(s: Sent, ext: bytes, maxBody: nat)
    requires HasShortEncoding(s)
    ensures !LongLine(s.body + ext, 0, 0, maxBody)
  {
    hide LongLine; hide Valid; hide ShortLines.HasShortLines;
    var e: Encoding :| Encodes(e, s.body, s.request.body, |s.body|) && ShortLines.HasShortLines(e);
    assert ChunkedCodec.Text(e) == s.body;
    ShortLines.ShortEncoding(s.body + ext, 0, e, 0, maxBody);
  }

  lemma {:induction false} CalmPipelineIsSettled(sents: seq<Sent>, maxBody: nat)
    requires Pipeline(sents, maxBody) && forall s :: s in sents ==> Calm(s)
    ensures SettledStream(StreamOf(sents), maxBody)
    decreases |sents|
  {
    hide Settled; hide VerdictOf; hide Sent.Text; hide Sendable; hide Calm; hide Request.KeepAlive;
    if sents == [] {
      NothingWaits(maxBody);
      NothingIsSettled(maxBody);
    } else {
      var first, rest := sents[0], sents[1..];
      CalmIsSettled(first, StreamOf(rest), maxBody);
      RequestIsAnswered(first, StreamOf(rest), maxBody);
      assert StreamOf(sents)[|first.Text()|..] == StreamOf(rest);
      CalmPipelineIsSettled(rest, maxBody);
    }
  }

  lemma NothingIsSettled(maxBody: nat)
    ensures Settled([], maxBody)
  {
  }

  // ----- what the client receives -----

  predicate IsInterim(status: nat) {
    100 <= status <= 199
  }

  /** A client's reader: skips interim responses and reads one final response
      per request, up to the end of the stream. */
  function ReadFinals(stream: bytes, heads: seq<bool>): Option<seq<Received>>
    decreases |stream|
  {
    if stream == [] then (if heads == [] then Some([]) else None)
    else
      match ReadResponse(stream, heads != [] && heads[0])
      case None => None
      case Some((received, n)) =>
        if IsInterim(received.status) then ReadFinals(stream[n..], heads)
        else if heads == [] then None
        else
          match ReadFinals(stream[n..], heads[1..])
          case None => None
          case Some(rest) => Some([received] + rest)
  }

  function HeadsOf(answers: seq<Verdict>): seq<bool> {
    seq(|answers|, i requires 0 <= i < |answers| => EventHeadOnly(Final(answers[i])))
  }

  /** What the client is to receive for the answers. */
  function ReceivedFor(answers: seq<Verdict>, setup: Setup, now: nat): seq<Received> {
    seq(|answers|, i requires 0 <= i < |answers| =>
      Expected(ResponseFor(answers[i], setup, now), EventHeadOnly(Final(answers[i]))))
  }

  function ResponseFor(answer: Verdict, setup: Setup, now: nat): Response {
    EventResponse(Final(answer), setup.service, Context(setup.peer, now), setup.policy)
  }

  ghost predicate Readable(answer: Verdict, setup: Setup, now: nat) {
    var response := ResponseFor(answer, setup, now);
    Framable(response) && !IsInterim(response.status)
  }

  lemma InterimReads(ext: bytes, headOnly: bool)
    ensures var interim := Response(100, [], []);
            ReadResponse(Serialized(interim, false) + ext, headOnly)
            == Some((Expected(interim, false), |Serialized(interim, false)|))
  {
    hide Serialized; hide ReadResponse; hide WireHeaders;
    var interim := Response(100, [], []);
    assert Serialized(interim, headOnly) == Serialized(interim, false) by { InterimHasNoBody(headOnly); }
    assert Expected(interim, headOnly) == Expected(interim, false);
    ResponseReads(interim, headOnly, ext);
  }

  lemma InterimHasNoBody(headOnly: bool)
    ensures Serialized(Response(100, [], []), headOnly) == Serialized(Response(100, [], []), false)
  {
  }

  /** The client reads the final answers out of the events' bytes. */
  lemma {:induction false} EventsRead(events: seq<Event>, setup: Setup, now: nat)
    requires forall a :: a in Finals(events) ==> Readable(a, setup, now)
    ensures ReadFinals(EventsBytes(events, setup, now), HeadsOf(Finals(events)))
            == Some(ReceivedFor(Finals(events), setup, now))
    decreases |events|
  {
    hide EventBytes; hide ReadFinals; hide Readable; hide HeadsOf; hide ReceivedFor;
    if events == [] {
      NothingRead(setup, now);
    } else {
      var rest := events[1..];
      var more := EventsBytes(rest, setup, now);
      match events[0]
      case Interim =>
        assert Finals(events) == Finals(rest);
        EventsRead(rest, setup, now);
        InterimSkipped(more, HeadsOf(Finals(rest)), setup, now);
      case Final(a) =>
        assert Finals(events) == [a] + Finals(rest);
        assert a in Finals(events);
        assert forall b :: b in Finals(rest) ==> b in Finals(events);
        EventsRead(rest, setup, now);
        FinalRead(a, Finals(rest), more, setup, now);
    }
  }

  lemma NothingRead(setup: Setup, now: nat)
    ensures ReadFinals([], HeadsOf([])) == Some(ReceivedFor([], setup, now))
  {
    assert HeadsOf([]) == [] && ReceivedFor([], setup, now) == [];
  }

  /** The reader skips an interim response. */
  lemma InterimSkipped(more: bytes, heads: seq<bool>, setup: Setup, now: nat)
    ensures ReadFinals(EventBytes(Interim, setup.service, Context(setup.peer, now), setup.policy) + more, heads)
            == ReadFinals(more, heads)
  {
    hide Serialized; hide ReadResponse; hide EventBytes; hide Expected;
    var interim := Serialized(Response(100, [], []), false);
    InterimEvent(setup, now);
    InterimReads(more, heads != [] && heads[0]);
    assert (interim + more)[|interim|..] == more;
    ReadOne(interim + more, heads);
  }

  /** One final answer is read off the front of the stream. */
  lemma FinalRead(a: Verdict, rest: seq<Verdict>, more: bytes, setup: Setup, now: nat)
    requires Readable(a, setup, now)
    requires ReadFinals(more, HeadsOf(rest)) == Some(ReceivedFor(rest, setup, now))
    ensures ReadFinals(
              EventBytes(Final(a), setup.service, Context(setup.peer, now), setup.policy) + more, HeadsOf([a] + rest))
            == Some(ReceivedFor([a] + rest, setup, now))
  {
    hide Serialized; hide ReadResponse; hide EventResponse; hide EventHeadOnly; hide Framable; hide Expected;
    var heads := HeadsOf([a] + rest);
    var response := ResponseFor(a, setup, now);
    var sent := Serialized(response, EventHeadOnly(Final(a)));
    assert heads[0] == EventHeadOnly(Final(a)) && heads[1..] == HeadsOf(rest);
    ResponseReads(response, heads[0], more);
    assert (sent + more)[|sent|..] == more;
    ReadOne(sent + more, heads);
    assert ReceivedFor([a] + rest, setup, now) == [Expected(response, heads[0])] + ReceivedFor(rest, setup, now);
    ExpectedStatus(response, heads[0]);
  }

  lemma ExpectedStatus(r: Response, headOnly: bool)
    ensures Expected(r, headOnly).status == r.status
  {
  }

  lemma InterimEvent(setup: Setup, now: nat)
    ensures EventBytes(Interim, setup.service, Context(setup.peer, now), setup.policy) ==
            Serialized(Response(100, [], []), false)
    ensures Expected(Response(100, [], []), false).status == 100
  {
  }

  lemma ReadOne(stream: bytes, heads: seq<bool>)
    requires ReadResponse(stream, heads != [] && heads[0]).Some?
    ensures stream != []
  {
  }

  // ----- the whole server -----

  function Datas(fed: seq<Fed>): seq<bytes> {
    if fed == [] then [] else [fed[0].data] + Datas(fed[1..])
  }

  lemma {:induction false} EventsBytesAppend(a: seq<Event>, b: seq<Event>, setup: Setup, now: nat)
    ensures EventsBytes(a + b, setup, now) == EventsBytes(a, setup, now) + EventsBytes(b, setup, now)
  {
    hide EventBytes;
    if a == [] {
      assert a + b == b;
    } else {
      assert (a + b)[1..] == a[1..] + b;
      EventsBytesAppend(a[1..], b, setup, now);
    }
  }

  /** At one time of day, what is produced is what the run's events write. */
  lemma {:induction false} ProducedAtOneTime(s: ConnState, fed: seq<Fed>, setup: Setup, now: nat)
    requires forall f :: f in fed ==> f.now == now
    ensures Produced(s, fed, setup) == EventsBytes(RunEvents(s, Datas(fed), setup.maxBody), setup, now)
    decreases |fed|
  {
    hide Drain; hide EventsBytes;
    if fed == [] {
      NoEvents(setup, now);
    } else {
      var drained := Drain(s.(buf := s.buf + fed[0].data), setup.maxBody);
      assert Datas(fed)[1..] == Datas(fed[1..]);
      if drained.closed {
        assert drained.events + [] == drained.events;
      } else {
        ProducedAtOneTime(drained.state, fed[1..], setup, now);
        EventsBytesAppend(drained.events, RunEvents(drained.state, Datas(fed[1..]), setup.maxBody), setup, now);
      }
    }
  }

  lemma NoEvents(setup: Setup, now: nat)
    ensures EventsBytes([], setup, now) == []
  {
  }

  lemma {:induction false} FedAtOneTime(m: ConnModel, events: seq<Ready>, setup: Setup, now: nat)
    requires forall e :: e in events ==> e.now == now
    ensures forall f :: f in FedBy(m, events, setup) ==> f.now == now
    decreases |events|
  {
    hide Handle; hide ReadAllOf;
    if events != [] {
      FedAtOneTime(Handle(m, events[0], setup).0, events[1..], setup, now);
    }
  }

  /** Every byte of a stream was read and everything written was flushed. */
  predicate ServedInFull(stream: bytes, events: seq<Ready>, setup: Setup, now: nat) {
    && (forall e :: e in events ==> e.now == now)
    && Concat(Datas(FedBy(Fresh(), events, setup))) == stream
    && Run(Fresh(), events, setup).0.out == []
  }

  /** What the peer of a run was sent. */
  function SentBy(events: seq<Ready>, setup: Setup): bytes {
    Run(Fresh(), events, setup).0.sent
  }

  /** A settled stream through the reactor: however the bytes came in and went
      out, the client reads the answers of the uncut stream. */
  lemma ReactorServes(stream: bytes, events: seq<Ready>, setup: Setup, now: nat)
    requires SettledStream(stream, setup.maxBody)
    requires forall a :: a in Answers(stream, setup.maxBody) ==> Readable(a, setup, now)
    requires ServedInFull(stream, events, setup, now)
    ensures var answers := Answers(stream, setup.maxBody);
            ReadFinals(SentBy(events, setup), HeadsOf(answers)) == Some(ReceivedFor(answers, setup, now))
  {
    hide SettledStream; hide Answers; hide Run; hide FedBy; hide Produced; hide RunEvents; hide ReadFinals;
    hide Readable;
    hide HeadsOf; hide ReceivedFor; hide EventsBytes;
    var fed := FedBy(Fresh(), events, setup);
    BytesConserved(Fresh(), events, setup);
    FedAtOneTime(Fresh(), events, setup, now);
    ProducedAtOneTime(Fresh().conn, fed, setup, now);
    FinalsIndependentOfSegments(stream, setup.maxBody);
    var run := RunEvents(Fresh().conn, Datas(fed), setup.maxBody);
    var last, produced := Run(Fresh(), events, setup).0, Produced(Fresh().conn, fed, setup);
    assert last.sent == last.sent + last.out == Fresh().sent + Fresh().out + produced == produced;
    EventsRead(run, setup, now);
  }

  /** For each request of a pipeline, whether it wants the head only. */
  function HeadsAsked(sents: seq<Sent>): seq<bool> {
    seq(|sents|, i requires 0 <= i < |sents| => sents[i].request.verb == Head)
  }

  /** The service's finalized responses to a pipeline, as a client sees them. */
  function ResponsesTo(sents: seq<Sent>, setup: Setup, now: nat): seq<Received> {
    seq(|sents|, i requires 0 <= i < |sents| => ResponseTo(sents[i].request, setup, now))
  }

  function ResponseTo(r: Request, setup: Setup, now: nat): Received {
    var response := setup.service(r, Context(setup.peer, now));
    Expected(Finalize(response, now, Persists(r.headers, r.version), setup.policy), r.verb == Head)
  }

  /** Pipelining works: a client that sends well-formed requests back to back in a
      settled stream, and whose every byte the server has read and answered, reads
      exactly the service's responses, in order, whatever the segmentation, the
      read sizes and the partial writes were. */
  lemma PipelineIsServed(sents: seq<Sent>, events: seq<Ready>, setup: Setup, now: nat)
    requires Pipeline(sents, setup.maxBody) && SettledStream(StreamOf(sents), setup.maxBody)
    requires forall s :: s in sents ==> Readable(Reply(s.request, |s.Text()|), setup, now)
    requires ServedInFull(StreamOf(sents), events, setup, now)
    ensures ReadFinals(SentBy(events, setup), HeadsAsked(sents)) == Some(ResponsesTo(sents, setup, now))
  {
    hide SettledStream; hide Answers; hide Run; hide FedBy; hide ReadFinals; hide Readable; hide Pipeline;
    hide StreamOf; hide Replies;
    hide HeadsAsked; hide ResponsesTo; hide HeadsOf; hide ReceivedFor; hide Datas; hide Concat; hide Sent.Text;
    PipelineAnswers(sents, setup.maxBody);
    RepliesAreReadable(sents, setup, now);
    ReactorServes(StreamOf(sents), events, setup, now);
    RepliesAreReceived(sents, setup, now);
  }

  /** Calm requests make such a stream, chunked ones included. */
  lemma CalmPipelineIsServed(sents: seq<Sent>, events: seq<Ready>, setup: Setup, now: nat)
    requires Pipeline(sents, setup.maxBody) && forall s :: s in sents ==> Calm(s)
    requires forall s :: s in sents ==> Readable(Reply(s.request, |s.Text()|), setup, now)
    requires ServedInFull(StreamOf(sents), events, setup, now)
    ensures ReadFinals(SentBy(events, setup), HeadsAsked(sents)) == Some(ResponsesTo(sents, setup, now))
  {
    hide *;
    CalmPipelineIsSettled(sents, setup.maxBody);
    PipelineIsServed(sents, events, setup, now);
  }

  lemma RepliesAreReadable(sents: seq<Sent>, setup: Setup, now: nat)
    requires forall s :: s in sents ==> Readable(Reply(s.request, |s.Text()|), setup, now)
    ensures forall a :: a in Replies(sents) ==> Readable(a, setup, now)
  {
    hide Readable; hide Sent.Text;
    forall a | a in Replies(sents) ensures Readable(a, setup, now) {
      var i :| 0 <= i < |sents| && Replies(sents)[i] == a;
      assert sents[i] in sents;
    }
  }

  /** The responses that a pipeline's replies put on the wire. */
  lemma RepliesAreReceived(sents: seq<Sent>, setup: Setup, now: nat)
    ensures HeadsOf(Replies(sents)) == HeadsAsked(sents)
    ensures ReceivedFor(Replies(sents), setup, now) == ResponsesTo(sents, setup, now)
  {
    hide Sent.Text; hide Expected; hide Finalize; hide Request.KeepAlive; hide Persists;
    forall i | 0 <= i < |sents|
      ensures sents[i].request.KeepAlive() == Persists(sents[i].request.headers, sents[i].request.version)
    {
      KeepAliveIs(sents[i].request);
    }
  }

  /** Every stream can arrive and be answered in full: read at once, and written as
      far as there is anything to write. */
  lemma WholeStreamArrives(stream: bytes, setup: Setup, now: nat) returns (events: seq<Ready>)
    ensures ServedInFull(stream, events, setup, now)
  {
    hide Drain; hide EventsBytes;
    var m := Fresh();
    var queued := Drive(m.(conn := m.conn.(buf := m.conn.buf + stream)), setup, now).out;
    var e := Ready(true, now, [Data(stream)], if queued == [] then [] else [Wrote(|queued|)]);
    events := [e];
    ReadAtOnce(stream);
    WrittenAtOnce(queued);
    assert events[1..] == [];
    assert queued[|queued|..] == [];
    var (next, fate) := Handle(m, e, setup);
    assert FedBy(m, events, setup) == [Fed(now, stream)] + (if fate == Kept then FedBy(next, [], setup) else []);
    assert FedBy(m, events, setup) == [Fed(now, stream)];
    assert Datas([Fed(now, stream)]) == [stream] by { assert [Fed(now, stream)][1..] == []; }
    assert Concat([stream]) == stream + [] == stream by { assert [stream][1..] == []; }
    assert Concat(Datas(FedBy(m, events, setup))) == stream;
    assert Run(m, events, setup).0.out == next.out == [];
  }

  lemma ReadAtOnce(stream: bytes)
    ensures ReadAllOf([Data(stream)]) == (stream, false)
  {
    assert [Data(stream)][1..] == [];
    assert stream + [] == stream;
  }

  lemma WrittenAtOnce(out: bytes)
    ensures WriteAllOf(out, if out == [] then [] else [Wrote(|out|)]) == (|out|, false)
  {
    if out != [] {
      assert [Wrote(|out|)][1..] == [];
      assert out[|out|..] == [];
    }
  }
}
