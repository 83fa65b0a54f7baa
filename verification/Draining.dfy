/** The drain loop: stepping a connection until it needs more bytes or closes. */
module Draining {
  import opened Bytes
  import Ascii
  import opened Http
  import Chunked
  import opened RequestParser
  import Verdicts
  import opened Segmentation
  import opened Connections

  datatype Drained = Drained(events: seq<Event>, state: ConnState, closed: bool)

  /** Strictly decreases on every write that does not close. */
  function Measure(s: ConnState): nat {
    2 * |s.buf| + (if s.continueSent then 0 else 1)
  }

  lemma AdvanceDecreases(s: ConnState, maxBody: nat)
    ensures Advance(s, maxBody).1.Some? && !Closes(Advance(s, maxBody).1.value) ==>
              Measure(Advance(s, maxBody).0) < Measure(s)
  {
    hide Parse; hide Expectation;
  }

  /** Steps until one needs more bytes or closes. */
  function Drain(s: ConnState, maxBody: nat): Drained
    decreases Measure(s)
  {
    AdvanceDecreases(s, maxBody);
    var (next, event) := Advance(s, maxBody);
    match event
    case None => Drained([], next, false)
    case Some(e) =>
      if Closes(e) then Drained([e], next, true)
      else
        var rest := Drain(next, maxBody);
        Drained([e] + rest.events, rest.state, rest.closed)
  }

  /** The events of a whole run: after each segment the connection is drained;
      nothing more is read once it closes. */
  function RunEvents(s: ConnState, segments: seq<bytes>, maxBody: nat): seq<Event>
    decreases |segments|
  {
    if segments == [] then []
    else
      var drained := Drain(s.(buf := s.buf + segments[0]), maxBody);
      drained.events + (if drained.closed then [] else RunEvents(drained.state, segments[1..], maxBody))
  }

  /** The final answers among events. */
  function Finals(events: seq<Event>): seq<Verdicts.Verdict> {
    if events == [] then []
    else (match events[0] case Interim => [] case Final(v) => [v]) + Finals(events[1..])
  }

  lemma {:induction false} FinalsAppend(a: seq<Event>, b: seq<Event>)
    ensures Finals(a + b) == Finals(a) + Finals(b)
  {
    if a == [] {
      assert a + b == b;
    } else {
      assert (a + b)[1..] == a[1..] + b;
      FinalsAppend(a[1..], b);
    }
  }

  /** Interim responses aside, draining gives the answers of the buffer. */
  lemma {:induction false} DrainAnswers(s: ConnState, maxBody: nat)
    ensures Finals(Drain(s, maxBody).events) == Answers(s.buf, maxBody)
    ensures Drain(s, maxBody).closed == Closed(s.buf, maxBody)
    ensures !Closed(s.buf, maxBody) ==> Drain(s, maxBody).state.buf == Rest(s.buf, maxBody)
    decreases Measure(s)
  {
    hide Parse; hide Expectation;
    AdvanceDecreases(s, maxBody);
    var (next, event) := Advance(s, maxBody);
    if event.Some? {
      var e := event.value;
      if !Closes(e) {
        DrainAnswers(next, maxBody);
        assert Drain(s, maxBody).events[1..] == Drain(next, maxBody).events;
      }
    }
  }

  lemma {:induction false} RunEventsAnswer(s: ConnState, segments: seq<bytes>, maxBody: nat)
    ensures Finals(RunEvents(s, segments, maxBody)) == RunAnswers(s.buf, segments, maxBody)
    decreases |segments|
  {
    hide Drain; hide Answers; hide Closed; hide Rest;
    if segments != [] {
      var now := s.(buf := s.buf + segments[0]);
      var drained := Drain(now, maxBody);
      DrainAnswers(now, maxBody);
      if !drained.closed {
        RunEventsAnswer(drained.state, segments[1..], maxBody);
        FinalsAppend(drained.events, RunEvents(drained.state, segments[1..], maxBody));
      } else {
        assert drained.events + [] == drained.events;
      }
    }
  }

  /** With interim responses deleted, the final answers do not depend on how the
      stream was cut, exactly when the stream is settled. */
  lemma FinalsIndependentOfSegments(stream: bytes, maxBody: nat)
    ensures SettledStream(stream, maxBody) <==>
            forall segments :: Concat(segments) == stream ==>
              Finals(RunEvents(ConnState([], false), segments, maxBody)) == Answers(stream, maxBody)
  {
    hide SettledStream; hide Answers; hide RunAnswers; hide RunEvents;
    SegmentationIndependence(stream, maxBody);
    forall segments
      ensures Finals(RunEvents(ConnState([], false), segments, maxBody)) == RunAnswers([], segments, maxBody)
    {
      RunEventsAnswer(ConnState([], false), segments, maxBody);
    }
  }

  // ----- 100 Continue -----

  /** What the parsed fields say of the expectation. */
  function ExpectationOf(headers: seq<Header>): ExpectAction {
    var found := Named(headers, "expect");
    if found == [] then NoExpect
    else if Ascii.EqIgnoreCase(found[0].value, "100-continue") then Continue
    else Unsupported
  }

  lemma {:induction false} ScannerAgrees(lines: seq<bytes>, before: seq<Header>)
    requires HeadersOf(lines, before).Ok?
    ensures var headers := HeadersOf(lines, before).value;
            && |before| <= |headers| && headers[..|before|] == before
            && ExpectOf(lines) == ExpectationOf(headers[|before|..])
    decreases |lines|
  {
    hide IndexOf; hide Ascii.TrimmedOws;
    var headers := HeadersOf(lines, before).value;
    if lines != [] {
      var h := HeaderOf(lines[0]).value;
      ScannerAgrees(lines[1..], before + [h]);
      assert headers[|before|..][1..] == headers[|before + [h]|..];
      assert headers[|before|] == (before + [h])[|before|] == headers[..|before + [h]|][|before|];
      assert headers[..|before|] == headers[..|before + [h]|][..|before|];
    }
  }

  /** On every head that parses, the raw-line scanner and the parsed fields agree
      on the expectation. */
  lemma ExpectationAgrees(buf: bytes, i: nat)
    requires FindSubslice(buf, BLANK) == Some(i) && HeadOf(buf[..i + 4]).Ok?
    ensures Expectation(buf) == ExpectationOf(HeadOf(buf[..i + 4]).value.headers)
  {
    hide FindFrom; hide SplitFrom; hide HeadersOf; hide ExpectOf; hide RequestLineOf;
    assert buf[..i + 4][..i] == buf[..i];
    var lines := SplitCrlf(buf[..i]);
    ScannerAgrees(lines[1..], []);
    var headers := HeadOf(buf[..i + 4]).value.headers;
    assert headers[0..] == headers;
  }

  /** An interim response stands only before the answer to a request that asked
      for it, and at most once. */
  ghost predicate WellPaced(events: seq<Event>, asked: bool) {
    events == [] ||
    match events[0]
    case Interim => !asked && WellPaced(events[1..], true)
    case Final(v) =>
      && (asked && v.Reply? ==> ExpectationOf(v.request.headers) == Continue)
      && WellPaced(events[1..], false)
  }

  /** Once a 100 was sent, the buffer holds a head that asked for it. */
  ghost predicate Coherent(s: ConnState) {
    s.continueSent ==> Expectation(s.buf) == Continue
  }

  lemma ExpectationStays(buf: bytes, data: bytes)
    requires Expectation(buf) == Continue
    ensures Expectation(buf + data) == Continue
  {
    hide FindSubslice; hide SplitCrlf; hide ExpectOf;
    assert (buf + data)[..|buf|] == buf;
    Verdicts.HeadOfPrefix(buf + data, |buf|);
  }

  lemma ReplyHasExpectation(buf: bytes, maxBody: nat)
    requires Parse(buf, maxBody).Ok? && Parse(buf, maxBody).value.Complete?
    ensures Expectation(buf) == ExpectationOf(Parse(buf, maxBody).value.request.headers)
  {
    hide FindSubslice; hide HeadOf; hide Chunked.Decode; hide ExpectationOf; hide Expectation;
    ExpectationAgrees(buf, FindSubslice(buf, BLANK).value);
  }

  lemma {:induction false} DrainIsPaced(s: ConnState, maxBody: nat, later: seq<Event>)
    requires Coherent(s)
    requires !Drain(s, maxBody).closed ==> WellPaced(later, Drain(s, maxBody).state.continueSent)
    requires Drain(s, maxBody).closed ==> later == []
    ensures WellPaced(Drain(s, maxBody).events + later, s.continueSent)
    ensures Coherent(Drain(s, maxBody).state)
    decreases Measure(s)
  {
    hide Parse; hide Expectation; hide ExpectationOf;
    AdvanceDecreases(s, maxBody);
    var (next, event) := Advance(s, maxBody);
    var all := Drain(s, maxBody).events + later;
    if event.Some? {
      var e := event.value;
      if e.Final? && e.verdict.Reply? {
        ReplyHasExpectation(s.buf, maxBody);
      }
      if Closes(e) {
        assert all == [e];
        assert all[1..] == [];
      } else {
        DrainIsPaced(next, maxBody, later);
        assert all[1..] == Drain(next, maxBody).events + later;
      }
    } else {
      assert all == later;
    }
  }

  lemma {:induction false} RunIsPaced(s: ConnState, segments: seq<bytes>, maxBody: nat)
    requires Coherent(s)
    ensures WellPaced(RunEvents(s, segments, maxBody), s.continueSent)
    decreases |segments|
  {
    hide Drain; hide Expectation; hide WellPaced;
    if segments == [] {
      assert WellPaced([], s.continueSent) by { PacedNothing(s.continueSent); }
    } else {
      var now := s.(buf := s.buf + segments[0]);
      if s.continueSent {
        ExpectationStays(s.buf, segments[0]);
      }
      var drained := Drain(now, maxBody);
      if drained.closed {
        DrainIsPaced(now, maxBody, []);
      } else {
        DrainIsCoherent(now, maxBody);
        RunIsPaced(drained.state, segments[1..], maxBody);
        DrainIsPaced(now, maxBody, RunEvents(drained.state, segments[1..], maxBody));
      }
    }
  }

  lemma PacedNothing(asked: bool)
    ensures WellPaced([], asked)
  {
  }

  lemma {:induction false} DrainIsCoherent(s: ConnState, maxBody: nat)
    requires Coherent(s)
    ensures Coherent(Drain(s, maxBody).state)
    decreases Measure(s)
  {
    hide Parse; hide Expectation;
    AdvanceDecreases(s, maxBody);
    var (next, event) := Advance(s, maxBody);
    if event.Some? && !Closes(event.value) {
      DrainIsCoherent(next, maxBody);
    }
  }

  lemma {:induction false} PacedAt(events: seq<Event>, asked: bool, k: nat)
    requires WellPaced(events, asked) && k + 1 < |events| && events[k].Interim?
    ensures events[k + 1].Final?
    ensures events[k + 1].verdict.Reply? ==> ExpectationOf(events[k + 1].verdict.request.headers) == Continue
    decreases k
  {
    if k > 0 {
      PacedAt(events[1..], events[0].Interim?, k - 1);
    } else {
      assert events[1..][0] == events[1];
    }
  }

  /** In every run, an interim 100 is followed by a final answer, and if that
      answers a request, the request asked for 100-continue: between two final
      answers there is at most one 100, and never an unasked one. */
  lemma InterimsAreAskedFor(segments: seq<bytes>, maxBody: nat, k: nat)
    requires var events := RunEvents(ConnState([], false), segments, maxBody);
             k + 1 < |events| && events[k].Interim?
    ensures var next := RunEvents(ConnState([], false), segments, maxBody)[k + 1];
            next.Final? && (next.verdict.Reply? ==> ExpectationOf(next.verdict.request.headers) == Continue)
  {
    hide RunEvents; hide WellPaced; hide ExpectationOf;
    RunIsPaced(ConnState([], false), segments, maxBody);
    PacedAt(RunEvents(ConnState([], false), segments, maxBody), false, k);
  }

  // ----- who is sent a 100 -----

  /** The states from which the events of a drain are written, one for each. */
  function DrainStates(s: ConnState, maxBody: nat): seq<ConnState>
    decreases Measure(s)
  {
    AdvanceDecreases(s, maxBody);
    var (next, event) := Advance(s, maxBody);
    match event
    case None => []
    case Some(e) => [s] + (if Closes(e) then [] else DrainStates(next, maxBody))
  }

  /** The states from which the events of a run are written. */
  function RunStates(s: ConnState, segments: seq<bytes>, maxBody: nat): seq<ConnState>
    decreases |segments|
  {
    if segments == [] then []
    else
      var now := s.(buf := s.buf + segments[0]);
      var drained := Drain(now, maxBody);
      DrainStates(now, maxBody) + (if drained.closed then [] else RunStates(drained.state, segments[1..], maxBody))
  }

  ghost predicate WrittenFrom(states: seq<ConnState>, events: seq<Event>, maxBody: nat) {
    |states| == |events| && forall k :: 0 <= k < |events| ==> Advance(states[k], maxBody).1 == Some(events[k])
  }

  lemma {:induction false} DrainIsWritten(s: ConnState, maxBody: nat)
    ensures WrittenFrom(DrainStates(s, maxBody), Drain(s, maxBody).events, maxBody)
    decreases Measure(s)
  {
    hide Advance;
    AdvanceDecreases(s, maxBody);
    var (next, event) := Advance(s, maxBody);
    if event.Some? && !Closes(event.value) {
      DrainIsWritten(next, maxBody);
    }
  }

  lemma {:induction false} RunIsWritten(s: ConnState, segments: seq<bytes>, maxBody: nat)
    ensures WrittenFrom(RunStates(s, segments, maxBody), RunEvents(s, segments, maxBody), maxBody)
    decreases |segments|
  {
    hide Advance; hide Drain; hide DrainStates;
    if segments != [] {
      var now := s.(buf := s.buf + segments[0]);
      DrainIsWritten(now, maxBody);
      if !Drain(now, maxBody).closed {
        RunIsWritten(Drain(now, maxBody).state, segments[1..], maxBody);
      }
    }
  }

  /** The buffer holds a head that parses and whose fields ask for 100-continue. */
  predicate AsksForContinue(buf: bytes) {
    match FindSubslice(buf, BLANK)
    case None => false
    case Some(i) => HeadOf(buf[..i + 4]).Ok? && ExpectationOf(HeadOf(buf[..i + 4]).value.headers) == Continue
  }

  /** A 100 is written exactly while a head that asks for it waits for its body, unless
      one was written for it already. */
  lemma InterimIsAskedFor(s: ConnState, maxBody: nat)
    ensures Advance(s, maxBody).1 == Some(Interim) <==>
            AsksForContinue(s.buf) && !s.continueSent && Parse(s.buf, maxBody) == Ok(Partial)
    ensures Advance(s, maxBody).1 == Some(Interim) ==> Advance(s, maxBody).0 == s.(continueSent := true)
  {
    hide FindSubslice; hide HeadOf; hide BodyOf; hide ExpectationOf; hide ExpectOf; hide SplitCrlf;
    if Parse(s.buf, maxBody) == Ok(Partial) && FindSubslice(s.buf, BLANK).Some? {
      ExpectationAgrees(s.buf, FindSubslice(s.buf, BLANK).value);
    }
  }

  /** Every 100 of every run is written while the buffer holds the parsed head of a
      request that asks for it, its body still incomplete, whatever is answered
      after it. */
  lemma EveryInterimIsAskedFor(segments: seq<bytes>, maxBody: nat, k: nat)
    requires k < |RunEvents(ConnState([], false), segments, maxBody)|
    requires RunEvents(ConnState([], false), segments, maxBody)[k].Interim?
    ensures var states := RunStates(ConnState([], false), segments, maxBody);
            && k < |states| && Advance(states[k], maxBody).1 == Some(Interim)
            && AsksForContinue(states[k].buf) && Parse(states[k].buf, maxBody) == Ok(Partial)
  {
    hide RunEvents; hide RunStates; hide Advance; hide AsksForContinue; hide Parse;
    RunIsWritten(ConnState([], false), segments, maxBody);
    InterimIsAskedFor(RunStates(ConnState([], false), segments, maxBody)[k], maxBody);
  }
}
