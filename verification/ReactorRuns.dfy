/** Whole runs of the reactor: no byte is lost, repeated or reordered. */
module ReactorRuns {
  import opened Bytes
  import Connections
  import Draining
  import opened Reactor

  /** Handles readiness events until the connection is dropped. */
  function Run(m: ConnModel, events: seq<Ready>, setup: Setup): (ConnModel, Fate)
    decreases |events|
  {
    if events == [] then (m, Kept)
    else
      var (next, fate) := Handle(m, events[0], setup);
      if fate != Kept then (next, fate) else Run(next, events[1..], setup)
  }

  /** Bytes that reached the state machine, with the time of their event. */
  datatype Fed = Fed(now: nat, data: bytes)

  /** What the events of a run feed to the state machine. */
  function FedBy(m: ConnModel, events: seq<Ready>, setup: Setup): seq<Fed>
    decreases |events|
  {
    if events == [] then []
    else
      var e := events[0];
      var (data, lost) := ReadAllOf(e.arrivals);
      var (next, fate) := Handle(m, e, setup);
      (if e.readable && !m.closing && !lost then [Fed(e.now, data)] else []) +
      (if fate == Kept then FedBy(next, events[1..], setup) else [])
  }

  /** What the state machine writes when it is fed and drained in turn, until a
      response closes. */
  function Produced(s: Connections.ConnState, fed: seq<Fed>, setup: Setup): bytes
    decreases |fed|
  {
    if fed == [] then []
    else
      var drained := Draining.Drain(s.(buf := s.buf + fed[0].data), setup.maxBody);
      EventsBytes(drained.events, setup, fed[0].now) +
      (if drained.closed then [] else Produced(drained.state, fed[1..], setup))
  }

  /** A flush only moves bytes from the queue to the peer, in order. */
  lemma FlushConserves(m: ConnModel, grants: seq<WriteResult>)
    ensures var (next, fate) := Flush(m, grants);
            && next.sent + next.out == m.sent + m.out && m.sent <= next.sent
            && next.conn == m.conn && next.closing == m.closing
            && (fate == Flushed ==> next.closing && next.out == [])
            && (fate == Kept ==> (next.wantsWrite <==> next.out != []) && (next.closing ==> next.out != []))
  {
    hide WriteAllOf;
    var (n, lost) := WriteAllOf(m.out, grants);
    assert m.out == m.out[..n] + m.out[n..];
  }

  lemma {:induction false} ClosingFeedsNothing(m: ConnModel, events: seq<Ready>, setup: Setup)
    requires m.closing
    ensures FedBy(m, events, setup) == []
    decreases |events|
  {
    hide Flush;
    if events != [] {
      FlushConserves(m, events[0].grants);
      ClosingFeedsNothing(Handle(m, events[0], setup).0, events[1..], setup);
    }
  }

  /** What one event makes the state machine write. */
  function Written(m: ConnModel, e: Ready, setup: Setup): bytes {
    var (data, lost) := ReadAllOf(e.arrivals);
    if e.readable && !m.closing && !lost
    then EventsBytes(Draining.Drain(m.conn.(buf := m.conn.buf + data), setup.maxBody).events, setup, e.now)
    else []
  }

  lemma HandleConserves(m: ConnModel, e: Ready, setup: Setup)
    ensures var (next, fate) := Handle(m, e, setup);
            && next.sent + next.out == m.sent + m.out + Written(m, e, setup) && m.sent <= next.sent
            && (fate == Flushed ==> next.closing && next.out == [])
            && (fate == Kept ==> (next.wantsWrite <==> next.out != []))
  {
    hide Flush; hide Draining.Drain; hide ReadAllOf; hide EventsBytes;
    var (data, lost) := ReadAllOf(e.arrivals);
    assert m.sent + m.out + [] == m.sent + m.out;
    if e.readable && !m.closing {
      var fed := m.(conn := m.conn.(buf := m.conn.buf + data));
      FlushConserves(Drive(fed, setup, e.now), e.grants);
      var queued := Drive(fed, setup, e.now).out[|m.out|..];
      assert m.sent + (m.out + queued) == m.sent + m.out + queued;
    } else {
      FlushConserves(m, e.grants);
    }
  }

  /** What a run makes the state machine write: its first event, then the rest. */
  lemma ProducedInSteps(m: ConnModel, e: Ready, rest: seq<Ready>, setup: Setup)
    ensures var (next, fate) := Handle(m, e, setup);
            Produced(m.conn, FedBy(m, [e] + rest, setup), setup) ==
            Written(m, e, setup) + (if fate == Kept then Produced(next.conn, FedBy(next, rest, setup), setup) else [])
  {
    hide Flush; hide Draining.Drain; hide ReadAllOf; hide EventsBytes;
    var (data, lost) := ReadAllOf(e.arrivals);
    var (next, fate) := Handle(m, e, setup);
    var later := if fate == Kept then FedBy(next, rest, setup) else [];
    var list := FedBy(m, [e] + rest, setup);
    assert ([e] + rest)[1..] == rest;
    if e.readable && !m.closing && !lost {
      var fed := m.(conn := m.conn.(buf := m.conn.buf + data));
      FlushConserves(Drive(fed, setup, e.now), e.grants);
      assert list == [Fed(e.now, data)] + later && list[1..] == later;
      if next.closing {
        ClosingFeedsNothing(next, rest, setup);
      }
    } else {
      FlushConserves(m, e.grants);
      assert list == later;
    }
  }

  /** In every run, under any partial reads and writes, what the peer was sent
      and what is still queued are together exactly what the state machine wrote,
      in order; a connection is dropped as flushed only with nothing queued; a
      kept one waits to write exactly when something is queued. */
  lemma {:induction false} BytesConserved(m: ConnModel, events: seq<Ready>, setup: Setup)
    ensures var (last, fate) := Run(m, events, setup);
            && last.sent + last.out == m.sent + m.out + Produced(m.conn, FedBy(m, events, setup), setup)
            && m.sent <= last.sent
            && (fate == Flushed ==> last.out == [] && last.closing)
            && (fate == Kept && events != [] ==> (last.wantsWrite <==> last.out != []))
    decreases |events|
  {
    hide Handle; hide Written; hide Produced; hide FedBy;
    if events == [] {
      NothingFed(m, setup);
    } else {
      var e, rest := events[0], events[1..];
      var (next, fate) := Handle(m, e, setup);
      HandleConserves(m, e, setup);
      assert events == [e] + rest;
      ProducedInSteps(m, e, rest, setup);
      var written := Written(m, e, setup);
      if fate == Kept {
        BytesConserved(next, rest, setup);
        var more := Produced(next.conn, FedBy(next, rest, setup), setup);
        assert m.sent + m.out + written + more == m.sent + m.out + (written + more);
      } else {
        assert written + [] == written;
      }
    }
  }

  lemma NothingFed(m: ConnModel, setup: Setup)
    ensures m.sent + m.out + Produced(m.conn, FedBy(m, [], setup), setup) == m.sent + m.out
  {
  }

  /** Once a response closes, nothing more is queued. */
  lemma NothingAfterClose(m: ConnModel, events: seq<Ready>, setup: Setup)
    requires m.closing
    ensures Run(m, events, setup).0.sent + Run(m, events, setup).0.out == m.sent + m.out
  {
    hide Run; hide FedBy;
    ClosingFeedsNothing(m, events, setup);
    BytesConserved(m, events, setup);
    assert m.sent + m.out + [] == m.sent + m.out;
  }
}
