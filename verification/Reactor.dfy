/** The plaintext reactor step: read, drain, write, re-arm. */
module Reactor {
  import opened Bytes
  import opened Connections
  import opened Draining

  // ----- the socket as an environment -----

  /** What one read or write of a non-blocking socket may do. A read returns at
      least one byte, a write takes any number of the bytes offered. */
  datatype ReadResult = Data(data: bytes) | PeerClosed | ReadBlocked | ReadInterrupted | ReadFailed
  datatype WriteResult = Wrote(count: nat) | WriteBlocked | WriteInterrupted | WriteFailed

  /** A readiness event with the results that the socket will give; when they run
      out the socket would block. */
  datatype Ready = Ready(readable: bool, now: nat, arrivals: seq<ReadResult>, grants: seq<WriteResult>)

  /** The bytes read, and whether the connection is lost. */
  function ReadAllOf(arrivals: seq<ReadResult>): (bytes, bool) {
    if arrivals == [] then ([], false)
    else match arrivals[0]
         case Data(data) => var (more, lost) := ReadAllOf(arrivals[1..]); (data + more, lost)
         case ReadInterrupted => ReadAllOf(arrivals[1..])
         case ReadBlocked => ([], false)
         case PeerClosed => ([], true)
         case ReadFailed => ([], true)
  }

  /** How many bytes the socket takes, and whether the connection is lost. */
  function WriteAllOf(out: bytes, grants: seq<WriteResult>): (r: (nat, bool))
    ensures r.0 <= |out|
    decreases |grants|
  {
    if out == [] || grants == [] then (0, false)
    else match grants[0]
         case Wrote(count) =>
           var n := if count <= |out| then count else |out|;
           if n == 0 then (0, true)
           else var (more, lost) := WriteAllOf(out[n..], grants[1..]); (n + more, lost)
         case WriteInterrupted => WriteAllOf(out, grants[1..])
         case WriteBlocked => (0, false)
         case WriteFailed => (0, true)
  }

  // ----- one readiness event, on values -----

  /** `sent` is what the peer has been given, in order. */
  datatype ConnModel = ConnModel(conn: ConnState, out: bytes, wantsWrite: bool, closing: bool, sent: bytes)

  /** Kept, dropped after its last byte was flushed, or lost to the peer or an error. */
  datatype Fate = Kept | Flushed | Lost

  /** What is fixed for a connection. */
  datatype Setup = Setup(service: Service, peer: bytes, policy: Policy, maxBody: nat)

  function EventsBytes(events: seq<Event>, setup: Setup, now: nat): bytes {
    if events == [] then []
    else
      var bytes := EventBytes(events[0], setup.service, Context(setup.peer, now), setup.policy);
      bytes + EventsBytes(events[1..], setup, now)
  }

  /** Drains what has been read and queues what that writes. */
  function Drive(m: ConnModel, setup: Setup, now: nat): ConnModel {
    var drained := Drain(m.conn, setup.maxBody);
    m.(conn := drained.state, out := m.out + EventsBytes(drained.events, setup, now), closing := drained.closed)
  }

  function Flush(m: ConnModel, grants: seq<WriteResult>): (ConnModel, Fate) {
    var (n, lost) := WriteAllOf(m.out, grants);
    var flushed := m.(out := m.out[n..], sent := m.sent + m.out[..n]);
    if lost then (flushed, Lost)
    else if flushed.out == [] then
      if m.closing then (flushed, Flushed) else (flushed.(wantsWrite := false), Kept)
    else (flushed.(wantsWrite := true), Kept)
  }

  function Handle(m: ConnModel, e: Ready, setup: Setup): (ConnModel, Fate) {
    if e.readable && !m.closing then
      var (data, lost) := ReadAllOf(e.arrivals);
      var fed := m.(conn := m.conn.(buf := m.conn.buf + data));
      if lost then (fed, Lost) else Flush(Drive(fed, setup, e.now), e.grants)
    else Flush(m, e.grants)
  }

  // ----- the connection object of the reactor -----

  class Conn {
    const state: Connection
    var out: bytes
    var wantsWrite: bool
    var closeAfterFlush: bool
    ghost var sent: bytes

    constructor (policy: Policy, maxBody: nat, peer: bytes)
      ensures fresh(state) && Model() == Fresh()
      ensures state.policy == policy && state.maxBody == maxBody && state.peer == peer
    {
      state := new Connection(policy, maxBody, peer);
      out := [];
      wantsWrite := false;
      closeAfterFlush := false;
      sent := [];
    }

    ghost function Model(): ConnModel
      reads this, state
    {
      ConnModel(state.State(), out, wantsWrite, closeAfterFlush, sent)
    }

    ghost function SetupFor(service: Service): Setup {
      Setup(service, state.peer, state.policy, state.maxBody)
    }

    /** Handles a readiness event; true if the connection is to be dropped. */
    method HandleReady(e: Ready, service: Service) returns (drop: bool)
      modifies this, state
      ensures Model() == Handle(old(Model()), e, SetupFor(service)).0
      ensures drop <==> Handle(old(Model()), e, SetupFor(service)).1 != Kept
    {
      hide ReadAllOf; hide WriteAllOf; hide Drive;
      if e.readable && !closeAfterFlush {
        var lost := PlainReadIn(e.arrivals);
        if lost {
          return true;
        }
        DrainInto(service, e.now);
      }
      drop := FlushOut(e.grants);
    }

    /** Writes what the socket takes, then re-arms or asks to be dropped. */
    method FlushOut(grants: seq<WriteResult>) returns (drop: bool)
      modifies this
      ensures Model() == Flush(old(Model()), grants).0
      ensures drop <==> Flush(old(Model()), grants).1 != Kept
    {
      hide WriteAllOf;
      var lost := PlainWriteOut(grants);
      if lost {
        return true;
      }
      drop := UpdateInterest();
    }

    method PlainReadIn(arrivals: seq<ReadResult>) returns (lost: bool)
      modifies state
      ensures state.State() == old(state.State()).(buf := old(state.buf) + ReadAllOf(arrivals).0)
      ensures lost == ReadAllOf(arrivals).1
    {
      for k := 0 to |arrivals|
        invariant state.buf + ReadAllOf(arrivals[k..]).0 == old(state.buf) + ReadAllOf(arrivals).0
        invariant ReadAllOf(arrivals[k..]).1 == ReadAllOf(arrivals).1
        invariant state.continueSent == old(state.continueSent)
      {
        assert arrivals[k..][1..] == arrivals[k + 1..];
        match arrivals[k]
        case Data(data) => state.Feed(data);
        case ReadInterrupted =>
        case ReadBlocked => return false;
        case PeerClosed => return true;
        case ReadFailed => return true;
      }
      return false;
    }

    /** Steps until more bytes are needed or a response closes. */
    method DrainInto(service: Service, now: nat)
      requires !closeAfterFlush
      modifies this, state
      ensures Model() == Drive(old(Model()), SetupFor(service), now)
    {
      hide Advance; hide EventBytes;
      ghost var setup := SetupFor(service);
      ghost var s0 := state.State();
      while true
        invariant !closeAfterFlush && sent == old(sent) && wantsWrite == old(wantsWrite)
        invariant var all, rest := Drain(s0, setup.maxBody), Drain(state.State(), setup.maxBody);
                  && rest.state == all.state && rest.closed == all.closed
                  && out + EventsBytes(rest.events, setup, now) == old(out) + EventsBytes(all.events, setup, now)
        decreases Measure(state.State())
      {
        ghost var before := state.State();
        AdvanceDecreases(before, setup.maxBody);
        var step := state.Step(service, now);
        match step
        case NeedMore => return;
        case Write(data, close) =>
          ghost var e := Advance(before, setup.maxBody).1.value;
          assert [e][1..] == [];
          assert ([e] + Drain(state.State(), setup.maxBody).events)[1..] == Drain(state.State(), setup.maxBody).events;
          out := out + data;
          if close {
            closeAfterFlush := true;
            return;
          }
      }
    }

    method PlainWriteOut(grants: seq<WriteResult>) returns (lost: bool)
      modifies this`out, this`sent
      ensures var (n, gone) := WriteAllOf(old(out), grants);
              out == old(out)[n..] && sent == old(sent) + old(out)[..n] && lost == gone
    {
      ghost var done := 0;
      for k := 0 to |grants|
        invariant done <= |old(out)| && out == old(out)[done..] && sent == old(sent) + old(out)[..done]
        invariant done + WriteAllOf(out, grants[k..]).0 == WriteAllOf(old(out), grants).0
        invariant WriteAllOf(out, grants[k..]).1 == WriteAllOf(old(out), grants).1
      {
        if out == [] {
          return false;
        }
        assert grants[k..][1..] == grants[k + 1..];
        match grants[k]
        case Wrote(count) =>
          var n := if count <= |out| then count else |out|;
          if n == 0 {
            return true;
          }
          sent := sent + out[..n];
          out := out[n..];
          done := done + n;
        case WriteInterrupted =>
        case WriteBlocked => return false;
        case WriteFailed => return true;
      }
      return false;
    }

    /** Re-arms the interest in writability; true if all is flushed and closing. */
    method UpdateInterest() returns (done: bool)
      modifies this`wantsWrite
      ensures done == (out == [] && closeAfterFlush)
      ensures !done ==> wantsWrite == (out != [])
      ensures done ==> wantsWrite == old(wantsWrite)
    {
      if out == [] {
        if closeAfterFlush {
          return true;
        }
        if wantsWrite {
          wantsWrite := false;
        }
      } else if !wantsWrite {
        wantsWrite := true;
      }
      return false;
    }
  }

  function Fresh(): ConnModel {
    ConnModel(ConnState([], false), [], false, false, [])
  }
}
