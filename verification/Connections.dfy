/** The per-connection state machine: parse, dispatch, respond. */
module Connections {
  import opened Bytes
  import opened Http
  import opened RequestParser
  import opened Verdicts
  import opened Responses
  import HeaderRules
  import HttpDate

  datatype Step = NeedMore | Write(data: bytes, close: bool)

  datatype Policy = Policy(securityHeaders: bool, hasClock: bool)

  datatype Context = Context(peer: bytes, now: nat)

  /** The request handler, seen as a function of request and context. */
  type Service = (Request, Context) -> Response

  /** Adds the protocol-level and, if wanted, the security fields. */
  function Finalize(response: Response, now: nat, keepAlive: bool, policy: Policy): Response {
    var connected := response.WithHeader("Connection", if keepAlive then "keep-alive" else "close");
    var dated := if policy.hasClock then connected.WithHeader("Date", HttpDate.HttpDateOf(now)) else connected;
    if policy.securityHeaders then
      dated.WithHeader("X-Content-Type-Options", "nosniff")
      .WithHeader("X-Frame-Options", "SAMEORIGIN")
      .WithHeader("Referrer-Policy", "strict-origin-when-cross-origin")
    else dated
  }

  // ----- one step, on values -----

  datatype ConnState = ConnState(buf: bytes, continueSent: bool)

  /** What a writing step answers with: an interim 100, or a final answer. */
  datatype Event = Interim | Final(verdict: Verdict)

  /** The event of a step, if it writes, and the state after it. */
  function Advance(s: ConnState, maxBody: nat): (ConnState, Option<Event>) {
    match Parse(s.buf, maxBody)
    case Ok(Partial) =>
      (match Expectation(s.buf)
       case Continue => if s.continueSent then (s, None) else (s.(continueSent := true), Some(Interim))
       case Unsupported => (s, Some(Final(Refuse(417))))
       case NoExpect => (s, None))
    case Ok(Complete(request, consumed)) =>
      (ConnState(s.buf[consumed..], false), Some(Final(Reply(request, consumed))))
    case Err(e) => (s, Some(Final(Refuse(ErrorStatus(e)))))
  }

  predicate Closes(e: Event) {
    match e
    case Interim => false
    case Final(Reply(request, _)) => !request.KeepAlive()
    case Final(_) => true
  }

  /** Which events end the connection, from the fields and the version of the request:
      every refusal, and the answer to a request that is not to be kept. */
  predicate EndsConnection(e: Event) {
    e.Final? && (e.verdict.Reply? ==> !HeaderRules.Persists(e.verdict.request.headers, e.verdict.request.version))
  }

  function RefusalBody(status: nat): bytes {
    if status == 417 then "417 Expectation Failed" else Reason(status)
  }

  /** The response that an event writes. */
  function EventResponse(e: Event, service: Service, ctx: Context, policy: Policy): Response {
    match e
    case Final(Reply(request, _)) => Finalize(service(request, ctx), ctx.now, request.KeepAlive(), policy)
    case Final(Refuse(status)) => Finalize(TextResponse(status, RefusalBody(status)), ctx.now, false, policy)
    case _ => Response(100, [], [])
  }

  predicate EventHeadOnly(e: Event) {
    e.Final? && e.verdict.Reply? && e.verdict.request.verb == Head
  }

  function EventBytes(e: Event, service: Service, ctx: Context, policy: Policy): bytes {
    Serialized(EventResponse(e, service, ctx, policy), EventHeadOnly(e))
  }

  // ----- the connection object -----

  class Connection {
    var buf: bytes
    var continueSent: bool
    const policy: Policy
    const maxBody: nat
    const peer: bytes

    constructor (policy: Policy, maxBody: nat, peer: bytes)
      ensures State() == ConnState([], false)
      ensures this.policy == policy && this.maxBody == maxBody && this.peer == peer
    {
      this.buf := [];
      this.continueSent := false;
      this.policy := policy;
      this.maxBody := maxBody;
      this.peer := peer;
    }

    ghost function State(): ConnState
      reads this
    {
      ConnState(buf, continueSent)
    }

    method Feed(data: bytes)
      modifies this`buf
      ensures State() == old(State()).(buf := old(buf) + data)
    {
      buf := buf + data;
    }

    /** One step writes the response of its event, or needs more bytes. */
    method Step(service: Service, now: nat) returns (step: Step)
      modifies this
      ensures State() == Advance(old(State()), maxBody).0
      ensures match Advance(old(State()), maxBody).1
              case None => step == NeedMore
              case Some(e) => step == Write(EventBytes(e, service, Context(peer, now), policy), Closes(e))
      ensures step.Write? ==> (step.close <==> EndsConnection(Advance(old(State()), maxBody).1.value))
    {
      hide Parse; hide Expectation; hide Serialized; hide HeaderRules.Persists; hide Request.KeepAlive;
      var ctx := Context(peer, now);
      var parsed := ParseWith(buf, maxBody);
      match parsed
      case Ok(Partial) =>
        var expectation := FindExpectation(buf);
        if expectation == Continue && !continueSent {
          continueSent := true;
          var data := Serialize(Response(100, [], []), false);
          return Write(data, false);
        }
        if expectation == Unsupported {
          var data := Serialize(Finalize(TextResponse(417, "417 Expectation Failed"), now, false, policy), false);
          return Write(data, true);
        }
        return NeedMore;
      case Ok(Complete(request, consumed)) =>
        buf := buf[consumed..];
        continueSent := false;
        var keepAlive := request.KeepAlive();
        HeaderRules.KeepAliveIs(request);
        var data := Serialize(Finalize(service(request, ctx), now, keepAlive, policy), request.verb == Head);
        return Write(data, !keepAlive);
      case Err(e) =>
        var status := ErrorStatus(e);
        NotExpectation(e);
        var data := Serialize(Finalize(TextResponse(status, Reason(status)), now, false, policy), false);
        return Write(data, true);
    }
  }

  lemma NotExpectation(e: ParseError)
    ensures ErrorStatus(e) != 417
  {
  }
}
