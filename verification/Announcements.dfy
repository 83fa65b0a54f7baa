/** What the connection adds to every response: whether it closes, and the date. */
module Announcements {
  import opened Bytes
  import opened Ascii
  import opened Numerals
  import opened Http
  import opened HttpDate
  import opened RequestParser
  import opened Responses
  import ResponseReader
  import opened Verdicts
  import opened Connections

  // ----- the last field with a name -----

  predicate LastIs(headers: seq<Header>, name: bytes, value: bytes) {
    var found := Named(headers, name);
    found != [] && found[|found| - 1].value == value
  }

  lemma LastAppended(headers: seq<Header>, h: Header, name: bytes)
    ensures EqIgnoreCase(h.name, name) ==> LastIs(headers + [h], name, h.value)
    ensures !EqIgnoreCase(h.name, name) ==> Named(headers + [h], name) == Named(headers, name)
  {
    hide EqIgnoreCase;
    ResponseReader.NamedAppend(headers, [h], name);
    assert Named([h], name) == if EqIgnoreCase(h.name, name) then [h] else [] by {
      assert [h][1..] == [];
    }
  }

  /** A field that reaches the wire stays last among those of its name while other
      names are added. */
  lemma SentLast(headers: seq<Header>, h: Header, name: bytes)
    requires Survives(h)
    ensures EqIgnoreCase(h.name, name) ==> LastIs(Surviving(headers + [h]), name, h.value)
    ensures !EqIgnoreCase(h.name, name) ==> Named(Surviving(headers + [h]), name) == Named(Surviving(headers), name)
  {
    hide Survives; hide EqIgnoreCase; hide LastIs;
    SurvivingAppend(headers, h);
    LastAppended(Surviving(headers), h, name);
  }

  lemma LengthIsLast(r: Response, name: bytes)
    requires !EqIgnoreCase("Content-Length", name)
    ensures Named(WireHeaders(r), name) == Named(Surviving(r.headers), name)
  {
    hide EqIgnoreCase; hide Print; hide Surviving;
    LastAppended(Surviving(r.headers), Header("Content-Length", Dec(|r.body|)), name);
    assert Surviving(r.headers) + [] == Surviving(r.headers);
  }

  // ----- text that is safe in a field -----

  predicate Visible(s: bytes) {
    forall i :: 0 <= i < |s| ==> 0x20 <= s[i] as int <= 0x7E
  }

  lemma VisibleSurvives(h: Header)
    requires Visible(h.name) && Visible(h.value) && !EqIgnoreCase(h.name, "content-length")
    ensures Survives(h)
  {
  }

  lemma VisibleJoin(a: bytes, b: bytes)
    requires Visible(a) && Visible(b)
    ensures Visible(a + b)
  {
  }

  lemma DigitsAreVisible(s: bytes)
    requires AllDigits(s)
    ensures Visible(s)
  {
  }

  lemma TimeIsVisible(secs: nat)
    ensures Visible(TimeText(secs))
  {
    hide Padded;
    var h, m, s := Padded(secs / 3600, 2), Padded(secs % 3600 / 60, 2), Padded(secs % 60, 2);
    DigitsAreVisible(h);
    DigitsAreVisible(m);
    DigitsAreVisible(s);
  }

  lemma NameIsVisible(k: nat)
    ensures k < 7 ==> Visible(WEEKDAYS[k])
    ensures k < 12 ==> Visible(MONTHS[k])
  {
  }

  lemma DateIsVisible(secs: nat)
    ensures Visible(HttpDateOf(secs))
  {
    hide Padded; hide DateOf; hide TimeText; hide Visible; hide Weekday;
    var d := DateOf(secs / DAY_SECS);
    var time := TimeText(secs % DAY_SECS) + " " + "GMT";
    TimeIsVisible(secs % DAY_SECS);
    SpaceIsVisible();
    VisibleJoin(TimeText(secs % DAY_SECS), " ");
    VisibleJoin(TimeText(secs % DAY_SECS) + " ", "GMT");
    var year := Padded(d.year, 4);
    DigitsAreVisible(year);
    VisibleJoin(year, " ");
    VisibleJoin(year + " ", time);
    var month := MONTHS[d.month - 1];
    NameIsVisible(d.month - 1);
    VisibleJoin(month, " ");
    VisibleJoin(month + " ", year + " " + time);
    var day := Padded(d.day, 2);
    DigitsAreVisible(day);
    VisibleJoin(day, " ");
    VisibleJoin(day + " ", month + " " + (year + " " + time));
    var weekday := WEEKDAYS[Weekday(secs / DAY_SECS)];
    NameIsVisible(Weekday(secs / DAY_SECS));
    VisibleJoin(weekday, ",");
    VisibleJoin(weekday + ",", " ");
    VisibleJoin(weekday + "," + " ", day + " " + (month + " " + (year + " " + time)));
  }

  lemma SpaceIsVisible()
    ensures Visible(" ") && Visible("GMT") && Visible(",")
  {
  }

  // ----- what is announced -----

  /** The names that the connection adds are all different. */
  lemma AddedNamesDiffer()
    ensures forall name ::
              name in ["Date", "X-Content-Type-Options", "X-Frame-Options", "Referrer-Policy", "Content-Length"] ==>
              !EqIgnoreCase(name, "connection")
    ensures forall name ::
              name in ["Connection", "X-Content-Type-Options", "X-Frame-Options", "Referrer-Policy",
                       "Content-Length"] ==>
              !EqIgnoreCase(name, "date")
    ensures forall name ::
              name in ["Connection", "Date", "X-Content-Type-Options", "X-Frame-Options", "Referrer-Policy"] ==>
              !EqIgnoreCase(name, "content-length")
    ensures EqIgnoreCase("Connection", "connection") && EqIgnoreCase("Date", "date")
  {
  }

  /** Security fields leave every other name alone. */
  lemma SecurityKeeps(r: Response, name: bytes)
    requires name == "connection" || name == "date"
    ensures var s := r.WithHeader("X-Content-Type-Options", "nosniff").WithHeader("X-Frame-Options", "SAMEORIGIN")
                     .WithHeader("Referrer-Policy", "strict-origin-when-cross-origin");
            Named(Surviving(s.headers), name) == Named(Surviving(r.headers), name)
  {
    hide EqIgnoreCase; hide Surviving; hide Survives; hide Named;
    AddedNamesDiffer();
    SecurityFieldsSurvive();
    var a := Header("X-Content-Type-Options", "nosniff");
    var b := Header("X-Frame-Options", "SAMEORIGIN");
    var c := Header("Referrer-Policy", "strict-origin-when-cross-origin");
    SentLast(r.headers, a, name);
    SentLast(r.headers + [a], b, name);
    SentLast(r.headers + [a] + [b], c, name);
  }

  lemma SecurityFieldsSurvive()
    ensures Survives(Header("X-Content-Type-Options", "nosniff")) && Survives(Header("X-Frame-Options", "SAMEORIGIN"))
    ensures Survives(Header("Referrer-Policy", "strict-origin-when-cross-origin"))
  {
    hide EqIgnoreCase; hide Survives; hide Visible;
    AddedNamesDiffer();
    SecurityTextsAreVisible();
    VisibleSurvives(Header("X-Content-Type-Options", "nosniff"));
    VisibleSurvives(Header("X-Frame-Options", "SAMEORIGIN"));
    PolicyIsVisible();
    VisibleSurvives(Header("Referrer-Policy", "strict-origin-when-cross-origin"));
  }

  lemma SecurityTextsAreVisible()
    ensures Visible("X-Content-Type-Options") && Visible("nosniff") && Visible("X-Frame-Options")
            && Visible("SAMEORIGIN")
  {
  }

  lemma PolicyIsVisible()
    ensures Visible("Referrer-Policy") && Visible("strict-origin-when-cross-origin")
  {
  }

  /** The two fields that every answer may be given reach the wire. */
  lemma AddedFieldsSurvive(connection: bytes, now: nat)
    requires connection == "keep-alive" || connection == "close"
    ensures Survives(Header("Connection", connection)) && Survives(Header("Date", HttpDateOf(now)))
  {
    hide EqIgnoreCase; hide Survives; hide HttpDateOf;
    AddedNamesDiffer();
    DateIsVisible(now);
    VisibleSurvives(Header("Connection", connection));
    VisibleSurvives(Header("Date", HttpDateOf(now)));
  }

  /** The connection field that reaches the wire last says whether the connection
      is kept. */
  lemma ConnectionIsSent(r: Response, now: nat, keepAlive: bool, policy: Policy)
    ensures LastIs(WireHeaders(Finalize(r, now, keepAlive, policy)), "connection",
                   if keepAlive then "keep-alive" else "close")
  {
    hide EqIgnoreCase; hide Surviving; hide Survives; hide HttpDateOf; hide WireHeaders; hide Named;
    AddedNamesDiffer();
    var connection := Header("Connection", if keepAlive then "keep-alive" else "close");
    var date := Header("Date", HttpDateOf(now));
    AddedFieldsSurvive(connection.value, now);
    SentLast(r.headers, connection, "connection");
    SentLast(r.headers + [connection], date, "connection");
    var connected := r.WithHeader(connection.name, connection.value);
    var dated := if policy.hasClock then connected.WithHeader(date.name, date.value) else connected;
    SecurityKeeps(dated, "connection");
    LengthIsLast(Finalize(r, now, keepAlive, policy), "connection");
  }

  /** With a clock, the date field that reaches the wire last reads back as the
      time of the answer; without one, only the handler's own dates are sent. */
  lemma DateIsSent(r: Response, now: nat, keepAlive: bool, policy: Policy)
    ensures policy.hasClock ==> LastIs(WireHeaders(Finalize(r, now, keepAlive, policy)), "date", HttpDateOf(now))
    ensures policy.hasClock && now <= U64_MAX ==> ParseHttpDate(HttpDateOf(now)) == Some(now)
    ensures !policy.hasClock ==>
              Named(WireHeaders(Finalize(r, now, keepAlive, policy)), "date") == Named(Surviving(r.headers), "date")
  {
    hide EqIgnoreCase; hide Surviving; hide Survives; hide HttpDateOf; hide WireHeaders; hide ParseHttpDate; hide Named;
    AddedNamesDiffer();
    if now <= U64_MAX {
      DateReads(now);
    }
    var connection := Header("Connection", if keepAlive then "keep-alive" else "close");
    var date := Header("Date", HttpDateOf(now));
    AddedFieldsSurvive(connection.value, now);
    SentLast(r.headers, connection, "date");
    SentLast(r.headers + [connection], date, "date");
    var connected := r.WithHeader(connection.name, connection.value);
    var dated := if policy.hasClock then connected.WithHeader(date.name, date.value) else connected;
    SecurityKeeps(dated, "date");
    LengthIsLast(Finalize(r, now, keepAlive, policy), "date");
  }

  // ----- everything that is added -----

  /** Appended fields that reach the wire follow those that were there. */
  lemma SentBehind(headers: seq<Header>, h: Header)
    requires Survives(h)
    ensures Surviving(headers + [h]) == Surviving(headers) + [h]
  {
    hide Survives;
    SurvivingAppend(headers, h);
  }

  /** The three security fields. */
  function SecurityFields(): seq<Header> {
    [Header("X-Content-Type-Options", "nosniff"), Header("X-Frame-Options", "SAMEORIGIN"),
     Header("Referrer-Policy", "strict-origin-when-cross-origin")]
  }

  lemma SecurityIsSent(r: Response, policy: Policy)
    ensures var dated := r.headers;
            Surviving(dated + (if policy.securityHeaders then SecurityFields() else []))
            == Surviving(dated) + (if policy.securityHeaders then SecurityFields() else [])
  {
    hide Survives; hide Surviving;
    SecurityFieldsSurvive();
    var s, h := SecurityFields(), r.headers;
    SentBehind(h, s[0]);
    SentBehind(h + [s[0]], s[1]);
    SentBehind(h + [s[0]] + [s[1]], s[2]);
    assert h + [s[0]] + [s[1]] + [s[2]] == h + s;
    assert Surviving(h) + [s[0]] + [s[1]] + [s[2]] == Surviving(h) + s;
    assert h + [] == h && Surviving(h) + [] == Surviving(h);
  }

  /** The fields of a finalized response on the wire, all of them: the handler's, then
      whether the connection is kept, the date if there is a clock, the security fields
      if they are wanted, and the length where a body may follow. */
  lemma FinalizedIsSent(r: Response, now: nat, keepAlive: bool, policy: Policy)
    ensures WireHeaders(Finalize(r, now, keepAlive, policy)) ==
            Surviving(r.headers)
            + [Header("Connection", if keepAlive then "keep-alive" else "close")]
            + (if policy.hasClock then [Header("Date", HttpDateOf(now))] else [])
            + (if policy.securityHeaders then SecurityFields() else [])
            + (if r.status / 100 == 1 || r.status == 204 || r.status == 304 then []
               else [Header("Content-Length", Dec(|r.body|))])
    ensures var f := Finalize(r, now, keepAlive, policy); f.status == r.status && f.body == r.body
  {
    hide Survives; hide Surviving; hide HttpDateOf; hide Print;
    var connection := Header("Connection", if keepAlive then "keep-alive" else "close");
    var date := Header("Date", HttpDateOf(now));
    AddedFieldsSurvive(connection.value, now);
    SentBehind(r.headers, connection);
    SentBehind(r.headers + [connection], date);
    var connected := r.WithHeader(connection.name, connection.value);
    var dated := if policy.hasClock then connected.WithHeader(date.name, date.value) else connected;
    SecurityIsSent(dated, policy);
    ResponseReader.BodylessIs(r.status);
    var s := SecurityFields();
    assert dated.headers + [s[0]] + [s[1]] + [s[2]] == dated.headers + s;
    assert dated.headers + [] == dated.headers;
    assert Surviving(connected.headers) + [] == Surviving(connected.headers);
  }

  // ----- refusals -----

  /** The status that answers a parse error. */
  function RefusalCode(e: ParseError): nat {
    if e in {HeadTooLarge, TooManyHeaders} then 431
    else if e == TargetTooLong then 414
    else if e == BodyTooLarge then 413
    else if e in {UnknownMethod, UnsupportedTransferEncoding} then 501
    else if e == UnsupportedVersion then 505
    else 400
  }

  /** A refusal's status in digits, and its reason. */
  function RefusalText(code: nat): (bytes, bytes) {
    if code == 400 then ("400", "Bad Request")
    else if code == 413 then ("413", "Content Too Large")
    else if code == 414 then ("414", "URI Too Long")
    else if code == 417 then ("417", "Expectation Failed")
    else if code == 431 then ("431", "Request Header Fields Too Large")
    else if code == 501 then ("501", "Not Implemented")
    else ("505", "HTTP Version Not Supported")
  }

  predicate IsRefusal(code: nat) {
    code == 400 || code == 413 || code == 414 || code == 417 || code == 431 || code == 501 || code == 505
  }

  lemma CodeText(a: nat, b: nat, c: nat)
    requires 1 <= a <= 9 && b <= 9 && c <= 9
    ensures Dec(100 * a + 10 * b + c) == [DigitChar(a), DigitChar(b), DigitChar(c)]
  {
    var n := 100 * a + 10 * b + c;
    assert n / 10 == 10 * a + b && n % 10 == c;
    assert n / 10 / 10 == a && n / 10 % 10 == b;
    assert Dec(n) == Dec(n / 10) + [DigitChar(c)];
    assert Dec(n / 10) == Dec(a) + [DigitChar(b)];
  }

  lemma RefusalDigits(code: nat)
    requires IsRefusal(code)
    ensures Dec(code) == RefusalText(code).0
  {
    hide Print;
    CodeText(code / 100, code / 10 % 10, code % 10);
  }

  lemma RefusalReason(code: nat)
    requires IsRefusal(code)
    ensures Reason(code) == RefusalText(code).1
  {
    hide Reason; hide RefusalText;
    if code < 417 {
      EarlyReason(code);
    } else {
      LateReason(code);
    }
  }

  lemma EarlyReason(code: nat)
    requires IsRefusal(code) && code < 417
    ensures Reason(code) == RefusalText(code).1
  {
  }

  lemma LateReason(code: nat)
    requires IsRefusal(code) && code >= 417
    ensures Reason(code) == RefusalText(code).1
  {
  }

  /** The status line of a refusal. */
  function RefusalLine(code: nat): bytes {
    "HTTP/1.1 " + RefusalText(code).0 + " " + RefusalText(code).1
  }

  /** Its body says why; only an expectation is refused with its number. */
  function RefusalSays(code: nat): bytes {
    if code == 417 then "417 Expectation Failed" else RefusalText(code).1
  }

  lemma RefusalIs(code: nat)
    requires IsRefusal(code)
    ensures StatusLine(code) == RefusalLine(code) && RefusalBody(code) == RefusalSays(code)
  {
    hide Print; hide Reason; hide RefusalText;
    RefusalDigits(code);
    RefusalReason(code);
  }

  lemma FinalizeKeeps(r: Response, now: nat, keepAlive: bool, policy: Policy)
    ensures var f := Finalize(r, now, keepAlive, policy);
            f.status == r.status && f.body == r.body && r.headers <= f.headers
  {
    hide HttpDateOf;
  }

  /** A refusal on the wire: its status line, its text, plain, and `close`. */
  ghost predicate SaysRefused(e: Event, code: nat, service: Service, ctx: Context, policy: Policy) {
    var r := EventResponse(e, service, ctx, policy);
    && r.status == code && r.body == RefusalSays(code)
    && r.headers != [] && r.headers[0] == Header("Content-Type", "text/plain; charset=utf-8")
    && RefusalLine(code) <= EventBytes(e, service, ctx, policy)
    && LastIs(WireHeaders(r), "connection", "close")
  }

  lemma RefusalSaysSo(code: nat, service: Service, ctx: Context, policy: Policy)
    requires IsRefusal(code)
    ensures SaysRefused(Final(Refuse(code)), code, service, ctx, policy)
  {
    hide WireHeaders; hide LastIs; hide Reason; hide StatusLine; hide Finalize; hide RefusalLine; hide RefusalSays;
    hide RefusalBody; hide Serialized;
    var event := Final(Refuse(code));
    RefusalIs(code);
    FinalizeKeeps(TextResponse(code, RefusalBody(code)), ctx.now, false, policy);
    ClosingIsAnnounced(event, service, ctx, policy);
    StartsWithLine(EventResponse(event, service, ctx, policy));
  }

  lemma RefusalCodeIs(e: ParseError)
    ensures ErrorStatus(e) == RefusalCode(e) && IsRefusal(RefusalCode(e))
  {
  }

  // ----- other status lines -----

  /** The statuses of the answers that the server itself makes, with their reasons. */
  function OwnText(code: nat): (bytes, bytes) {
    if code == 100 then ("100", "Continue")
    else if code == 200 then ("200", "OK")
    else if code == 206 then ("206", "Partial Content")
    else if code == 304 then ("304", "Not Modified")
    else ("416", "Range Not Satisfiable")
  }

  lemma OwnStatusLine(code: nat)
    requires code == 100 || code == 200 || code == 206 || code == 304 || code == 416
    ensures StatusLine(code) == "HTTP/1.1 " + OwnText(code).0 + " " + OwnText(code).1
  {
    hide Print; hide Reason;
    CodeText(code / 100, code / 10 % 10, code % 10);
    OwnReason(code);
  }

  lemma OwnReason(code: nat)
    requires code == 100 || code == 200 || code == 206 || code == 304 || code == 416
    ensures Reason(code) == OwnText(code).1
  {
  }

  /** The interim response, every byte of it. */
  lemma InterimIs(service: Service, ctx: Context, policy: Policy)
    ensures EventBytes(Interim, service, ctx, policy) == "HTTP/1.1 " + "100" + " " + "Continue" + BLANK
  {
    hide StatusLine; hide JoinCrlf;
    OwnStatusLine(100);
    NoFields();
    var line := StatusLine(100);
    assert [line] + [] == [line];
    OneLine(line);
    assert WireHeaders(Response(100, [], [])) == [];
    assert JoinCrlf([line]) + BLANK + [] == JoinCrlf([line]) + BLANK;
  }

  lemma OneLine(line: bytes)
    ensures JoinCrlf([line]) == line
  {
  }

  /** What a buffer that does not parse is answered with: the status and the text of its
      error, and the connection ends. */
  lemma RefusalIsSent(s: ConnState, maxBody: nat, service: Service, ctx: Context, policy: Policy)
    requires Parse(s.buf, maxBody).Err?
    ensures var event := Advance(s, maxBody).1;
            && event.Some? && EndsConnection(event.value)
            && SaysRefused(event.value, RefusalCode(Parse(s.buf, maxBody).error), service, ctx, policy)
  {
    hide Parse; hide SaysRefused; hide Expectation; hide RefusalCode; hide ErrorStatus;
    var e := Parse(s.buf, maxBody).error;
    RefusalCodeIs(e);
    RefusalSaysSo(RefusalCode(e), service, ctx, policy);
  }

  /** So is an expectation that is not met. */
  lemma UnmetExpectationIsSent(s: ConnState, maxBody: nat, service: Service, ctx: Context, policy: Policy)
    requires Parse(s.buf, maxBody) == Ok(Partial) && Expectation(s.buf) == Unsupported
    ensures var event := Advance(s, maxBody).1;
            && event.Some? && EndsConnection(event.value)
            && SaysRefused(event.value, 417, service, ctx, policy)
  {
    hide Parse; hide SaysRefused; hide Expectation;
    RefusalSaysSo(417, service, ctx, policy);
  }

  lemma StartsWithLine(r: Response)
    ensures StatusLine(r.status) <= Serialized(r, false)
  {
    hide StatusLine; hide WireHeaders; hide Lines;
    var lines := [StatusLine(r.status)] + Lines(WireHeaders(r));
    assert lines[0] <= JoinCrlf(lines);
  }

  /** What a final answer announces is what the connection does: the last
      connection field on the wire says close exactly when the answer closes. */
  lemma ClosingIsAnnounced(e: Event, service: Service, ctx: Context, policy: Policy)
    requires e.Final? && (e.verdict.Reply? || e.verdict.Refuse?)
    ensures LastIs(WireHeaders(EventResponse(e, service, ctx, policy)), "connection",
                   if Closes(e) then "close" else "keep-alive")
  {
    hide Finalize; hide WireHeaders; hide LastIs; hide Request.KeepAlive;
    match e.verdict
    case Reply(request, _) => ConnectionIsSent(service(request, ctx), ctx.now, request.KeepAlive(), policy);
    case Refuse(status) => ConnectionIsSent(TextResponse(status, RefusalBody(status)), ctx.now, false, policy);
  }
}
