/** A client's reader of a response stream (section 6.3 of RFC 9112), and the
    proof that it recovers what the serializer wrote. */
module ResponseReader {
  import opened Bytes
  import opened Ascii
  import opened Numerals
  import opened Http
  import opened Responses

  datatype Received = Received(status: nat, headers: seq<Header>, body: bytes)

  /** A field line: the name ends at the first colon, one space follows it. */
  function FieldOf(line: bytes): Option<Header> {
    match IndexOf(line, ':')
    case None => None
    case Some(i) =>
      if i + 1 < |line| && line[i + 1] == ' ' then Some(Header(line[..i], line[i + 2..])) else None
  }

  function FieldsOf(lines: seq<bytes>): Option<seq<Header>> {
    if lines == [] then Some([])
    else match (FieldOf(lines[0]), FieldsOf(lines[1..]))
         case (Some(h), Some(rest)) => Some([h] + rest)
         case _ => None
  }

  /** The three-digit code after the version. */
  function StatusOf(line: bytes): Option<nat> {
    if |line| >= 12 && line[..9] == "HTTP/1.1 " && AllDigits(line[9..12]) then Some(Value(line[9..12], 10)) else None
  }

  /** How many body bytes follow a head: none for HEAD, for an interim response, for
      204 (No Content) and for 304 (Not Modified), otherwise what the one
      Content-Length says. */
  function BodyLength(status: nat, headers: seq<Header>, headOnly: bool): Option<nat> {
    if headOnly || status / 100 == 1 || status == 204 || status == 304 then Some(0)
    else
      var lengths := Named(headers, "content-length");
      if |lengths| == 1 && Named(headers, "transfer-encoding") == [] then ParseU64(lengths[0].value) else None
  }

  /** Reads one response from the front of a stream; also where it ends. */
  function ReadResponse(stream: bytes, headOnly: bool): (r: Option<(Received, nat)>)
    ensures r.Some? ==> 4 <= r.value.1 <= |stream|
  {
    match FindSubslice(stream, BLANK)
    case None => None
    case Some(i) =>
      var lines := SplitCrlf(stream[..i]);
      match (StatusOf(lines[0]), FieldsOf(lines[1..]))
      case (Some(status), Some(headers)) =>
        (match BodyLength(status, headers, headOnly)
         case None => None
         case Some(n) =>
           if i + 4 + n > |stream| then None
           else Some((Received(status, headers, stream[i + 4..i + 4 + n]), i + 4 + n)))
      case _ => None
  }

  /** Reads one response per request; `heads` says which requests were HEAD. */
  function ReadAll(stream: bytes, heads: seq<bool>): Option<seq<Received>> {
    if heads == [] then (if stream == [] then Some([]) else None)
    else
      match ReadResponse(stream, heads[0])
      case None => None
      case Some((received, n)) =>
        match ReadAll(stream[n..], heads[1..])
        case None => None
        case Some(rest) => Some([received] + rest)
  }

  // ----- what a sent response looks like to the reader -----

  /** Responses the reader can frame: a three-digit status, field names that are
      tokens, no Transfer-Encoding, and a body whose length is a `usize`. */
  ghost predicate Framable(r: Response) {
    && 100 <= r.status <= 999
    && |r.body| <= U64_MAX
    && forall h :: h in r.headers ==> IsToken(h.name) && !EqIgnoreCase(h.name, "transfer-encoding")
  }

  function Expected(r: Response, headOnly: bool): Received {
    Received(r.status, WireHeaders(r), WireBody(r, headOnly))
  }

  function Stream(responses: seq<(Response, bool)>): bytes {
    if responses == [] then []
    else Serialized(responses[0].0, responses[0].1) + Stream(responses[1..])
  }

  // ----- proofs -----

  lemma FieldOfLine(h: Header)
    requires IsToken(h.name)
    ensures FieldOf(HeaderLine(h)) == Some(h)
  {
    var line := HeaderLine(h);
    forall c | c in h.name ensures c != ':' {
      TokenByteIsPlain(c);
    }
    assert line[..|h.name|] == h.name;
    IndexOfIs(line, ':', |h.name|);
    assert line[|h.name| + 2..] == h.value;
  }

  lemma {:induction false} FieldsOfLines(headers: seq<Header>)
    requires forall h :: h in headers ==> IsToken(h.name)
    ensures FieldsOf(Lines(headers)) == Some(headers)
  {
    if headers != [] {
      FieldOfLine(headers[0]);
      FieldsOfLines(headers[1..]);
      assert Lines(headers)[1..] == Lines(headers[1..]);
      assert headers == [headers[0]] + headers[1..];
    }
  }

  /** A byte that could split a response. */
  predicate Splits(s: bytes) {
    '\r' in s || '\n' in s || '\0' in s
  }

  /** The fields that reach the wire, in order: all but the caller's Content-Length and
      those with a byte that could split the response. */
  lemma {:induction false} SurvivingAreSent(headers: seq<Header>)
    ensures forall h :: h in Surviving(headers) <==>
              h in headers && !EqIgnoreCase(h.name, "content-length") && !Splits(h.name) && !Splits(h.value)
    ensures forall a, b :: headers == a + b ==> Surviving(headers) == Surviving(a) + Surviving(b)
  {
    hide Survives; hide EqIgnoreCase; hide Splits;
    if headers != [] {
      SurvivingAreSent(headers[1..]);
      SurvivesIs(headers[0]);
      assert headers == [headers[0]] + headers[1..];
    }
    forall a, b | headers == a + b ensures Surviving(headers) == Surviving(a) + Surviving(b) {
      SurvivingConcat(a, b);
    }
  }

  lemma SurvivesIs(h: Header)
    ensures Survives(h) <==> !EqIgnoreCase(h.name, "content-length") && !Splits(h.name) && !Splits(h.value)
  {
    hide EqIgnoreCase;
    SplitsIs(h.name);
    SplitsIs(h.value);
  }

  lemma SplitsIs(s: bytes)
    ensures HasForbiddenByte(s) <==> Splits(s)
  {
    if Splits(s) {
      var i :| 0 <= i < |s| && s[i] in {'\r', '\n', '\0'};
    }
  }

  lemma {:induction false} SurvivingConcat(a: seq<Header>, b: seq<Header>)
    ensures Surviving(a + b) == Surviving(a) + Surviving(b)
  {
    hide Surviving;
    if a == [] {
      assert a + b == b;
      NoneSurviving();
    } else {
      assert (a + b)[1..] == a[1..] + b && (a + b)[0] == a[0];
      SurvivingConcat(a[1..], b);
      SurvivingHead(a);
      SurvivingHead(a + b);
    }
  }

  lemma NoneSurviving()
    ensures Surviving([]) == []
  {
  }

  lemma SurvivingHead(headers: seq<Header>)
    requires headers != []
    ensures Surviving(headers) == (if Survives(headers[0]) then [headers[0]] else []) + Surviving(headers[1..])
  {
    hide Survives;
  }

  lemma {:induction false} NamedAppend(a: seq<Header>, b: seq<Header>, name: bytes)
    ensures Named(a + b, name) == Named(a, name) + Named(b, name)
  {
    hide Named;
    if a == [] {
      assert a + b == b;
      NoneNamed(name);
    } else {
      assert (a + b)[1..] == a[1..] + b && (a + b)[0] == a[0];
      NamedAppend(a[1..], b, name);
      NamedHead(a, name);
      NamedHead(a + b, name);
    }
  }

  lemma NoneNamed(name: bytes)
    ensures Named([], name) == []
  {
  }

  lemma NamedHead(headers: seq<Header>, name: bytes)
    requires headers != []
    ensures Named(headers, name) ==
            (if EqIgnoreCase(headers[0].name, name) then [headers[0]] else []) + Named(headers[1..], name)
  {
    hide EqIgnoreCase;
  }

  lemma {:induction false} NamedNone(headers: seq<Header>, name: bytes)
    requires forall h :: h in headers ==> !EqIgnoreCase(h.name, name)
    ensures Named(headers, name) == []
  {
    hide EqIgnoreCase;
    if headers != [] {
      NamedNone(headers[1..], name);
    }
  }

  /** The statuses without a body are those from 100 to 199, 204 and 304. */
  lemma BodylessIs(status: nat)
    ensures IsEmptyBody(status) <==> status / 100 == 1 || status == 204 || status == 304
  {
  }

  /** On the wire there is exactly one Content-Length, the length of the body, except
      that there is none with a status from 100 to 199, 204 or 304. */
  lemma OneContentLength(r: Response)
    ensures Named(WireHeaders(r), "content-length") ==
            if r.status / 100 == 1 || r.status == 204 || r.status == 304 then []
            else [Header("Content-Length", Dec(|r.body|))]
  {
    hide Print; hide EqIgnoreCase; hide Surviving;
    BodylessIs(r.status);
    SurvivingAreSent(r.headers);
    NamedNone(Surviving(r.headers), "content-length");
    var tail := if IsEmptyBody(r.status) then [] else [Header("Content-Length", Dec(|r.body|))];
    NamedAppend(Surviving(r.headers), tail, "content-length");
    LengthNames();
    assert tail != [] ==> tail[1..] == [];
  }

  lemma LengthNames()
    ensures EqIgnoreCase("Content-Length", "content-length") && !EqIgnoreCase("Content-Length", "transfer-encoding")
    ensures IsToken("Content-Length")
  {
    assert |"Content-Length"| != |"transfer-encoding"|;
  }

  lemma WireHeadersAreFramable(r: Response)
    requires Framable(r)
    ensures forall h :: h in WireHeaders(r) ==>
            IsToken(h.name) && !HasForbiddenByte(h.name) && !HasForbiddenByte(h.value)
    ensures Named(WireHeaders(r), "transfer-encoding") == []
  {
    hide Print; hide EqIgnoreCase; hide IsToken; hide Surviving;
    SurvivingAreSent(r.headers);
    LengthNames();
    var length := Header("Content-Length", Dec(|r.body|));
    forall h | h in WireHeaders(r)
      ensures IsToken(h.name) && !HasForbiddenByte(h.name) && !HasForbiddenByte(h.value)
      ensures !EqIgnoreCase(h.name, "transfer-encoding")
    {
      if h in Surviving(r.headers) {
        assert Survives(h);
      } else {
        assert h == length;
      }
    }
    NamedNone(WireHeaders(r), "transfer-encoding");
  }

  lemma PlainIsFree(s: bytes)
    requires forall i :: 0 <= i < |s| ==> s[i] != '\n'
    ensures CrlfFree(s)
  {
    forall i: nat ensures !MatchAt(s, CRLF, i) {
      CrlfAt(s, i);
    }
  }

  lemma LineIsPlain(h: Header)
    requires !HasForbiddenByte(h.name) && !HasForbiddenByte(h.value)
    ensures CrlfFree(HeaderLine(h)) && HeaderLine(h) != []
  {
    PlainIsFree(HeaderLine(h));
  }

  /** A three-digit status line is plain and reads back. */
  lemma StatusLineReads(status: nat)
    requires 100 <= status <= 999
    ensures CrlfFree(StatusLine(status)) && StatusLine(status) != []
    ensures StatusOf(StatusLine(status)) == Some(status)
  {
    hide Reason; hide Print;
    ThreeDigits(status);
    ValueOfPrint(status, 10);
    ReasonIsPlain(status);
    var digits, reason, line := Dec(status), Reason(status), StatusLine(status);
    assert line == "HTTP/1.1 " + (digits + (" " + reason));
    assert line[..9] == "HTTP/1.1 ";
    assert line[9..12] == digits;
    assert line[12..] == " " + reason;
    forall i | 0 <= i < |line| ensures line[i] != '\n' {
      if i < 9 {
        assert line[i] == "HTTP/1.1 "[i];
      } else if i < 12 {
        assert line[i] == digits[i - 9];
      } else if i >= 13 {
        assert line[i] == reason[i - 13] && line[i] in reason;
      }
    }
    PlainIsFree(line);
  }

  lemma ThreeDigits(n: nat)
    requires 100 <= n <= 999
    ensures |Dec(n)| == 3
  {
    assert Dec(n) == Dec(n / 10) + [DigitChar(n % 10)];
    assert Dec(n / 10) == Dec(n / 100) + [DigitChar(n / 10 % 10)];
  }

  lemma ReasonIsPlain(code: nat)
    ensures '\n' !in Reason(code)
  {
    if code < 404 {
      PlainBelow404(code);
    } else if code < 414 {
      PlainBelow414(code);
    } else if code < 417 {
      PlainBelow417(code);
    } else if code < 500 {
      PlainBelow500(code);
    } else {
      PlainFrom500(code);
    }
  }

  lemma PlainBelow404(code: nat)
    requires code < 404
    ensures '\n' !in Reason(code)
  {
  }

  lemma PlainBelow414(code: nat)
    requires 404 <= code < 414
    ensures '\n' !in Reason(code)
  {
  }

  lemma PlainBelow417(code: nat)
    requires 414 <= code < 417
    ensures '\n' !in Reason(code)
  {
  }

  lemma PlainBelow500(code: nat)
    requires 417 <= code < 500
    ensures '\n' !in Reason(code)
  {
  }

  lemma PlainFrom500(code: nat)
    requires 500 <= code
    ensures '\n' !in Reason(code)
  {
  }

  /** The head of a sent response is found whole, whatever follows it. */
  lemma HeadIsFound(r: Response, headOnly: bool, ext: bytes)
    requires Framable(r)
    ensures var head := JoinCrlf([StatusLine(r.status)] + Lines(WireHeaders(r)));
            && FindSubslice(Serialized(r, headOnly) + ext, BLANK) == Some(|head|)
            && (Serialized(r, headOnly) + ext)[..|head|] == head
            && SplitCrlf(head) == [StatusLine(r.status)] + Lines(WireHeaders(r))
  {
    hide FindFrom; hide SplitFrom; hide StatusLine; hide WireHeaders; hide HeaderLine; hide JoinCrlf;
    var lines := [StatusLine(r.status)] + Lines(WireHeaders(r));
    var stream := Serialized(r, headOnly) + ext;
    StatusLineReads(r.status);
    WireHeadersAreFramable(r);
    forall k | 0 <= k < |lines| ensures CrlfFree(lines[k]) && lines[k] != [] {
      if k > 0 {
        LineIsPlain(WireHeaders(r)[k - 1]);
      }
    }
    assert stream == JoinCrlf(lines) + BLANK + (WireBody(r, headOnly) + ext);
    assert MatchAt(stream, JoinCrlf(lines), 0) && MatchAt(stream, BLANK, |JoinCrlf(lines)|);
    FirstBlank(stream, 0, lines);
    SplitJoin(JoinCrlf(lines), 0, lines);
  }

  /** What follows the head: nothing for HEAD and with those statuses, otherwise the
      body. */
  lemma BodyIsSent(r: Response, headOnly: bool)
    ensures var head := JoinCrlf([StatusLine(r.status)] + Lines(WireHeaders(r))) + BLANK;
            Serialized(r, headOnly) ==
            if headOnly || r.status / 100 == 1 || r.status == 204 || r.status == 304 then head else head + r.body
  {
    hide JoinCrlf; hide StatusLine; hide WireHeaders; hide Lines;
    BodylessIs(r.status);
    var head := JoinCrlf([StatusLine(r.status)] + Lines(WireHeaders(r))) + BLANK;
    assert head + [] == head;
  }

  /** The length a sent response announces. */
  lemma LengthIsRead(r: Response, headOnly: bool)
    requires Framable(r)
    ensures BodyLength(r.status, WireHeaders(r), headOnly) == Some(|WireBody(r, headOnly)|)
  {
    hide Print;
    OneContentLength(r);
    BodylessIs(r.status);
    WireHeadersAreFramable(r);
    ValueOfPrint(|r.body|, 10);
  }

  /** A sent response reads back, wherever it stands in the stream. */
  lemma ResponseReads(r: Response, headOnly: bool, ext: bytes)
    requires Framable(r)
    ensures ReadResponse(Serialized(r, headOnly) + ext, headOnly)
            == Some((Expected(r, headOnly), |Serialized(r, headOnly)|))
  {
    hide FindSubslice; hide SplitCrlf; hide StatusLine; hide WireHeaders; hide HeaderLine; hide JoinCrlf;
    hide BodyLength; hide StatusOf; hide FieldOf;
    var headers := WireHeaders(r);
    var lines := [StatusLine(r.status)] + Lines(headers);
    var head := JoinCrlf(lines);
    var stream := Serialized(r, headOnly) + ext;
    HeadIsFound(r, headOnly, ext);
    StatusLineReads(r.status);
    WireHeadersAreFramable(r);
    assert lines[1..] == Lines(headers);
    FieldsOfLines(headers);
    LengthIsRead(r, headOnly);
    assert stream[|head| + 4..|head| + 4 + |WireBody(r, headOnly)|] == WireBody(r, headOnly);
  }

  /** From the concatenation of any responses a reader recovers every status,
      surviving field and body, in order. */
  lemma {:induction false} StreamReads(responses: seq<(Response, bool)>)
    requires forall k :: 0 <= k < |responses| ==> Framable(responses[k].0)
    ensures ReadAll(Stream(responses), seq(|responses|, i requires 0 <= i < |responses| => responses[i].1))
            == Some(seq(|responses|, i requires 0 <= i < |responses| => Expected(responses[i].0, responses[i].1)))
  {
    hide Serialized; hide ReadResponse; hide Expected; hide Framable;
    var heads := seq(|responses|, i requires 0 <= i < |responses| => responses[i].1);
    var expected := seq(|responses|, i requires 0 <= i < |responses| => Expected(responses[i].0, responses[i].1));
    if responses != [] {
      var rest := responses[1..];
      var (r, headOnly) := responses[0];
      ResponseReads(r, headOnly, Stream(rest));
      StreamReads(rest);
      assert Stream(responses)[|Serialized(r, headOnly)|..] == Stream(rest);
      assert heads[1..] == seq(|rest|, i requires 0 <= i < |rest| => rest[i].1);
      assert expected == [Expected(r, headOnly)]
                         + seq(|rest|, i requires 0 <= i < |rest| => Expected(rest[i].0, rest[i].1));
    }
  }
}
