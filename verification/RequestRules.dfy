/** The grammar of a request, part by part, without the parser's own functions, and
    what a printed request makes the connection do. */
module RequestRules {
  import opened Bytes
  import opened Ascii
  import opened Numerals
  import opened Utf8
  import opened Http
  import opened HeaderRules
  import opened RequestParser
  import opened RequestPrinter
  import Verdicts
  import opened Connections
  import Draining

  // ----- request line -----

  /** A version with leading zeros in front of both numbers. */
  function VersionNumbers(a: nat, major: nat, b: nat, minor: nat): bytes {
    "HTTP/" + (Zeros(a) + Dec(major) + ("." + (Zeros(b) + Dec(minor))))
  }

  ghost predicate IsVersion(token: bytes) {
    exists a: nat, major: nat, b: nat, minor: nat :: token == VersionNumbers(a, major, b, minor)
  }

  lemma DigitsHaveNoDot(s: bytes)
    requires AllDigits(s)
    ensures '.' !in s
  {
  }

  /** Only major version 1 is spoken; minor version 0 is HTTP/1.0, any other HTTP/1.1. */
  lemma VersionIs(a: nat, major: nat, b: nat, minor: nat)
    ensures VersionOf(VersionNumbers(a, major, b, minor)) ==
            if major != 1 then Err(UnsupportedVersion) else Ok(if minor == 0 then Http10 else Http11)
  {
    hide Value; hide Print; hide IndexOf;
    var m, n := Zeros(a) + Dec(major), Zeros(b) + Dec(minor);
    var token, rest := VersionNumbers(a, major, b, minor), m + ("." + n);
    NumeralValue(a, major);
    NumeralValue(b, minor);
    DigitsHaveNoDot(m);
    assert token[..5] == "HTTP/" && token[5..] == rest;
    assert rest[..|m|] == m && rest[|m| + 1..] == n;
    IndexOfIs(rest, '.', |m|);
  }

  lemma VersionShape(token: bytes)
    ensures VersionOf(token) == Err(MalformedRequestLine) <==> !IsVersion(token)
  {
    hide Value; hide Print; hide VersionNumbers;
    if VersionOf(token) != Err(MalformedRequestLine) {
      var rest := token[5..];
      var dot := IndexOf(rest, '.').value;
      var a := DigitsSpell(rest[..dot]);
      var b := DigitsSpell(rest[dot + 1..]);
      VersionJoins(token, dot, a, b);
    }
    if IsVersion(token) {
      var a: nat, major: nat, b: nat, minor: nat :| token == VersionNumbers(a, major, b, minor);
      VersionIs(a, major, b, minor);
    }
  }

  lemma VersionJoins(token: bytes, dot: nat, a: nat, b: nat)
    requires "HTTP/" <= token && dot < |token| - 5 && token[5 + dot] == '.'
    requires var rest := token[5..]; AllDigits(rest[..dot]) && AllDigits(rest[dot + 1..])
    requires var rest := token[5..]; rest[..dot] == Zeros(a) + Dec(Value(rest[..dot], 10))
    requires var rest := token[5..]; rest[dot + 1..] == Zeros(b) + Dec(Value(rest[dot + 1..], 10))
    ensures IsVersion(token)
  {
    hide Value; hide Print;
    var rest := token[5..];
    var major, minor := Value(rest[..dot], 10), Value(rest[dot + 1..], 10);
    assert token == token[..5] + rest && token[..5] == "HTTP/";
    assert rest == rest[..dot] + ([rest[dot]] + rest[dot + 1..]);
    assert token == VersionNumbers(a, major, b, minor);
  }

  /** Three parts without spaces, one space apart. */
  predicate Parts(line: bytes, a: bytes, b: bytes, c: bytes) {
    line == a + " " + (b + " " + c) && ' ' !in a && ' ' !in b && ' ' !in c
  }

  ghost predicate HasParts(line: bytes) {
    exists a, b, c :: Parts(line, a, b, c)
  }

  ghost predicate IsMethod(token: bytes) {
    exists m: Method :: m.Token() == token
  }

  lemma MethodIs(token: bytes)
    ensures Method.FromBytes(token).Some? <==> IsMethod(token)
    ensures forall m: Method :: m.Token() == token ==> Method.FromBytes(token) == Some(m)
  {
    hide Method.Token; hide Method.FromBytes;
    forall m: Method ensures Method.FromBytes(m.Token()) == Some(m) {
      MethodReads(m);
    }
    MethodReadsBack(token);
  }

  function WithVersion(
    m: Method, target: bytes, version: Result<Version, ParseError>): Result<RequestLine, ParseError>
  {
    if version.Ok? then Ok(RequestLine(m, target, version.value)) else Err(version.error)
  }

  /** The verdict on a line of three parts, in the order of its checks. */
  lemma LineIs(line: bytes, a: bytes, b: bytes, c: bytes)
    requires Parts(line, a, b, c)
    ensures !IsMethod(a) ==>
              RequestLineOf(line) == Err(if IsToken(a) then UnknownMethod else MalformedRequestLine)
    ensures IsMethod(a) && |b| > 8192 ==> RequestLineOf(line) == Err(TargetTooLong)
    ensures IsMethod(a) && |b| <= 8192 && (b == [] || !ValidUtf8(b)) ==>
              RequestLineOf(line) == Err(MalformedRequestLine)
    ensures forall m: Method :: m.Token() == a && 0 < |b| <= 8192 && ValidUtf8(b) ==>
              RequestLineOf(line) == WithVersion(m, b, VersionOf(c))
  {
    hide VersionOf; hide ValidUtf8; hide IsToken; hide Method.Token; hide Method.FromBytes;
    var rest := b + " " + c;
    MethodIs(a);
    assert line[..|a|] == a && line[|a| + 1..] == rest;
    IndexOfIs(line, ' ', |a|);
    assert rest[..|b|] == b && rest[|b| + 1..] == c;
    IndexOfIs(rest, ' ', |b|);
  }

  lemma LineShape(line: bytes)
    ensures !HasParts(line) ==> RequestLineOf(line) == Err(MalformedRequestLine)
  {
    hide VersionOf; hide ValidUtf8; hide Method.FromBytes; hide IndexOf; hide IsToken; hide HasParts;
    match IndexOf(line, ' ')
    case None =>
    case Some(i) =>
      var rest := line[i + 1..];
      match IndexOf(rest, ' ')
      case None =>
      case Some(j) =>
        if ' ' !in rest[j + 1..] {
          TwoSpaces(line, i, j);
        }
  }

  lemma TwoSpaces(line: bytes, i: nat, j: nat)
    requires IndexOf(line, ' ') == Some(i) && IndexOf(line[i + 1..], ' ') == Some(j)
    requires ' ' !in line[i + 1..][j + 1..]
    ensures HasParts(line)
  {
    hide IndexOf;
    var rest := line[i + 1..];
    IndexIsFirst(line, ' ', i);
    IndexIsFirst(rest, ' ', j);
    assert Parts(line, line[..i], rest[..j], rest[j + 1..]);
  }

  lemma IndexIsFirst(s: bytes, c: byte, i: nat)
    requires IndexOf(s, c) == Some(i)
    ensures c !in s[..i] && s == s[..i] + [c] + s[i + 1..]
  {
  }

  // ----- header fields -----

  /** Tokens are made of visible ASCII without the delimiters (section 5.6.2 of RFC 9110). */
  lemma TokenBytes(c: byte)
    ensures IsTokenByte(c) <==> 0x21 <= c as int <= 0x7E && c !in "\"(),/:;<=>?@[\\]{}"
  {
  }

  ghost predicate SpellsField(line: bytes, h: Header) {
    exists f: Field :: f.header == h && f.Text() == line && AllOws(f.before) && AllOws(f.after)
  }

  /** A line is read as a field exactly if it is its name, a colon and its value between
      optional whitespace. */
  lemma FieldExactly(line: bytes, h: Header)
    ensures HeaderOf(line) == Ok(h) <==>
            SpellsField(line, h) && IsToken(h.name) && IsTrimmed(h.value) && ValidUtf8(h.value)
    ensures HeaderOf(line).Err? ==> HeaderOf(line) == Err(MalformedHeader)
  {
    hide ValidUtf8; hide IsToken; hide TrimmedOws;
    if HeaderOf(line) == Ok(h) {
      var colon := IndexOf(line, ':').value;
      var rest := line[colon + 1..];
      var pre, post := Ascii.TrimSplits(rest);
      IndexIsFirst(line, ':', colon);
      var f := Field(h, pre, post);
      assert line == h.name + ":" + rest;
      assert f.Text() == line;
    }
    if SpellsField(line, h) && IsToken(h.name) && IsTrimmed(h.value) && ValidUtf8(h.value) {
      var f: Field :| f.header == h && f.Text() == line && AllOws(f.before) && AllOws(f.after);
      FieldIsRead(f);
    }
  }

  lemma FieldIsRead(f: Field)
    requires IsToken(f.header.name) && IsTrimmed(f.header.value) && ValidUtf8(f.header.value)
    requires AllOws(f.before) && AllOws(f.after)
    ensures HeaderOf(f.Text()) == Ok(f.header)
  {
    hide ValidUtf8; hide TrimmedOws; hide IndexOf;
    var name, text := f.header.name, f.Text();
    forall c | c in name ensures c != ':' {
      TokenByteIsPlain(c);
    }
    assert text[..|name|] == name && text[|name| + 1..] == f.before + f.header.value + f.after;
    IndexOfIs(text, ':', |name|);
    TrimPadded(f.before, f.header.value, f.after);
    TokenIsUtf8(name);
  }

  /** The line reads as a field. */
  predicate Reads(line: bytes) {
    line != [] && HeaderOf(line).Ok?
  }

  function ReadFields(lines: seq<bytes>): seq<Header>
    requires forall i :: 0 <= i < |lines| ==> Reads(lines[i])
  {
    if lines == [] then []
    else
      assert Reads(lines[0]);
      [HeaderOf(lines[0]).value] + ReadFields(lines[1..])
  }

  lemma {:induction false} HeadersFrom(lines: seq<bytes>, before: seq<Header>, k: nat)
    requires k <= |lines| && |before| + k <= MAX_HEADERS && forall i :: 0 <= i < k ==> Reads(lines[i])
    ensures k == |lines| ==> HeadersOf(lines, before) == Ok(before + ReadFields(lines))
    ensures k < |lines| && |before| + k == MAX_HEADERS && lines[k] != [] ==>
              HeadersOf(lines, before) == Err(TooManyHeaders)
    ensures k < |lines| && !Reads(lines[k]) && (|before| + k < MAX_HEADERS || lines[k] == []) ==>
              HeadersOf(lines, before) == Err(MalformedHeader)
    decreases k
  {
    hide HeaderOf;
    if k > 0 {
      assert Reads(lines[0]);
      var h, rest := HeaderOf(lines[0]).value, lines[1..];
      assert forall i :: 0 <= i < k - 1 ==> rest[i] == lines[i + 1];
      HeadersFrom(rest, before + [h], k - 1);
      if k == |lines| {
        assert before + ReadFields(lines) == before + [h] + ReadFields(rest);
      }
    } else if lines != [] {
      OneBadLine(lines, before);
    } else {
      assert before + [] == before;
    }
  }

  lemma OneBadLine(lines: seq<bytes>, before: seq<Header>)
    requires lines != [] && |before| <= MAX_HEADERS
    ensures |before| == MAX_HEADERS && lines[0] != [] ==> HeadersOf(lines, before) == Err(TooManyHeaders)
    ensures !Reads(lines[0]) && (|before| < MAX_HEADERS || lines[0] == []) ==>
              HeadersOf(lines, before) == Err(MalformedHeader)
  {
    hide IndexOf; hide TrimmedOws; hide ValidUtf8; hide IsToken;
  }

  /** The fields of a head, or the error of its first bad line: the 65th field is one too
      many, and any earlier line that is no field is malformed. */
  lemma HeadersAre(lines: seq<bytes>, k: nat)
    requires k <= |lines| && k <= 64 && forall i :: 0 <= i < k ==> Reads(lines[i])
    ensures k == |lines| ==> HeadersOf(lines, []) == Ok(ReadFields(lines))
    ensures k < |lines| && k == 64 && lines[k] != [] ==> HeadersOf(lines, []) == Err(TooManyHeaders)
    ensures k < |lines| && !Reads(lines[k]) && (k < 64 || lines[k] == []) ==>
              HeadersOf(lines, []) == Err(MalformedHeader)
  {
    hide HeaderOf; hide HeadersOf;
    HeadersFrom(lines, [], k);
    if k == |lines| {
      assert [] + ReadFields(lines) == ReadFields(lines);
    }
  }

  /** The checks of a head, in their order: bare carriage returns, the request line, the
      fields, the host, the framing. The first that fails decides. */
  lemma HeadIs(head: bytes)
    requires |head| >= 4
    ensures var lines := SplitCrlf(head[..|head| - 4]);
            var line, headers := RequestLineOf(lines[0]), HeadersOf(lines[1..], []);
            && (HasBareCr(head) ==> HeadOf(head) == Err(BareCr))
            && (!HasBareCr(head) && line.Err? ==> HeadOf(head) == Err(line.error))
            && (!HasBareCr(head) && line.Ok? && headers.Err? ==> HeadOf(head) == Err(headers.error))
            && (!HasBareCr(head) && line.Ok? && headers.Ok? ==>
                  && (!HostIsNamed(headers.value, line.value.version) ==> HeadOf(head) == Err(BadHost))
                  && (HostIsNamed(headers.value, line.value.version) ==>
                        && (BodyFraming(headers.value).Err? ==> HeadOf(head) == Err(BodyFraming(headers.value).error))
                        && (BodyFraming(headers.value).Ok? ==>
                              HeadOf(head) ==
                              Ok(RequestHead(line.value, headers.value, BodyFraming(headers.value).value)))))
  {
    hide HasBareCr; hide RequestLineOf; hide HeadersOf; hide ValidateHost; hide BodyFraming; hide HostIsNamed;
    hide SplitFrom;
    var lines := SplitCrlf(head[..|head| - 4]);
    var line, headers := RequestLineOf(lines[0]), HeadersOf(lines[1..], []);
    if line.Ok? && headers.Ok? {
      HostIs(headers.value, line.value.version);
    }
  }

  // ----- the whole request -----

  /** The body of a request is announced by its length, or as chunked, or there is none. */
  ghost predicate Announced(headers: seq<Header>, body: bytes) {
    || (Absent(headers, "transfer-encoding") && LengthIs(headers, |body|) && |body| <= U64_MAX)
    || (Absent(headers, "transfer-encoding") && Absent(headers, "content-length") && body == [])
    || (Absent(headers, "content-length") && NamesChunked(headers))
  }

  lemma AnnouncedIs(headers: seq<Header>, body: bytes)
    ensures BodyFraming(headers) in {Ok(Fixed(|body|)), Ok(ChunkedBody)} <==> Announced(headers, body)
  {
    hide Absent; hide LengthIs; hide NamesChunked; hide BodyFraming;
    FramingIs(headers);
    if NamesChunked(headers) {
      CodingIsThere(headers);
    }
    if BodyFraming(headers) == Ok(Fixed(|body|)) && !Absent(headers, "content-length") {
      var n: nat :| LengthIs(headers, n);
    }
    if NamesChunked(headers) {
      CodingIsThere(headers);
    }
  }

  lemma CodingIsThere(headers: seq<Header>)
    requires NamesChunked(headers)
    ensures !Absent(headers, "transfer-encoding")
  {
    hide EqIgnoreCase; hide SpellsChunked;
  }

  /** The requests that can be sent and received, from their parts alone. */
  lemma WellFormedIs(r: Request, maxBody: nat)
    ensures WellFormed(r, maxBody) <==>
            && ValidTarget(r.target)
            && |r.headers| <= 64 && (forall h :: h in r.headers ==> ValidHeader(h))
            && HostIsNamed(r.headers, r.version)
            && |r.body| <= maxBody && Announced(r.headers, r.body)
  {
    hide ValidTarget; hide ValidHeader; hide HostIsNamed; hide Announced; hide BodyFraming; hide ValidateHost;
    HostIs(r.headers, r.version);
    AnnouncedIs(r.headers, r.body);
  }

  // ----- a request with its length spelled out -----

  /** `others`, and the length of the body in decimal. */
  function WithLength(others: seq<Header>, body: bytes): seq<Header> {
    others + [Header("Content-Length", Dec(|body|))]
  }

  lemma LengthIsSpelled(others: seq<Header>, body: bytes)
    requires Absent(others, "transfer-encoding") && Absent(others, "content-length")
    ensures var headers := WithLength(others, body);
            Absent(headers, "transfer-encoding") && LengthIs(headers, |body|)
  {
    hide EqIgnoreCase; hide SpellsLength; hide Print;
    var headers, k := WithLength(others, body), |others|;
    LengthName();
    assert forall i :: 0 <= i < |others| ==> headers[i] == others[i];
    DecSpells(|body|);
    assert OnlyAt(headers, "content-length", k) && SpellsLength(headers[k].value, |body|);
  }

  lemma LengthName()
    ensures EqIgnoreCase("Content-Length", "content-length") && !EqIgnoreCase("Content-Length", "transfer-encoding")
    ensures !EqIgnoreCase("Content-Length", "host") && IsToken("Content-Length")
  {
    assert |"Content-Length"| != |"transfer-encoding"|;
  }

  lemma DecSpells(n: nat)
    ensures SpellsLength(Dec(n), n)
  {
    hide Print;
    assert Dec(n) == LengthText([], 0, n, []);
  }

  /** Any request whose fields announce its length: its text, with any spelling of the
      length, any optional whitespace and anything behind it, parses to it and ends where
      the length says; without its last bytes it waits. */
  lemma LengthRequestReads(r: Request, fields: seq<Field>, ext: bytes, maxBody: nat)
    requires ValidTarget(r.target) && |r.headers| <= 64 && forall h :: h in r.headers ==> ValidHeader(h)
    requires HostIsNamed(r.headers, r.version) && ValidFields(r, fields) && |HeadText(r, fields)| <= 16384
    requires Absent(r.headers, "transfer-encoding") && LengthIs(r.headers, |r.body|)
    requires |r.body| <= maxBody && |r.body| <= U64_MAX
    ensures var head := HeadText(r, fields) + BLANK; var text := head + r.body;
            && Parse(text + ext, maxBody) == Ok(Complete(r, |text|))
            && forall m :: |head| <= m < |text| ==> Parse(text[..m], maxBody) == Ok(Partial)
  {
    hide ValidTarget; hide ValidHeader; hide HostIsNamed; hide BodyFraming; hide HeadText; hide FindSubslice;
    hide HeadOf; hide ValidateHost; hide Absent; hide LengthIs; hide ValidFields;
    WellFormedIs(r, maxBody);
    FramingIs(r.headers);
    assert BodyFraming(r.headers) == Ok(Fixed(|r.body|));
    RequestReads(r, fields, r.body, ext, maxBody);
    var head := HeadText(r, fields) + BLANK;
    var text := head + r.body;
    forall m | |head| <= m < |text| ensures Parse(text[..m], maxBody) == Ok(Partial) {
      var part := r.body[..m - |head|];
      assert text[..m] == head + part;
      HeadReads(r, fields, maxBody, part);
    }
  }

  /** The same with the length field as a client writes it, after any other fields. */
  lemma SpelledLengthReads(
    verb: Method, target: bytes, version: Version, others: seq<Header>, body: bytes, ext: bytes, maxBody: nat)
    requires ValidTarget(target) && |others| < MAX_HEADERS && forall h :: h in others ==> ValidHeader(h)
    requires HostIsNamed(others, version) && Absent(others, "transfer-encoding") && Absent(others, "content-length")
    requires |body| <= maxBody && |body| <= U64_MAX
    ensures var r := Request(verb, target, version, WithLength(others, body), body);
            var head := HeadText(r, Tight(r.headers));
            |head| <= MAX_HEAD_BYTES ==>
              Parse(head + BLANK + body + ext, maxBody) == Ok(Complete(r, |head| + 4 + |body|))
  {
    hide ValidTarget; hide HostIsNamed; hide BodyFraming; hide HeadText; hide FindSubslice; hide ValidUtf8;
    hide HeadOf; hide ValidateHost; hide Absent; hide LengthIs; hide Parse; hide Print; hide IsToken;
    var r := Request(verb, target, version, WithLength(others, body), body);
    var length := Header("Content-Length", Dec(|body|));
    LengthIsSpelled(others, body);
    HostStays(others, version, length);
    LengthIsValid(body);
    assert forall h :: h in r.headers ==> h in others || h == length;
    assert HeadersIn(Tight(r.headers)) == r.headers;
    if |HeadText(r, Tight(r.headers))| <= MAX_HEAD_BYTES {
      LengthRequestReads(r, Tight(r.headers), ext, maxBody);
    }
  }

  lemma LengthIsValid(body: bytes)
    ensures ValidHeader(Header("Content-Length", Dec(|body|)))
  {
    hide ValidUtf8; hide Print; hide IsToken;
    LengthName();
    var s := Dec(|body|);
    assert IsDigit(s[0]) && IsDigit(s[|s| - 1]);
    assert IsAscii(s) by {
      assert forall i :: 0 <= i < |s| ==> IsDigit(s[i]);
    }
    AsciiIsValid(s);
    assert '\r' !in s;
  }

  lemma HostStays(others: seq<Header>, version: Version, length: Header)
    requires HostIsNamed(others, version) && length.name == "Content-Length"
    ensures HostIsNamed(others + [length], version)
  {
    hide EqIgnoreCase; hide HostValue;
    LengthName();
    var headers := others + [length];
    assert forall i :: 0 <= i < |others| ==> headers[i] == others[i];
    if exists k: nat :: k < |others| && OnlyAt(others, "host", k) && HostValue(others[k].value) {
      var k: nat :| k < |others| && OnlyAt(others, "host", k) && HostValue(others[k].value);
      assert OnlyAt(headers, "host", k) && HostValue(headers[k].value);
    }
  }

  /** A length beyond the limit is refused as soon as the head is there, and one beyond
      64 bits is no length. */
  lemma LongLengthIsRefused(r: Request, fields: seq<Field>, n: nat, rest: bytes, maxBody: nat)
    requires ValidTarget(r.target) && |r.headers| <= MAX_HEADERS && forall h :: h in r.headers ==> ValidHeader(h)
    requires HostIsNamed(r.headers, r.version) && ValidFields(r, fields) && |HeadText(r, fields)| <= MAX_HEAD_BYTES
    requires Absent(r.headers, "transfer-encoding") && LengthIs(r.headers, n) && n > maxBody
    ensures Parse(HeadText(r, fields) + BLANK + rest, maxBody) ==
            Err(if n <= U64_MAX then BodyTooLarge else BadContentLength)
  {
    hide ValidTarget; hide ValidHeader; hide HostIsNamed; hide BodyFraming; hide HeadText; hide FindSubslice;
    hide HeadOf; hide ValidateHost; hide Absent; hide LengthIs;
    HostIs(r.headers, r.version);
    FramingIs(r.headers);
    HeadIsRead(r, fields, rest);
  }

  // ----- what the connection does with it -----

  /** A printed request at the front of the buffer is answered, leaves what follows it, and
      closes the connection exactly if its fields and version say so. */
  lemma PrintedRequestIsAnswered(
    r: Request, fields: seq<Field>, body: bytes, ext: bytes, continueSent: bool, maxBody: nat)
    requires WellFormed(r, maxBody) && ValidFields(r, fields) && BodyText(r, body)
    requires |HeadText(r, fields)| <= MAX_HEAD_BYTES
    ensures var text := HeadText(r, fields) + BLANK + body;
            var (next, event) := Advance(ConnState(text + ext, continueSent), maxBody);
            && next == ConnState(ext, false)
            && event == Some(Final(Verdicts.Reply(r, |text|)))
            && (Closes(event.value) <==> !Persists(r.headers, r.version))
  {
    hide Parse; hide WellFormed; hide ValidFields; hide BodyText; hide HeadText; hide Persists; hide Request.KeepAlive;
    hide Expectation;
    RequestReads(r, fields, body, ext, maxBody);
    KeepAliveIs(r);
    var text := HeadText(r, fields) + BLANK + body;
    assert (text + ext)[|text|..] == ext;
  }

  // ----- expectations -----

  /** The first Expect field decides. */
  lemma ExpectationIs(headers: seq<Header>)
    ensures Absent(headers, "expect") <==> Draining.ExpectationOf(headers) == NoExpect
    ensures forall k: nat :: k < |headers| && FirstAt(headers, "expect", k) ==>
              Draining.ExpectationOf(headers) ==
              if EqIgnoreCase(headers[k].value, "100-continue") then Continue else Unsupported
  {
    hide EqIgnoreCase; hide Named; hide Absent; hide FirstAt;
    NamedIsAbsent(headers, "expect");
    if Named(headers, "expect") == [] {
      forall k: nat | k < |headers| ensures !FirstAt(headers, "expect", k) {
        AbsentIsNotFirst(headers, "expect", k);
      }
    } else {
      var k := NamedIsFirst(headers, "expect");
      forall j: nat | j < |headers| && FirstAt(headers, "expect", j) ensures j == k {
        FirstIsUnique(headers, "expect", j, k);
      }
    }
  }
}
