/** Response construction and serialization. */
module Responses {
  import opened Bytes
  import Ascii
  import Numerals
  import opened Http

  /** The reason phrase of a status code, empty for codes without a name. */
  function Reason(code: nat): bytes {
    match code
    case 100 => "Continue"
    case 200 => "OK"
    case 201 => "Created"
    case 204 => "No Content"
    case 206 => "Partial Content"
    case 304 => "Not Modified"
    case 400 => "Bad Request"
    case 401 => "Unauthorized"
    case 403 => "Forbidden"
    case 404 => "Not Found"
    case 405 => "Method Not Allowed"
    case 413 => "Content Too Large"
    case 414 => "URI Too Long"
    case 415 => "Unsupported Media Type"
    case 416 => "Range Not Satisfiable"
    case 417 => "Expectation Failed"
    case 418 => "I'm a teapot"
    case 429 => "Too Many Requests"
    case 431 => "Request Header Fields Too Large"
    case 500 => "Internal Server Error"
    case 501 => "Not Implemented"
    case 505 => "HTTP Version Not Supported"
    case _ => ""
  }

  /** Statuses whose responses carry neither a body nor a Content-Length. */
  predicate IsEmptyBody(code: nat) {
    100 <= code <= 199 || code == 204 || code == 304
  }

  predicate HasForbiddenByte(s: bytes) {
    exists i :: 0 <= i < |s| && (s[i] == '\r' || s[i] == '\n' || s[i] == '\0')
  }

  datatype Response = Response(status: nat, headers: seq<Header>, body: bytes) {
    function WithHeader(name: bytes, value: bytes): Response {
      this.(headers := headers + [Header(name, value)])
    }

    /** The first value of a field. */
    function Field(name: bytes): Option<bytes> {
      var found := Named(headers, name);
      if found == [] then None else Some(found[0].value)
    }
  }

  function TextResponse(status: nat, body: bytes): Response {
    Response(status, [Header("Content-Type", "text/plain; charset=utf-8")], body)
  }

  // ----- serialization -----

  /** Fields that reach the wire: not the caller's Content-Length, and nothing
      that could split the response. */
  predicate Survives(h: Header) {
    !Ascii.EqIgnoreCase(h.name, "content-length") && !HasForbiddenByte(h.name) && !HasForbiddenByte(h.value)
  }

  function Surviving(headers: seq<Header>): seq<Header> {
    if headers == [] then []
    else (if Survives(headers[0]) then [headers[0]] else []) + Surviving(headers[1..])
  }

  function HeaderLine(h: Header): bytes {
    h.name + ": " + h.value
  }

  function StatusLine(status: nat): bytes {
    "HTTP/1.1 " + Numerals.Dec(status) + " " + Reason(status)
  }

  /** The fields of a serialized response, in wire order. */
  function WireHeaders(r: Response): seq<Header> {
    Surviving(r.headers) + (if IsEmptyBody(r.status) then [] else [Header("Content-Length", Numerals.Dec(|r.body|))])
  }

  function Lines(headers: seq<Header>): seq<bytes> {
    seq(|headers|, i requires 0 <= i < |headers| => HeaderLine(headers[i]))
  }

  /** The body bytes that follow the head. */
  function WireBody(r: Response, headOnly: bool): bytes {
    if headOnly || IsEmptyBody(r.status) then [] else r.body
  }

  function Serialized(r: Response, headOnly: bool): bytes {
    JoinCrlf([StatusLine(r.status)] + Lines(WireHeaders(r))) + BLANK + WireBody(r, headOnly)
  }

  lemma {:induction false} JoinAppend(lines: seq<bytes>, line: bytes)
    requires |lines| > 0
    ensures JoinCrlf(lines + [line]) == JoinCrlf(lines) + CRLF + line
  {
    var all := lines + [line];
    if |lines| == 1 {
      assert all[1..] == [line];
    } else {
      assert all[1..] == lines[1..] + [line];
      JoinAppend(lines[1..], line);
    }
  }

  lemma {:induction false} SurvivingAppend(headers: seq<Header>, h: Header)
    ensures Surviving(headers + [h]) == Surviving(headers) + (if Survives(h) then [h] else [])
  {
    hide Survives;
    var all := headers + [h];
    if headers != [] {
      assert all[1..] == headers[1..] + [h];
      SurvivingAppend(headers[1..], h);
    }
  }

  lemma TwoLineEnds(s: bytes)
    ensures s + CRLF + CRLF == s + BLANK
  {
  }

  /** A field written after the lines so far is one more line. */
  lemma FieldWritten(lines: seq<bytes>, h: Header)
    requires |lines| > 0
    ensures JoinCrlf(lines) + CRLF + h.name + ": " + h.value + CRLF == JoinCrlf(lines + [HeaderLine(h)]) + CRLF
  {
    hide JoinCrlf;
    JoinAppend(lines, HeaderLine(h));
    Grouped(JoinCrlf(lines) + CRLF, h.name, ": ", h.value);
  }

  lemma Grouped(s: bytes, a: bytes, b: bytes, c: bytes)
    ensures s + a + b + c == s + (a + b + c)
  {
  }

  lemma LinesAppend(headers: seq<Header>, h: Header)
    ensures Lines(headers + [h]) == Lines(headers) + [HeaderLine(h)]
  {
    hide HeaderLine;
  }

  lemma NoFields()
    ensures Lines(Surviving([])) == []
  {
  }

  method Serialize(r: Response, headOnly: bool) returns (out: bytes)
    ensures out == Serialized(r, headOnly)
  {
    var head := StatusLine(r.status) + CRLF;
    ghost var lines := [StatusLine(r.status)];
    assert head == JoinCrlf(lines) + CRLF;
    hide Survives; hide StatusLine; hide Numerals.Print; hide JoinCrlf; hide Lines; hide HeaderLine; hide Surviving;
    NoFields();
    ghost var sent := Surviving([]);
    for k := 0 to |r.headers|
      invariant sent == Surviving(r.headers[..k]) && lines == [StatusLine(r.status)] + Lines(sent)
      invariant head == JoinCrlf(lines) + CRLF
    {
      var h := r.headers[k];
      assert r.headers[..k + 1] == r.headers[..k] + [h];
      SurvivingAppend(r.headers[..k], h);
      if Survives(h) {
        FieldWritten(lines, h);
        LinesAppend(sent, h);
        head := head + h.name + ": " + h.value + CRLF;
        lines := lines + [HeaderLine(h)];
        sent := sent + [h];
      } else {
        assert sent + [] == sent;
      }
    }
    assert r.headers[..|r.headers|] == r.headers;
    if !IsEmptyBody(r.status) {
      var length := Header("Content-Length", Numerals.Dec(|r.body|));
      FieldWritten(lines, length);
      LinesAppend(sent, length);
      head := head + "Content-Length" + ": " + Numerals.Dec(|r.body|) + CRLF;
      lines := lines + [HeaderLine(length)];
    } else {
      assert sent + [] == sent;
    }
    assert lines == [StatusLine(r.status)] + Lines(WireHeaders(r));
    TwoLineEnds(JoinCrlf(lines));
    head := head + CRLF;
    out := head;
    if !headOnly && !IsEmptyBody(r.status) {
      out := out + r.body;
    }
  }
}
