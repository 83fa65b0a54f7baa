/** The JSON parser for configuration text. */
module Json {
  import opened Bytes
  import Ascii
  import Numerals
  import Utf8

  const MAX_DEPTH: nat := 64

  /** Numbers are kept as their text; see `Doubles` for what it denotes. */
  datatype JsonValue =
    | Null
    | Bool(b: bool)
    | Number(text: bytes)
    | String(s: bytes)
    | Array(items: seq<JsonValue>)
    | Object(members: seq<(bytes, JsonValue)>)
  {
    /** The first member with a key, of an object. */
    function Get(key: bytes): Option<JsonValue> {
      if Object? then Lookup(members, key) else None
    }
  }

  function Lookup(members: seq<(bytes, JsonValue)>, key: bytes): Option<JsonValue> {
    if members == [] then None
    else if members[0].0 == key then Some(members[0].1)
    else Lookup(members[1..], key)
  }

  datatype JsonErrorKind =
    | UnexpectedEnd
    | UnexpectedByte
    | InvalidNumber
    | InvalidString
    | InvalidEscape
    | InvalidUnicode
    | DepthExceeded
    | TrailingData

  datatype JsonError = JsonError(kind: JsonErrorKind, offset: nat)

  type Parsed<T> = Result<(T, nat), JsonError>

  function Fail<T>(kind: JsonErrorKind, offset: nat): Parsed<T> {
    Err(JsonError(kind, offset))
  }

  // ----- tokens -----

  predicate IsSpace(c: byte) {
    c == ' ' || c == '\t' || c == '\n' || c == '\r'
  }

  predicate At(s: bytes, p: nat, c: byte) {
    p < |s| && s[p] == c
  }

  function SkipWs(s: bytes, p: nat): (q: nat)
    requires p <= |s|
    ensures p <= q <= |s|
    decreases |s| - p
  {
    if p < |s| && IsSpace(s[p]) then SkipWs(s, p + 1) else p
  }

  /** The end of a run of digits. */
  function DigitsEnd(s: bytes, p: nat): (q: nat)
    requires p <= |s|
    ensures p <= q <= |s|
    decreases |s| - p
  {
    if p < |s| && Ascii.IsDigit(s[p]) then DigitsEnd(s, p + 1) else p
  }

  function Digits(s: bytes, p: nat): (r: Parsed<()>)
    requires p <= |s|
    ensures r.Ok? ==> p < r.value.1 <= |s|
  {
    var q := DigitsEnd(s, p);
    if q == p then Fail(InvalidNumber, p) else Ok(((), q))
  }

  function FractionAt(s: bytes, p: nat): (r: Parsed<()>)
    requires p <= |s|
    ensures r.Ok? ==> p <= r.value.1 <= |s|
  {
    if At(s, p, '.') then Digits(s, p + 1) else Ok(((), p))
  }

  function ExponentAt(s: bytes, p: nat): (r: Parsed<()>)
    requires p <= |s|
    ensures r.Ok? ==> p <= r.value.1 <= |s|
  {
    if At(s, p, 'e') || At(s, p, 'E')
    then Digits(s, if At(s, p + 1, '+') || At(s, p + 1, '-') then p + 2 else p + 1)
    else Ok(((), p))
  }

  function NumberAt(s: bytes, p: nat): (r: Parsed<JsonValue>)
    requires p <= |s|
    ensures r.Ok? ==> p < r.value.1 <= |s|
  {
    var (_, q1) :- Digits(s, if At(s, p, '-') then p + 1 else p);
    var (_, q2) :- FractionAt(s, q1);
    var (_, q3) :- ExponentAt(s, q2);
    Ok((Number(s[p..q3]), q3))
  }

  // ----- strings -----

  /** Four hexadecimal digits. */
  function Hex4(s: bytes, p: nat, n: nat, value: nat): (r: Parsed<nat>)
    requires p <= |s| && n <= 4
    ensures r.Ok? ==> r.value.1 == p + n && r.value.1 <= |s|
    ensures r.Ok? ==>
              r.value.0 < (value + 1) *
              (if n == 0 then 1 else if n == 1 then 16 else if n == 2 then 256 else if n == 3 then 4096 else 65536)
    decreases n
  {
    if n == 0 then Ok((value, p))
    else if p >= |s| then Fail(UnexpectedEnd, p)
    else if !Numerals.IsHexDigit(s[p]) then Fail(InvalidUnicode, p)
    else Hex4(s, p + 1, n - 1, value * 16 + Numerals.HexDigitValue(s[p]))
  }

  function ByteChar(n: int): byte
    requires 0 <= n < 256
  {
    n as char
  }

  /** The UTF-8 bytes of a scalar value. */
  function EncodeScalar(c: nat): bytes
    requires c < 0x11_0000
  {
    if c < 0x80 then [ByteChar(c)]
    else if c < 0x800 then [ByteChar(0xC0 + c / 64), ByteChar(0x80 + c % 64)]
    else if c < 0x1_0000 then [ByteChar(0xE0 + c / 4096), ByteChar(0x80 + c / 64 % 64), ByteChar(0x80 + c % 64)]
    else [ByteChar(0xF0 + c / 262144), ByteChar(0x80 + c / 4096 % 64), ByteChar(0x80 + c / 64 % 64),
        ByteChar(0x80 + c % 64)]
  }

  /** A `\u` escape after its `u`: a scalar, or a surrogate pair. */
  function UnicodeEscapeAt(s: bytes, p: nat): (r: Parsed<bytes>)
    requires p <= |s|
    ensures r.Ok? ==> p < r.value.1 <= |s|
  {
    var (first, q) :- Hex4(s, p, 4, 0);
    if 0xD800 <= first <= 0xDBFF then
      if !At(s, q, '\\') then Fail(InvalidUnicode, q)
      else if !At(s, q + 1, 'u') then Fail(InvalidUnicode, q + 1)
      else
        var (low, q2) :- Hex4(s, q + 2, 4, 0);
        if !(0xDC00 <= low <= 0xDFFF) then Fail(InvalidUnicode, q2)
        else Ok((EncodeScalar(0x10000 + (first - 0xD800) * 1024 + (low - 0xDC00)), q2))
    else if 0xDC00 <= first <= 0xDFFF then Fail(InvalidUnicode, q)
    else Ok((EncodeScalar(first), q))
  }

  /** An escape after its backslash. */
  function EscapeAt(s: bytes, p: nat): (r: Parsed<bytes>)
    requires p <= |s|
    ensures r.Ok? ==> p < r.value.1 <= |s|
  {
    if p >= |s| then Fail(UnexpectedEnd, p)
    else
      match s[p]
      case '"' => Ok(("\"", p + 1))
      case '\\' => Ok(("\\", p + 1))
      case '/' => Ok(("/", p + 1))
      case 'b' => Ok(([ByteChar(8)], p + 1))
      case 'f' => Ok(([ByteChar(12)], p + 1))
      case 'n' => Ok(("\n", p + 1))
      case 'r' => Ok(("\r", p + 1))
      case 't' => Ok(("\t", p + 1))
      case 'u' => UnicodeEscapeAt(s, p + 1)
      case _ => Fail(InvalidEscape, p + 1)
  }

  /** Length of a UTF-8 sequence by its leading byte, 0 if it cannot lead one. */
  function Utf8Length(lead: byte): nat {
    var b := lead as int;
    if b <= 0x7F then 1
    else if 0xC0 <= b <= 0xDF then 2
    else if 0xE0 <= b <= 0xEF then 3
    else if 0xF0 <= b <= 0xF7 then 4
    else 0
  }

  /** One step inside a string: the bytes it contributes, or its end (`None`). */
  function StringStep(s: bytes, p: nat): (r: Parsed<Option<bytes>>)
    requires p <= |s|
    ensures r.Ok? ==> p < r.value.1 <= |s|
  {
    if p >= |s| then Fail(UnexpectedEnd, p)
    else if s[p] == '"' then Ok((None, p + 1))
    else if s[p] == '\\' then
      var (text, q) :- EscapeAt(s, p + 1);
      Ok((Some(text), q))
    else if s[p] as int <= 0x1F then Fail(InvalidString, p + 1)
    else
      var n := Utf8Length(s[p]);
      if n == 0 || p + n > |s| || !Utf8.ValidUtf8(s[p..p + n]) then Fail(InvalidString, p + 1)
      else Ok((Some(s[p..p + n]), p + n))
  }

  function StringFrom(s: bytes, p: nat, out: bytes): (r: Parsed<bytes>)
    requires p <= |s|
    ensures r.Ok? ==> p < r.value.1 <= |s|
    decreases |s| - p
  {
    var (piece, q) :- StringStep(s, p);
    match piece
    case None => Ok((out, q))
    case Some(text) => StringFrom(s, q, out + text)
  }

  function Expect(s: bytes, p: nat, c: byte): (r: Parsed<()>)
    requires p <= |s|
    ensures r.Ok? ==> At(s, p, c) && r.value.1 == p + 1
  {
    if At(s, p, c) then Ok(((), p + 1)) else if p >= |s| then Fail(UnexpectedEnd, p) else Fail(UnexpectedByte, p)
  }

  function StringAt(s: bytes, p: nat): (r: Parsed<bytes>)
    requires p <= |s|
    ensures r.Ok? ==> p < r.value.1 <= |s|
  {
    var (_, q) :- Expect(s, p, '"');
    StringFrom(s, q, [])
  }

  // ----- values -----

  predicate StartsWith(s: bytes, p: nat, word: bytes) {
    MatchAt(s, word, p)
  }

  /** A value; it ends strictly after its start and within the input. */
  function ValueAt(s: bytes, p: nat, depth: nat): (r: Parsed<JsonValue>)
    requires p <= |s|
    ensures r.Ok? ==> p < r.value.1 <= |s|
    decreases |s| - p, 2
  {
    if p >= |s| then Fail(UnexpectedEnd, p)
    else
      var c := s[p];
      if c == '{' then ObjectAt(s, p, depth)
      else if c == '[' then ArrayAt(s, p, depth)
      else if c == '"' then
        var (text, q) :- StringAt(s, p);
        Ok((String(text), q))
      else if c == 't' || c == 'f' then
        if StartsWith(s, p, "true") then Ok((Bool(true), p + 4))
        else if StartsWith(s, p, "false") then Ok((Bool(false), p + 5))
        else Fail(UnexpectedByte, p)
      else if c == 'n' then
        if StartsWith(s, p, "null") then Ok((Null, p + 4)) else Fail(UnexpectedByte, p)
      else if c == '-' || Ascii.IsDigit(c) then NumberAt(s, p)
      else Fail(UnexpectedByte, p)
  }

  function ObjectAt(s: bytes, p: nat, depth: nat): (r: Parsed<JsonValue>)
    requires p <= |s|
    ensures r.Ok? ==> p < r.value.1 <= |s|
    decreases |s| - p, 1
  {
    if depth + 1 > MAX_DEPTH then Fail(DepthExceeded, p)
    else
      var (_, q) :- Expect(s, p, '{');
      var q1 := SkipWs(s, q);
      if At(s, q1, '}') then Ok((Object([]), q1 + 1)) else MembersFrom(s, q1, depth, [])
  }

  /** One member, up to the comma or brace after it. */
  function MemberAt(s: bytes, p: nat, depth: nat): (r: Parsed<(bytes, JsonValue)>)
    requires p <= |s|
    ensures r.Ok? ==> p < r.value.1 <= |s|
    decreases |s| - p, 3
  {
    var q := SkipWs(s, p);
    if !At(s, q, '"') then Fail(UnexpectedByte, q)
    else
      var (key, q1) :- StringAt(s, q);
      var (_, q2) :- Expect(s, SkipWs(s, q1), ':');
      var (value, q3) :- ValueAt(s, SkipWs(s, q2), depth);
      Ok(((key, value), SkipWs(s, q3)))
  }

  function MembersFrom(s: bytes, p: nat, depth: nat, members: seq<(bytes, JsonValue)>): (r: Parsed<JsonValue>)
    requires p <= |s|
    ensures r.Ok? ==> p < r.value.1 <= |s|
    decreases |s| - p, 4
  {
    var (member, q) :- MemberAt(s, p, depth + 1);
    if At(s, q, ',') then MembersFrom(s, q + 1, depth, members + [member])
    else if At(s, q, '}') then Ok((Object(members + [member]), q + 1))
    else if q < |s| then Fail(UnexpectedByte, q)
    else Fail(UnexpectedEnd, q)
  }

  function ArrayAt(s: bytes, p: nat, depth: nat): (r: Parsed<JsonValue>)
    requires p <= |s|
    ensures r.Ok? ==> p < r.value.1 <= |s|
    decreases |s| - p, 1
  {
    if depth + 1 > MAX_DEPTH then Fail(DepthExceeded, p)
    else
      var (_, q) :- Expect(s, p, '[');
      var q1 := SkipWs(s, q);
      if At(s, q1, ']') then Ok((Array([]), q1 + 1)) else ItemsFrom(s, q1, depth, [])
  }

  function ItemsFrom(s: bytes, p: nat, depth: nat, items: seq<JsonValue>): (r: Parsed<JsonValue>)
    requires p <= |s|
    ensures r.Ok? ==> p < r.value.1 <= |s|
    decreases |s| - p, 4
  {
    var (item, q0) :- ValueAt(s, SkipWs(s, p), depth + 1);
    var q := SkipWs(s, q0);
    if At(s, q, ',') then ItemsFrom(s, q + 1, depth, items + [item])
    else if At(s, q, ']') then Ok((Array(items + [item]), q + 1))
    else if q < |s| then Fail(UnexpectedByte, q)
    else Fail(UnexpectedEnd, q)
  }

  function ParseDocument(s: bytes): Result<JsonValue, JsonError> {
    var (value, q) :- ValueAt(s, SkipWs(s, 0), 0);
    var end := SkipWs(s, q);
    if end != |s| then Err(JsonError(TrailingData, end)) else Ok(value)
  }
}
