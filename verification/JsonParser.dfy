/** The parser object: a cursor over the text, advanced by each method. */
module JsonParser {
  import opened Bytes
  import Ascii
  import Numerals
  import Utf8
  import opened Json

  /** A method's result and the cursor it leaves, against the function it computes. */
  ghost predicate Agrees<T>(r: Result<T, JsonError>, pos: nat, spec: Parsed<T>) {
    match spec
    case Ok((value, end)) => r == Ok(value) && pos == end
    case Err(e) => r == Err(e)
  }

  class Parser {
    const input: bytes
    var pos: nat

    constructor (input: bytes)
      ensures this.input == input && pos == 0
    {
      this.input := input;
      pos := 0;
    }

    ghost predicate Valid()
      reads this
    {
      pos <= |input|
    }

    function Peek(): Option<byte>
      reads this
    {
      if pos < |input| then Some(input[pos]) else None
    }

    method SkipSpaces()
      requires Valid()
      modifies this
      ensures pos == SkipWs(input, old(pos))
    {
      while pos < |input| && IsSpace(input[pos])
        invariant Valid() && SkipWs(input, pos) == SkipWs(input, old(pos))
        decreases |input| - pos
      {
        pos := pos + 1;
      }
    }

    method ConsumeDigits() returns (r: Result<(), JsonError>)
      requires Valid()
      modifies this
      ensures Valid() && Agrees(r, pos, Digits(input, old(pos)))
    {
      var start := pos;
      while pos < |input| && Ascii.IsDigit(input[pos])
        invariant Valid() && start <= pos && DigitsEnd(input, pos) == DigitsEnd(input, start)
        decreases |input| - pos
      {
        pos := pos + 1;
      }
      return if pos == start then Err(JsonError(InvalidNumber, pos)) else Ok(());
    }

    /** The fraction of a number, if there is one. */
    method ParseFraction() returns (r: Result<(), JsonError>)
      requires Valid()
      modifies this
      ensures Valid() && Agrees(r, pos, FractionAt(input, old(pos)))
    {
      hide Digits;
      if Peek() == Some('.') {
        pos := pos + 1;
        r := ConsumeDigits();
      } else {
        r := Ok(());
      }
    }

    method ParseExponent() returns (r: Result<(), JsonError>)
      requires Valid()
      modifies this
      ensures Valid() && Agrees(r, pos, ExponentAt(input, old(pos)))
    {
      hide Digits;
      if Peek() == Some('e') || Peek() == Some('E') {
        pos := pos + 1;
        if Peek() == Some('+') || Peek() == Some('-') {
          pos := pos + 1;
        }
        r := ConsumeDigits();
      } else {
        r := Ok(());
      }
    }

    method ParseNumber() returns (r: Result<JsonValue, JsonError>)
      requires Valid()
      modifies this
      ensures Agrees(r, pos, NumberAt(input, old(pos))) && (r.Ok? ==> Valid())
    {
      hide Digits; hide FractionAt; hide ExponentAt;
      var start := pos;
      if Peek() == Some('-') {
        pos := pos + 1;
      }
      var whole := ConsumeDigits();
      if whole.Err? {
        return Err(whole.error);
      }
      var fraction := ParseFraction();
      if fraction.Err? {
        return Err(fraction.error);
      }
      var exponent := ParseExponent();
      if exponent.Err? {
        return Err(exponent.error);
      }
      return Ok(Number(input[start..pos]));
    }

    method ReadHex4() returns (r: Result<nat, JsonError>)
      requires Valid()
      modifies this
      ensures Agrees(r, pos, Hex4(input, old(pos), 4, 0)) && (r.Ok? ==> Valid())
    {
      var value: nat := 0;
      for k := 0 to 4
        invariant Valid() && Hex4(input, pos, 4 - k, value) == Hex4(input, old(pos), 4, 0)
      {
        if pos >= |input| {
          return Err(JsonError(UnexpectedEnd, pos));
        }
        if !Numerals.IsHexDigit(input[pos]) {
          return Err(JsonError(InvalidUnicode, pos));
        }
        value := value * 16 + Numerals.HexDigitValue(input[pos]);
        pos := pos + 1;
      }
      return Ok(value);
    }

    method ParseUnicodeEscape() returns (r: Result<bytes, JsonError>)
      requires Valid()
      modifies this
      ensures Agrees(r, pos, UnicodeEscapeAt(input, old(pos))) && (r.Ok? ==> Valid())
    {
      hide Hex4; hide EncodeScalar;
      var first := ReadHex4();
      if first.Err? {
        return Err(first.error);
      }
      if 0xD800 <= first.value <= 0xDBFF {
        if Peek() != Some('\\') {
          return Err(JsonError(InvalidUnicode, pos));
        }
        pos := pos + 1;
        if Peek() != Some('u') {
          return Err(JsonError(InvalidUnicode, pos));
        }
        pos := pos + 1;
        var low := ReadHex4();
        if low.Err? {
          return Err(low.error);
        }
        if !(0xDC00 <= low.value <= 0xDFFF) {
          return Err(JsonError(InvalidUnicode, pos));
        }
        return Ok(EncodeScalar(0x10000 + (first.value - 0xD800) * 1024 + (low.value - 0xDC00)));
      }
      if 0xDC00 <= first.value <= 0xDFFF {
        return Err(JsonError(InvalidUnicode, pos));
      }
      return Ok(EncodeScalar(first.value));
    }

    method ParseEscape() returns (r: Result<bytes, JsonError>)
      requires Valid()
      modifies this
      ensures Agrees(r, pos, EscapeAt(input, old(pos))) && (r.Ok? ==> Valid())
    {
      hide UnicodeEscapeAt;
      if pos >= |input| {
        return Err(JsonError(UnexpectedEnd, pos));
      }
      var e := input[pos];
      pos := pos + 1;
      match e
      case '"' => return Ok("\"");
      case '\\' => return Ok("\\");
      case '/' => return Ok("/");
      case 'b' => return Ok([ByteChar(8)]);
      case 'f' => return Ok([ByteChar(12)]);
      case 'n' => return Ok("\n");
      case 'r' => return Ok("\r");
      case 't' => return Ok("\t");
      case 'u' => r := ParseUnicodeEscape();
      case _ => return Err(JsonError(InvalidEscape, pos));
    }

    method ExpectByte(c: byte) returns (r: Result<(), JsonError>)
      requires Valid()
      modifies this
      ensures Agrees(r, pos, Expect(input, old(pos), c)) && Valid()
    {
      if Peek() == Some(c) {
        pos := pos + 1;
        return Ok(());
      }
      return Err(JsonError(if pos >= |input| then UnexpectedEnd else UnexpectedByte, pos));
    }

    method ParseString() returns (r: Result<bytes, JsonError>)
      requires Valid()
      modifies this
      ensures Agrees(r, pos, StringAt(input, old(pos))) && (r.Ok? ==> Valid())
    {
      hide EscapeAt; hide Utf8.ValidUtf8;
      var quote := ExpectByte('"');
      if quote.Err? {
        return Err(quote.error);
      }
      var out := [];
      ghost var start := pos;
      while true
        invariant Valid() && StringFrom(input, pos, out) == StringFrom(input, start, [])
        decreases |input| - pos
      {
        ghost var p := pos;
        if pos >= |input| {
          return Err(JsonError(UnexpectedEnd, pos));
        }
        var b := input[pos];
        pos := pos + 1;
        if b == '"' {
          return Ok(out);
        } else if b == '\\' {
          var text := ParseEscape();
          if text.Err? {
            return Err(text.error);
          }
          out := out + text.value;
        } else if b as int <= 0x1F {
          return Err(JsonError(InvalidString, pos));
        } else {
          var first := pos - 1;
          var n := Utf8Length(b);
          if n == 0 || first + n > |input| || !Utf8.ValidUtf8(input[first..first + n]) {
            return Err(JsonError(InvalidString, pos));
          }
          out := out + input[first..first + n];
          pos := first + n;
        }
      }
    }

    method ParseBool() returns (r: Result<JsonValue, JsonError>)
      requires Valid() && pos < |input| && (input[pos] == 't' || input[pos] == 'f')
      modifies this
      ensures Agrees(r, pos, ValueAt(input, old(pos), 0)) && (r.Ok? ==> Valid())
    {
      if StartsWith(input, pos, "true") {
        pos := pos + 4;
        return Ok(Bool(true));
      } else if StartsWith(input, pos, "false") {
        pos := pos + 5;
        return Ok(Bool(false));
      }
      return Err(JsonError(UnexpectedByte, pos));
    }

    method ParseNull() returns (r: Result<JsonValue, JsonError>)
      requires Valid() && pos < |input| && input[pos] == 'n'
      modifies this
      ensures Agrees(r, pos, ValueAt(input, old(pos), 0)) && (r.Ok? ==> Valid())
    {
      if StartsWith(input, pos, "null") {
        pos := pos + 4;
        return Ok(Null);
      }
      return Err(JsonError(UnexpectedByte, pos));
    }

    method ParseValue(depth: nat) returns (r: Result<JsonValue, JsonError>)
      requires Valid()
      modifies this
      ensures Agrees(r, pos, ValueAt(input, old(pos), depth)) && (r.Ok? ==> Valid())
      decreases |input| - pos, 2
    {
      hide StringAt; hide NumberAt; hide ObjectAt; hide ArrayAt; hide StartsWith;
      if pos >= |input| {
        return Err(JsonError(UnexpectedEnd, pos));
      }
      var c := input[pos];
      if c == '{' {
        r := ParseObject(depth);
      } else if c == '[' {
        r := ParseArray(depth);
      } else if c == '"' {
        var text := ParseString();
        r := if text.Ok? then Ok(String(text.value)) else Err(text.error);
      } else if c == 't' || c == 'f' {
        r := ParseBool();
      } else if c == 'n' {
        r := ParseNull();
      } else if c == '-' || Ascii.IsDigit(c) {
        r := ParseNumber();
      } else {
        r := Err(JsonError(UnexpectedByte, pos));
      }
    }

    method ParseObject(depth: nat) returns (r: Result<JsonValue, JsonError>)
      requires Valid()
      modifies this
      ensures Agrees(r, pos, ObjectAt(input, old(pos), depth)) && (r.Ok? ==> Valid())
      decreases |input| - pos, 1
    {
      hide SkipWs; hide MemberAt;
      if depth + 1 > MAX_DEPTH {
        return Err(JsonError(DepthExceeded, pos));
      }
      var open := ExpectByte('{');
      if open.Err? {
        return Err(open.error);
      }
      var members := [];
      SkipSpaces();
      if Peek() == Some('}') {
        pos := pos + 1;
        return Ok(Object(members));
      }
      ghost var start := pos;
      while true
        invariant Valid() && old(pos) < pos
        invariant MembersFrom(input, pos, depth, members) == MembersFrom(input, start, depth, [])
        decreases |input| - pos
      {
        ghost var p := pos;
        var member := ParseMember(depth + 1);
        if member.Err? {
          return Err(member.error);
        }
        assert MembersFrom(input, p, depth, members) ==
               if At(input, pos, ',') then MembersFrom(input, pos + 1, depth, members + [member.value])
               else if At(input, pos, '}') then Ok((Object(members + [member.value]), pos + 1))
               else if pos < |input| then Fail(UnexpectedByte, pos)
               else Fail(UnexpectedEnd, pos);
        members := members + [member.value];
        var next := Peek();
        if next == Some(',') {
          pos := pos + 1;
        } else if next == Some('}') {
          pos := pos + 1;
          return Ok(Object(members));
        } else if next.Some? {
          return Err(JsonError(UnexpectedByte, pos));
        } else {
          return Err(JsonError(UnexpectedEnd, pos));
        }
      }
    }

    /** A key, a colon and a value, with the whitespace around them. */
    method ParseMember(depth: nat) returns (r: Result<(bytes, JsonValue), JsonError>)
      requires Valid()
      modifies this
      ensures Agrees(r, pos, MemberAt(input, old(pos), depth)) && (r.Ok? ==> Valid())
      decreases |input| - pos, 3
    {
      hide SkipWs; hide StringAt; hide ValueAt;
      SkipSpaces();
      if Peek() != Some('"') {
        return Err(JsonError(UnexpectedByte, pos));
      }
      var key := ParseString();
      if key.Err? {
        return Err(key.error);
      }
      SkipSpaces();
      var colon := ExpectByte(':');
      if colon.Err? {
        return Err(colon.error);
      }
      SkipSpaces();
      var value := ParseValue(depth);
      if value.Err? {
        return Err(value.error);
      }
      SkipSpaces();
      return Ok((key.value, value.value));
    }

    method ParseArray(depth: nat) returns (r: Result<JsonValue, JsonError>)
      requires Valid()
      modifies this
      ensures Agrees(r, pos, ArrayAt(input, old(pos), depth)) && (r.Ok? ==> Valid())
      decreases |input| - pos, 1
    {
      hide SkipWs; hide ValueAt;
      if depth + 1 > MAX_DEPTH {
        return Err(JsonError(DepthExceeded, pos));
      }
      var open := ExpectByte('[');
      if open.Err? {
        return Err(open.error);
      }
      var items := [];
      SkipSpaces();
      if Peek() == Some(']') {
        pos := pos + 1;
        return Ok(Array(items));
      }
      ghost var start := pos;
      while true
        invariant Valid() && old(pos) < pos
        invariant ItemsFrom(input, pos, depth, items) == ItemsFrom(input, start, depth, [])
        decreases |input| - pos
      {
        ghost var p := pos;
        SkipSpaces();
        var item := ParseValue(depth + 1);
        if item.Err? {
          return Err(item.error);
        }
        SkipSpaces();
        assert ItemsFrom(input, p, depth, items) ==
               if At(input, pos, ',') then ItemsFrom(input, pos + 1, depth, items + [item.value])
               else if At(input, pos, ']') then Ok((Array(items + [item.value]), pos + 1))
               else if pos < |input| then Fail(UnexpectedByte, pos)
               else Fail(UnexpectedEnd, pos);
        items := items + [item.value];
        var next := Peek();
        if next == Some(',') {
          pos := pos + 1;
        } else if next == Some(']') {
          pos := pos + 1;
          return Ok(Array(items));
        } else if next.Some? {
          return Err(JsonError(UnexpectedByte, pos));
        } else {
          return Err(JsonError(UnexpectedEnd, pos));
        }
      }
    }
  }

  /** Parses a complete document. */
  method Parse(input: bytes) returns (r: Result<JsonValue, JsonError>)
    ensures r == ParseDocument(input)
  {
    hide SkipWs; hide ValueAt;
    var p := new Parser(input);
    p.SkipSpaces();
    var value := p.ParseValue(0);
    if value.Err? {
      return Err(value.error);
    }
    p.SkipSpaces();
    if p.pos != |input| {
      return Err(JsonError(TrailingData, p.pos));
    }
    return value;
  }
}
