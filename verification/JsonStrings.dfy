/** JSON strings as they may be spelled, and the parser as the reading of exactly
    those spellings (section 7 of RFC 8259). */
module JsonStrings {
  import opened Bytes
  import opened Numerals
  import opened Utf8
  import opened Json

  // ----- spellings -----

  /** A piece of a string's text and what it contributes. */
  datatype Piece = Piece(text: bytes, value: bytes)

  type Spelling = seq<Piece>

  /** One character as it is. */
  predicate IsPlain(p: Piece) {
    && p.text != [] && LeadWidth(p.text) == |p.text| && p.value == p.text
    && p.text[0] as int >= 0x20 && p.text[0] != '"' && p.text[0] != '\\'
  }

  /** What a backslash and one letter stand for. */
  function ShortEscape(c: byte): Option<bytes> {
    if c == '"' || c == '\\' || c == '/' then Some([c])
    else if c == 'b' then Some([ByteChar(8)])
    else if c == 'f' then Some([ByteChar(12)])
    else if c == 'n' then Some("\n")
    else if c == 'r' then Some("\r")
    else if c == 't' then Some("\t")
    else None
  }

  predicate IsShortEscape(p: Piece) {
    |p.text| == 2 && p.text[0] == '\\' && ShortEscape(p.text[1]) == Some(p.value)
  }

  /** A backslash, a `u` and four hexadecimal digits of either case. */
  predicate IsQuad(s: bytes) {
    |s| == 6 && s[0] == '\\' && s[1] == 'u' && AllHex(s[2..])
  }

  function QuadValue(s: bytes): nat
    requires IsQuad(s)
  {
    Value(s[2..], 16)
  }

  predicate IsHigh(n: nat) {
    0xD800 <= n <= 0xDBFF
  }

  predicate IsLow(n: nat) {
    0xDC00 <= n <= 0xDFFF
  }

  /** The scalar value of a surrogate pair. */
  function PairScalar(high: nat, low: nat): nat
    requires IsHigh(high) && IsLow(low)
  {
    0x1_0000 + (high - 0xD800) * 1024 + (low - 0xDC00)
  }

  predicate IsScalarEscape(p: Piece) {
    IsQuad(p.text) && QuadValue(p.text) < 0x1_0000 && !IsHigh(QuadValue(p.text)) && !IsLow(QuadValue(p.text))
    && p.value == EncodeScalar(QuadValue(p.text))
  }

  predicate IsPairEscape(p: Piece) {
    |p.text| == 12 && IsQuad(p.text[..6]) && IsQuad(p.text[6..])
    && IsHigh(QuadValue(p.text[..6])) && IsLow(QuadValue(p.text[6..]))
    && p.value == EncodeScalar(PairScalar(QuadValue(p.text[..6]), QuadValue(p.text[6..])))
  }

  predicate IsPiece(p: Piece) {
    IsPlain(p) || IsShortEscape(p) || IsScalarEscape(p) || IsPairEscape(p)
  }

  predicate IsSpelling(pieces: Spelling) {
    forall p :: p in pieces ==> IsPiece(p)
  }

  function TextOf(pieces: Spelling): bytes {
    if pieces == [] then [] else pieces[0].text + TextOf(pieces[1..])
  }

  function MeaningOf(pieces: Spelling): bytes {
    if pieces == [] then [] else pieces[0].value + MeaningOf(pieces[1..])
  }

  function Spelled(pieces: Spelling): bytes {
    "\"" + (TextOf(pieces) + "\"")
  }

  // ----- hexadecimal quads -----

  lemma HexEndAt(s: bytes, p: nat, value: nat)
    requires p <= |s|
    ensures Hex4(s, p, 0, value) == Ok((value, p))
  {
  }

  lemma HexAdvance(s: bytes, p: nat, n: nat, value: nat)
    requires p < |s| && 1 <= n <= 4
    ensures IsHexDigit(s[p]) ==> Hex4(s, p, n, value) == Hex4(s, p + 1, n - 1, value * 16 + HexDigitValue(s[p]))
    ensures !IsHexDigit(s[p]) ==> Hex4(s, p, n, value).Err?
  {
  }

  lemma ValueStep(digits: bytes)
    requires AllHex(digits) && digits != []
    ensures AllHex(digits[..|digits| - 1]) && IsHexDigit(digits[|digits| - 1])
    ensures Value(digits, 16) == Value(digits[..|digits| - 1], 16) * 16 + HexDigitValue(digits[|digits| - 1])
  {
    hide IsHexDigit; hide HexDigitValue;
  }

  lemma FourDigits(t: bytes)
    requires |t| == 4 && AllHex(t)
    ensures IsHexDigit(t[0]) && IsHexDigit(t[1]) && IsHexDigit(t[2]) && IsHexDigit(t[3])
    ensures var v1 := 0 * 16 + HexDigitValue(t[0]); var v2 := v1 * 16 + HexDigitValue(t[1]);
            var v3 := v2 * 16 + HexDigitValue(t[2]); Value(t, 16) == v3 * 16 + HexDigitValue(t[3]) < 0x1_0000
  {
    hide IsHexDigit; hide HexDigitValue; hide Value;
    ValueStep(t);
    ValueStep(t[..3]);
    assert t[..3][..2] == t[..2] && t[..3][2] == t[2];
    ValueStep(t[..2]);
    assert t[..2][..1] == t[..1] && t[..2][1] == t[1];
    ValueStep(t[..1]);
    assert t[..1][..0] == [] && t[..1][0] == t[0];
    NoDigits();
  }

  lemma NoDigits()
    ensures Value([], 16) == 0
  {
  }

  /** Reading four digits computes their value. */
  lemma HexIsValue(s: bytes, p: nat)
    requires p + 4 <= |s|
    ensures Hex4(s, p, 4, 0).Ok? <==> AllHex(s[p..p + 4])
    ensures AllHex(s[p..p + 4]) ==> Hex4(s, p, 4, 0) == Ok((Value(s[p..p + 4], 16), p + 4))
  {
    hide Hex4; hide IsHexDigit; hide HexDigitValue; hide Value;
    var t := s[p..p + 4];
    assert t == [s[p], s[p + 1], s[p + 2], s[p + 3]];
    HexAdvance(s, p, 4, 0);
    if IsHexDigit(s[p]) {
      var v1 := 0 * 16 + HexDigitValue(s[p]);
      HexAdvance(s, p + 1, 3, v1);
      if IsHexDigit(s[p + 1]) {
        var v2 := v1 * 16 + HexDigitValue(s[p + 1]);
        HexAdvance(s, p + 2, 2, v2);
        if IsHexDigit(s[p + 2]) {
          var v3 := v2 * 16 + HexDigitValue(s[p + 2]);
          HexAdvance(s, p + 3, 1, v3);
          if IsHexDigit(s[p + 3]) {
            HexEndAt(s, p + 4, v3 * 16 + HexDigitValue(s[p + 3]));
            FourDigits(t);
          }
        }
      }
    }
    if AllHex(t) {
      FourDigits(t);
    }
  }

  /** Four digits after a backslash and a `u` read as their value. */
  lemma QuadReadsAs(s: bytes, p: nat)
    requires p + 6 <= |s| && s[p] == '\\' && s[p + 1] == 'u'
    ensures IsQuad(s[p..p + 6]) <==> Hex4(s, p + 2, 4, 0).Ok?
    ensures IsQuad(s[p..p + 6]) ==>
              Hex4(s, p + 2, 4, 0) == Ok((QuadValue(s[p..p + 6]), p + 6)) && QuadValue(s[p..p + 6]) < 0x1_0000
  {
    hide Hex4; hide Value; hide AllHex;
    HexIsValue(s, p + 2);
    assert s[p..p + 6][2..] == s[p + 2..p + 6];
    if IsQuad(s[p..p + 6]) {
      FourDigits(s[p + 2..p + 6]);
    }
  }

  // ----- every piece reads -----

  lemma PlainReads(s: bytes, i: nat, p: Piece)
    requires IsPlain(p) && MatchAt(s, p.text, i)
    ensures StringStep(s, i) == Ok((Some(p.value), i + |p.text|))
  {
    hide ValidUtf8;
    assert s[i] == s[i..i + |p.text|][0] == p.text[0];
    LeadLength(p.text);
    assert ValidUtf8(p.text) by { LeadValid(p.text); }
  }

  lemma LeadLength(c: bytes)
    requires c != [] && LeadWidth(c) == |c|
    ensures Utf8Length(c[0]) == |c|
  {
  }

  lemma LeadValid(c: bytes)
    requires c != [] && LeadWidth(c) == |c|
    ensures ValidUtf8(c)
  {
    assert c[|c|..] == [];
  }

  lemma ShortReads(s: bytes, i: nat, p: Piece)
    requires IsShortEscape(p) && MatchAt(s, p.text, i)
    ensures StringStep(s, i) == Ok((Some(p.value), i + 2))
  {
    var t := s[i..i + 2];
    assert t == p.text && s[i] == t[0] && s[i + 1] == t[1];
  }

  lemma ScalarReads(s: bytes, i: nat, p: Piece)
    requires IsScalarEscape(p) && MatchAt(s, p.text, i)
    ensures StringStep(s, i) == Ok((Some(p.value), i + 6))
  {
    hide Hex4; hide EncodeScalar; hide Value;
    var t := s[i..i + 6];
    assert t == p.text && s[i] == t[0] && s[i + 1] == t[1];
    QuadReadsAs(s, i);
  }

  lemma PairReads(s: bytes, i: nat, p: Piece)
    requires IsPairEscape(p) && MatchAt(s, p.text, i)
    ensures StringStep(s, i) == Ok((Some(p.value), i + 12))
  {
    hide Hex4; hide EncodeScalar; hide Value;
    var t := s[i..i + 12];
    assert t == p.text && t[..6] == s[i..i + 6] && t[6..] == s[i + 6..i + 12];
    assert s[i] == t[..6][0] && s[i + 1] == t[..6][1] && s[i + 6] == t[6..][0] && s[i + 7] == t[6..][1];
    QuadReadsAs(s, i);
    QuadReadsAs(s, i + 6);
  }

  lemma PieceReads(s: bytes, i: nat, p: Piece)
    requires IsPiece(p) && MatchAt(s, p.text, i)
    ensures StringStep(s, i) == Ok((Some(p.value), i + |p.text|)) && p.text != []
  {
    hide StringStep; hide MatchAt; hide QuadValue; hide EncodeScalar; hide LeadWidth; hide ShortEscape; hide AllHex;
    if IsPlain(p) {
      PlainReads(s, i, p);
    } else if IsShortEscape(p) {
      ShortReads(s, i, p);
    } else if IsScalarEscape(p) {
      ScalarReads(s, i, p);
    } else {
      PairReads(s, i, p);
    }
  }

  lemma QuoteEnds(s: bytes, i: nat)
    requires MatchAt(s, "\"", i)
    ensures StringStep(s, i) == Ok((None, i + 1))
  {
    assert s[i] == s[i..i + 1][0];
  }

  lemma {:induction false} PiecesRead(s: bytes, i: nat, pieces: Spelling, out: bytes)
    requires IsSpelling(pieces) && MatchAt(s, TextOf(pieces) + "\"", i)
    ensures StringFrom(s, i, out) == Ok((out + MeaningOf(pieces), i + |TextOf(pieces)| + 1))
    decreases |pieces|
  {
    hide StringStep; hide IsPiece; hide MatchAt;
    if pieces == [] {
      assert TextOf(pieces) + "\"" == "\"";
      QuoteEnds(s, i);
      assert out + [] == out;
    } else {
      var p, rest := pieces[0], pieces[1..];
      assert TextOf(pieces) + "\"" == p.text + (TextOf(rest) + "\"");
      MatchConcat(s, p.text, TextOf(rest) + "\"", i);
      PieceReads(s, i, p);
      PiecesRead(s, i + |p.text|, rest, out + p.value);
      assert out + p.value + MeaningOf(rest) == out + MeaningOf(pieces);
    }
  }

  /** Every spelling reads as its meaning. */
  lemma SpellingReads(s: bytes, i: nat, pieces: Spelling)
    requires IsSpelling(pieces) && MatchAt(s, Spelled(pieces), i)
    ensures StringAt(s, i) == Ok((MeaningOf(pieces), i + |Spelled(pieces)|))
  {
    hide StringFrom; hide IsSpelling; hide TextOf; hide MeaningOf;
    MatchConcat(s, "\"", TextOf(pieces) + "\"", i);
    assert s[i..i + 1][0] == s[i];
    PiecesRead(s, i + 1, pieces, []);
    assert [] + MeaningOf(pieces) == MeaningOf(pieces);
  }

  // ----- everything read is a piece -----

  lemma PlainParses(s: bytes, i: nat)
    requires i < |s| && s[i] != '"' && s[i] != '\\' && StringStep(s, i).Ok?
    ensures var (v, q) := StringStep(s, i).value; v.Some? && IsPiece(Piece(s[i..q], v.value))
  {
    hide ValidUtf8;
    var n := Utf8Length(s[i]);
    var c := s[i..i + n];
    assert c[0] == s[i];
    WholeCharacter(c);
  }

  lemma WholeCharacter(c: bytes)
    requires c != [] && Utf8Length(c[0]) == |c| && ValidUtf8(c)
    ensures LeadWidth(c) == |c|
  {
  }

  lemma EscapeParses(s: bytes, i: nat)
    requires i < |s| && s[i] == '\\' && StringStep(s, i).Ok?
    ensures var (v, q) := StringStep(s, i).value; v.Some? && IsPiece(Piece(s[i..q], v.value))
  {
    hide Hex4; hide EncodeScalar; hide Value;
    if s[i + 1] == 'u' {
      UnicodeParses(s, i);
    } else {
      var q := StringStep(s, i).value.1;
      assert s[i..q][0] == s[i] && s[i..q][1] == s[i + 1];
      assert IsShortEscape(Piece(s[i..q], StringStep(s, i).value.0.value));
    }
  }

  lemma UnicodeParses(s: bytes, i: nat)
    requires i + 1 < |s| && s[i] == '\\' && s[i + 1] == 'u' && UnicodeEscapeAt(s, i + 2).Ok?
    ensures var (v, q) := UnicodeEscapeAt(s, i + 2).value; IsPiece(Piece(s[i..q], v))
  {
    hide Hex4; hide EncodeScalar; hide Value;
    QuadReadsAs(s, i);
    var first := QuadValue(s[i..i + 6]);
    if IsHigh(first) {
      QuadReadsAs(s, i + 6);
      var t := s[i..i + 12];
      assert t[..6] == s[i..i + 6] && t[6..] == s[i + 6..i + 12];
    }
  }

  /** Whatever the string loop reads is spelled by the bytes that it passes. */
  lemma {:induction false} StringParses(s: bytes, i: nat, out: bytes) returns (pieces: Spelling)
    requires i <= |s| && StringFrom(s, i, out).Ok?
    ensures var (v, q) := StringFrom(s, i, out).value;
            IsSpelling(pieces) && s[i..q] == TextOf(pieces) + "\"" && v == out + MeaningOf(pieces)
    decreases |s| - i
  {
    hide StringStep; hide IsPiece;
    var (step, q) := StringStep(s, i).value;
    StepParses(s, i);
    var (v, end) := StringFrom(s, i, out).value;
    match step
    case None =>
      pieces := [];
      assert out + [] == out;
    case Some(value) =>
      var rest := StringParses(s, q, out + value);
      var p := Piece(s[i..q], value);
      pieces := [p] + rest;
      assert pieces[1..] == rest;
      assert s[i..end] == s[i..q] + s[q..end];
      assert out + value + MeaningOf(rest) == out + (value + MeaningOf(rest));
  }

  lemma StepParses(s: bytes, i: nat)
    requires i <= |s| && StringStep(s, i).Ok?
    ensures var (v, q) := StringStep(s, i).value;
            match v case None => s[i..q] == "\"" case Some(value) => IsPiece(Piece(s[i..q], value))
  {
    hide EscapeAt; hide IsPiece; hide ValidUtf8; hide Utf8Length;
    if s[i] == '\\' {
      EscapeParses(s, i);
    } else if s[i] != '"' {
      PlainParses(s, i);
    }
  }

  /** A quoted string that reads is a spelling of what it reads as. */
  lemma SpellingParses(s: bytes, i: nat) returns (pieces: Spelling)
    requires i <= |s| && StringAt(s, i).Ok?
    ensures var (v, q) := StringAt(s, i).value;
            IsSpelling(pieces) && s[i..q] == Spelled(pieces) && v == MeaningOf(pieces)
  {
    hide StringFrom; hide IsSpelling; hide TextOf; hide MeaningOf;
    pieces := StringParses(s, i + 1, []);
    var q := StringAt(s, i).value.1;
    assert s[i..q] == [s[i]] + s[i + 1..q];
    assert [] + MeaningOf(pieces) == MeaningOf(pieces);
  }

  // ----- the spelling that the writer uses -----

  function EscapeByte(c: byte): bytes {
    if c == '"' then "\\\""
    else if c == '\\' then "\\\\"
    else if c == '\n' then "\\n"
    else if c == '\r' then "\\r"
    else if c == '\t' then "\\t"
    else if c as int < 0x20 then "\\u00" + [DigitChar(c as int / 16), DigitChar(c as int % 16)]
    else [c]
  }

  /** Quotes, backslashes and control characters escaped. Only ASCII is ever
      escaped, so going byte by byte is going character by character. */
  function Escape(s: bytes): bytes {
    if s == [] then [] else EscapeByte(s[0]) + Escape(s[1..])
  }

  lemma {:induction false} EscapeAppend(a: bytes, b: bytes)
    ensures Escape(a + b) == Escape(a) + Escape(b)
  {
    hide EscapeByte;
    if a == [] {
      assert a + b == b;
    } else {
      assert (a + b)[1..] == a[1..] + b;
      EscapeAppend(a[1..], b);
    }
  }

  method EscapeJson(s: bytes) returns (out: bytes)
    ensures out == Escape(s)
  {
    hide EscapeByte;
    out := [];
    for k := 0 to |s|
      invariant out + Escape(s[k..]) == Escape(s)
    {
      assert s[k..][1..] == s[k + 1..];
      out := out + EscapeByte(s[k]);
    }
  }

  function Quoted(s: bytes): bytes {
    "\"" + (Escape(s) + "\"")
  }

  /** Width of the first character; a byte that is none counts as one. */
  function FirstWidth(s: bytes): (w: nat)
    requires s != []
    ensures 1 <= w <= |s|
  {
    if LeadWidth(s) > 0 then LeadWidth(s) else 1
  }

  /** One piece a character, escaped as the writer does. */
  function Canonical(s: bytes): Spelling
    decreases |s|
  {
    if s == [] then []
    else
      var c := s[..FirstWidth(s)];
      [Piece(Escape(c), c)] + Canonical(s[FirstWidth(s)..])
  }

  lemma {:induction false} CanonicalText(s: bytes)
    ensures TextOf(Canonical(s)) == Escape(s) && MeaningOf(Canonical(s)) == s
    decreases |s|
  {
    hide Escape; hide FirstWidth;
    if s == [] {
      NothingEscaped();
    } else {
      var w := FirstWidth(s);
      CanonicalText(s[w..]);
      EscapeAppend(s[..w], s[w..]);
      assert s == s[..w] + s[w..];
      var rest := Canonical(s[w..]);
      assert Canonical(s)[1..] == rest;
    }
  }

  lemma NothingEscaped()
    ensures Escape([]) == []
  {
  }

  lemma CanonicalIsQuoted(s: bytes)
    ensures Spelled(Canonical(s)) == Quoted(s) && MeaningOf(Canonical(s)) == s
  {
    hide Escape; hide TextOf; hide Canonical; hide MeaningOf;
    CanonicalText(s);
  }

  /** The writer's spelling of text is a spelling. */
  lemma {:induction false} CanonicalIsSpelling(s: bytes)
    requires ValidUtf8(s)
    ensures IsSpelling(Canonical(s))
    decreases |s|
  {
    hide IsPiece; hide Escape; hide LeadWidth;
    if s != [] {
      var w := LeadWidth(s);
      CharacterIsPiece(s[..w]) by { LeadWidthOfPrefix(s); }
      CanonicalIsSpelling(s[w..]);
    }
  }

  lemma LeadWidthOfPrefix(s: bytes)
    ensures LeadWidth(s[..LeadWidth(s)]) == LeadWidth(s)
  {
  }

  lemma CharacterIsPiece(c: bytes)
    requires c != [] && LeadWidth(c) == |c|
    ensures IsPiece(Piece(Escape(c), c))
  {
    hide LeadWidth;
    if |c| == 1 {
      assert Escape(c) == EscapeByte(c[0]) + Escape(c[1..]) == EscapeByte(c[0]);
      assert c == [c[0]];
      AsciiIsPiece(c[0]) by { NarrowIsAscii(c); }
    } else {
      WideIsPlain(c);
    }
  }

  lemma NarrowIsAscii(c: bytes)
    requires |c| == 1 && LeadWidth(c) == 1
    ensures c[0] as int < 0x80
  {
  }

  lemma WideIsPlain(c: bytes)
    requires |c| > 1 && LeadWidth(c) == |c|
    ensures IsPlain(Piece(Escape(c), c))
  {
    hide Escape;
    assert forall i :: 0 <= i < |c| ==> c[i] as int >= 0x80;
    WideIsVerbatim(c);
  }

  lemma {:induction false} WideIsVerbatim(s: bytes)
    requires forall i :: 0 <= i < |s| ==> s[i] as int >= 0x80
    ensures Escape(s) == s
  {
    if s != [] {
      WideIsVerbatim(s[1..]);
    }
  }

  lemma AsciiIsPiece(c: byte)
    requires c as int < 0x80
    ensures IsPiece(Piece(EscapeByte(c), [c]))
  {
    var p := Piece(EscapeByte(c), [c]);
    if c as int < 0x20 && c != '\n' && c != '\r' && c != '\t' {
      ControlIsPiece(c);
    } else if c == '"' || c == '\\' || c as int < 0x20 {
      assert IsShortEscape(p);
    } else {
      assert IsPlain(p);
    }
  }

  lemma ControlIsPiece(c: byte)
    requires c as int < 0x20
    ensures IsScalarEscape(Piece("\\u00" + [DigitChar(c as int / 16), DigitChar(c as int % 16)], [c]))
  {
    var text := "\\u00" + [DigitChar(c as int / 16), DigitChar(c as int % 16)];
    var quad := text[2..];
    assert quad == ['0', '0', DigitChar(c as int / 16), DigitChar(c as int % 16)];
    ControlValue(quad, c as int);
  }

  lemma ControlValue(quad: bytes, n: nat)
    requires n < 0x20 && quad == ['0', '0', DigitChar(n / 16), DigitChar(n % 16)]
    ensures AllHex(quad) && Value(quad, 16) == n && EncodeScalar(n) == [n as char]
  {
    assert quad[..3] == ['0', '0', DigitChar(n / 16)];
    assert quad[..3][..2] == ['0', '0'] && ['0', '0'][..1] == ['0'] && ['0'][..0] == [];
    assert Value(['0'], 16) == 0;
    assert Value(['0', '0'], 16) == 0;
    assert Value(quad[..3], 16) == n / 16;
  }
}
