/** Unicode escapes and the scalar values they stand for. */
module JsonUnicode {
  import opened Bytes
  import Numerals
  import opened Utf8
  import opened Json

  // ----- UTF-8 of a scalar value -----

  function Unit(s: bytes, i: nat, mark: nat): int
    requires i < |s|
  {
    s[i] as int - mark
  }

  /** The scalar value that one well-formed sequence encodes. */
  function ScalarOf(s: bytes): int
    requires s != [] && LeadWidth(s) == |s|
  {
    if |s| == 1 then Unit(s, 0, 0)
    else if |s| == 2 then Unit(s, 0, 0xC0) * 64 + Unit(s, 1, 0x80)
    else if |s| == 3 then (Unit(s, 0, 0xE0) * 64 + Unit(s, 1, 0x80)) * 64 + Unit(s, 2, 0x80)
    else ((Unit(s, 0, 0xF0) * 64 + Unit(s, 1, 0x80)) * 64 + Unit(s, 2, 0x80)) * 64 + Unit(s, 3, 0x80)
  }

  lemma NarrowRoundTrip(c: nat)
    requires c < 0x800
    ensures var s := EncodeScalar(c); LeadWidth(s) == |s| > 0 && ScalarOf(s) == c
  {
  }

  lemma ThreeByteRoundTrip(a: nat, b: nat, d: nat)
    requires a < 16 && b < 64 && d < 64 && (a == 0 ==> b >= 32) && (a == 13 ==> b < 32)
    ensures var s := [ByteChar(0xE0 + a), ByteChar(0x80 + b), ByteChar(0x80 + d)];
            LeadWidth(s) == |s| > 0 && ScalarOf(s) == (a * 64 + b) * 64 + d
  {
  }

  lemma FourByteRoundTrip(a: nat, b: nat, d: nat, e: nat)
    requires a < 5 && b < 64 && d < 64 && e < 64 && (a == 0 ==> b >= 16) && (a == 4 ==> b < 16)
    ensures var s := [ByteChar(0xF0 + a), ByteChar(0x80 + b), ByteChar(0x80 + d), ByteChar(0x80 + e)];
            LeadWidth(s) == |s| > 0 && ScalarOf(s) == ((a * 64 + b) * 64 + d) * 64 + e
  {
  }

  lemma ThreeParts(c: nat)
    requires 0x800 <= c < 0x1_0000 && !(0xD800 <= c <= 0xDFFF)
    ensures var a, b, d := c / 4096, c / 64 % 64, c % 64;
            a < 16 && (a == 0 ==> b >= 32) && (a == 13 ==> b < 32) && (a * 64 + b) * 64 + d == c
  {
    assert c / 64 == c / 4096 * 64 + c / 64 % 64;
  }

  lemma FourParts(c: nat)
    requires 0x1_0000 <= c < 0x11_0000
    ensures var a, b, d, e := c / 262144, c / 4096 % 64, c / 64 % 64, c % 64;
            a < 5 && (a == 0 ==> b >= 16) && (a == 4 ==> b < 16) && ((a * 64 + b) * 64 + d) * 64 + e == c
  {
    assert c / 64 == c / 4096 * 64 + c / 64 % 64;
    assert c / 4096 == c / 262144 * 64 + c / 4096 % 64;
  }

  /** Encoding a scalar value as UTF-8 gives one well-formed sequence, and decoding
      that gives the value back. */
  lemma ScalarRoundTrip(c: nat)
    requires c < 0x11_0000 && !(0xD800 <= c <= 0xDFFF)
    ensures var s := EncodeScalar(c); LeadWidth(s) == |s| > 0 && ScalarOf(s) == c
  {
    hide LeadWidth; hide ScalarOf; hide ByteChar;
    if c < 0x800 {
      NarrowRoundTrip(c);
    } else if c < 0x1_0000 {
      ThreeParts(c);
      ThreeByteRoundTrip(c / 4096, c / 64 % 64, c % 64);
    } else {
      FourParts(c);
      FourByteRoundTrip(c / 262144, c / 4096 % 64, c / 64 % 64, c % 64);
    }
  }

  /** And every well-formed sequence is the encoding of a scalar value, so that nothing
      overlong, no surrogate and nothing beyond the last code point is accepted. */
  lemma SequenceIsScalar(s: bytes)
    requires s != [] && LeadWidth(s) == |s|
    ensures 0 <= ScalarOf(s) < 0x11_0000 && !(0xD800 <= ScalarOf(s) <= 0xDFFF)
    ensures EncodeScalar(ScalarOf(s)) == s
  {
    if |s| == 1 {
      assert s == [s[0]];
    } else if |s| == 2 {
      assert s == [s[0], s[1]];
    } else if |s| == 3 {
      ThreeBytes(s);
    } else {
      FourBytes(s);
    }
  }

  lemma ThreeBytes(s: bytes)
    requires |s| == 3 && LeadWidth(s) == 3
    ensures 0x800 <= ScalarOf(s) < 0x1_0000 && !(0xD800 <= ScalarOf(s) <= 0xDFFF)
    ensures EncodeScalar(ScalarOf(s)) == s
  {
    var a, b, d, c := Unit(s, 0, 0xE0), Unit(s, 1, 0x80), Unit(s, 2, 0x80), ScalarOf(s);
    assert c == a * 4096 + b * 64 + d;
    SplitThree(c, a, b, d);
    assert s == [s[0], s[1], s[2]];
  }

  lemma FourBytes(s: bytes)
    requires |s| == 4 && LeadWidth(s) == 4
    ensures 0x1_0000 <= ScalarOf(s) < 0x11_0000 && EncodeScalar(ScalarOf(s)) == s
  {
    var a, b, d, e, c := Unit(s, 0, 0xF0), Unit(s, 1, 0x80), Unit(s, 2, 0x80), Unit(s, 3, 0x80), ScalarOf(s);
    assert c == (a * 64 + b) * 4096 + d * 64 + e;
    SplitThree(c, a * 64 + b, d, e);
    assert c / 262144 == a && c / 4096 % 64 == b;
    assert s == [s[0], s[1], s[2], s[3]];
  }

  lemma SplitThree(c: nat, a: nat, b: nat, d: nat)
    requires c == a * 4096 + b * 64 + d && b < 64 && d < 64
    ensures c / 4096 == a && c / 64 % 64 == b && c % 64 == d
  {
    var n := a * 64 + b;
    LowestOf(c, n, d);
    LowestOf(n, a, b);
    assert c == 4096 * a + (b * 64 + d);
  }

  lemma LowestOf(c: nat, q: nat, r: nat)
    requires c == q * 64 + r && r < 64
    ensures c / 64 == q && c % 64 == r
  {
  }

  lemma EncodingIsValid(c: nat)
    requires c < 0x11_0000 && !(0xD800 <= c <= 0xDFFF)
    ensures ValidUtf8(EncodeScalar(c))
  {
    hide LeadWidth; hide EncodeScalar; hide ScalarOf;
    ScalarRoundTrip(c);
    var s := EncodeScalar(c);
    assert s[|s|..] == [];
  }

  // ----- escapes of scalar values (section 7 of RFC 8259) -----

  function Quad(n: nat): bytes
    requires n < 0x1_0000
  {
    [Numerals.DigitChar(n / 4096), Numerals.DigitChar(n / 256 % 16), Numerals.DigitChar(n / 16 % 16),
        Numerals.DigitChar(n % 16)]
  }

  /** A scalar value after its escape's `u`: itself, or a surrogate pair. */
  function UnicodeText(c: nat): bytes
    requires c < 0x11_0000
  {
    if c < 0x1_0000 then Quad(c)
    else Quad(0xD800 + (c - 0x1_0000) / 1024) + ("\\u" + Quad(0xDC00 + (c - 0x1_0000) % 1024))
  }

  lemma QuadReads(s: bytes, p: nat, n: nat)
    requires n < 0x1_0000 && MatchAt(s, Quad(n), p)
    ensures Hex4(s, p, 4, 0) == Ok((n, p + 4))
  {
    hide Numerals.DigitChar; hide Hex4;
    var t := s[p..p + 4];
    assert t == Quad(n) && s[p] == t[0] && s[p + 1] == t[1] && s[p + 2] == t[2] && s[p + 3] == t[3];
    Nibbles(n);
    HexStep(s, p, 4, 0, n / 4096);
    HexStep(s, p + 1, 3, n / 4096, n / 256 % 16);
    HexStep(s, p + 2, 2, n / 256, n / 16 % 16);
    HexStep(s, p + 3, 1, n / 16, n % 16);
    HexEnd(s, p + 4, n);
  }

  lemma Nibbles(n: nat)
    ensures n / 4096 * 16 + n / 256 % 16 == n / 256
    ensures n / 256 * 16 + n / 16 % 16 == n / 16
    ensures n / 16 * 16 + n % 16 == n
  {
    LowestNibble(n / 16);
    LowestNibble(n / 256);
    LowestByte(n);
    LastTwelveBits(n);
  }

  lemma LowestNibble(q: nat)
    ensures q == q / 16 * 16 + q % 16
  {
  }

  lemma LowestByte(n: nat)
    ensures n / 16 / 16 == n / 256
  {
    var q := n / 16;
    assert n == 256 * (q / 16) + (16 * (q % 16) + n % 16);
  }

  lemma LastTwelveBits(n: nat)
    ensures n / 256 / 16 == n / 4096
  {
    var q := n / 256;
    assert n == 4096 * (q / 16) + (256 * (q % 16) + n % 256);
  }

  lemma HexStep(s: bytes, p: nat, n: nat, value: nat, digit: nat)
    requires p < |s| && 1 <= n <= 4 && digit < 16 && s[p] == Numerals.DigitChar(digit)
    ensures Hex4(s, p, n, value) == Hex4(s, p + 1, n - 1, value * 16 + digit)
  {
  }

  lemma HexEnd(s: bytes, p: nat, value: nat)
    requires p <= |s|
    ensures Hex4(s, p, 0, value) == Ok((value, p))
  {
  }

  /** The escape of every scalar value reads as its UTF-8 bytes, a surrogate pair
      as one character. */
  lemma ScalarEscapeReads(s: bytes, p: nat, c: nat)
    requires c < 0x11_0000 && !(0xD800 <= c <= 0xDFFF) && MatchAt(s, "\\u" + UnicodeText(c), p)
    ensures StringStep(s, p) == Ok((Some(EncodeScalar(c)), p + 2 + |UnicodeText(c)|))
  {
    hide Hex4; hide EncodeScalar; hide Quad; hide ValidUtf8;
    MatchConcat(s, "\\u", UnicodeText(c), p);
    BackslashU(s, p);
    if c < 0x1_0000 {
      QuadReads(s, p + 2, c);
      QuadLength(c);
    } else {
      var d := c - 0x1_0000;
      var high, low := 0xD800 + d / 1024, 0xDC00 + d % 1024;
      MatchConcat(s, Quad(high), "\\u" + Quad(low), p + 2);
      MatchConcat(s, "\\u", Quad(low), p + 2 + |Quad(high)|);
      QuadReads(s, p + 2, high);
      QuadLength(high);
      QuadLength(low);
      BackslashU(s, p + 6);
      QuadReads(s, p + 8, low);
      assert 0x10000 + (high - 0xD800) * 1024 + (low - 0xDC00) == c;
    }
  }

  lemma QuadLength(n: nat)
    requires n < 0x1_0000
    ensures |Quad(n)| == 4
  {
  }

  lemma BackslashU(s: bytes, p: nat)
    requires MatchAt(s, "\\u", p)
    ensures p + 2 <= |s| && s[p] == '\\' && s[p + 1] == 'u'
  {
    assert s[p..p + 2][0] == s[p] && s[p..p + 2][1] == s[p + 1];
  }

  /** A lone surrogate, or a high one with a wrong partner, is refused. */
  lemma LoneSurrogateIsRefused(s: bytes, p: nat, n: nat)
    requires 0xD800 <= n <= 0xDFFF && MatchAt(s, "\\u" + Quad(n), p)
    requires 0xDC00 <= n || !MatchAt(s, "\\u", p + 6)
    ensures StringStep(s, p).Err? && StringStep(s, p).error.kind == InvalidUnicode
  {
    hide Hex4; hide EncodeScalar; hide Quad; hide ValidUtf8;
    MatchConcat(s, "\\u", Quad(n), p);
    BackslashU(s, p);
    QuadReads(s, p + 2, n);
    if n < 0xDC00 && p + 8 <= |s| {
      assert s[p + 6..p + 8] == [s[p + 6], s[p + 7]];
    }
  }
}
