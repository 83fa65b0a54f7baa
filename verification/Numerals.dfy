/** Decimal and hexadecimal numerals, printed and read back. */
module Numerals {
  import opened Bytes
  import Ascii

  const U32_MAX: nat := 0xFFFF_FFFF
  const U64_MAX: nat := 0xFFFF_FFFF_FFFF_FFFF
  const I64_MAX: nat := 0x7FFF_FFFF_FFFF_FFFF

  // ----- digits of a base -----

  type Base = b: nat | b == 10 || b == 16 witness 10

  /** `v` followed by one more digit. */
  function Shifted(v: nat, base: Base, digit: nat): (r: nat)
    ensures r >= v
  {
    if base == 10 then v * 10 + digit else v * 16 + digit
  }

  function Upper(n: nat, base: Base): nat {
    if base == 10 then n / 10 else n / 16
  }

  function Last(n: nat, base: Base): (d: nat)
    ensures d < base && Shifted(Upper(n, base), base, d) == n
    ensures n >= base ==> 0 < Upper(n, base) < n
  {
    if base == 10 then n % 10 else n % 16
  }

  predicate IsHexDigit(c: byte) {
    Ascii.IsDigit(c) || 'a' <= c <= 'f' || 'A' <= c <= 'F'
  }

  function HexDigitValue(c: byte): (v: nat)
    requires IsHexDigit(c)
    ensures v < 16 && (Ascii.IsDigit(c) ==> v < 10)
  {
    if Ascii.IsDigit(c) then c as int - '0' as int
    else if 'a' <= c <= 'f' then c as int - 'a' as int + 10
    else c as int - 'A' as int + 10
  }

  /** The digits of either case, in their order. */
  lemma HexDigitsAre(c: byte)
    ensures IsHexDigit(c) <==> c in "0123456789abcdefABCDEF"
    ensures IsHexDigit(c) ==>
              c == "0123456789abcdef"[HexDigitValue(c)] || c == "0123456789ABCDEF"[HexDigitValue(c)]
  {
  }

  /** The digit printed by lower-case formatting. */
  function DigitChar(d: nat): (c: byte)
    requires d < 16
    ensures IsHexDigit(c) && HexDigitValue(c) == d && (d < 10 ==> Ascii.IsDigit(c))
  {
    if d < 10 then (d + '0' as int) as char else (d - 10 + 'a' as int) as char
  }

  predicate AllDigits(s: bytes) {
    forall i :: 0 <= i < |s| ==> Ascii.IsDigit(s[i])
  }

  predicate AllHex(s: bytes) {
    forall i :: 0 <= i < |s| ==> IsHexDigit(s[i])
  }

  /** The number that the digits spell in base 10 or 16. */
  function Value(s: bytes, base: Base): nat
    requires AllHex(s)
  {
    if s == [] then 0 else Shifted(Value(s[..|s| - 1], base), base, HexDigitValue(s[|s| - 1]))
  }

  /** The shortest numeral of `n`. */
  function Print(n: nat, base: Base): (s: bytes)
    ensures s != [] && AllHex(s) && (base == 10 ==> AllDigits(s))
    decreases n
  {
    if n < base then [DigitChar(n)]
    else
      var d := Last(n, base);
      Print(Upper(n, base), base) + [DigitChar(d)]
  }

  function Dec(n: nat): bytes {
    Print(n, 10)
  }

  function Hex(n: nat): bytes {
    Print(n, 16)
  }

  function Zeros(k: nat): (s: bytes)
    ensures |s| == k && AllDigits(s) && forall i :: 0 <= i < k ==> s[i] == '0'
  {
    seq(k, _ => '0')
  }

  /** `n` in decimal, zero-padded on the left to at least `width` digits. */
  function Padded(n: nat, width: nat): (s: bytes)
    ensures s != [] && AllDigits(s) && |s| >= width
  {
    var d := Dec(n);
    if |d| < width then Zeros(width - |d|) + d else d
  }

  /** Reading a printed numeral gives the number back. */
  lemma {:induction false} ValueOfPrint(n: nat, base: Base)
    ensures Value(Print(n, base), base) == n
    decreases n
  {
    if n >= base {
      var s, d := Print(n, base), Last(n, base);
      assert s[..|s| - 1] == Print(Upper(n, base), base);
      ValueOfPrint(Upper(n, base), base);
    }
  }

  lemma {:induction false} ValueOfZeros(k: nat, s: bytes, base: Base)
    requires AllHex(s)
    ensures Value(Zeros(k) + s, base) == Value(s, base)
    decreases k + |s|
  {
    var t := Zeros(k) + s;
    if s != [] {
      assert t[..|t| - 1] == Zeros(k) + s[..|s| - 1];
      ValueOfZeros(k, s[..|s| - 1], base);
    } else if k > 0 {
      assert t == Zeros(k) && t[..k - 1] == Zeros(k - 1) + [];
      ValueOfZeros(k - 1, [], base);
    } else {
      assert t == [];
    }
  }

  lemma ValueOfPadded(n: nat, width: nat)
    ensures Value(Padded(n, width), 10) == n
  {
    hide Value; hide Print;
    ValueOfPrint(n, 10);
    if |Dec(n)| < width {
      ValueOfZeros(width - |Dec(n)|, Dec(n), 10);
    }
  }

  /** A longer numeral spells at least the number of its prefix. */
  lemma {:induction false} ValueGrows(s: bytes, k: nat, base: Base)
    requires AllHex(s) && k <= |s|
    ensures Value(s[..k], base) <= Value(s, base)
    decreases |s|
  {
    if k < |s| {
      ValueGrows(s[..|s| - 1], k, base);
      assert s[..|s| - 1][..k] == s[..k];
    } else {
      assert s[..k] == s;
    }
  }

  // ----- integer parsing of the standard library -----

  /** `u64`/`usize` parsing: an optional plus sign, then digits that fit. */
  function ParseU64(s: bytes): Option<nat> {
    var digits := if s != [] && s[0] == '+' then s[1..] else s;
    if digits != [] && AllDigits(digits) && Value(digits, 10) <= U64_MAX then Some(Value(digits, 10)) else None
  }

  /** `i64` parsing: an optional sign, then digits that fit. */
  function ParseI64(s: bytes): Option<int> {
    if s != [] && s[0] == '-' then
      var digits := s[1..];
      if digits != [] && AllDigits(digits) && Value(digits, 10) <= I64_MAX + 1
          then Some(-(Value(digits, 10) as int)) else None
    else
      match ParseU64(s)
      case Some(v) => if v <= I64_MAX then Some(v) else None
      case None => None
  }

  /** Padded decimals read back as the number, signed or not. */
  lemma ParsePadded(n: nat, width: nat)
    ensures ParseU64(Padded(n, width)) == if n <= U64_MAX then Some(n) else None
    ensures ParseI64(Padded(n, width)) == if n <= I64_MAX then Some(n) else None
  {
    var s := Padded(n, width);
    assert Ascii.IsDigit(s[0]);
    ValueOfPadded(n, width);
  }

  /** Digits are leading zeros and the numeral of their value. */
  lemma {:induction false} DigitsSpell(s: bytes) returns (zeros: nat)
    requires s != [] && AllDigits(s)
    ensures s == Zeros(zeros) + Dec(Value(s, 10))
    decreases |s|
  {
    var front, d := s[..|s| - 1], HexDigitValue(s[|s| - 1]);
    var v := Value(front, 10);
    assert s == front + [DigitChar(d)];
    if front == [] {
      zeros := 0;
      assert Value(s, 10) == d;
    } else {
      var z := DigitsSpell(front);
      assert Value(s, 10) == v * 10 + d;
      if v == 0 {
        zeros := z + 1;
        assert Dec(0) == "0" && Zeros(z) + "0" == Zeros(z + 1);
      } else {
        zeros := z;
        assert Dec(v * 10 + d) == Dec(v) + [DigitChar(d)] by { NextDigit(v, d); }
      }
    }
  }

  lemma NextDigit(v: nat, d: nat)
    requires v > 0 && d < 10
    ensures Dec(v * 10 + d) == Dec(v) + [DigitChar(d)]
  {
    assert (v * 10 + d) / 10 == v && (v * 10 + d) % 10 == d;
  }

  lemma NumeralValue(zeros: nat, n: nat)
    ensures AllDigits(Zeros(zeros) + Dec(n)) && Value(Zeros(zeros) + Dec(n), 10) == n
  {
    hide Print; hide Value;
    ValueOfPrint(n, 10);
    ValueOfZeros(zeros, Dec(n), 10);
  }

  /** A numeral with leading zeros and perhaps a sign. */
  function Signed(sign: bytes, zeros: nat, n: nat): bytes {
    sign + (Zeros(zeros) + Dec(n))
  }

  ghost predicate SpellsSigned(s: bytes, signs: seq<bytes>, n: nat) {
    exists sign, zeros :: sign in signs && s == Signed(sign, zeros, n)
  }

  lemma SignedParts(sign: bytes, zeros: nat, n: nat)
    requires |sign| == 1
    ensures var s := Signed(sign, zeros, n); s != [] && s[0] == sign[0] && s[1..] == Zeros(zeros) + Dec(n)
  {
    hide Print;
  }

  /** What parses as an unsigned number: digits that fit, with any leading zeros and
      perhaps a plus. */
  lemma ParsesExactlyU64(s: bytes, n: nat)
    ensures ParseU64(s) == Some(n) <==>
            n <= U64_MAX && SpellsSigned(s, ["", "+"], n)
  {
    hide Value; hide Print; hide Zeros;
    if ParseU64(s) == Some(n) {
      var sign := if s[0] == '+' then "+" else "";
      var zeros := DigitsSpell(if s[0] == '+' then s[1..] else s);
      assert s == Signed(sign, zeros, n);
    }
    if n <= U64_MAX && SpellsSigned(s, ["", "+"], n) {
      var sign, zeros :| sign in ["", "+"] && s == Signed(sign, zeros, n);
      NumeralValue(zeros, n);
      if sign == "+" {
        SignedParts(sign, zeros, n);
      } else {
        assert s == Zeros(zeros) + Dec(n);
        assert Ascii.IsDigit(s[0]);
      }
    }
  }

  /** The same for a signed number, whose magnitude may follow a minus. */
  lemma ParsesExactlyI64(s: bytes, n: int)
    ensures ParseI64(s) == Some(n) <==>
            || (0 <= n <= I64_MAX && SpellsSigned(s, ["", "+"], n))
            || (-1 - (I64_MAX as int) <= n <= 0 && SpellsSigned(s, ["-"], -n))
  {
    hide Value; hide Print; hide Zeros; hide ParseU64;
    if n >= 0 {
      ParsesExactlyU64(s, n);
      if SpellsSigned(s, ["", "+"], n) {
        var sign, zeros :| sign in ["", "+"] && s == Signed(sign, zeros, n);
        NumeralValue(zeros, n);
        assert s[0] != '-';
      }
    }
    if n <= 0 && SpellsSigned(s, ["-"], -n) {
      var sign, zeros :| sign in ["-"] && s == Signed(sign, zeros, -n);
      NumeralValue(zeros, -n);
      SignedParts("-", zeros, -n);
    }
    if ParseI64(s) == Some(n) && s != [] && s[0] == '-' {
      var zeros := DigitsSpell(s[1..]);
      assert s == ['-'] + s[1..];
      assert s == Signed("-", zeros, -n);
    }
  }

  function SaturatedU32(s: bytes): nat
    requires AllDigits(s)
  {
    if Value(s, 10) <= U32_MAX then Value(s, 10) else U32_MAX
  }

  /** Saturating at every digit is saturating once at the end. */
  method AsciiToU32Saturating(s: bytes) returns (value: nat)
    requires AllDigits(s)
    ensures value == SaturatedU32(s)
  {
    value := 0;
    for i := 0 to |s|
      invariant value == SaturatedU32(s[..i])
    {
      assert s[..i + 1][..i] == s[..i];
      var scaled := if value * 10 > U32_MAX then U32_MAX else value * 10;
      var digit := HexDigitValue(s[i]);
      value := if scaled + digit > U32_MAX then U32_MAX else scaled + digit;
    }
    assert s[..|s|] == s;
  }
}
