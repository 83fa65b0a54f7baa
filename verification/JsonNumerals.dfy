/** JSON numbers as they may be written, and the parser as the reading of exactly
    those (section 6 of RFC 8259, with leading zeros besides). */
module JsonNumerals {
  import opened Bytes
  import opened Ascii
  import Numerals
  import opened Json

  datatype Exponent = Exponent(mark: byte, sign: bytes, digits: bytes)

  datatype Numeral = Numeral(negative: bool, whole: bytes, fraction: Option<bytes>, exponent: Option<Exponent>)

  predicate IsRun(digits: bytes) {
    digits != [] && Numerals.AllDigits(digits)
  }

  predicate IsExponent(e: Exponent) {
    (e.mark == 'e' || e.mark == 'E') && e.sign in ["", "+", "-"] && IsRun(e.digits)
  }

  predicate IsNumeral(n: Numeral) {
    && IsRun(n.whole)
    && (n.fraction.Some? ==> IsRun(n.fraction.value))
    && (n.exponent.Some? ==> IsExponent(n.exponent.value))
  }

  function SignText(n: Numeral): bytes {
    if n.negative then "-" else ""
  }

  function FractionText(n: Numeral): bytes {
    match n.fraction case None => "" case Some(digits) => "." + digits
  }

  function ExponentText(n: Numeral): bytes {
    match n.exponent case None => "" case Some(e) => [e.mark] + (e.sign + e.digits)
  }

  function NumeralText(n: Numeral): bytes {
    SignText(n) + (n.whole + (FractionText(n) + ExponentText(n)))
  }

  /** What cannot continue a number. */
  predicate EndsNumber(s: bytes, p: nat) {
    p < |s| ==> !IsDigit(s[p]) && s[p] != '.' && s[p] != 'e' && s[p] != 'E'
  }

  // ----- every numeral reads -----

  lemma {:induction false} RunReads(s: bytes, p: nat, digits: bytes)
    requires Numerals.AllDigits(digits) && MatchAt(s, digits, p)
    requires p + |digits| < |s| ==> !IsDigit(s[p + |digits|])
    ensures DigitsEnd(s, p) == p + |digits|
    decreases |digits|
  {
    if digits != [] {
      assert s[p] == s[p..p + |digits|][0];
      assert s[p + 1..p + 1 + |digits[1..]|] == s[p..p + |digits|][1..];
      RunReads(s, p + 1, digits[1..]);
    }
  }

  /** The parts of a number in their places. */
  lemma NumeralStands(s: bytes, p: nat, n: Numeral)
    requires MatchAt(s, NumeralText(n), p)
    ensures var w := p + |SignText(n)|; var f := w + |n.whole|; var e := f + |FractionText(n)|;
            && MatchAt(s, SignText(n), p) && MatchAt(s, n.whole, w) && MatchAt(s, FractionText(n), f)
            && MatchAt(s, ExponentText(n), e) && e + |ExponentText(n)| == p + |NumeralText(n)| <= |s|
  {
    hide MatchAt; hide SignText; hide FractionText; hide ExponentText;
    var w := p + |SignText(n)|;
    MatchConcat(s, SignText(n), n.whole + (FractionText(n) + ExponentText(n)), p);
    MatchConcat(s, n.whole, FractionText(n) + ExponentText(n), w);
    MatchConcat(s, FractionText(n), ExponentText(n), w + |n.whole|);
    MatchFits(s, NumeralText(n), p);
  }

  lemma CharAt(s: bytes, p: nat, text: bytes, i: nat)
    requires MatchAt(s, text, p) && i < |text|
    ensures p + i < |s| && s[p + i] == text[i]
  {
    assert s[p..p + |text|][i] == s[p + i];
  }

  lemma SignReads(s: bytes, p: nat, n: Numeral)
    requires IsNumeral(n) && MatchAt(s, SignText(n), p) && MatchAt(s, n.whole, p + |SignText(n)|)
    ensures At(s, p, '-') <==> n.negative
  {
    CharAt(s, p + |SignText(n)|, n.whole, 0);
    if n.negative {
      CharAt(s, p, "-", 0);
    }
  }

  lemma FractionReads(s: bytes, p: nat, n: Numeral)
    requires p <= |s| && IsNumeral(n) && MatchAt(s, FractionText(n), p)
    requires var q := p + |FractionText(n)|; q < |s| ==> !IsDigit(s[q]) && s[q] != '.'
    ensures FractionAt(s, p) == Ok(((), p + |FractionText(n)|))
  {
    hide FractionAt; hide IsRun; hide MatchAt;
    if n.fraction.Some? {
      var digits := n.fraction.value;
      MatchConcat(s, ".", digits, p);
      CharAt(s, p, ".", 0);
      PointReads(s, p, digits);
    } else {
      NoFraction(s, p);
    }
  }

  lemma PointReads(s: bytes, p: nat, digits: bytes)
    requires At(s, p, '.') && IsRun(digits) && MatchAt(s, digits, p + 1)
    requires var q := p + 1 + |digits|; q < |s| ==> !IsDigit(s[q])
    ensures FractionAt(s, p) == Ok(((), p + 1 + |digits|))
  {
    hide DigitsEnd; hide MatchAt; hide Numerals.AllDigits;
    RunReads(s, p + 1, digits);
  }

  lemma NoFraction(s: bytes, p: nat)
    requires p <= |s| && !At(s, p, '.')
    ensures FractionAt(s, p) == Ok(((), p))
  {
    hide Digits;
  }

  /** What stands where the digits or their sign are expected. */
  lemma ExponentSign(s: bytes, p: nat, e: Exponent)
    requires IsExponent(e) && MatchAt(s, e.sign, p) && MatchAt(s, e.digits, p + |e.sign|)
    ensures |e.sign| == if At(s, p, '+') || At(s, p, '-') then 1 else 0
  {
    hide MatchAt; hide Numerals.AllDigits;
    CharAt(s, p + |e.sign|, e.digits, 0);
    FirstIsDigit(e.digits);
    if e.sign != "" {
      CharAt(s, p, e.sign, 0);
    }
  }

  lemma MarkReads(s: bytes, p: nat, e: Exponent)
    requires IsExponent(e) && At(s, p, e.mark) && MatchAt(s, e.sign, p + 1) && MatchAt(s, e.digits, p + 1 + |e.sign|)
    requires var q := p + 1 + |e.sign| + |e.digits|; q < |s| ==> !IsDigit(s[q])
    ensures ExponentAt(s, p) == Ok(((), p + 1 + |e.sign| + |e.digits|))
  {
    hide DigitsEnd; hide MatchAt; hide Numerals.AllDigits;
    ExponentSign(s, p + 1, e);
    MatchFits(s, e.digits, p + 1 + |e.sign|);
    RunReads(s, p + 1 + |e.sign|, e.digits);
  }

  lemma ExponentReads(s: bytes, p: nat, n: Numeral)
    requires p <= |s| && IsNumeral(n) && MatchAt(s, ExponentText(n), p) && EndsNumber(s, p + |ExponentText(n)|)
    ensures ExponentAt(s, p) == Ok(((), p + |ExponentText(n)|))
  {
    hide ExponentAt; hide IsExponent; hide IsRun; hide MatchAt;
    if n.exponent.Some? {
      var e := n.exponent.value;
      MatchConcat(s, [e.mark], e.sign + e.digits, p);
      MatchConcat(s, e.sign, e.digits, p + 1);
      CharAt(s, p, [e.mark], 0);
      MarkReads(s, p, e);
    } else {
      NoExponent(s, p);
    }
  }

  lemma NoExponent(s: bytes, p: nat)
    requires p <= |s| && !At(s, p, 'e') && !At(s, p, 'E')
    ensures ExponentAt(s, p) == Ok(((), p))
  {
    hide Digits;
  }

  lemma FirstIsDigit(digits: bytes)
    requires IsRun(digits)
    ensures IsDigit(digits[0])
  {
  }

  /** Every written number reads as its text. */
  lemma NumeralReads(s: bytes, p: nat, n: Numeral)
    requires IsNumeral(n) && MatchAt(s, NumeralText(n), p) && EndsNumber(s, p + |NumeralText(n)|)
    ensures NumberAt(s, p) == Ok((Number(NumeralText(n)), p + |NumeralText(n)|))
  {
    hide DigitsEnd; hide SignText; hide FractionText; hide ExponentText; hide IsExponent; hide FractionAt;
    hide ExponentAt;
    hide NumeralText;
    NumeralStands(s, p, n);
    var w := p + |SignText(n)|;
    var f := w + |n.whole|;
    var e := f + |FractionText(n)|;
    SignReads(s, p, n);
    SignLength(n);
    ExponentStarts(s, e, n);
    ExponentReads(s, e, n);
    FractionReads(s, f, n);
    FractionStarts(s, f, n);
    RunReads(s, w, n.whole);
  }

  lemma SignLength(n: Numeral)
    ensures |SignText(n)| == if n.negative then 1 else 0
  {
  }

  lemma ExponentStarts(s: bytes, e: nat, n: Numeral)
    requires IsNumeral(n) && MatchAt(s, ExponentText(n), e) && EndsNumber(s, e + |ExponentText(n)|)
    ensures e < |s| ==> !IsDigit(s[e]) && s[e] != '.'
  {
    if n.exponent.Some? {
      CharAt(s, e, ExponentText(n), 0);
    }
  }

  lemma FractionStarts(s: bytes, f: nat, n: Numeral)
    requires IsNumeral(n) && MatchAt(s, FractionText(n), f)
    requires var e := f + |FractionText(n)|; e < |s| ==> !IsDigit(s[e])
    ensures f < |s| ==> !IsDigit(s[f])
  {
    if n.fraction.Some? {
      CharAt(s, f, FractionText(n), 0);
    }
  }

  // ----- everything read is a numeral -----

  lemma {:induction false} RunParses(s: bytes, p: nat)
    requires p <= |s|
    ensures Numerals.AllDigits(s[p..DigitsEnd(s, p)])
    decreases |s| - p
  {
    if p < |s| && IsDigit(s[p]) {
      RunParses(s, p + 1);
      var q := DigitsEnd(s, p);
      assert s[p..q] == [s[p]] + s[p + 1..q];
    }
  }

  lemma DigitsParse(s: bytes, p: nat)
    requires p <= |s| && Digits(s, p).Ok?
    ensures IsRun(s[p..Digits(s, p).value.1])
  {
    hide DigitsEnd;
    RunParses(s, p);
  }

  lemma Cut(s: bytes, a: nat, b: nat, c: nat)
    requires a <= b <= c <= |s|
    ensures s[a..c] == s[a..b] + s[b..c]
  {
  }

  lemma FractionParses(s: bytes, p: nat) returns (fraction: Option<bytes>)
    requires p <= |s| && FractionAt(s, p).Ok?
    ensures fraction.Some? ==> IsRun(fraction.value)
    ensures s[p..FractionAt(s, p).value.1] == match fraction case None => "" case Some(digits) => "." + digits
  {
    hide Digits; hide IsRun;
    if At(s, p, '.') {
      DigitsParse(s, p + 1);
      var q := Digits(s, p + 1).value.1;
      fraction := Some(s[p + 1..q]);
      Cut(s, p, p + 1, q);
      assert s[p..p + 1] == ".";
    } else {
      fraction := None;
    }
  }

  lemma ExponentParses(s: bytes, p: nat) returns (exponent: Option<Exponent>)
    requires p <= |s| && ExponentAt(s, p).Ok?
    ensures exponent.Some? ==> IsExponent(exponent.value)
    ensures s[p..ExponentAt(s, p).value.1] ==
            match exponent case None => "" case Some(e) => [e.mark] + (e.sign + e.digits)
  {
    hide Digits; hide IsRun;
    if At(s, p, 'e') || At(s, p, 'E') {
      var d := if At(s, p + 1, '+') || At(s, p + 1, '-') then p + 2 else p + 1;
      DigitsParse(s, d);
      var q := Digits(s, d).value.1;
      exponent := Some(Exponent(s[p], s[p + 1..d], s[d..q]));
      SignIsOne(s, p, d);
      Cut(s, p, p + 1, q);
      Cut(s, p + 1, d, q);
      assert s[p..p + 1] == [s[p]];
    } else {
      exponent := None;
    }
  }

  /** Whatever number is read is written there. */
  lemma NumeralParses(s: bytes, p: nat) returns (n: Numeral)
    requires p <= |s| && NumberAt(s, p).Ok?
    ensures var (v, q) := NumberAt(s, p).value; IsNumeral(n) && s[p..q] == NumeralText(n) && v == Number(s[p..q])
  {
    hide Digits; hide IsRun; hide IsExponent; hide FractionAt; hide ExponentAt;
    var negative := At(s, p, '-');
    var w := if negative then p + 1 else p;
    DigitsParse(s, w);
    var f := Digits(s, w).value.1;
    var fraction := FractionParses(s, f);
    var e := FractionAt(s, f).value.1;
    var exponent := ExponentParses(s, e);
    var q := ExponentAt(s, e).value.1;
    n := Numeral(negative, s[w..f], fraction, exponent);
    Cut(s, p, w, q);
    Cut(s, w, f, q);
    Cut(s, f, e, q);
    assert s[p..w] == SignText(n);
  }

  lemma SignIsOne(s: bytes, e: nat, d: nat)
    requires e + 1 <= d <= e + 2 && d <= |s| && (d == e + 2 ==> s[e + 1] == '+' || s[e + 1] == '-')
    ensures s[e + 1..d] in ["", "+", "-"]
  {
    if d == e + 2 {
      assert s[e + 1..d] == [s[e + 1]];
    } else {
      assert s[e + 1..d] == "";
    }
  }
}
