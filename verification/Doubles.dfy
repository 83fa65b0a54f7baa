/** What a JSON integer becomes on its way through a double. */
module Doubles {
  import opened Bytes
  import opened Numerals
  import opened Json

  const EXACT: nat := 0x20_0000_0000_0000
  const TWO_TO_THE_64: nat := 0x1_0000_0000_0000_0000

  /** The multiple of `unit` nearest to `n`, an even multiple in case of a tie. */
  function Nearest(n: nat, unit: nat): nat
    requires unit >= 1
  {
    var q, r := n / unit, n % unit;
    if 2 * r < unit || (2 * r == unit && q % 2 == 0) then q * unit else (q + 1) * unit
  }

  /** The double nearest to an integer: 53 significant bits, ties to even. */
  function RoundFrom(n: nat, unit: nat): nat
    requires unit >= 1
    decreases if n < EXACT * unit then 0 else n - unit
  {
    if n < EXACT * unit then Nearest(n, unit) else RoundFrom(n, 2 * unit)
  }

  function Rounded(n: nat): nat {
    RoundFrom(n, 1)
  }

  /** The source's conversion to `u64`: in range up to 2^64 as a double, truncated
      with saturation, and accepted if converting back gives the same double. */
  function DoubleToU64(double: nat): Option<nat> {
    if double > TWO_TO_THE_64 then None
    else
      var truncated := if double <= U64_MAX then double else U64_MAX;
      if Rounded(truncated) == double then Some(truncated) else None
  }

  /** The integer that an accessor reads from a number. Numerals other than plain
      digits are read by `other`, of which nothing is assumed. */
  function AsU64(v: JsonValue, other: bytes -> Option<nat>): Option<nat> {
    match v
    case Number(text) => if AllDigits(text) then DoubleToU64(Rounded(Value(text, 10))) else other(text)
    case _ => None
  }

  /** Numbers that survive being written in decimal and read as a double. */
  predicate Survives(n: nat) {
    Rounded(n) == n || n == U64_MAX
  }

  lemma SmallIsExact(n: nat)
    requires n < EXACT
    ensures Rounded(n) == n
  {
    assert n / 1 == n && n % 1 == 0;
  }

  lemma MaximumRoundsUp()
    ensures Rounded(U64_MAX) == TWO_TO_THE_64
  {
    assert RoundFrom(U64_MAX, 1) == RoundFrom(U64_MAX, 2) == RoundFrom(U64_MAX, 4);
    assert RoundFrom(U64_MAX, 4) == RoundFrom(U64_MAX, 8) == RoundFrom(U64_MAX, 16);
    assert RoundFrom(U64_MAX, 16) == RoundFrom(U64_MAX, 32) == RoundFrom(U64_MAX, 64);
    assert RoundFrom(U64_MAX, 64) == RoundFrom(U64_MAX, 128) == RoundFrom(U64_MAX, 256);
    assert RoundFrom(U64_MAX, 256) == RoundFrom(U64_MAX, 512) == RoundFrom(U64_MAX, 1024);
    assert RoundFrom(U64_MAX, 1024) == RoundFrom(U64_MAX, 2048) == Nearest(U64_MAX, 2048);
  }

  /** An integer field reads back as itself exactly when it survives. */
  lemma IntegerSurvives(n: nat, other: bytes -> Option<nat>)
    requires n <= U64_MAX
    ensures AsU64(Number(Dec(n)), other) == Some(n) <==> Survives(n)
  {
    hide RoundFrom; hide Print;
    ValueOfPrint(n, 10);
    MaximumRoundsUp();
  }

  /** Above 2^53 not every integer survives. */
  lemma FirstLoss()
    ensures Rounded(EXACT + 1) == EXACT
  {
    assert RoundFrom(EXACT + 1, 1) == RoundFrom(EXACT + 1, 2) == Nearest(EXACT + 1, 2);
  }
}
