/** The bitwise CRC-32 of the gzip trailer (section 2.3.1 of RFC 1952). */
module Crc32 {
  const POLYNOMIAL: bv32 := 0xEDB8_8320
  const START: bv32 := 0xFFFF_FFFF

  // Register operations, named so that proofs about many of them can treat them
  // as algebra rather than as bits.

  function Xor(a: bv32, b: bv32): bv32 {
    a ^ b
  }

  function Up(w: bv32): bv32 {
    w << 8
  }

  function Not(w: bv32): bv32 {
    !w
  }

  function Wide(byte: bv8): bv32 {
    byte as bv32
  }

  /** One bit step of the register. */
  function Step(crc: bv32): bv32 {
    var mask: bv32 := 0 - (crc & 1);
    (crc >> 1) ^ (POLYNOMIAL & mask)
  }

  function Steps(crc: bv32, n: nat): bv32
    decreases n
  {
    if n == 0 then crc else Steps(Step(crc), n - 1)
  }

  function Feed(crc: bv32, byte: bv8): bv32 {
    Steps(Xor(crc, Wide(byte)), 8)
  }

  /** The register after a string of bytes. */
  function Register(crc: bv32, data: seq<bv8>): bv32
    decreases |data|
  {
    if data == [] then crc else Register(Feed(crc, data[0]), data[1..])
  }

  function Crc(data: seq<bv8>): bv32 {
    Not(Register(START, data))
  }

  method Checksum(data: seq<bv8>) returns (r: bv32)
    ensures r == Crc(data)
  {
    hide Feed; hide Register; hide Not;
    var crc := START;
    for i := 0 to |data|
      invariant Register(crc, data[i..]) == Register(START, data)
    {
      RegisterUnfold(crc, data, i);
      crc := FeedByte(crc, data[i]);
    }
    assert data[|data|..] == [];
    RegisterOfNothing(crc);
    NotIs(crc);
    return !crc;
  }

  /** The bit loop of one byte. */
  method FeedByte(register: bv32, byte: bv8) returns (crc: bv32)
    ensures crc == Feed(register, byte)
  {
    hide Step; hide Steps; hide Xor; hide Wide;
    XorIs(register, byte);
    crc := register ^ (byte as bv32);
    for k := 0 to 8
      invariant Steps(crc, 8 - k) == Feed(register, byte)
    {
      StepsUnfold(crc, 8 - k);
      StepIs(crc);
      var mask: bv32 := 0 - (crc & 1);
      crc := (crc >> 1) ^ (POLYNOMIAL & mask);
    }
    StepsUnfold(crc, 0);
  }

  lemma XorIs(crc: bv32, byte: bv8)
    ensures Xor(crc, Wide(byte)) == crc ^ (byte as bv32)
  {
  }

  lemma NotIs(crc: bv32)
    ensures Not(crc) == !crc
  {
  }

  lemma StepIs(crc: bv32)
    ensures Step(crc) == (crc >> 1) ^ (POLYNOMIAL & (0 - (crc & 1)))
  {
  }

  lemma StepsUnfold(crc: bv32, n: nat)
    ensures Steps(crc, n) == if n == 0 then crc else Steps(Step(crc), n - 1)
  {
    hide Step;
  }

  lemma RegisterOfNothing(crc: bv32)
    ensures Register(crc, []) == crc
  {
  }

  lemma RegisterUnfold(crc: bv32, data: seq<bv8>, i: nat)
    requires i < |data|
    ensures Register(crc, data[i..]) == Register(Feed(crc, data[i]), data[i + 1..])
  {
    hide Feed;
    assert data[i..][1..] == data[i + 1..];
  }

  // ----- one step is linear and loses nothing -----

  lemma StepInjective(a: bv32, b: bv32)
    requires Step(a) == Step(b)
    ensures a == b
  {
  }

  lemma StepLinear(a: bv32, b: bv32)
    ensures Step(Xor(a, b)) == Xor(Step(a), Step(b))
  {
    hide Step;
    StepLinearInBits(a, b);
  }

  lemma StepLinearInBits(a: bv32, b: bv32)
    ensures Step(a ^ b) == Step(a) ^ Step(b)
  {
    MaskLinear(a, b);
    assert (a ^ b) >> 1 == (a >> 1) ^ (b >> 1);
  }

  lemma MaskLinear(a: bv32, b: bv32)
    ensures POLYNOMIAL & (0 - ((a ^ b) & 1)) == (POLYNOMIAL & (0 - (a & 1))) ^ (POLYNOMIAL & (0 - (b & 1)))
  {
  }

  lemma {:induction false} StepsInjective(a: bv32, b: bv32, n: nat)
    requires Steps(a, n) == Steps(b, n)
    ensures a == b
    decreases n
  {
    hide Step;
    if n > 0 {
      StepsInjective(Step(a), Step(b), n - 1);
      StepInjective(a, b);
    }
  }

  lemma {:induction false} StepsLinear(a: bv32, b: bv32, n: nat)
    ensures Steps(Xor(a, b), n) == Xor(Steps(a, n), Steps(b, n))
    decreases n
  {
    hide Step; hide Xor;
    if n > 0 {
      StepLinear(a, b);
      StepsLinear(Step(a), Step(b), n - 1);
    }
  }

  lemma {:induction false} StepsAdd(crc: bv32, m: nat, n: nat)
    ensures Steps(crc, m + n) == Steps(Steps(crc, m), n)
    decreases m
  {
    hide Step;
    if m > 0 {
      StepsAdd(Step(crc), m - 1, n);
    }
  }

  /** Eight steps bring a word from eight bits up back down, if it fits there. */
  lemma StepsOfUp(w: bv32)
    requires w <= 0xFF_FFFF
    ensures Steps(Up(w), 8) == w
  {
    hide Step; hide Steps; hide Up;
    EightSteps(Up(w));
    UpSteps(w);
  }

  lemma EightSteps(x: bv32)
    ensures Steps(x, 8) == Step(Step(Step(Step(Step(Step(Step(Step(x))))))))
  {
    hide Step;
    assert Steps(x, 8) == Steps(Step(Step(x)), 6);
    assert Steps(Step(Step(x)), 6) == Steps(Step(Step(Step(Step(x)))), 4);
    var y := Step(Step(Step(Step(x))));
    assert Steps(y, 4) == Steps(Step(Step(y)), 2);
  }

  lemma UpSteps(w: bv32)
    requires w <= 0xFF_FFFF
    ensures Step(Step(Step(Step(Step(Step(Step(Step(Up(w))))))))) == w
  {
  }

  // ----- up to four bytes are one word -----

  /** Bytes as a little-endian word. */
  function Word(b: seq<bv8>): bv32
    decreases |b|
  {
    if b == [] then 0 else Xor(Wide(b[0]), Up(Word(b[1..])))
  }

  lemma {:induction false} WordFits(b: seq<bv8>)
    requires |b| <= 3
    ensures |b| == 0 ==> Word(b) == 0
    ensures |b| == 1 ==> Word(b) <= 0xFF
    ensures |b| == 2 ==> Word(b) <= 0xFFFF
    ensures Word(b) <= 0xFF_FFFF
    decreases |b|
  {
    hide Xor; hide Up; hide Wide;
    if b != [] {
      WordFits(b[1..]);
      WordGrows(b[0], Word(b[1..]));
    }
  }

  lemma WordGrows(byte: bv8, w: bv32)
    ensures w == 0 ==> Xor(Wide(byte), Up(w)) <= 0xFF
    ensures w <= 0xFF ==> Xor(Wide(byte), Up(w)) <= 0xFFFF
    ensures w <= 0xFFFF ==> Xor(Wide(byte), Up(w)) <= 0xFF_FFFF
    ensures (0xFF as bv32) <= 0xFFFF <= 0xFF_FFFF
  {
  }

  lemma WordParts(a: bv8, b: bv8, v: bv32, w: bv32)
    requires v <= 0xFF_FFFF && w <= 0xFF_FFFF && Xor(Wide(a), Up(v)) == Xor(Wide(b), Up(w))
    ensures a == b && v == w
  {
  }

  /** A word determines its bytes. */
  lemma {:induction false} WordInjective(a: seq<bv8>, b: seq<bv8>)
    requires |a| == |b| <= 4 && Word(a) == Word(b)
    ensures a == b
    decreases |a|
  {
    hide Xor; hide Up; hide Wide;
    if a != [] {
      WordFits(a[1..]);
      WordFits(b[1..]);
      WordParts(a[0], b[0], Word(a[1..]), Word(b[1..]));
      WordInjective(a[1..], b[1..]);
      assert a == [a[0]] + a[1..] && b == [b[0]] + b[1..];
    }
  }

  lemma {:induction false} RegisterAppend(crc: bv32, a: seq<bv8>, b: seq<bv8>)
    ensures Register(crc, a + b) == Register(Register(crc, a), b)
    decreases |a|
  {
    hide Feed;
    if a == [] {
      assert a + b == b;
    } else {
      assert (a + b)[1..] == a[1..] + b;
      RegisterAppend(Feed(crc, a[0]), a[1..], b);
    }
  }

  /** What is fed after eight steps could have been fed eight bits up before them. */
  lemma FedEarlier(crc: bv32, later: bv32)
    requires later <= 0xFF_FFFF
    ensures Xor(Steps(crc, 8), later) == Steps(Xor(crc, Up(later)), 8)
  {
    hide Steps; hide Xor; hide Up;
    StepsLinear(crc, Up(later), 8);
    StepsOfUp(later);
  }

  lemma XorAssociates(a: bv32, b: bv32, c: bv32)
    ensures Xor(Xor(a, b), c) == Xor(a, Xor(b, c))
    ensures Xor(a, 0) == a
  {
  }

  /** Feeding up to four bytes is one xor with their word and eight steps a byte. */
  lemma {:induction false} RegisterIsWordSteps(crc: bv32, b: seq<bv8>)
    requires |b| <= 4
    ensures Register(crc, b) == Steps(Xor(crc, Word(b)), 8 * |b|)
    decreases |b|
  {
    hide Steps; hide Xor; hide Up; hide Wide;
    if b == [] {
      XorAssociates(crc, 0, 0);
      StepsUnfold(crc, 0);
    } else {
      var low, later := Wide(b[0]), Word(b[1..]);
      RegisterIsWordSteps(Feed(crc, b[0]), b[1..]);
      WordFits(b[1..]);
      FedEarlier(Xor(crc, low), later);
      XorAssociates(crc, low, Up(later));
      StepsAdd(Xor(crc, Word(b)), 8, 8 * |b[1..]|);
    }
  }

  // ----- bursts -----

  lemma {:induction false} RegisterInjective(a: bv32, b: bv32, data: seq<bv8>)
    requires Register(a, data) == Register(b, data)
    ensures a == b
    decreases |data|
  {
    hide Feed;
    if data != [] {
      RegisterInjective(Feed(a, data[0]), Feed(b, data[0]), data[1..]);
      FeedInjective(a, b, data[0]);
    }
  }

  lemma FeedInjective(a: bv32, b: bv32, byte: bv8)
    requires Feed(a, byte) == Feed(b, byte)
    ensures a == b
  {
    hide Steps; hide Xor; hide Wide;
    StepsInjective(Xor(a, Wide(byte)), Xor(b, Wide(byte)), 8);
    XorCancels(a, b, Wide(byte));
  }

  lemma XorCancels(a: bv32, b: bv32, c: bv32)
    requires Xor(a, c) == Xor(b, c)
    ensures a == b
  {
    assert (a ^ c) ^ c == a && (b ^ c) ^ c == b;
  }

  lemma XorCommutes(a: bv32, b: bv32)
    ensures Xor(a, b) == Xor(b, a)
  {
  }

  lemma NotInjective(a: bv32, b: bv32)
    requires Not(a) == Not(b)
    ensures a == b
  {
    assert !!a == a && !!b == b;
  }

  /** Two inputs of the same length that differ only within four consecutive bytes
      never have the same checksum. */
  lemma BurstsAreSeparated(x: seq<bv8>, y: seq<bv8>, from: nat, to: nat)
    requires |x| == |y| && from <= to <= |x| && to - from <= 4 && x != y
    requires x[..from] == y[..from] && x[to..] == y[to..]
    ensures Crc(x) != Crc(y)
  {
    hide Register; hide Word; hide Steps; hide Xor; hide Not;
    var crc := Register(START, x[..from]);
    var a, b := x[from..to], y[from..to];
    assert x == x[..from] + (a + x[to..]) && y == y[..from] + (b + y[to..]);
    RegisterAppend(START, x[..from], a + x[to..]);
    RegisterAppend(START, y[..from], b + y[to..]);
    RegisterAppend(crc, a, x[to..]);
    RegisterAppend(crc, b, y[to..]);
    if Crc(x) == Crc(y) {
      NotInjective(Register(START, x), Register(START, y));
      RegisterInjective(Register(crc, a), Register(crc, b), x[to..]);
      RegisterIsWordSteps(crc, a);
      RegisterIsWordSteps(crc, b);
      StepsInjective(Xor(crc, Word(a)), Xor(crc, Word(b)), 8 * |a|);
      XorCommutes(crc, Word(a));
      XorCommutes(crc, Word(b));
      XorCancels(Word(a), Word(b), crc);
      WordInjective(a, b);
    }
  }

  /** The standard's check value: the checksum of the text "123456789". */
  lemma CheckValue()
    ensures Crc([0x31, 0x32, 0x33, 0x34, 0x35, 0x36, 0x37, 0x38, 0x39]) == 0xCBF4_3926
  {
    hide Feed; hide Register;
    var data: seq<bv8> := [0x31, 0x32, 0x33, 0x34, 0x35, 0x36, 0x37, 0x38, 0x39];
    assert data[0..] == data && data[9..] == [];
    FeedsOfDigits();
    RegisterUnfold(0xFFFF_FFFF, data, 0);
    RegisterUnfold(0x7C23_1048, data, 1);
    RegisterUnfold(0xB0AC_BB32, data, 2);
    RegisterUnfold(0x77B7_9C2D, data, 3);
    RegisterUnfold(0x641C_1F5C, data, 4);
    RegisterUnfold(0x340A_C5E3, data, 5);
    RegisterUnfold(0xF68D_2C9E, data, 6);
    RegisterUnfold(0xAFFC_9660, data, 7);
    RegisterUnfold(0x651F_2550, data, 8);
    RegisterOfNothing(0x340B_C6D9);
  }

  lemma FeedsOfDigits()
    ensures Feed(0xFFFF_FFFF, 0x31) == 0x7C23_1048
    ensures Feed(0x7C23_1048, 0x32) == 0xB0AC_BB32
    ensures Feed(0xB0AC_BB32, 0x33) == 0x77B7_9C2D
    ensures Feed(0x77B7_9C2D, 0x34) == 0x641C_1F5C
    ensures Feed(0x641C_1F5C, 0x35) == 0x340A_C5E3
    ensures Feed(0x340A_C5E3, 0x36) == 0xF68D_2C9E
    ensures Feed(0xF68D_2C9E, 0x37) == 0xAFFC_9660
    ensures Feed(0xAFFC_9660, 0x38) == 0x651F_2550
    ensures Feed(0x651F_2550, 0x39) == 0x340B_C6D9
  {
  }
}
