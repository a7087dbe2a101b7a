/** The CRC register computes a remainder of polynomial long division over GF(2). */
module CrcDivision {
  import opened Types
  import opened Crc32c

  // ---------------------------------------------------------------------------
  // Long division; polynomials are coefficient sequences, highest power first
  // ---------------------------------------------------------------------------

  /** The exponents of the Castagnoli generator polynomial. */
  const EXPONENTS := {32, 28, 27, 26, 25, 23, 22, 20, 19, 18, 14, 13, 11, 10, 9, 8, 6, 0}

  /** Whether the generator has the power x^e. */
  predicate Term(e: int) {
    e in EXPONENTS
  }

  /** The generator's coefficients, from x^32 down to 1. */
  function Generator(): (g: seq<bool>)
    ensures |g| == 33 && g[0]
  {
    seq(33, i requires 0 <= i < 33 => Term(32 - i))
  }

  /** One step of long division: cancel the leading coefficient, then drop it. */
  function Reduce(p: seq<bool>): (q: seq<bool>)
    requires |p| > 32
    ensures |q| == |p| - 1
    ensures forall i :: 0 <= i < |q| ==> q[i] == (p[i + 1] != (p[0] && i < 32 && Generator()[i + 1]))
  {
    seq(|p| - 1, i requires 0 <= i < |p| - 1 => p[i + 1] != (p[0] && i < 32 && Generator()[i + 1]))
  }

  /** The remainder of p divided by the generator. */
  function Remainder(p: seq<bool>): (r: seq<bool>)
    requires |p| >= 32
    ensures |r| == 32
    decreases |p|
  {
    if |p| == 32 then p else Remainder(Reduce(p))
  }

  /** msg times x^32, with reg added to the leading 32 coefficients. */
  function Augmented(reg: seq<bool>, msg: seq<bool>): (p: seq<bool>)
    requires |reg| == 32
    ensures |p| == |msg| + 32
    ensures forall i :: 0 <= i < |p| ==> p[i] == ((i < |msg| && msg[i]) != (i < 32 && reg[i]))
  {
    seq(|msg| + 32, i requires 0 <= i < |msg| + 32 => (i < |msg| && msg[i]) != (i < 32 && reg[i]))
  }

  /** The shift register on coefficient sequences. */
  function RegisterStep(reg: seq<bool>, bit: bool): (r: seq<bool>)
    requires |reg| == 32
    ensures |r| == 32
  {
    seq(32, i requires 0 <= i < 32 =>
      (i < 31 && reg[i + 1]) != ((bit != reg[0]) && Generator()[i + 1]))
  }

  function RegisterRun(reg: seq<bool>, msg: seq<bool>): (r: seq<bool>)
    requires |reg| == 32
    ensures |r| == 32
    decreases |msg|
  {
    if msg == [] then reg else RegisterRun(RegisterStep(reg, msg[0]), msg[1..])
  }

  /** The shift register performs long division, one coefficient a step. */
  lemma {:induction false} RegisterDivides(reg: seq<bool>, msg: seq<bool>)
    requires |reg| == 32
    ensures RegisterRun(reg, msg) == Remainder(Augmented(reg, msg))
    decreases |msg|
  {
    var p := Augmented(reg, msg);
    if msg == [] {
      assert p == reg;
    } else {
      assert Reduce(p) == Augmented(RegisterStep(reg, msg[0]), msg[1..]);
      RegisterDivides(RegisterStep(reg, msg[0]), msg[1..]);
    }
  }

  // ---------------------------------------------------------------------------
  // The word register holds those coefficients, lowest bit first
  // ---------------------------------------------------------------------------

  function Halves(x: bv32, i: nat): bv32 {
    if i == 0 then x else Half(Halves(x, i - 1))
  }

  predicate Digit(x: bv32, i: nat) {
    Odd(Halves(x, i))
  }

  /** The coefficients a word stands for. */
  function Coefficients(x: bv32): (c: seq<bool>)
    ensures |c| == 32 && forall i :: 0 <= i < 32 ==> c[i] == Digit(x, i)
  {
    seq(32, i requires 0 <= i < 32 => Digit(x, i))
  }

  lemma {:induction false} DigitLinear(a: bv32, b: bv32, i: nat)
    ensures Halves(Xor(a, b), i) == Xor(Halves(a, i), Halves(b, i))
    ensures Digit(Xor(a, b), i) <==> Digit(a, i) != Digit(b, i)
  {
    hide Xor, Half, Odd;
    if i > 0 {
      DigitLinear(a, b, i - 1);
      HalfLinear(Halves(a, i - 1), Halves(b, i - 1));
    }
    OddLinear(Halves(a, i), Halves(b, i));
  }

  lemma {:induction false} HalvesOfHalf(x: bv32, i: nat)
    ensures Halves(Half(x), i) == Halves(x, i + 1)
  {
    if i > 0 { HalvesOfHalf(x, i - 1); }
  }

  lemma Half4(x: bv32)
    ensures Half(Half(Half(Half(x)))) == x >> 4
  {
  }

  lemma Halve4(x: bv32, i: nat)
    ensures Halves(x, i + 4) == Halves(x, i) >> 4
  {
    Half4(Halves(x, i));
    hide Half;
    assert Halves(x, i + 1) == Half(Halves(x, i));
    assert Halves(x, i + 2) == Half(Halves(x, i + 1));
    assert Halves(x, i + 3) == Half(Halves(x, i + 2));
    assert Halves(x, i + 4) == Half(Halves(x, i + 3));
  }

  lemma Vanishes(x: bv32)
    ensures x >> 4 >> 4 >> 4 >> 4 >> 4 >> 4 >> 4 >> 4 == 0
  {
  }

  /** A word has no digit beyond the 32nd. */
  lemma NoDigit32(x: bv32)
    ensures Halves(x, 32) == 0 && !Digit(x, 32)
  {
    hide Half;
    Halve4(x, 0);
    Halve4(x, 4);
    Halve4(x, 8);
    Halve4(x, 12);
    Halve4(x, 16);
    Halve4(x, 20);
    Halve4(x, 24);
    Halve4(x, 28);
    Vanishes(x);
    assert !Odd(0);
  }

  /** Eight digits further on. */
  lemma Halve8(x: bv32, i: nat)
    ensures Halves(x, i + 8) == Halves(x, i) >> 4 >> 4
  {
    Halve4(x, i);
    Halve4(x, i + 4);
  }

  lemma {:induction false} HalvesAdd(x: bv32, i: nat, j: nat)
    ensures Halves(x, i + j) == Halves(Halves(x, i), j)
  {
    if j > 0 { HalvesAdd(x, i, j - 1); }
  }

  /** Bit j of a word, for the low eight. */
  predicate HasBit(x: bv32, j: nat) {
    if j == 0 then x & 0x1 != 0 else if j == 1 then x & 0x2 != 0
    else if j == 2 then x & 0x4 != 0 else if j == 3 then x & 0x8 != 0
    else if j == 4 then x & 0x10 != 0 else if j == 5 then x & 0x20 != 0
    else if j == 6 then x & 0x40 != 0 else x & 0x80 != 0
  }

  lemma LowDigits(x: bv32)
    ensures x & 1 == 1 <==> x & 0x1 != 0
    ensures (x >> 1) & 1 == 1 <==> x & 0x2 != 0
    ensures (x >> 1 >> 1) & 1 == 1 <==> x & 0x4 != 0
    ensures (x >> 1 >> 1 >> 1) & 1 == 1 <==> x & 0x8 != 0
  {
  }

  lemma HalfIs(x: bv32)
    ensures Half(x) == x >> 1
  {
  }

  lemma FirstHalves(x: bv32)
    ensures Halves(x, 0) == x && Halves(x, 1) == x >> 1
    ensures Halves(x, 2) == x >> 1 >> 1 && Halves(x, 3) == x >> 1 >> 1 >> 1
  {
    HalfIs(x);
    HalfIs(x >> 1);
    HalfIs(x >> 1 >> 1);
    hide Half;
    assert Halves(x, 1) == Half(Halves(x, 0));
    assert Halves(x, 2) == Half(Halves(x, 1));
    assert Halves(x, 3) == Half(Halves(x, 2));
  }

  lemma FourDigits(x: bv32, j: nat)
    requires j < 4
    ensures Digit(x, j) <==> HasBit(x, j)
  {
    hide Halves;
    FirstHalves(x);
    LowDigits(x);
    if j == 0 {} else if j == 1 {} else if j == 2 {} else {}
  }

  lemma MaskShifts(x: bv32)
    ensures (x >> 4) & 0x1 != 0 <==> x & 0x10 != 0
    ensures (x >> 4) & 0x2 != 0 <==> x & 0x20 != 0
    ensures (x >> 4) & 0x4 != 0 <==> x & 0x40 != 0
    ensures (x >> 4) & 0x8 != 0 <==> x & 0x80 != 0
  {
  }

  lemma UpperBits(x: bv32, j: nat)
    requires j < 4
    ensures HasBit(Halves(x, 4), j) <==> HasBit(x, j + 4)
  {
    Halve4(x, 0);
    hide Half;
    assert Halves(x, 4) == x >> 4;
    hide Halves;
    MaskShifts(x);
    if j == 0 {} else if j == 1 {} else if j == 2 {} else {}
  }

  lemma DigitShift(x: bv32, p: nat, j: nat)
    ensures Digit(x, p + j) == Digit(Halves(x, p), j)
  {
    HalvesAdd(x, p, j);
  }

  /** The low eight digits of a word are its low eight bits. */
  lemma EightDigits(x: bv32, j: nat)
    requires j < 8
    ensures Digit(x, j) <==> HasBit(x, j)
  {
    hide Digit, HasBit, Halves;
    if j < 4 {
      FourDigits(x, j);
    } else {
      DigitShift(x, 4, j - 4);
      FourDigits(Halves(x, 4), j - 4);
      UpperBits(x, j - 4);
    }
  }

  lemma PolyBytes()
    ensures Halves(POLY, 0) == 0x82F6_3B78 && Halves(POLY, 8) == 0x82_F63B
    ensures Halves(POLY, 16) == 0x82F6 && Halves(POLY, 24) == 0x82
  {
    Halve8(POLY, 0);
    Halve8(POLY, 8);
    Halve8(POLY, 16);
  }

  lemma PolyMasks(j: nat)
    requires j < 8
    ensures HasBit(0x82F6_3B78, j) <==> Term(31 - j)
    ensures HasBit(0x82_F63B, j) <==> Term(23 - j)
    ensures HasBit(0x82F6, j) <==> Term(15 - j)
    ensures HasBit(0x82, j) <==> Term(7 - j)
  {
  }

  lemma DigitAt(x: bv32, p: nat, w: bv32, j: nat)
    requires Halves(x, p) == w && j < 8
    ensures Digit(x, p + j) <==> HasBit(w, j)
  {
    hide Halves, Digit, HasBit;
    DigitShift(x, p, j);
    EightDigits(w, j);
  }

  lemma GeneratorAt(i: nat)
    requires i < 32
    ensures Generator()[i + 1] <==> Term(31 - i)
  {
  }

  lemma PolyByte(i: nat, p: nat, w: bv32)
    requires p <= i < p + 8 && i < 32 && Halves(POLY, p) == w
    requires HasBit(w, i - p) <==> Term(31 - i)
    ensures Digit(POLY, i) == Generator()[i + 1]
  {
    hide Halves, Digit, HasBit, Term, Generator;
    GeneratorAt(i);
    DigitAt(POLY, p, w, i - p);
  }

  /** The reflected polynomial's digits are the generator's coefficients below x^32. */
  lemma PolyDigits(i: nat)
    requires i < 32
    ensures Digit(POLY, i) == Generator()[i + 1]
  {
    hide Halves, Digit, HasBit, Term, Generator;
    PolyBytes();
    PolyMasks(i % 8);
    if i < 8 { PolyByte(i, 0, 0x82F6_3B78); }
    else if i < 16 { PolyByte(i, 8, 0x82_F63B); }
    else if i < 24 { PolyByte(i, 16, 0x82F6); }
    else { PolyByte(i, 24, 0x82); }
  }

  lemma BitDigits(b: bool, i: nat)
    ensures Digit(Bit(b), i) <==> b && i == 0
  {
    if i > 0 { BitHalves(b, i); }
  }

  lemma {:induction false} BitHalves(b: bool, i: nat)
    requires i > 0
    ensures Halves(Bit(b), i) == 0
  {
    if i > 1 { BitHalves(b, i - 1); }
  }

  /** One register shift, with a message bit absorbed, is one step of the coefficient register. */
  lemma ShiftIsRegisterStep(x: bv32, bit: bool)
    ensures Coefficients(Shift(Xor(x, Bit(bit)))) == RegisterStep(Coefficients(x), bit)
  {
    hide Xor, Half, Odd, Halves;
    var y := Xor(x, Bit(bit));
    forall i | 0 <= i < 32
      ensures Coefficients(Shift(y))[i] == RegisterStep(Coefficients(x), bit)[i]
    {
      DigitLinear(x, Bit(bit), 0);
      DigitLinear(x, Bit(bit), i + 1);
      BitDigits(bit, 0);
      BitDigits(bit, i + 1);
      DigitOfHalf(y, i);
      DigitLinear(Half(y), POLY, i);
      PolyDigits(i);
      NoDigit32(y);
      DigitZero(y);
    }
  }

  lemma DigitZero(x: bv32)
    ensures Digit(x, 0) == Odd(x)
  {
  }

  lemma DigitOfHalf(x: bv32, i: nat)
    ensures Digit(Half(x), i) == Digit(x, i + 1)
  {
    HalvesOfHalf(x, i);
  }

  // ---------------------------------------------------------------------------
  // Bytes and strings
  // ---------------------------------------------------------------------------

  /** The lowest n binary digits of b, lowest first: the order in which a byte is transmitted. */
  function Digits(b: nat, n: nat): (d: seq<bool>)
    ensures |d| == n
    decreases n
  {
    if n == 0 then [] else [b % 2 == 1] + Digits(b / 2, n - 1)
  }

  function Message(s: seq<byte>): (m: seq<bool>)
    ensures |m| == 8 * |s|
    decreases |s|
  {
    if s == [] then [] else Digits(s[0], 8) + Message(s[1..])
  }

  lemma {:induction false} RunConcat(reg: seq<bool>, a: seq<bool>, b: seq<bool>)
    requires |reg| == 32
    ensures RegisterRun(reg, a + b) == RegisterRun(RegisterRun(reg, a), b)
    decreases |a|
  {
    if a == [] {
      assert a + b == b;
    } else {
      assert (a + b)[1..] == a[1..] + b;
      RunConcat(RegisterStep(reg, a[0]), a[1..], b);
    }
  }

  /** Absorbing a digit string one digit at a time. */
  lemma {:induction false} DigitsRun(x: bv32, b: byte, n: nat)
    requires b < Pow2(n) && n <= 8
    ensures RegisterRun(Coefficients(x), Digits(b, n)) == Coefficients(Shifts(Xor(x, Word(b)), n))
    decreases n
  {
    hide Xor, Half, Odd, Shift, Word, Coefficients, RegisterStep;
    if n == 0 {
      WordZero(x, b);
    } else {
      var bit, rest := b % 2 == 1, b / 2;
      var y := Shift(Xor(x, Bit(bit)));
      ShiftIsRegisterStep(x, bit);
      DigitsRun(y, rest, n - 1);
      assert Digits(b, n)[1..] == Digits(rest, n - 1);
      AbsorbDigit(x, b);
      ShiftsFirst(Xor(x, Word(b)), n - 1);
    }
  }

  lemma WordZero(x: bv32, b: byte)
    requires b == 0
    ensures Xor(x, Word(b)) == x
  {
  }

  /** Absorbing the low digit, shifting, then absorbing the rest is absorbing the byte, then shifting. */
  lemma AbsorbDigit(x: bv32, b: byte)
    ensures Xor(Shift(Xor(x, Bit(b % 2 == 1))), Word(b / 2)) == Shift(Xor(x, Word(b)))
  {
    hide Xor, Word;
    var w, d := Word(b / 2), Bit(b % 2 == 1);
    WordSplits(b);
    ShiftLinear(Xor(x, d), Double(w));
    XorAssoc(x, d, Double(w));
    assert Pow2(3) == 8 && Pow2(7) == 128;
    LimitIs(7);
    WordBelow(b / 2, 7);
    DoubleShifts(w);
  }

  lemma WordSplits(b: byte)
    ensures Word(b) == Xor(Bit(b % 2 == 1), Double(Word(b / 2)))
  {
    if b == 0 { assert 0 ^ (0 << 1) == 0 as bv32; }
  }

  lemma DoubleShifts(w: bv32)
    requires w < 0x80
    ensures Shift(Double(w)) == w
  {
  }

  lemma {:induction false} ShiftsFirst(x: bv32, n: nat)
    ensures Shifts(Shift(x), n) == Shifts(x, n + 1)
  {
    if n > 0 { ShiftsFirst(x, n - 1); }
  }

  /** The bit-serial register is the coefficient register run over the message digits. */
  lemma {:induction false} BitwiseRun(x: bv32, s: seq<byte>)
    ensures Coefficients(Bitwise(x, s)) == RegisterRun(Coefficients(x), Message(s))
    decreases |s|
  {
    if s != [] {
      hide Xor, Shift8, Word, Coefficients, RegisterRun, Digits;
      assert Pow2(4) == 16 && Pow2(8) == 256;
      DigitsRun(x, s[0], 8);
      Shifts8(Xor(x, Word(s[0])));
      RunConcat(Coefficients(x), Digits(s[0], 8), Message(s[1..]));
      BitwiseRun(ByteStep(x, s[0]), s[1..]);
    } else {
      hide Coefficients;
    }
  }

  /** The CRC register over any byte string is the remainder of the augmented message polynomial. */
  lemma CrcIsRemainder(x: bv32, s: seq<byte>)
    ensures Coefficients(Bitwise(x, s)) == Remainder(Augmented(Coefficients(x), Message(s)))
  {
    BitwiseRun(x, s);
    RegisterDivides(Coefficients(x), Message(s));
  }
}
