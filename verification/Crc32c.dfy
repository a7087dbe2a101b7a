/** CRC-32C (src/symbol.c): the table-driven update, the bit-serial register it abbreviates, and what it tells apart. */
module Crc32c {
  import opened Types

  /** Castagnoli polynomial, reflected. */
  const POLY: bv32 := 0x82F6_3B78

  // ---------------------------------------------------------------------------
  // The register
  // ---------------------------------------------------------------------------

  // The bit operations are named so that proofs can treat them as symbols.

  function Xor(a: bv32, b: bv32): bv32 {
    a ^ b
  }

  function Half(x: bv32): bv32 {
    x >> 1
  }

  predicate Odd(x: bv32) {
    x & 1 == 1
  }

  predicate Top(x: bv32) {
    x & 0x8000_0000 != 0
  }

  function Low(x: bv32): bv32 {
    x & 0xFF
  }

  function High(x: bv32): bv32 {
    x & 0xFFFF_FF00
  }

  function Down(x: bv32): bv32 {
    x >> 8
  }

  function Double(x: bv32): bv32 {
    x << 1
  }

  function Bit(b: bool): bv32 {
    if b then 1 else 0
  }

  /** A byte's binary digits as the low bits of a register. */
  function Word(b: byte): bv32 {
    if b == 0 then 0 else Xor(Bit(b % 2 == 1), Double(Word(b / 2)))
  }

  /** One shift of the reflected register. */
  function Shift(x: bv32): bv32 {
    if Odd(x) then Xor(Half(x), POLY) else Half(x)
  }

  function Shifts(x: bv32, n: nat): bv32 {
    if n == 0 then x else Shift(Shifts(x, n - 1))
  }

  function Shift2(x: bv32): bv32 {
    Shift(Shift(x))
  }

  function Shift4(x: bv32): bv32 {
    Shift2(Shift2(x))
  }

  function Shift8(x: bv32): bv32 {
    Shift4(Shift4(x))
  }

  lemma Shifts8(x: bv32)
    ensures Shifts(x, 8) == Shift8(x)
  {
    hide Shift;
    assert Shifts(x, 2) == Shift2(Shifts(x, 0));
    assert Shifts(x, 4) == Shift2(Shifts(x, 2));
    assert Shifts(x, 6) == Shift2(Shifts(x, 4));
    assert Shifts(x, 8) == Shift2(Shifts(x, 6));
  }

  /** The register after a byte, bit by bit. */
  function ByteStep(x: bv32, b: byte): bv32 {
    Shift8(Xor(x, Word(b)))
  }

  /** The register after a byte string, bit by bit. */
  function Bitwise(x: bv32, s: seq<byte>): bv32
    decreases |s|
  {
    if s == [] then x else Bitwise(ByteStep(x, s[0]), s[1..])
  }

  /** The table-driven step of crc32c_sw_update. */
  function TableStep(x: bv32, b: byte): bv32 {
    Xor(Shift8(Low(Xor(x, Word(b)))), Down(x))
  }

  // ---------------------------------------------------------------------------
  // Bytes as words
  // ---------------------------------------------------------------------------

  /** 2 to the k, as a number and as a register. */
  function Pow2(k: nat): nat {
    if k == 0 then 1 else 2 * Pow2(k - 1)
  }

  function Limit(k: nat): bv32 {
    if k == 0 then 1 else Double(Limit(k - 1))
  }

  lemma LimitDoubles(x: bv32, l: bv32, c: bv32)
    requires x < l && l <= 0x80 && c <= 1
    ensures c ^ (x << 1) < l << 1
  {
  }

  lemma LimitIs(k: nat)
    requires k <= 8
    ensures 1 <= Limit(k) && (k <= 7 ==> Limit(k) <= 0x80) && (k == 8 ==> Limit(k) == 0x100)
  {
    assert Limit(2) == 4;
    assert Limit(4) == 0x10;
    assert Limit(6) == 0x40;
    assert Limit(8) == 0x100;
  }

  /** A number below 2 to the k has k digits. */
  lemma {:induction false} WordBelow(b: byte, k: nat)
    requires b < Pow2(k) && k <= 8
    ensures Word(b) < Limit(k)
    decreases b
  {
    LimitIs(k);
    if b != 0 {
      LimitIs(k - 1);
      WordBelow(b / 2, k - 1);
      DoubleBelow(Word(b / 2), Limit(k - 1), b % 2 == 1);
    }
  }

  lemma DoubleBelow(x: bv32, l: bv32, c: bool)
    requires x < l && l <= 0x80
    ensures Xor(Bit(c), Double(x)) < Double(l)
  {
    LimitDoubles(x, l, Bit(c));
  }

  lemma BelowFits(x: bv32)
    requires x < 0x100
    ensures x & 0xFFFF_FF00 == 0
  {
  }

  /** A byte occupies the low eight bits. */
  lemma WordFits(b: byte)
    ensures Word(b) & 0xFFFF_FF00 == 0
  {
    assert Pow2(4) == 16 && Pow2(8) == 256;
    LimitIs(8);
    WordBelow(b, 8);
    hide Word, Limit;
    BelowFits(Word(b));
  }

  lemma DigitParts(c: bool, x: bv32)
    requires x < 0x80
    ensures Odd(Xor(Bit(c), Double(x))) == c
    ensures Half(Xor(Bit(c), Double(x))) == x
  {
    var y := if c then 1 ^ (x << 1) else 0 ^ (x << 1);
    assert y & 1 == 1 <==> c;
    assert y >> 1 == x;
  }

  /** The lowest digit of a byte, and the rest. */
  lemma WordDigits(b: byte)
    ensures Odd(Word(b)) <==> b % 2 == 1
    ensures Half(Word(b)) == Word(b / 2)
  {
    assert Pow2(3) == 8 && Pow2(7) == 128;
    LimitIs(7);
    WordBelow(b / 2, 7);
    DigitParts(b % 2 == 1, Word(b / 2));
    if b == 0 { assert Half(0) == 0; }
  }

  lemma {:induction false} WordInjective(a: byte, b: byte)
    requires Word(a) == Word(b)
    ensures a == b
    decreases a + b
  {
    if a != 0 || b != 0 {
      hide Word, Odd, Half;
      WordDigits(a);
      WordDigits(b);
      WordInjective(a / 2, b / 2);
      assert a == 2 * (a / 2) + a % 2 && b == 2 * (b / 2) + b % 2;
    }
  }

  // ---------------------------------------------------------------------------
  // Linearity
  // ---------------------------------------------------------------------------

  lemma XorSwap(u: bv32, v: bv32, p: bv32)
    ensures Xor(Xor(u, p), v) == Xor(Xor(u, v), p)
  {
    calc {
      Xor(Xor(u, p), v);
      Xor(u ^ p, v);
      (u ^ p) ^ v;
      (u ^ v) ^ p;
      Xor(u ^ v, p);
      Xor(Xor(u, v), p);
    }
  }

  lemma XorAssoc(u: bv32, v: bv32, p: bv32)
    ensures Xor(u, Xor(v, p)) == Xor(Xor(u, v), p)
  {
    calc {
      Xor(u, Xor(v, p));
      Xor(u, v ^ p);
      u ^ (v ^ p);
      (u ^ v) ^ p;
      Xor(u ^ v, p);
      Xor(Xor(u, v), p);
    }
  }

  lemma XorTwice(x: bv32, p: bv32)
    ensures Xor(Xor(x, p), p) == x
  {
    calc {
      Xor(Xor(x, p), p);
      Xor(x ^ p, p);
      (x ^ p) ^ p;
      x;
    }
  }

  lemma XorMoves(u: bv32, v: bv32, p: bv32)
    ensures Xor(Xor(u, p), Xor(v, p)) == Xor(u, v)
    ensures Xor(Xor(u, p), v) == Xor(Xor(u, v), p)
    ensures Xor(u, Xor(v, p)) == Xor(Xor(u, v), p)
  {
    hide Xor;
    XorSwap(u, v, p);
    XorAssoc(u, v, p);
    XorSwap(u, Xor(v, p), p);
    XorTwice(Xor(u, v), p);
  }

  lemma HalfLinear(a: bv32, b: bv32)
    ensures Half(Xor(a, b)) == Xor(Half(a), Half(b))
  {
  }

  lemma OddLinear(a: bv32, b: bv32)
    ensures Odd(Xor(a, b)) <==> Odd(a) != Odd(b)
  {
  }

  /** The register is linear over exclusive or. */
  lemma ShiftLinear(a: bv32, b: bv32)
    ensures Shift(Xor(a, b)) == Xor(Shift(a), Shift(b))
  {
    hide Xor, Half, Odd;
    HalfLinear(a, b);
    OddLinear(a, b);
    XorMoves(Half(a), Half(b), POLY);
  }

  lemma Shift2Linear(a: bv32, b: bv32)
    ensures Shift2(Xor(a, b)) == Xor(Shift2(a), Shift2(b))
  {
    hide Shift, Xor;
    ShiftLinear(a, b);
    ShiftLinear(Shift(a), Shift(b));
  }

  lemma Shift8Linear(a: bv32, b: bv32)
    ensures Shift8(Xor(a, b)) == Xor(Shift8(a), Shift8(b))
  {
    hide Shift2, Xor;
    Shift2Linear(a, b);
    var a2, b2 := Shift2(a), Shift2(b);
    Shift2Linear(a2, b2);
    var a4, b4 := Shift2(a2), Shift2(b2);
    Shift2Linear(a4, b4);
    Shift2Linear(Shift2(a4), Shift2(b4));
  }

  /** A register whose low byte is zero just moves down. */
  lemma HighBitsFall(x: bv32)
    ensures Shift8(High(x)) == Down(x)
  {
  }

  lemma SplitLow(x: bv32)
    ensures Xor(Low(x), High(x)) == x
  {
  }

  lemma DownIgnoresLow(x: bv32, w: bv32)
    requires w & 0xFFFF_FF00 == 0
    ensures Down(Xor(x, w)) == Down(x)
  {
  }

  /** One table lookup is eight register shifts. */
  lemma TableStepIsByteStep(x: bv32, b: byte)
    ensures TableStep(x, b) == ByteStep(x, b)
  {
    hide Shift8, Xor, Low, High, Down;
    WordFits(b);
    DownIgnoresLow(x, Word(b));
    var y := Xor(x, Word(b));
    SplitLow(y);
    HighBitsFall(y);
    Shift8Linear(Low(y), High(y));
  }

  // ---------------------------------------------------------------------------
  // Injectivity
  // ---------------------------------------------------------------------------

  lemma HalvesDetermine(a: bv32, b: bv32)
    requires Half(a) == Half(b) && Odd(a) == Odd(b)
    ensures a == b
  {
  }

  lemma XorCancels(u: bv32, v: bv32, p: bv32)
    requires Xor(u, p) == Xor(v, p)
    ensures u == v
  {
  }

  lemma TopMarksOdd(x: bv32)
    ensures !Top(Half(x)) && Top(Xor(Half(x), POLY))
  {
  }

  lemma ShiftInjective(a: bv32, b: bv32)
    requires a != b
    ensures Shift(a) != Shift(b)
  {
    hide Xor, Half, Odd, Top;
    TopMarksOdd(a);
    TopMarksOdd(b);
    if Shift(a) == Shift(b) {
      if Odd(a) { XorCancels(Half(a), Half(b), POLY); }
      HalvesDetermine(a, b);
    }
  }

  lemma Shift2Injective(a: bv32, b: bv32)
    requires a != b
    ensures Shift2(a) != Shift2(b)
  {
    hide Shift;
    ShiftInjective(a, b);
    ShiftInjective(Shift(a), Shift(b));
  }

  lemma Shift8Injective(a: bv32, b: bv32)
    requires a != b
    ensures Shift8(a) != Shift8(b)
  {
    hide Shift2;
    Shift2Injective(a, b);
    var a2, b2 := Shift2(a), Shift2(b);
    Shift2Injective(a2, b2);
    var a4, b4 := Shift2(a2), Shift2(b2);
    Shift2Injective(a4, b4);
    Shift2Injective(Shift2(a4), Shift2(b4));
  }

  lemma XorInjective(a: bv32, b: bv32, w: bv32)
    requires a != b
    ensures Xor(a, w) != Xor(b, w)
  {
  }

  /** Equal input keeps different registers different. */
  lemma {:induction false} SameInputKeepsApart(a: bv32, b: bv32, s: seq<byte>)
    requires a != b
    ensures Bitwise(a, s) != Bitwise(b, s)
    decreases |s|
  {
    if s != [] {
      hide Shift8, Word, Xor;
      XorInjective(a, b, Word(s[0]));
      Shift8Injective(Xor(a, Word(s[0])), Xor(b, Word(s[0])));
      SameInputKeepsApart(ByteStep(a, s[0]), ByteStep(b, s[0]), s[1..]);
    }
  }

  /** One pass over a concatenation is two passes in turn. */
  lemma {:induction false} BitwiseConcat(x: bv32, s: seq<byte>, t: seq<byte>)
    ensures Bitwise(x, s + t) == Bitwise(Bitwise(x, s), t)
    decreases |s|
  {
    if s == [] {
      assert s + t == t;
    } else {
      assert (s + t)[1..] == s[1..] + t;
      BitwiseConcat(ByteStep(x, s[0]), s[1..], t);
    }
  }

  // ---------------------------------------------------------------------------
  // Four bytes at a time
  // ---------------------------------------------------------------------------

  function Up(x: bv32): bv32 {
    x << 8
  }

  /** The bytes of a short string as one register word, first byte lowest. */
  function Pack(s: seq<byte>): bv32
    decreases |s|
  {
    if s == [] then 0 else Xor(Word(s[0]), Up(Pack(s[1..])))
  }

  /** The bits from 8 * k up are zero, for k up to 3. */
  predicate Fits(x: bv32, k: nat) {
    if k == 0 then x == 0
    else if k == 1 then x & 0xFFFF_FF00 == 0
    else if k == 2 then x & 0xFFFF_0000 == 0
    else if k == 3 then x & 0xFF00_0000 == 0
    else true
  }

  lemma FitsGrows0(w: bv32)
    requires w & 0xFFFF_FF00 == 0
    ensures (w ^ (0 << 8)) & 0xFFFF_FF00 == 0
  {
  }

  lemma FitsGrows1(w: bv32, p: bv32)
    requires w & 0xFFFF_FF00 == 0 && p & 0xFFFF_FF00 == 0
    ensures (w ^ (p << 8)) & 0xFFFF_0000 == 0
  {
  }

  lemma FitsGrows2(w: bv32, p: bv32)
    requires w & 0xFFFF_FF00 == 0 && p & 0xFFFF_0000 == 0
    ensures (w ^ (p << 8)) & 0xFF00_0000 == 0
  {
  }

  lemma FitsWeaker(p: bv32)
    ensures p & 0xFFFF_FF00 == 0 ==> p & 0xFF00_0000 == 0
    ensures p & 0xFFFF_0000 == 0 ==> p & 0xFF00_0000 == 0
  {
  }

  lemma FitsGrows(w: bv32, p: bv32, k: nat)
    requires w & 0xFFFF_FF00 == 0 && Fits(p, k) && k <= 3
    ensures Fits(Xor(w, Up(p)), k + 1)
    ensures p & 0xFF00_0000 == 0
  {
    FitsWeaker(p);
    if k == 0 { FitsGrows0(w); }
    else if k == 1 { FitsGrows1(w, p); }
    else if k == 2 { FitsGrows2(w, p); }
  }

  lemma {:induction false} PackFits(s: seq<byte>)
    requires |s| <= 4
    ensures Fits(Pack(s), |s|)
    ensures s != [] ==> Pack(s[1..]) & 0xFF00_0000 == 0
    decreases |s|
  {
    if s != [] {
      hide Xor, Up, Fits;
      PackFits(s[1..]);
      WordFits(s[0]);
      FitsGrows(Word(s[0]), Pack(s[1..]), |s| - 1);
    } else {
      hide Xor, Up;
    }
  }

  lemma LowPart(w: bv32, p: bv32)
    requires w & 0xFFFF_FF00 == 0
    ensures (w ^ (p << 8)) & 0xFF == w
  {
  }

  lemma HighPart(w: bv32, p: bv32)
    requires w & 0xFFFF_FF00 == 0 && p & 0xFF00_0000 == 0
    ensures (w ^ (p << 8)) >> 8 == p
  {
  }

  lemma UpParts(p: bv32)
    requires p & 0xFF00_0000 == 0
    ensures (p << 8) & 0xFFFF_FF00 == p << 8 && (p << 8) >> 8 == p
  {
  }

  lemma PackLow(w: bv32, p: bv32)
    requires w & 0xFFFF_FF00 == 0
    ensures Low(Xor(w, Up(p))) == w
  {
    LowPart(w, p);
    calc {
      Low(Xor(w, Up(p)));
      Low(Xor(w, p << 8));
      Low(w ^ (p << 8));
      (w ^ (p << 8)) & 0xFF;
    }
  }

  lemma PackDown(w: bv32, p: bv32)
    requires w & 0xFFFF_FF00 == 0 && p & 0xFF00_0000 == 0
    ensures Down(Xor(w, Up(p))) == p
  {
    HighPart(w, p);
    calc {
      Down(Xor(w, Up(p)));
      Down(Xor(w, p << 8));
      Down(w ^ (p << 8));
      (w ^ (p << 8)) >> 8;
    }
  }

  lemma UpAndDown(p: bv32)
    requires p & 0xFF00_0000 == 0
    ensures High(Up(p)) == Up(p) && Down(Up(p)) == p
  {
    UpParts(p);
    calc {
      High(Up(p));
      High(p << 8);
      (p << 8) & 0xFFFF_FF00;
      p << 8;
    }
    calc {
      Down(Up(p));
      Down(p << 8);
      (p << 8) >> 8;
    }
  }

  lemma {:induction false} PackInjective(s: seq<byte>, t: seq<byte>)
    requires |s| == |t| <= 4 && Pack(s) == Pack(t)
    ensures s == t
    decreases |s|
  {
    if s != [] {
      hide Xor, Up, Low, Down, Fits, Word, High;
      PackFits(s);
      PackFits(t);
      WordFits(s[0]);
      WordFits(t[0]);
      PackLow(Word(s[0]), Pack(s[1..]));
      PackLow(Word(t[0]), Pack(t[1..]));
      PackDown(Word(s[0]), Pack(s[1..]));
      PackDown(Word(t[0]), Pack(t[1..]));
      WordInjective(s[0], t[0]);
      PackInjective(s[1..], t[1..]);
      assert s == [s[0]] + s[1..] && t == [t[0]] + t[1..];
    }
  }

  function ShiftBytes(x: bv32, n: nat): bv32
    decreases n
  {
    if n == 0 then x else ShiftBytes(Shift8(x), n - 1)
  }

  /** Absorbing p after a byte of shifts is absorbing it one byte higher before them. */
  lemma AbsorbEarlier(y: bv32, p: bv32)
    requires p & 0xFF00_0000 == 0
    ensures Xor(Shift8(y), p) == Shift8(Xor(y, Up(p)))
  {
    hide Xor, Up, Shift8, High, Down, Low, Fits;
    Shift8Linear(y, Up(p));
    UpAndDown(p);
    HighBitsFall(Up(p));
  }

  /** Up to four bytes act on the register as one word absorbed at once. */
  lemma {:induction false} BitwiseIsPacked(x: bv32, s: seq<byte>)
    requires |s| <= 4
    ensures Bitwise(x, s) == ShiftBytes(Xor(x, Pack(s)), |s|)
    decreases |s|
  {
    if s == [] {
      XorZero(x);
    } else {
      hide Xor, Up, Shift8, Word, Fits;
      var w, rest := Word(s[0]), Pack(s[1..]);
      PackFits(s);
      BitwiseIsPacked(ByteStep(x, s[0]), s[1..]);
      AbsorbEarlier(Xor(x, w), rest);
      XorAssoc(x, w, Up(rest));
    }
  }

  lemma XorZero(x: bv32)
    ensures Xor(x, 0) == x
  {
  }

  lemma {:induction false} ShiftBytesInjective(a: bv32, b: bv32, n: nat)
    requires a != b
    ensures ShiftBytes(a, n) != ShiftBytes(b, n)
    decreases n
  {
    if n > 0 {
      hide Shift8;
      Shift8Injective(a, b);
      ShiftBytesInjective(Shift8(a), Shift8(b), n - 1);
    }
  }

  lemma XorLeftInjective(x: bv32, u: bv32, v: bv32)
    requires u != v
    ensures Xor(x, u) != Xor(x, v)
  {
  }

  /** Different strings of the same length, at most four bytes, leave different registers. */
  lemma ShortStringsDiffer(x: bv32, s: seq<byte>, t: seq<byte>)
    requires |s| == |t| <= 4 && s != t
    ensures Bitwise(x, s) != Bitwise(x, t)
  {
    hide Xor, Bitwise, Pack, ShiftBytes;
    if Pack(s) == Pack(t) { PackInjective(s, t); }
    BitwiseIsPacked(x, s);
    BitwiseIsPacked(x, t);
    XorLeftInjective(x, Pack(s), Pack(t));
    ShiftBytesInjective(Xor(x, Pack(s)), Xor(x, Pack(t)), |s|);
  }

  /** Two strings of equal length that differ only within a stretch of four bytes. */
  ghost predicate DifferWithinFour(s: seq<byte>, t: seq<byte>, i: nat) {
    && |s| == |t| && s != t
    && forall j :: 0 <= j < |s| && !(i <= j < i + 4) ==> s[j] == t[j]
  }

  /** CRC-32C tells apart any two strings that differ only within four consecutive bytes. */
  lemma BurstDetected(x: bv32, s: seq<byte>, t: seq<byte>, i: nat)
    requires DifferWithinFour(s, t, i)
    ensures Bitwise(x, s) != Bitwise(x, t)
  {
    hide Bitwise;
    var lo := if i <= |s| then i else |s|;
    var hi := if i + 4 <= |s| then i + 4 else |s|;
    assert s == s[..lo] + (s[lo..hi] + s[hi..]);
    assert t == t[..lo] + (t[lo..hi] + t[hi..]);
    assert s[..lo] == t[..lo] && s[hi..] == t[hi..];
    var y := Bitwise(x, s[..lo]);
    BitwiseConcat(x, s[..lo], s[lo..hi] + s[hi..]);
    BitwiseConcat(x, t[..lo], t[lo..hi] + t[hi..]);
    BitwiseConcat(y, s[lo..hi], s[hi..]);
    BitwiseConcat(y, t[lo..hi], t[hi..]);
    assert s[lo..hi] != t[lo..hi];
    ShortStringsDiffer(y, s[lo..hi], t[lo..hi]);
    SameInputKeepsApart(Bitwise(y, s[lo..hi]), Bitwise(y, t[lo..hi]), s[hi..]);
  }
}
