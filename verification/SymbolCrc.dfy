/** The symbol checksum (src/symbol.c): lookup table, update loop, covered fields and verification. */
module SymbolCrc {
  import opened Types
  import opened Bytes
  import opened Crc32c
  import CrcDivision

  const SEED: bv32 := 0xFFFF_FFFF

  /** The final exclusive or. */
  function Inverted(r: bv32): uint32 {
    Xor(r, SEED) as int
  }

  /** Seed, bit-serial register, final exclusive or. */
  function Checksum(s: seq<byte>): uint32 {
    Inverted(Bitwise(SEED, s))
  }

  /** The 14 header bytes of symbol_serialise_header. */
  function Header(sym: Symbol): (h: seq<byte>)
    ensures |h| == 14
  {
    BE32(sym.packetId) + BE32(sym.fecId) + BE16(sym.index) + BE16(sym.total) + BE16(sym.len)
  }

  /** The checksummed header, read as numbers with the most significant byte first. */
  lemma HeaderFields(sym: Symbol)
    ensures var h := Header(sym);
      && Number(h[0..4]) == sym.packetId && Number(h[4..8]) == sym.fecId && Number(h[8..10]) == sym.index
      && Number(h[10..12]) == sym.total && Number(h[12..14]) == sym.len
  {
    hide BE16, BE32, Number;
    var h := Header(sym);
    assert h[0..4] == BE32(sym.packetId) && h[4..8] == BE32(sym.fecId) && h[8..10] == BE16(sym.index);
    assert h[10..12] == BE16(sym.total) && h[12..14] == BE16(sym.len);
    BigEndian32(sym.packetId, [0, 0, 0, 0]);
    BigEndian32(sym.fecId, [0, 0, 0, 0]);
    BigEndian16(sym.index, [0, 0]);
    BigEndian16(sym.total, [0, 0]);
    BigEndian16(sym.len, [0, 0]);
  }

  /** The payload length, when the checksum covers it, lies within the modelled bytes. */
  predicate Readable(sym: Symbol) {
    sym.len <= MAX_SYMBOL_DATA_SIZE ==> sym.len <= |sym.data|
  }

  function Payload(sym: Symbol): seq<byte>
    requires Readable(sym)
  {
    if 0 < sym.len <= MAX_SYMBOL_DATA_SIZE then sym.data[..sym.len] else []
  }

  /** symbol_verify_crc: the stored checksum is that of header and payload in one pass. */
  predicate Verifies(sym: Symbol)
    requires Readable(sym)
  {
    sym.crc == Checksum(Header(sym) + Payload(sym))
  }

  /** symbol_compute_crc: the symbol with its checksum in place. */
  function Stamped(sym: Symbol): Symbol
    requires Readable(sym)
  {
    sym.(crc := Checksum(Header(sym) + Payload(sym)))
  }

  lemma StampedVerifies(sym: Symbol)
    requires Readable(sym)
    ensures Verifies(Stamped(sym))
  {
    assert Header(Stamped(sym)) == Header(sym) && Payload(Stamped(sym)) == Payload(sym);
  }

  // ---------------------------------------------------------------------------
  // What a checksum is
  // ---------------------------------------------------------------------------

  /** Division by the generator, from a register of ones, leaves the complement of the checksum. */
  ghost predicate LeavesRemainder(crc: uint32, s: seq<byte>) {
    CrcDivision.Coefficients((crc as bv32) ^ 0xFFFF_FFFF)
      == CrcDivision.Remainder(CrcDivision.Augmented(CrcDivision.Coefficients(0xFFFF_FFFF), CrcDivision.Message(s)))
  }

  lemma ChecksumRemainder(s: seq<byte>)
    ensures LeavesRemainder(Checksum(s), s)
  {
    hide CrcDivision.Coefficients, CrcDivision.Remainder, CrcDivision.Augmented, CrcDivision.Message, Bitwise;
    CrcDivision.CrcIsRemainder(SEED, s);
    IndexRoundTrip(Xor(Bitwise(SEED, s), SEED));
    Twice(Bitwise(SEED, s));
  }

  lemma Twice(x: bv32)
    ensures (x ^ 0xFFFF_FFFF) ^ 0xFFFF_FFFF == x
  {
  }

  // ---------------------------------------------------------------------------
  // The program
  // ---------------------------------------------------------------------------

  /** The entry for an index: eight shifts of it. */
  ghost predicate Entry(x: bv32, i: nat)
    requires i < 256
  {
    x == Shift8(i as bv32)
  }

  lemma IndexRoundTrip(x: bv32)
    ensures (x as int) as bv32 == x
  {
  }

  lemma LowIsIndex(x: bv32)
    ensures Low(x) as int < 256
  {
  }

  class CrcTable {
    const table: array<bv32>
    var ready: bool

    ghost predicate Valid()
      reads this, table
    {
      table.Length == 256 && (ready ==> forall i {:trigger table[i]} :: 0 <= i < 256 ==> Entry(table[i], i))
    }

    constructor ()
      ensures Valid() && !ready && fresh(table)
    {
      table := new bv32[256];
      ready := false;
    }

    /** crc32c_build_table. */
    method BuildTable()
      requires Valid()
      modifies this, table
      ensures Valid() && ready
    {
      hide Shift8, Shift;
      ready := false;
      for i := 0 to 256
        invariant table.Length == 256
        invariant forall h {:trigger table[h]} :: 0 <= h < i ==> Entry(table[h], h)
      {
        var crc := i as bv32;
        for j := 0 to 8
          invariant crc == Shifts(i as bv32, j)
          invariant forall h {:trigger table[h]} :: 0 <= h < i ==> Entry(table[h], h)
        {
          ShiftCases(crc);
          if crc & 1 != 0 {
            crc := (crc >> 1) ^ POLY;
          } else {
            crc := crc >> 1;
          }
        }
        Shifts8(i as bv32);
        table[i] := crc;
        assert Entry(table[i], i);
      }
      ready := true;
    }

    /** crc32c_sw_update: one lookup per byte equals the bit-serial register. */
    method Update(seed: bv32, buf: seq<byte>) returns (crc: bv32)
      requires Valid() && ready
      ensures crc == Bitwise(seed, buf)
    {
      hide Xor, Shift8, Low, Down, Word;
      crc := seed;
      for i := 0 to |buf|
        invariant Bitwise(seed, buf) == Bitwise(crc, buf[i..])
      {
        var x := Xor(crc, Word(buf[i]));
        LowIsIndex(x);
        IndexRoundTrip(Low(x));
        TableStepIsByteStep(crc, buf[i]);
        assert buf[i..][1..] == buf[i + 1..];
        crc := Xor(table[Low(x) as int], Down(crc));
      }
    }

    /** symbol_crc32c, with the table built on first use. */
    method Compute(data: seq<byte>) returns (crc: uint32)
      requires Valid()
      modifies this, table
      ensures Valid() && ready && crc == Checksum(data) && LeavesRemainder(crc, data)
    {
      hide Inverted, Bitwise, LeavesRemainder;
      ChecksumRemainder(data);
      if !ready { BuildTable(); }
      var r := Update(SEED, data);
      crc := Inverted(r);
    }

    /** symbol_compute_crc_value: the header, then the payload. */
    method ComputeValue(sym: Symbol) returns (crc: uint32)
      requires Valid() && Readable(sym)
      modifies this, table
      ensures Valid() && ready && crc == Checksum(Header(sym) + Payload(sym))
      ensures LeavesRemainder(crc, Header(sym) + Payload(sym))
    {
      hide Inverted, Bitwise, Header, LeavesRemainder;
      ChecksumRemainder(Header(sym) + Payload(sym));
      if !ready { BuildTable(); }
      var r := Update(SEED, Header(sym));
      BitwiseConcat(SEED, Header(sym), Payload(sym));
      if 0 < sym.len <= MAX_SYMBOL_DATA_SIZE {
        r := Update(r, sym.data[..sym.len]);
      } else {
        assert Header(sym) + [] == Header(sym);
      }
      crc := Inverted(r);
    }

    /** symbol_compute_crc: after stamping, verification succeeds. */
    method Stamp(sym: Symbol) returns (stamped: Symbol)
      requires Valid() && Readable(sym)
      modifies this, table
      ensures Valid() && ready
      ensures stamped == Stamped(sym) && Verifies(stamped)
    {
      var crc := ComputeValue(sym);
      stamped := sym.(crc := crc);
      StampedVerifies(sym);
    }

    /** symbol_verify_crc. */
    method Verify(sym: Symbol) returns (ok: bool)
      requires Valid() && Readable(sym)
      modifies this, table
      ensures Valid() && ready && ok == Verifies(sym)
    {
      var crc := ComputeValue(sym);
      ok := sym.crc == crc;
    }
  }

  lemma ShiftCases(x: bv32)
    ensures Shift(x) == if x & 1 != 0 then (x >> 1) ^ POLY else x >> 1
  {
    assert x & 1 != 0 ==> x & 1 == 1;
  }

  // ---------------------------------------------------------------------------
  // Detection
  // ---------------------------------------------------------------------------

  lemma ToIntInjective(a: bv32, b: bv32)
    requires a != b
    ensures a as int != b as int
  {
    IndexRoundTrip(a);
    IndexRoundTrip(b);
  }

  lemma ChecksumsDiffer(s: seq<byte>, t: seq<byte>, i: nat)
    requires DifferWithinFour(s, t, i)
    ensures Checksum(s) != Checksum(t)
  {
    hide Xor, Bitwise, DifferWithinFour;
    BurstDetected(SEED, s, t, i);
    XorInjective(Bitwise(SEED, s), Bitwise(SEED, t), SEED);
    ToIntInjective(Xor(Bitwise(SEED, s), SEED), Xor(Bitwise(SEED, t), SEED));
  }

  /** The corruptions confined to one identifier field, the two index fields, or four payload bytes. */
  ghost predicate Corrupted(s: Symbol, t: Symbol) {
    && |t.data| == |s.data| && s.crc == t.crc && s.len == t.len
    && (|| (s.packetId != t.packetId && t == s.(packetId := t.packetId))
        || (s.fecId != t.fecId && t == s.(fecId := t.fecId))
        || ((s.index != t.index || s.total != t.total) && t == s.(index := t.index, total := t.total))
        || (t == s.(data := t.data) && Readable(s) && Readable(t)
            && exists i: nat :: DifferWithinFour(Payload(s), Payload(t), i)))
  }

  lemma BE16Injective(x: uint16, y: uint16)
    requires BE16(x) == BE16(y)
    ensures x == y
  {
    RoundTrip16(x);
    RoundTrip16(y);
  }

  lemma BE32Injective(x: uint32, y: uint32)
    requires BE32(x) == BE32(y)
    ensures x == y
  {
    RoundTrip32(x);
    RoundTrip32(y);
  }

  /** Strings that share a prefix and a suffix differ only in between. */
  lemma DifferBetween(pre: seq<byte>, a: seq<byte>, b: seq<byte>, post: seq<byte>)
    requires |a| == |b| <= 4 && a != b
    ensures DifferWithinFour(pre + a + post, pre + b + post, |pre|)
  {
    var s, t := pre + a + post, pre + b + post;
    assert s[|pre|..|pre| + |a|] == a && t[|pre|..|pre| + |a|] == b;
    assert forall j :: 0 <= j < |pre| ==> s[j] == pre[j] == t[j];
    assert forall j :: |pre| + |a| <= j < |s| ==> s[j] == post[j - |pre| - |a|] == t[j];
  }

  lemma DifferAfter(pre: seq<byte>, a: seq<byte>, b: seq<byte>, i: nat)
    requires DifferWithinFour(a, b, i)
    ensures DifferWithinFour(pre + a, pre + b, |pre| + i)
  {
    var s, t := pre + a, pre + b;
    assert s[|pre|..] == a && t[|pre|..] == b;
    forall j | 0 <= j < |s| && !(|pre| + i <= j < |pre| + i + 4)
      ensures s[j] == t[j]
    {
      if j >= |pre| { assert s[j] == a[j - |pre|] && t[j] == b[j - |pre|]; }
    }
  }

  lemma IdentifiersDiffer(s: Symbol, t: Symbol) returns (i: nat)
    requires Readable(s)
    requires (s.packetId != t.packetId && t == s.(packetId := t.packetId))
          || (s.fecId != t.fecId && t == s.(fecId := t.fecId))
    ensures DifferWithinFour(Header(s) + Payload(s), Header(t) + Payload(t), i)
  {
    hide BE16, BE32, DifferWithinFour;
    var tail := BE16(s.index) + BE16(s.total) + BE16(s.len) + Payload(s);
    if s.packetId != t.packetId {
      i := 0;
      if BE32(s.packetId) == BE32(t.packetId) { BE32Injective(s.packetId, t.packetId); }
      DifferBetween([], BE32(s.packetId), BE32(t.packetId), BE32(s.fecId) + tail);
      assert Header(s) + Payload(s) == [] + BE32(s.packetId) + (BE32(s.fecId) + tail);
      assert Header(t) + Payload(t) == [] + BE32(t.packetId) + (BE32(s.fecId) + tail);
    } else {
      i := 4;
      if BE32(s.fecId) == BE32(t.fecId) { BE32Injective(s.fecId, t.fecId); }
      DifferBetween(BE32(s.packetId), BE32(s.fecId), BE32(t.fecId), tail);
      assert Header(s) + Payload(s) == BE32(s.packetId) + BE32(s.fecId) + tail;
      assert Header(t) + Payload(t) == BE32(s.packetId) + BE32(t.fecId) + tail;
    }
  }

  lemma IndicesDiffer(s: Symbol, t: Symbol)
    requires Readable(s)
    requires (s.index != t.index || s.total != t.total) && t == s.(index := t.index, total := t.total)
    ensures DifferWithinFour(Header(s) + Payload(s), Header(t) + Payload(t), 8)
  {
    hide BE16, BE32, DifferWithinFour;
    var pre, post := BE32(s.packetId) + BE32(s.fecId), BE16(s.len) + Payload(s);
    var a, b := BE16(s.index) + BE16(s.total), BE16(t.index) + BE16(t.total);
    if a == b {
      assert BE16(s.index) == a[..2] == b[..2] == BE16(t.index);
      assert BE16(s.total) == a[2..] == b[2..] == BE16(t.total);
      BE16Injective(s.index, t.index);
      BE16Injective(s.total, t.total);
    }
    DifferBetween(pre, a, b, post);
    assert Header(s) + Payload(s) == pre + a + post;
    assert Header(t) + Payload(t) == pre + b + post;
  }

  /** No such corruption of a verified symbol passes verification. */
  lemma CorruptionDetected(s: Symbol, t: Symbol)
    requires Readable(s) && Verifies(s) && Corrupted(s, t)
    ensures Readable(t) && !Verifies(t)
  {
    hide BE16, BE32, DifferWithinFour, Checksum;
    var i: nat;
    if t == s.(data := t.data) {
      var d: nat :| DifferWithinFour(Payload(s), Payload(t), d);
      i := 14 + d;
      assert Header(s) == Header(t);
      DifferAfter(Header(s), Payload(s), Payload(t), d);
    } else if s.packetId != t.packetId || s.fecId != t.fecId {
      i := IdentifiersDiffer(s, t);
    } else {
      i := 8;
      IndicesDiffer(s, t);
    }
    ChecksumsDiffer(Header(s) + Payload(s), Header(t) + Payload(t), i);
  }

  /** Bytes beyond the payload length are outside the checksum. */
  lemma PaddingUnprotected(s: Symbol, t: Symbol)
    requires Readable(s) && Readable(t) && t == s.(data := t.data)
    requires s.len <= MAX_SYMBOL_DATA_SIZE ==> s.data[..s.len] == t.data[..s.len]
    ensures Verifies(s) == Verifies(t)
  {
    assert Header(s) == Header(t) && Payload(s) == Payload(t);
  }
}
