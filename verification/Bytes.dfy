/**
 Big-endian fields: htonl and htons on the wire, and the shifts of symbol_serialise_header under the
 checksum.
 */
module Bytes {
  import opened Types

  function BE16(x: uint16): (b: seq<byte>)
    ensures |b| == 2
  {
    [x / 0x100, x % 0x100]
  }

  function BE32(x: uint32): (b: seq<byte>)
    ensures |b| == 4
  {
    [x / 0x100_0000, x / 0x1_0000 % 0x100, x / 0x100 % 0x100, x % 0x100]
  }

  function From16(b: seq<byte>): (x: uint16)
    requires |b| == 2
  {
    b[0] as int * 0x100 + b[1]
  }

  function From32(b: seq<byte>): (x: uint32)
    requires |b| == 4
  {
    b[0] as int * 0x100_0000 + b[1] as int * 0x1_0000 + b[2] as int * 0x100 + b[3]
  }

  /** The number a byte string denotes in base 256, most significant byte first. */
  function Number(b: seq<byte>): nat {
    if b == [] then 0 else 0x100 * Number(b[..|b| - 1]) + b[|b| - 1]
  }

  lemma NumberOfTwo(a: byte, b: byte)
    ensures Number([a, b]) == 0x100 * a + b
  {
    assert [a, b][..1] == [a] && [a][..0] == [];
    assert Number([a]) == 0x100 * Number([]) + a;
  }

  lemma NumberOfFour(a: byte, b: byte, c: byte, d: byte)
    ensures Number([a, b, c, d]) == 0x100_0000 * a + 0x1_0000 * b + 0x100 * c + d
  {
    assert [a, b, c, d][..3] == [a, b, c] && [a, b, c][..2] == [a, b];
    NumberOfTwo(a, b);
    assert Number([a, b, c]) == 0x100 * Number([a, b]) + c;
    assert Number([a, b, c, d]) == 0x100 * Number([a, b, c]) + d;
  }

  /** The byte order: written fields denote their values, and reading takes the number back. */
  lemma BigEndian16(x: uint16, b: seq<byte>)
    requires |b| == 2
    ensures Number(BE16(x)) == x && Number(b) == From16(b)
  {
    NumberOfTwo(x / 0x100, x % 0x100);
    NumberOfTwo(b[0], b[1]);
    assert b == [b[0], b[1]];
  }

  lemma Number32(b: seq<byte>)
    requires |b| == 4
    ensures Number(b) == From32(b)
  {
    hide Number;
    NumberOfFour(b[0], b[1], b[2], b[3]);
    assert b == [b[0], b[1], b[2], b[3]];
  }

  lemma BigEndian32(x: uint32, b: seq<byte>)
    requires |b| == 4
    ensures Number(BE32(x)) == x && Number(b) == From32(b)
  {
    RoundTrip32(x);
    Number32(BE32(x));
    Number32(b);
  }

  lemma RoundTrip16(x: uint16)
    ensures From16(BE16(x)) == x
  {
  }

  lemma RoundTrip32(x: uint32)
    ensures From32(BE32(x)) == x
  {
    var a, b := x / 0x1_0000, x % 0x1_0000;
    assert x / 0x100_0000 == a / 0x100 && x / 0x1_0000 % 0x100 == a % 0x100;
    assert x / 0x100 % 0x100 == b / 0x100 && x % 0x100 == b % 0x100;
  }
}
