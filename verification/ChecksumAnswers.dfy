/** A known checksum: the register, byte by byte, over the ASCII digits 1 to 9. */
module ChecksumAnswers {
  import opened Types
  import opened Crc32c
  import opened SymbolCrc

  lemma NextByte(x: bv32, s: seq<byte>, i: nat, w: bv32, y: bv32)
    requires i < |s| && Word(s[i]) == w && Shift8(x ^ w) == y
    ensures Bitwise(x, s[i..]) == Bitwise(y, s[i + 1..])
  {
    hide Shift8, Word;
    assert s[i..][1..] == s[i + 1..];
  }

  lemma WordDoubles(h: byte, odd: bool)
    requires 1 <= h < 0x80
    ensures Word(2 * h + if odd then 1 else 0) == (if odd then 1 else 0) ^ (Word(h) << 1)
  {
  }

  /** The digits as words. */
  lemma DigitWords()
    ensures Word(0x31) == 0x31 && Word(0x32) == 0x32 && Word(0x33) == 0x33 && Word(0x34) == 0x34 && Word(0x35) == 0x35
    ensures Word(0x36) == 0x36 && Word(0x37) == 0x37 && Word(0x38) == 0x38 && Word(0x39) == 0x39
  {
    WordDoubles(1, true);
    WordDoubles(3, false);
    WordDoubles(6, false);
    WordDoubles(12, false);
    WordDoubles(24, true);
    WordDoubles(12, true);
    WordDoubles(25, false);
    WordDoubles(25, true);
    WordDoubles(6, true);
    WordDoubles(13, false);
    WordDoubles(26, false);
    WordDoubles(26, true);
    WordDoubles(13, true);
    WordDoubles(27, false);
    WordDoubles(27, true);
    WordDoubles(3, true);
    WordDoubles(7, false);
    WordDoubles(14, false);
    WordDoubles(28, false);
    WordDoubles(28, true);
  }

  lemma FirstRegisters()
    ensures Shift8(0xFFFF_FFFF ^ 0x31) == 0x6F0A_661C && Shift8(0x6F0A_661C ^ 0x32) == 0x8CAA_3B9F
    ensures Shift8(0x8CAA_3B9F ^ 0x33) == 0xEF84_D04D
  {
  }

  lemma MiddleRegisters()
    ensures Shift8(0xEF84_D04D ^ 0x34) == 0x09C5_0B11 && Shift8(0x09C5_0B11 ^ 0x35) == 0xE72E_DCCA
    ensures Shift8(0xE72E_DCCA ^ 0x36) == 0xBECA_8E79
  {
  }

  lemma LastRegisters()
    ensures Shift8(0xBECA_8E79 ^ 0x37) == 0xEDBD_6815 && Shift8(0xEDBD_6815 ^ 0x38) == 0x9F78_7F65
    ensures Shift8(0x9F78_7F65 ^ 0x39) == 0x1CF9_6D7C
  {
  }

  /** The check value of CRC-32C: the checksum of the digits is 0xE3069283. */
  lemma CheckValue()
    ensures Checksum([0x31, 0x32, 0x33, 0x34, 0x35, 0x36, 0x37, 0x38, 0x39]) == 0xE306_9283
  {
    hide Shift8, Word, Bitwise;
    DigitWords();
    FirstRegisters();
    MiddleRegisters();
    LastRegisters();
    var s: seq<byte> := [0x31, 0x32, 0x33, 0x34, 0x35, 0x36, 0x37, 0x38, 0x39];
    assert s[0..] == s && s[9..] == [];
    NextByte(0xFFFF_FFFF, s, 0, 0x31, 0x6F0A_661C);
    NextByte(0x6F0A_661C, s, 1, 0x32, 0x8CAA_3B9F);
    NextByte(0x8CAA_3B9F, s, 2, 0x33, 0xEF84_D04D);
    NextByte(0xEF84_D04D, s, 3, 0x34, 0x09C5_0B11);
    NextByte(0x09C5_0B11, s, 4, 0x35, 0xE72E_DCCA);
    NextByte(0xE72E_DCCA, s, 5, 0x36, 0xBECA_8E79);
    NextByte(0xBECA_8E79, s, 6, 0x37, 0xEDBD_6815);
    NextByte(0xEDBD_6815, s, 7, 0x38, 0x9F78_7F65);
    NextByte(0x9F78_7F65, s, 8, 0x39, 0x1CF9_6D7C);
    NothingLeft(0x1CF9_6D7C);
  }

  lemma NothingLeft(x: bv32)
    ensures Bitwise(x, []) == x
  {
  }
}
