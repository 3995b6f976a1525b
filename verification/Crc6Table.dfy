/**
 The lookup table of crc6.c, lines 16-33, and the rule its entries follow: entry 2i is entry i
 doubled and reduced, entry 2i + 1 differs from it by x^6 modulo the divisor.
 */
module Crc6Table {

  /** The 256 entries of the source's table, sixteen to a row. */
  const CRC6_TABLE: seq<seq<nat>> := [
    [0x00, 0x2F, 0x31, 0x1E, 0x0D, 0x22, 0x3C, 0x13, 0x1A, 0x35, 0x2B, 0x04, 0x17, 0x38, 0x26, 0x09],
    [0x34, 0x1B, 0x05, 0x2A, 0x39, 0x16, 0x08, 0x27, 0x2E, 0x01, 0x1F, 0x30, 0x23, 0x0C, 0x12, 0x3D],
    [0x07, 0x28, 0x36, 0x19, 0x0A, 0x25, 0x3B, 0x14, 0x1D, 0x32, 0x2C, 0x03, 0x10, 0x3F, 0x21, 0x0E],
    [0x33, 0x1C, 0x02, 0x2D, 0x3E, 0x11, 0x0F, 0x20, 0x29, 0x06, 0x18, 0x37, 0x24, 0x0B, 0x15, 0x3A],
    [0x0E, 0x21, 0x3F, 0x10, 0x03, 0x2C, 0x32, 0x1D, 0x14, 0x3B, 0x25, 0x0A, 0x19, 0x36, 0x28, 0x07],
    [0x3A, 0x15, 0x0B, 0x24, 0x37, 0x18, 0x06, 0x29, 0x20, 0x0F, 0x11, 0x3E, 0x2D, 0x02, 0x1C, 0x33],
    [0x09, 0x26, 0x38, 0x17, 0x04, 0x2B, 0x35, 0x1A, 0x13, 0x3C, 0x22, 0x0D, 0x1E, 0x31, 0x2F, 0x00],
    [0x3D, 0x12, 0x0C, 0x23, 0x30, 0x1F, 0x01, 0x2E, 0x27, 0x08, 0x16, 0x39, 0x2A, 0x05, 0x1B, 0x34],
    [0x1C, 0x33, 0x2D, 0x02, 0x11, 0x3E, 0x20, 0x0F, 0x06, 0x29, 0x37, 0x18, 0x0B, 0x24, 0x3A, 0x15],
    [0x28, 0x07, 0x19, 0x36, 0x25, 0x0A, 0x14, 0x3B, 0x32, 0x1D, 0x03, 0x2C, 0x3F, 0x10, 0x0E, 0x21],
    [0x1B, 0x34, 0x2A, 0x05, 0x16, 0x39, 0x27, 0x08, 0x01, 0x2E, 0x30, 0x1F, 0x0C, 0x23, 0x3D, 0x12],
    [0x2F, 0x00, 0x1E, 0x31, 0x22, 0x0D, 0x13, 0x3C, 0x35, 0x1A, 0x04, 0x2B, 0x38, 0x17, 0x09, 0x26],
    [0x12, 0x3D, 0x23, 0x0C, 0x1F, 0x30, 0x2E, 0x01, 0x08, 0x27, 0x39, 0x16, 0x05, 0x2A, 0x34, 0x1B],
    [0x26, 0x09, 0x17, 0x38, 0x2B, 0x04, 0x1A, 0x35, 0x3C, 0x13, 0x0D, 0x22, 0x31, 0x1E, 0x00, 0x2F],
    [0x15, 0x3A, 0x24, 0x0B, 0x18, 0x37, 0x29, 0x06, 0x0F, 0x20, 0x3E, 0x11, 0x02, 0x2D, 0x33, 0x1C],
    [0x21, 0x0E, 0x10, 0x3F, 0x2C, 0x03, 0x1D, 0x32, 0x3B, 0x14, 0x0A, 0x25, 0x36, 0x19, 0x07, 0x28]]

  function Entry(i: nat): nat
    requires i < 256
  {
    CRC6_TABLE[i / 16][i % 16]
  }

  /** Subtracting x^6 mod the divisor: every digit changes but the fifth. */
  function Flip(v: nat): nat
    requires v < 64
  {
    if v < 16 || 32 <= v < 48 then 47 - v else 79 - v
  }

  /** Entries 2i and 2i + 1 follow from entry i, for all i from lo to before hi. */
  predicate Doubles(lo: nat, hi: nat)
    requires hi <= 128
    decreases hi - lo
  {
    lo >= hi ||
    (&& Entry(lo) < 64
     && Entry(2 * lo) == (if Entry(lo) < 32 then 2 * Entry(lo) else Flip(2 * Entry(lo) - 64))
     && Entry(2 * lo) < 64 && Entry(2 * lo + 1) == Flip(Entry(2 * lo))
     && Doubles(lo + 1, hi))
  }

  lemma Chunk0()
    ensures Doubles(0, 8)
  {}

  lemma Chunk1()
    ensures Doubles(8, 16)
  {}

  lemma Chunk2()
    ensures Doubles(16, 24)
  {}

  lemma Chunk3()
    ensures Doubles(24, 32)
  {}

  lemma Chunk4()
    ensures Doubles(32, 40)
  {}

  lemma Chunk5()
    ensures Doubles(40, 48)
  {}

  lemma Chunk6()
    ensures Doubles(48, 56)
  {}

  lemma Chunk7()
    ensures Doubles(56, 64)
  {}

  lemma Chunk8()
    ensures Doubles(64, 72)
  {}

  lemma Chunk9()
    ensures Doubles(72, 80)
  {}

  lemma Chunk10()
    ensures Doubles(80, 88)
  {}

  lemma Chunk11()
    ensures Doubles(88, 96)
  {}

  lemma Chunk12()
    ensures Doubles(96, 104)
  {}

  lemma Chunk13()
    ensures Doubles(104, 112)
  {}

  lemma Chunk14()
    ensures Doubles(112, 120)
  {}

  lemma Chunk15()
    ensures Doubles(120, 128)
  {}

  lemma {:induction false} DoublesAt(lo: nat, hi: nat, i: nat)
    requires hi <= 128 && Doubles(lo, hi) && lo <= i < hi
    ensures Doubles(i, i + 1)
    decreases i - lo
  {
    hide Entry, Flip;
    if lo < i {
      DoublesAt(lo + 1, hi, i);
    }
  }

  lemma ChunkOf(c: nat)
    requires c < 16
    ensures Doubles(8 * c, 8 * c + 8)
  {
    hide *;
    Chunk0();
    Chunk1();
    Chunk2();
    Chunk3();
    Chunk4();
    Chunk5();
    Chunk6();
    Chunk7();
    Chunk8();
    Chunk9();
    Chunk10();
    Chunk11();
    Chunk12();
    Chunk13();
    Chunk14();
    Chunk15();
  }

  lemma AllDouble(i: nat)
    requires i < 128
    ensures Entry(i) < 64 && Entry(2 * i) < 64 && Entry(2 * i + 1) == Flip(Entry(2 * i))
    ensures Entry(2 * i) == (if Entry(i) < 32 then 2 * Entry(i) else Flip(2 * Entry(i) - 64))
  {
    hide Entry, Flip;
    ChunkOf(i / 8);
    DoublesAt(8 * (i / 8), 8 * (i / 8) + 8, i);
  }
}
