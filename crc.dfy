/**
 * CRC-32 as PHP's `crc32` computes it: the CRC of ISO 3309 / ITU-T V.42
 * (reflected polynomial 0xedb88320, initial value and final xor 0xffffffff),
 * one bit at a time.
 */
module Crc {
  import opened Bytes

  const POLY: bv32 := 0xEDB8_8320

  function ShiftBit(c: bv32): bv32
  {
    if c & 1 == 1 then (c >> 1) ^ POLY else c >> 1
  }

  /** Eight bit steps: one byte's worth of polynomial division. */
  function ShiftByte(c: bv32): bv32
  {
    ShiftBit(ShiftBit(ShiftBit(ShiftBit(ShiftBit(ShiftBit(ShiftBit(ShiftBit(c))))))))
  }

  /** A byte as a 32-bit word, bit by bit. */
  function Word(b: u8): bv32
  {
    (if b / 0x80 % 2 == 1 then 0x80 else 0) | (if b / 0x40 % 2 == 1 then 0x40 else 0) |
    (if b / 0x20 % 2 == 1 then 0x20 else 0) | (if b / 0x10 % 2 == 1 then 0x10 else 0) |
    (if b / 0x08 % 2 == 1 then 0x08 else 0) | (if b / 0x04 % 2 == 1 then 0x04 else 0) |
    (if b / 0x02 % 2 == 1 then 0x02 else 0) | (if b % 2 == 1 then 0x01 else 0)
  }

  function Update(c: bv32, s: seq<u8>): bv32
    decreases |s|
  {
    if s == [] then c else Update(ShiftByte(c ^ Word(s[0])), s[1..])
  }

  function Crc32(s: seq<u8>): bv32
  {
    Update(0xFFFF_FFFF, s) ^ 0xFFFF_FFFF
  }

  /**
   * The register after each suffix of "123456789", one byte per lemma so
   * that each proof unfolds `Update` once.
   */
  lemma UpdateFrom0(s: seq<u8>)
    requires s == [0x31, 0x32, 0x33, 0x34, 0x35, 0x36, 0x37, 0x38, 0x39]
    ensures Update(0xFFFFFFFF, s) == 0x340BC6D9
  {
    assert s[0] == 0x31 && Word(0x31) == 0x31;
    assert ShiftByte(0xFFFFFFFF ^ 0x31) == 0x7C231048;
    UpdateFrom1(s[1..]);
  }

  lemma UpdateFrom1(s: seq<u8>)
    requires s == [0x32, 0x33, 0x34, 0x35, 0x36, 0x37, 0x38, 0x39]
    ensures Update(0x7C231048, s) == 0x340BC6D9
  {
    assert s[0] == 0x32 && Word(0x32) == 0x32;
    assert ShiftByte(0x7C231048 ^ 0x32) == 0xB0ACBB32;
    UpdateFrom2(s[1..]);
  }

  lemma UpdateFrom2(s: seq<u8>)
    requires s == [0x33, 0x34, 0x35, 0x36, 0x37, 0x38, 0x39]
    ensures Update(0xB0ACBB32, s) == 0x340BC6D9
  {
    assert s[0] == 0x33 && Word(0x33) == 0x33;
    assert ShiftByte(0xB0ACBB32 ^ 0x33) == 0x77B79C2D;
    UpdateFrom3(s[1..]);
  }

  lemma UpdateFrom3(s: seq<u8>)
    requires s == [0x34, 0x35, 0x36, 0x37, 0x38, 0x39]
    ensures Update(0x77B79C2D, s) == 0x340BC6D9
  {
    assert s[0] == 0x34 && Word(0x34) == 0x34;
    assert ShiftByte(0x77B79C2D ^ 0x34) == 0x641C1F5C;
    UpdateFrom4(s[1..]);
  }

  lemma UpdateFrom4(s: seq<u8>)
    requires s == [0x35, 0x36, 0x37, 0x38, 0x39]
    ensures Update(0x641C1F5C, s) == 0x340BC6D9
  {
    assert s[0] == 0x35 && Word(0x35) == 0x35;
    assert ShiftByte(0x641C1F5C ^ 0x35) == 0x340AC5E3;
    UpdateFrom5(s[1..]);
  }

  lemma UpdateFrom5(s: seq<u8>)
    requires s == [0x36, 0x37, 0x38, 0x39]
    ensures Update(0x340AC5E3, s) == 0x340BC6D9
  {
    assert s[0] == 0x36 && Word(0x36) == 0x36;
    assert ShiftByte(0x340AC5E3 ^ 0x36) == 0xF68D2C9E;
    UpdateFrom6(s[1..]);
  }

  lemma UpdateFrom6(s: seq<u8>)
    requires s == [0x37, 0x38, 0x39]
    ensures Update(0xF68D2C9E, s) == 0x340BC6D9
  {
    assert s[0] == 0x37 && Word(0x37) == 0x37;
    assert ShiftByte(0xF68D2C9E ^ 0x37) == 0xAFFC9660;
    UpdateFrom7(s[1..]);
  }

  lemma UpdateFrom7(s: seq<u8>)
    requires s == [0x38, 0x39]
    ensures Update(0xAFFC9660, s) == 0x340BC6D9
  {
    assert s[0] == 0x38 && Word(0x38) == 0x38;
    assert ShiftByte(0xAFFC9660 ^ 0x38) == 0x651F2550;
    UpdateFrom8(s[1..]);
  }

  lemma UpdateFrom8(s: seq<u8>)
    requires s == [0x39]
    ensures Update(0x651F2550, s) == 0x340BC6D9
  {
    assert s[0] == 0x39 && Word(0x39) == 0x39;
    assert ShiftByte(0x651F2550 ^ 0x39) == 0x340BC6D9;
    assert s[1..] == [];
  }

  /** The standard check value: the CRC-32 of the ASCII digits "123456789". */
  lemma CheckValue(s: seq<u8>)
    requires s == [0x31, 0x32, 0x33, 0x34, 0x35, 0x36, 0x37, 0x38, 0x39]
    ensures Crc32(s) == 0xCBF4_3926
  {
    UpdateFrom0(s);
  }
}
