/** The block checksum of bzip2: a 32-bit cyclic redundancy check, most significant bit
    first, one table lookup a byte. */
module BlockCrc {
  import opened Common

  const POLY: bv32 := 0x04c11db7

  /** One bit of polynomial division. */
  function CrcBit(r: bv32): bv32 {
    if r & 0x8000_0000 != 0 then (r << 1) ^ POLY else r << 1
  }

  /** k bits of polynomial division. */
  function CrcBits(r: bv32, k: nat): bv32
    decreases k
  {
    if k == 0 then r else CrcBits(CrcBit(r), k - 1)
  }

  /** Entry i of the lookup table. */
  function CrcTable(i: bv32): bv32 {
    CrcBits(i << 24, 8)
  }

  lemma EightBits(r: bv32)
    ensures CrcBits(r, 8) == CrcBit(CrcBit(CrcBit(CrcBit(CrcBit(CrcBit(CrcBit(CrcBit(r))))))))
  {
    hide CrcBit;
    assert CrcBits(r, 8) == CrcBits(CrcBit(CrcBit(CrcBit(CrcBit(r)))), 4);
  }

  /** The table that the source spells out, at the powers of two and at its end. */
  lemma TableEntries()
    ensures CrcTable(0x01) == 0x04c1_1db7 && CrcTable(0x02) == 0x0982_3b6e && CrcTable(0x04) == 0x1304_76dc
    ensures CrcTable(0x08) == 0x2608_edb8 && CrcTable(0x10) == 0x4c11_db70 && CrcTable(0x20) == 0x9823_b6e0
    ensures CrcTable(0x40) == 0x3486_7077 && CrcTable(0x80) == 0x690c_e0ee && CrcTable(0xff) == 0xb1f7_40b4
  {
    hide CrcBits;
    EightBits(0x01 << 24);
    EightBits(0x02 << 24);
    EightBits(0x04 << 24);
    EightBits(0x08 << 24);
    EightBits(0x10 << 24);
    EightBits(0x20 << 24);
    EightBits(0x40 << 24);
    EightBits(0x80 << 24);
    EightBits(0xff << 24);
  }

  /** BZ_UPDATE_CRC. */
  function Update(crc: bv32, ch: Byte): bv32 {
    (crc << 8) ^ CrcTable((crc >> 24) ^ (ch as bv32))
  }

  /** The checksum carried over a string of bytes. */
  function UpdateAll(crc: bv32, bytes: seq<Byte>): bv32 {
    if bytes == [] then crc else Update(UpdateAll(crc, bytes[..|bytes| - 1]), bytes[|bytes| - 1])
  }

  lemma {:induction false} UpdateAllConcat(crc: bv32, a: seq<Byte>, b: seq<Byte>)
    ensures UpdateAll(crc, a + b) == UpdateAll(UpdateAll(crc, a), b)
  {
    hide Update;
    if b == [] {
      assert a + b == a;
    } else {
      var c := b[..|b| - 1];
      UpdateAllConcat(crc, a, c);
      assert (a + b)[..|a + b| - 1] == a + c;
    }
  }

  const INITIAL: bv32 := 0xffff_ffff

  /** BZ_FINALISE_CRC. */
  function Finalise(crc: bv32): bv32 { !crc }

  /** The running stream checksum after one more block: rotated left, then mixed in. */
  function Combine(combined: bv32, block: bv32): bv32 {
    ((combined << 1) | (combined >> 31)) ^ block
  }
}
