/** The bits of a whole stream: a header, blocks, and a trailer with the stream's checksum. */
module StreamFormat {
  import opened Common
  import opened CanonicalCode
  import opened BitStream
  import opened BlockCodec
  import opened CodingSize
  import opened Huffman
  import BlockFormat

  /** One call of BZ2_compressBlock: the block, its checksum, the stream checksum so far, how
      the block was coded, and the bytes that went out. */
  datatype Block = Block(data: seq<Byte>, crc: bv32, combined: bv32, last: bool, coding: Coding, bytes: seq<Byte>)

  /** A checksum as the stream holds it. */
  function Number(c: bv32): (v: nat)
    ensures v < Pow2(32)
  {
    Powers();
    c as nat
  }

  function HeaderBytes(level: int): seq<Byte>
    requires 1 <= level <= 9
  {
    [0x42, 0x5a, 0x68, 0x30 + level]
  }

  /** The bytes that stand where a block would begin. */
  function TrailerMagic(): seq<Byte> { [0x17, 0x72, 0x45, 0x38, 0x50, 0x90] }

  /** Bytes read as decimal digits, two to a byte. */
  function Decimal(bytes: seq<Byte>): nat {
    if bytes == [] then 0
    else
      var b := bytes[|bytes| - 1];
      100 * Decimal(bytes[..|bytes| - 1]) + 10 * (b / 16) + b % 16
  }

  lemma DecimalSix(a: Byte, b: Byte, c: Byte, d: Byte, e: Byte, f: Byte)
    ensures Decimal([a, b, c, d, e, f]) ==
            100 * (100 * (100 * (100 * (100 * Two(a) + Two(b)) + Two(c)) + Two(d)) + Two(e)) + Two(f)
  {
    DecimalMore([], a);
    DecimalMore([a], b);
    DecimalMore([a, b], c);
    DecimalMore([a, b, c], d);
    DecimalMore([a, b, c, d], e);
    DecimalMore([a, b, c, d, e], f);
    hide Decimal, Two;
    assert [] + [a] == [a] && Decimal([]) == 0 by { NoDigits(); }
    assert [a] + [b] == [a, b] && [a, b] + [c] == [a, b, c] && [a, b, c] + [d] == [a, b, c, d];
    assert [a, b, c, d] + [e] == [a, b, c, d, e] && [a, b, c, d, e] + [f] == [a, b, c, d, e, f];
  }

  lemma NoDigits()
    ensures Decimal([]) == 0
  {
  }

  lemma DecimalMore(bytes: seq<Byte>, b: Byte)
    ensures Decimal(bytes + [b]) == 100 * Decimal(bytes) + Two(b)
  {
    assert (bytes + [b])[..|bytes|] == bytes;
  }

  function Two(b: Byte): nat { 10 * (b / 16) + b % 16 }

  /** A block begins with the digits of pi, rounded, the trailer with those of its square root,
      cut off. */
  lemma MagicNumbers()
    ensures Decimal(Magic()) == 314159265359
    ensures var n := Decimal(TrailerMagic()); n * n <= 3_14159_26535_89793_23846_26 < (n + 1) * (n + 1)
  {
    DecimalSix(0x31, 0x41, 0x59, 0x26, 0x53, 0x59);
    DecimalSix(0x17, 0x72, 0x45, 0x38, 0x50, 0x90);
  }

  /** A trailer that holds this checksum. */
  ghost function TrailerWith(stored: nat): seq<int> {
    BytesBits(TrailerMagic()) + Bits(stored, 32)
  }

  ghost function TrailerBits(combined: bv32): seq<int> {
    TrailerWith(Number(combined))
  }

  /** The coding is one of the block, with the tables it is given, and holds its checksum. */
  ghost predicate Coded(b: Block) {
    b.data != [] ==> Codes(b.coding, b.data) && WellPlanned(b.coding.plan) && b.coding.crc == Number(b.crc)
  }

  ghost predicate AllCoded(blocks: seq<Block>) {
    forall i :: 0 <= i < |blocks| ==> Coded(blocks[i])
  }

  /** An empty block adds nothing, the last one the trailer. */
  ghost function AddedBits(b: Block): seq<int>
    requires Coded(b)
  {
    (if b.data != [] then BlockBits(b.coding) else []) + (if b.last then TrailerBits(b.combined) else [])
  }

  ghost function AllBits(blocks: seq<Block>): seq<int>
    requires AllCoded(blocks)
  {
    if blocks == [] then [] else AddedBits(blocks[0]) + AllBits(blocks[1..])
  }

  /** The header is written with the first block. */
  ghost function StreamBits(level: int, blocks: seq<Block>): seq<int>
    requires 1 <= level <= 9 && AllCoded(blocks)
  {
    if blocks == [] then [] else BytesBits(HeaderBytes(level)) + AllBits(blocks)
  }

  lemma {:induction false} AllBitsAppend(blocks: seq<Block>, b: Block)
    requires AllCoded(blocks) && Coded(b)
    ensures AllCoded(blocks + [b]) && AllBits(blocks + [b]) == AllBits(blocks) + AddedBits(b)
  {
    hide AddedBits, Coded;
    if blocks == [] {
      assert [b][1..] == [] && [] + [b] == [b] && AllBits([]) == [];
      assert AllBits([b]) == AddedBits(b) + [];
    } else {
      AllBitsAppend(blocks[1..], b);
      assert (blocks + [b])[1..] == blocks[1..] + [b] && (blocks + [b])[0] == blocks[0];
      Associate(AddedBits(blocks[0]), AllBits(blocks[1..]), AddedBits(b));
    }
  }

  lemma StreamBitsAppend(level: int, blocks: seq<Block>, b: Block)
    requires 1 <= level <= 9 && AllCoded(blocks) && Coded(b)
    ensures AllCoded(blocks + [b])
    ensures StreamBits(level, blocks + [b]) ==
            StreamBits(level, blocks) + ((if blocks == [] then BytesBits(HeaderBytes(level)) else []) + AddedBits(b))
  {
    hide AddedBits, Coded, AllBits, BytesBits;
    AllBitsAppend(blocks, b);
    var h, x, y := BytesBits(HeaderBytes(level)), AllBits(blocks), AddedBits(b);
    if blocks == [] {
      NoParts();
      assert [] + (h + y) == h + y && [] + y == y;
    } else {
      assert h + (x + y) == h + x + ([] + y);
    }
  }

  lemma NoParts()
    ensures AllBits([]) == []
  {
  }

  // ---------- writing ----------

  /** Bytes, as bits. */
  method PutBytes(w: BitWriter, bytes: seq<Byte>)
    requires w.Valid()
    modifies w
    ensures w.Valid() && w.Written() == old(w.Written()) + BytesBits(bytes)
  {
    hide BitWriter.Valid, BitWriter.Written, BytesBits, Bits;
    NoBytes();
    assert bytes[..0] == [] && w.Written() + [] == w.Written();
    for i := 0 to |bytes|
      invariant w.Valid() && w.Written() == old(w.Written()) + BytesBits(bytes[..i])
    {
      BytesBitsPush(bytes[..i], bytes[i]);
      assert bytes[..i + 1] == bytes[..i] + [bytes[i]];
      Associate(old(w.Written()), BytesBits(bytes[..i]), Bits(bytes[i], 8));
      PutByte(w, bytes[i]);
    }
    assert bytes[..|bytes|] == bytes;
  }

  /** The trailer; all bits go out. */
  method PutTrailer(w: BitWriter, combined: bv32) returns (ghost pad: nat)
    requires w.Valid()
    modifies w
    ensures pad < 8 && BytesBits(w.zbits) == old(w.Written()) + (TrailerBits(combined) + Bits(0, pad))
  {
    hide BitWriter.Valid, BitWriter.Written, BytesBits, Bits, Number, Pow2;
    PutBytes(w, TrailerMagic());
    PutUInt32(w, Number(combined));
    pad := w.FinishWrite();
    ghost var a, b, c := BytesBits(TrailerMagic()), Bits(Number(combined), 32), Bits(0, pad);
    assert old(w.Written()) + a + b + c == old(w.Written()) + ((a + b) + c);
  }

  /** The bits of BZ2_compressBlock: the header first of all, then the block unless it is
      empty, then the trailer if it is the last one.  The bit buffer is carried over from
      block to block. */
  method CompressBlock(level: int, first: bool, data: seq<Byte>, inUse: seq<bool>, crc: bv32, combined: bv32,
                       last: bool,
                       buff0: nat, live0: int, ghost held0: seq<int>)
    returns (zbits: seq<Byte>, buff: nat, live: int, ghost held: seq<int>, ghost coding: Coding, ghost pad: nat)
    requires 1 <= level <= 9 && |data| <= BLOCK_LIMIT && Covers(inUse, data)
    requires live0 == |held0| && HeldAtTop(buff0, held0) && (first ==> held0 == [])
    ensures Coded(Block(data, crc, combined, last, coding, zbits))
    ensures var bits := held0 + ((if first then BytesBits(HeaderBytes(level)) else []) +
                                 AddedBits(Block(data, crc, combined, last, coding, zbits)));
            if last then held == [] && pad < 8 && BytesBits(zbits) == bits + Bits(0, pad)
            else live == |held| && HeldAtTop(buff, held) && BytesBits(zbits) + held == bits
    ensures last ==> zbits != []
  {
    hide BitWriter.Valid, BitWriter.Written, HeldAtTop, Bits, BlockBits, Codes, WellPlanned, Covers, BytesBits, Number,
         TrailerBits, Pow2;
    ghost var header := if first then BytesBits(HeaderBytes(level)) else [];
    var w: BitWriter;
    if first {
      w := new BitWriter();
      PutBytes(w, HeaderBytes(level));
    } else {
      w := new BitWriter.Resume(buff0, live0, held0);
    }
    assert w.Written() == held0 + header;
    coding := PutBlock(w, data, inUse, crc);
    if data != [] { PlanSuits(coding, data); }
    ghost var part := if data != [] then BlockBits(coding) else [];
    pad := 0;
    if last {
      pad := PutTrailer(w, combined);
      zbits, buff, live, held := w.zbits, 0, 0, [];
      TrailerLong(combined);
      NoBytes();
      assert held0 + header + part + (TrailerBits(combined) + Bits(0, pad)) ==
          held0 + (header + (part + TrailerBits(combined))) + Bits(0, pad);
    } else {
      zbits, buff, live, held := w.zbits, w.bsBuff, w.bsLive, w.held;
      WriterOpen(w);
      assert held0 + header + part == held0 + (header + (part + []));
    }
  }

  lemma PlanSuits(c: Coding, data: seq<Byte>)
    requires Codes(c, data)
    ensures BlockFormat.Suitable(c.plan)
  {
  }

  lemma WriterOpen(w: BitWriter)
    requires w.Valid()
    ensures w.bsLive == |w.held| && HeldAtTop(w.bsBuff, w.held) && w.Written() == BytesBits(w.zbits) + w.held
  {
  }

  /** How many bytes a call can write. */
  lemma BytesFew(b: Block, level: int, first: bool, buff0: nat, held0: seq<int>, held: seq<int>, pad: nat)
    requires 1 <= level <= 9 && Coded(b) && HeldAtTop(buff0, held0) && (b.last ==> pad < 8)
    requires BytesBits(b.bytes) + held ==
             held0 + ((if first then BytesBits(HeaderBytes(level)) else []) + AddedBits(b)) +
             if b.last then Bits(0, pad) else []
    ensures 8 * |b.bytes| <= BESIDES + LONGEST * (|b.data| + 1)
  {
    hide Bits, BlockBits, Codes, WellPlanned, BytesBits, TrailerBits;
    TrailerLong(b.combined);
    if b.data != [] { BlockShort(b.coding, b.data); }
  }

  lemma TrailerLong(combined: bv32)
    ensures |TrailerBits(combined)| == 80
  {
    hide BytesBits, Number, Pow2;
  }

  /** The block itself, unless it is empty. */
  method PutBlock(w: BitWriter, data: seq<Byte>, inUse: seq<bool>, crc: bv32) returns (ghost coding: Coding)
    requires w.Valid() && |data| <= BLOCK_LIMIT && Covers(inUse, data)
    modifies w
    ensures w.Valid() && (data != [] ==> Codes(coding, data) && WellPlanned(coding.plan) && coding.crc == Number(crc))
    ensures w.Written() == old(w.Written()) + if data != [] then BlockBits(coding) else []
  {
    hide BitWriter.Valid, BitWriter.Written, Codes, WellPlanned, Covers, BlockBits, Number, Pow2;
    coding := *;
    if |data| > 0 {
      var block := new Byte[|data|](i requires 0 <= i < |data| => data[i]);
      assert block[..] == data;
      coding := EncodeBlock(w, block, inUse, Number(crc));
    } else {
      assert w.Written() + [] == w.Written();
    }
  }
}
