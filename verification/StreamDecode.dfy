/** The decompressor's stream loop, and what it restores from a finished stream. */
module StreamDecode {
  import opened Common
  import opened Rotations
  import opened BurrowsWheeler
  import opened CanonicalCode
  import opened BitStream
  import opened MtfEncoder
  import opened Huffman
  import opened BlockFormat
  import opened BlockReceive
  import opened BlockCodec
  import opened BlockDecode
  import opened BlockCrc
  import opened StreamFormat
  import opened RunLengthOutput
  import RunLength
  import MoveToFront
  import opened OutputForms
  import CompressStream

  // ---------- a block there always is ----------

  lemma {:induction false} NothingElseUsed(inUse: seq<bool>, k: nat)
    requires k <= |inUse| && |inUse| > 0 && inUse[0] && forall i :: 0 < i < |inUse| ==> !inUse[i]
    ensures UsedBelow(inUse, k) == if k == 0 then 0 else 1
  {
    if k > 0 { NothingElseUsed(inUse, k - 1); }
  }

  /** Three codes of two bits. */
  lemma SmallTable()
    ensures TableFits([2, 2, 2], 3)
  {
    hide Pow2;
    var lens: seq<Byte> := [2, 2, 2];
    assert KraftSum(lens, LONGEST, 3) == KraftSum(lens, LONGEST, 2) + Pow2(LONGEST - 2);
    assert KraftSum(lens, LONGEST, 2) == KraftSum(lens, LONGEST, 1) + Pow2(LONGEST - 2);
    assert KraftSum(lens, LONGEST, 1) == KraftSum(lens, LONGEST, 0) + Pow2(LONGEST - 2);
    FourTimes(LONGEST - 2);
  }

  lemma FourTimes(k: nat)
    ensures Pow2(k + 2) == 4 * Pow2(k)
  {
  }

  lemma SmallSymbols(inUse: seq<bool>)
    requires |inUse| == 256 && inUse[0] && forall i :: 0 < i < |inUse| ==> !inUse[i]
    ensures Covers(inUse, [0]) && IsPermutation([0], 1) && SymbolsOf([0], [0], inUse) == [0, 2] &&
            UsedBelow(inUse, 256) == 1
  {
    NothingElseUsed(inUse, 256);
    var l := LastColumn([0], [0]);
    assert l == [0];
    assert RanksOf(l, inUse) == [0];
    assert MoveToFront.Encode([0], [0], 0, 2) == MoveToFront.Encode([0][1..], [0], 1, 2);
    assert [0][1..] == [];
    assert MoveToFront.RunCode(0) == [0];
  }

  function SmallPlan(inUse: seq<bool>): Plan {
    Plan(inUse, [[2, 2, 2], [2, 2, 2]], [0], [0, 2])
  }

  lemma SmallPlanSuits(inUse: seq<bool>)
    requires |inUse| == 256 && UsedBelow(inUse, 256) == 1
    ensures Suitable(SmallPlan(inUse))
  {
    hide TableFits;
    SmallTable();
    var p := SmallPlan(inUse);
    assert forall t :: 0 <= t < |p.tables| ==> p.tables[t] == [2, 2, 2];
  }

  lemma OneRotation()
    ensures RotationSorted([0], [0])
  {
    var s: seq<Byte> := [0];
    assert Cmp(s, 0, 0, 1) == 0;
  }

  /** The block of a single zero byte. */
  lemma SomeCoding() returns (c: Coding, block: seq<Byte>)
    ensures Codes(c, block)
  {
    hide RotationSorted, Suitable, SymbolsOf, Covers, Pow2, IsPermutation;
    var inUse := seq(256, i => i == 0);
    SmallSymbols(inUse);
    SmallPlanSuits(inUse);
    OneRotation();
    block := [0];
    c := Coding([0], 0, 0, SmallPlan(inUse));
  }

  // ---------- what the blocks of a stream stand for ----------

  /** Calls that compressed something. */
  ghost function Fulls(blocks: seq<Block>): seq<Block> {
    if blocks == [] then [] else
      var b := blocks[|blocks| - 1];
      Fulls(blocks[..|blocks| - 1]) + if b.data != [] then [b] else []
  }

  /** A block as a decoder meets it: coded, well-formed and with its checksum. */
  ghost predicate Whole(b: Block, limit: int) {
    && Codes(b.coding, b.data) && b.coding.crc == Number(b.crc) && |b.data| <= limit
    && RunLength.Decode(b.data).Some? && b.crc == Finalise(UpdateAll(INITIAL, RunLength.Decode(b.data).value))
  }

  ghost predicate AllWhole(parts: seq<Block>, limit: int) {
    forall i :: 0 <= i < |parts| ==> Whole(parts[i], limit)
  }

  ghost function BitsOf(b: Block): seq<int> {
    if Suitable(b.coding.plan) then BlockBits(b.coding) else []
  }

  ghost function BytesOf(b: Block): seq<Byte> {
    if RunLength.Decode(b.data).Some? then RunLength.Decode(b.data).value else []
  }

  /** The bits of the blocks. */
  ghost function CodedBits(parts: seq<Block>): seq<int> {
    if parts == [] then [] else BitsOf(parts[0]) + CodedBits(parts[1..])
  }

  /** What they decode to, one after the other. */
  ghost function Bytes(parts: seq<Block>): seq<Byte> {
    if parts == [] then [] else BytesOf(parts[0]) + Bytes(parts[1..])
  }

  /** The stream checksum after them. */
  ghost function Chain(crc: bv32, parts: seq<Block>): bv32
    decreases |parts|
  {
    if parts == [] then crc else Chain(Combine(crc, parts[0].crc), parts[1..])
  }

  lemma {:induction false} PartsAppend(crc: bv32, parts: seq<Block>, b: Block)
    ensures CodedBits(parts + [b]) == CodedBits(parts) + BitsOf(b)
    ensures Bytes(parts + [b]) == Bytes(parts) + BytesOf(b)
    ensures Chain(crc, parts + [b]) == Combine(Chain(crc, parts), b.crc)
    decreases |parts|
  {
    hide BitsOf, BytesOf, Combine;
    var all := parts + [b];
    if parts == [] {
      assert all[1..] == [] && all[0] == b;
      assert BitsOf(b) + [] == [] + BitsOf(b) && BytesOf(b) + [] == [] + BytesOf(b);
    } else {
      PartsAppend(Combine(crc, parts[0].crc), parts[1..], b);
      assert all[1..] == parts[1..] + [b] && all[0] == parts[0];
      Associate(BitsOf(parts[0]), CodedBits(parts[1..]), BitsOf(b));
      Associate(BytesOf(parts[0]), Bytes(parts[1..]), BytesOf(b));
    }
  }

  /** What a call adds, in those terms. */
  lemma AddedIs(b: Block)
    requires Coded(b) && (b.data != [] ==> RunLength.Decode(b.data).Some?)
    ensures b.data != [] ==> AddedBits(b) == BitsOf(b) + if b.last then TrailerBits(b.combined) else []
    ensures b.data == [] ==> AddedBits(b) == if b.last then TrailerBits(b.combined) else []
    ensures RunLength.Decode(b.data) == Some(BytesOf(b)) && (b.data == [] ==> BytesOf(b) == [])
  {
    hide BlockBits, TrailerBits;
    DecodeNone();
    if b.data == [] && b.last { assert [] + TrailerBits(b.combined) == TrailerBits(b.combined); }
  }

  lemma NothingCoded()
    ensures CodedBits([]) == [] && Bytes([]) == [] && forall c :: Chain(c, []) == c
  {
  }

  /** Empty calls add nothing, and only the last one adds the trailer. */
  lemma {:induction false} StreamParts(blocks: seq<Block>, limit: int)
    requires CompressStream.Sound(blocks, limit) && CompressStream.Contents(blocks).Some? && AllCoded(blocks)
    ensures AllWhole(Fulls(blocks), limit) && Bytes(Fulls(blocks)) == CompressStream.Contents(blocks).value
    ensures Chain(0, Fulls(blocks)) == CompressStream.Checksum(blocks)
    ensures AllBits(blocks) == CodedBits(Fulls(blocks)) +
            if CompressStream.Ended(blocks) then TrailerBits(CompressStream.Checksum(blocks)) else []
    decreases |blocks|
  {
    hide RunLength.Decode, Combine, Number, UpdateAll, TrailerBits, Bytes, Chain, CodedBits, AllBits, BitsOf, BytesOf,
         Coded, AddedBits, Codes;
    NoParts();
    NothingCoded();
    if blocks == [] {
      assert CodedBits([]) + [] == CodedBits([]);
    } else {
      var before, b := blocks[..|blocks| - 1], blocks[|blocks| - 1];
      StreamParts(before, limit);
      assert before + [b] == blocks && Coded(blocks[|blocks| - 1]);
      AllBitsAppend(before, b);
      assert AllBits(before) == CodedBits(Fulls(before)) by {
        assert CodedBits(Fulls(before)) + [] == CodedBits(Fulls(before));
      }
      PartsNext(before, b, limit);
    }
  }

  /** One call more. */
  lemma PartsNext(before: seq<Block>, b: Block, limit: int)
    requires CompressStream.Contents(before).Some? && AllWhole(Fulls(before), limit) &&
             Bytes(Fulls(before)) == CompressStream.Contents(before).value
    requires Coded(b) && |b.data| <= limit && RunLength.Decode(b.data).Some?
    requires b.data != [] ==> b.crc == Finalise(UpdateAll(INITIAL, RunLength.Decode(b.data).value))
    ensures var parts := Fulls(before) + if b.data != [] then [b] else [];
            && AllWhole(parts, limit) && Bytes(parts) ==
               CompressStream.Contents(before).value + RunLength.Decode(b.data).value
            && Chain(0, parts) == (if b.data == [] then Chain(0, Fulls(before))
                                   else Combine(Chain(0, Fulls(before)), b.crc))
            && CodedBits(Fulls(before)) + AddedBits(b) == CodedBits(parts) + if b.last then TrailerBits(b.combined)
               else []
  {
    hide RunLength.Decode, Combine, Number, UpdateAll, TrailerBits, Bytes, Chain, CodedBits, BitsOf, BytesOf, Coded,
         AddedBits, Codes, Fulls,
         CompressStream.Contents;
    AddedIs(b);
    var parts := Fulls(before);
    var trailer := if b.last then TrailerBits(b.combined) else [];
    if b.data == [] {
      assert parts + [] == parts;
      assert CompressStream.Contents(before).value + [] == CompressStream.Contents(before).value;
    } else {
      PartWhole(b, limit);
      PartsAppend(0, parts, b);
      Associate(CodedBits(parts), BitsOf(b), trailer);
    }
  }

  lemma PartWhole(b: Block, limit: int)
    requires b.data != [] && Coded(b) && |b.data| <= limit && RunLength.Decode(b.data).Some?
    requires b.crc == Finalise(UpdateAll(INITIAL, RunLength.Decode(b.data).value))
    ensures Whole(b, limit)
  {
  }

  // ---------- what comes of a stream, sound or damaged ----------

  /** A block as a decoder may meet it: coded and well-formed, whatever checksum it carries. */
  ghost predicate Readable(b: Block, limit: int) {
    Codes(b.coding, b.data) && |b.data| <= limit && RunLength.Decode(b.data).Some?
  }

  ghost predicate AllReadable(parts: seq<Block>, limit: int) {
    forall i :: 0 <= i < |parts| ==> Readable(parts[i], limit)
  }

  /** What is given out of the blocks ahead, and whether the end of the stream is reached: a
      block is given out, then its checksum is compared with the stored one, in the end that
      of the stream. */
  ghost function Outcome(parts: seq<Block>, crc: bv32, final: nat): (seq<Byte>, bool)
    decreases |parts|, 0
  {
    if parts == [] then ([], Number(crc) == final)
    else AfterBlock(BytesOf(parts[0]), INITIAL, parts[0].coding.crc, parts[1..], crc, final)
  }

  /** The same with some bytes of a block still to come. */
  ghost function AfterBlock(bytes: seq<Byte>, sumSoFar: bv32, stored: nat, parts: seq<Block>, crc: bv32, final: nat)
    : (seq<Byte>, bool)
    decreases |parts|, 1
  {
    var sum := Finalise(UpdateAll(sumSoFar, bytes));
    if Number(sum) != stored then (bytes, false)
    else
      var later := Outcome(parts, Combine(crc, sum), final);
      (bytes + later.0, later.1)
  }

  lemma SomeBytes(a: seq<Byte>, b: seq<Byte>, sumSoFar: bv32, stored: nat, parts: seq<Block>, crc: bv32, final: nat)
    ensures var later := AfterBlock(b, UpdateAll(sumSoFar, a), stored, parts, crc, final);
            AfterBlock(a + b, sumSoFar, stored, parts, crc, final) == (a + later.0, later.1)
  {
    hide UpdateAll, Combine, Number, Outcome;
    UpdateAllConcat(sumSoFar, a, b);
    var sum := Finalise(UpdateAll(sumSoFar, a + b));
    Associate(a, b, Outcome(parts, Combine(crc, sum), final).0);
  }

  /** A block that carries the checksum of its bytes. */
  ghost predicate Right(b: Block) {
    b.coding.crc == Number(Finalise(UpdateAll(INITIAL, BytesOf(b))))
  }

  /** The stream checksum of some blocks' bytes. */
  ghost function SumOf(crc: bv32, parts: seq<Block>): bv32
    decreases |parts|
  {
    if parts == [] then crc
    else SumOf(Combine(crc, Finalise(UpdateAll(INITIAL, BytesOf(parts[0])))), parts[1..])
  }

  /** The first block with a wrong checksum is the last one to be given out. */
  lemma {:induction false} FirstWrong(parts: seq<Block>, i: nat, crc: bv32, final: nat)
    requires i < |parts| && !Right(parts[i]) && forall k :: 0 <= k < i ==> Right(parts[k])
    ensures Outcome(parts, crc, final) == (Bytes(parts[..i + 1]), false)
    decreases |parts|
  {
    hide UpdateAll, Combine, Number, BytesOf;
    assert parts[..i + 1][0] == parts[0] && parts[..i + 1][1..] == parts[1..][..i];
    NothingCoded();
    if i == 0 {
      assert BytesOf(parts[0]) + [] == BytesOf(parts[0]);
    } else {
      assert Right(parts[0]);
      forall k | 0 <= k < i - 1 ensures Right(parts[1..][k]) { assert Right(parts[k + 1]); }
      FirstWrong(parts[1..], i - 1, Combine(crc, Finalise(UpdateAll(INITIAL, BytesOf(parts[0])))), final);
    }
  }

  /** If there is none, all are given out, and the stream ends well exactly if the trailer
      carries the right checksum. */
  lemma {:induction false} NoneWrong(parts: seq<Block>, crc: bv32, final: nat)
    requires forall k :: 0 <= k < |parts| ==> Right(parts[k])
    ensures Outcome(parts, crc, final) == (Bytes(parts), final == Number(SumOf(crc, parts)))
    decreases |parts|
  {
    hide UpdateAll, Combine, Number, BytesOf;
    if parts != [] {
      assert Right(parts[0]);
      forall k | 0 <= k < |parts| - 1 ensures Right(parts[1..][k]) { assert Right(parts[k + 1]); }
      NoneWrong(parts[1..], Combine(crc, Finalise(UpdateAll(INITIAL, BytesOf(parts[0])))), final);
    }
  }

  /** What the compressor writes is right. */
  lemma {:induction false} OutcomeWhole(parts: seq<Block>, crc: bv32, limit: int)
    requires AllWhole(parts, limit)
    ensures AllReadable(parts, limit) && Outcome(parts, crc, Number(Chain(crc, parts))) == (Bytes(parts), true)
    decreases |parts|
  {
    hide UpdateAll, Combine, Number, Codes, RunLength.Decode;
    if parts != [] {
      assert Whole(parts[0], limit);
      OutcomeWhole(parts[1..], Combine(crc, parts[0].crc), limit);
      forall i | 0 <= i < |parts| ensures Readable(parts[i], limit) { assert Whole(parts[i], limit); }
    }
  }

  lemma ReadableOpen(b: Block, limit: int)
    requires Readable(b, limit)
    ensures Codes(b.coding, b.data) && |b.data| <= limit
  {
  }

  /** The symbols of a readable block deliver its bytes. */
  lemma SymbolsDeliver(b: Block, limit: int, y: seq<Byte>)
    requires Readable(b, limit) && y == CodedSymbols(b.coding, b.data)
    ensures AllOf(y) == (BytesOf(b), true)
  {
    hide AllOf, RunLength.Decode, CodedSymbols, Codes;
    CodingFacts(b.coding, b.data);
    AllDecodes(y);
  }

  // ---------- what has been read and given out ----------

  /** A block that has been read and given out: its stored checksum, its bits after the first
      byte, and its bytes. */
  datatype Part = Part(stored: nat, tail: seq<int>, bytes: seq<Byte>)

  /** The checksum stored with the block is that of its bytes. */
  ghost predicate Sealed(p: Part) {
    IsTail(p.tail, p.stored) && p.stored == Number(Finalise(UpdateAll(INITIAL, p.bytes)))
  }

  ghost predicate AllSealed(parts: seq<Part>) {
    forall i :: 0 <= i < |parts| ==> Sealed(parts[i])
  }

  ghost function ReadBits(parts: seq<Part>): seq<int> {
    if parts == [] then [] else
      var n := |parts| - 1;
      ReadBits(parts[..n]) + (Bits(0x31, 8) + parts[n].tail)
  }

  ghost function PartBytes(parts: seq<Part>): seq<Byte> {
    if parts == [] then [] else PartBytes(parts[..|parts| - 1]) + parts[|parts| - 1].bytes
  }

  /** The combination of the checksums stored with the blocks. */
  ghost function PartSum(parts: seq<Part>): bv32 {
    if parts == [] then 0 else
      var n := |parts| - 1;
      Combine(PartSum(parts[..n]), Finalise(UpdateAll(INITIAL, parts[n].bytes)))
  }

  lemma PartsMore(parts: seq<Part>, p: Part)
    requires AllSealed(parts) && Sealed(p)
    ensures AllSealed(parts + [p]) && ReadBits(parts + [p]) == ReadBits(parts) + (Bits(0x31, 8) + p.tail)
    ensures PartBytes(parts + [p]) == PartBytes(parts) + p.bytes
    ensures PartSum(parts + [p]) == Combine(PartSum(parts), Finalise(UpdateAll(INITIAL, p.bytes)))
  {
    hide Sealed, Combine, UpdateAll, Bits;
    assert (parts + [p])[..|parts|] == parts;
  }

  /** Bits that are a whole stream: header, blocks each with the checksum of the bytes given
      out for it, and a trailer with the combination of these. */
  ghost predicate Authentic(bits: seq<int>, level: int, parts: seq<Part>, bytes: seq<Byte>) {
    && 1 <= level <= 9 && AllSealed(parts) && bytes == PartBytes(parts)
    && bits == BytesBits(HeaderBytes(level)) + ReadBits(parts) + TrailerBits(PartSum(parts))
  }

  // ---------- the stream loop ----------

  /** Where the decoder stands; after an error it is not called again. */
  datatype Phase = Header | BlockHeader | Output | Idle | Stopped

  datatype Status = Fine | StreamEnd | SequenceError | Refused | NeedInput

  /** The trailer after its first byte. */
  ghost function TrailerTail(stored: nat): seq<int> {
    BytesBits(TrailerMagic()[1..]) + Bits(stored, 32)
  }

  lemma TrailerOpens(stored: nat)
    ensures TrailerWith(stored) == Bits(0x17, 8) + TrailerTail(stored)
  {
    hide BytesBits, Bits;
    BytesBitsFirst(TrailerMagic());
    Associate(Bits(0x17, 8), BytesBits(TrailerMagic()[1..]), Bits(stored, 32));
  }

  /** The state of BZ2_bzDecompress, for word-per-symbol decoding.  When the input at hand ends
      within a header, a block or the trailer, the reader goes back to its beginning, and reads
      it again when more has come. */
  class Decoder {
    const d: BitReader
    var phase: Phase
    var blockSize100k: nat
    var storedBlockCRC: nat
    var calculatedCombinedCRC: bv32
    var out: FastOutput?
    /** The stream that is being read, if it is one of coded blocks: its level, the checksum in
        its trailer, the bits after its end, and the blocks not yet read. */
    ghost const level: int
    ghost const final: nat
    ghost const rest: seq<int>
    ghost var todo: seq<Block>
    /** Whatever is being read: the blocks read and given out, all bytes given out so far, and
        the bits and the bytes so far of the block in hand. */
    ghost var parts: seq<Part>
    ghost var delivered: seq<Byte>
    ghost var tail: seq<int>
    ghost var current: seq<Byte>

    ghost function Parts(): set<object>
      reads this
    {
      {d} + if out == null then {} else {out, out.tt}
    }

    ghost predicate Valid()
      reads this, Parts()
    {
      d.Valid() && (phase.Output? ==> out != null && out.Valid())
    }

    /** The bits ahead are those of the stream. */
    ghost predicate OnTrack()
      requires Valid()
      reads this, Parts()
    {
      && 1 <= level <= 9 && final < Pow2(32) && AllReadable(todo, 100000 * level) && !phase.Stopped?
      && (phase.Idle? ==> todo == [])
      && (phase.BlockHeader? || phase.Output? ==>
          blockSize100k == level && d.Rest() == CodedBits(todo) + (TrailerWith(final) + rest))
      && (phase.Header? ==> d.Rest() == BytesBits(HeaderBytes(level)) + (CodedBits(todo) + (TrailerWith(final) + rest)))
      && (phase.Output? ==> out.Coming().1)
    }

    /** What is still to be given out, and whether the end of the stream will be reached. */
    ghost function Ahead(): (seq<Byte>, bool)
      requires Valid()
      reads this, Parts()
    {
      if phase.Idle? then ([], true)
      else if phase.Output? then
        AfterBlock(out.Coming().0, out.calculatedBlockCRC, storedBlockCRC, todo, calculatedCombinedCRC, final)
      else Outcome(todo, calculatedCombinedCRC, final)
    }

    /** Of any bits: those read are header and blocks, and each block's bytes have the checksum
        stored with it. */
    ghost predicate Traced()
      requires Valid()
      reads this, Parts()
    {
      && AllSealed(parts) && calculatedCombinedCRC == PartSum(parts)
      && (phase.Header? ==> parts == [] && d.Taken() == [] && delivered == [])
      && (phase.BlockHeader? ==> d.Taken() == Lead() && delivered == PartBytes(parts))
      && (phase.Output? ==>
            && d.Taken() == Lead() + (Bits(0x31, 8) + tail) && IsTail(tail, storedBlockCRC)
            && delivered == PartBytes(parts) + current && out.calculatedBlockCRC == UpdateAll(INITIAL, current))
    }

    /** The bits of the header and the blocks given out. */
    ghost function Lead(): seq<int>
      reads `blockSize100k, `parts
    {
      (if 1 <= blockSize100k <= 9 then BytesBits(HeaderBytes(blockSize100k)) else []) + ReadBits(parts)
    }

    constructor (ghost future: seq<int>, ghost level: int, ghost final: nat, ghost rest: seq<int>,
                 ghost todo: seq<Block>)
      requires IsBits(future)
      ensures Valid() && Traced() && phase == Header && out == null && fresh(Parts()) && this.todo == todo &&
              calculatedCombinedCRC == 0 && delivered == [] && d.supplied == []
      ensures this.level == level && this.final == final && this.rest == rest && d.Rest() == d.future == future
    {
      NoBytes();
      d := new BitReader([], future);
      assert [] + future == future;
      phase, blockSize100k, storedBlockCRC, calculatedCombinedCRC, out := Header, 0, 0, 0, null;
      this.level, this.final, this.rest, this.todo := level, final, rest, todo;
      parts, delivered, tail, current := [], [], [], [];
    }

    /** The stream header: three bytes and a digit. */
    method ReadHeader()
      requires Valid() && phase == Header && out == null && !d.starved
      modifies this`phase, this`blockSize100k, d
      ensures d.Kept() && (phase == BlockHeader ==> !d.starved)
      ensures Valid() && (phase == BlockHeader || phase == Stopped) && out == null && |d.Rest()| <= |old(d.Rest())|
      ensures phase == BlockHeader ==>
                1 <= blockSize100k <= 9 && old(d.Rest()) == BytesBits(HeaderBytes(blockSize100k)) + d.Rest()
      ensures old(OnTrack()) && d.Fed() ==> phase == BlockHeader && OnTrack() && Ahead() == old(Ahead())
    {
      hide BitReader.Valid, BitReader.Rest, BytesBits, Bits, CodedBits, TrailerWith, Outcome, AllReadable, Pow2;
      ghost var good, after := OnTrack(), CodedBits(todo) + (TrailerWith(final) + rest);
      ghost var digit: Byte := if 1 <= level <= 9 then 0x30 + level else 0;
      if good { HeaderOpens(level, after); }
      Powers();
      var ok := GetKnown(d, [0x42, 0x5a, 0x68], Bits(digit, 8) + after);
      if !ok { phase := Stopped; return; }
      var uc := GetNumber(d, 8, digit, after);
      if uc.None? || uc.value < 0x31 || uc.value > 0x39 { phase := Stopped; return; }
      blockSize100k, phase := uc.value - 0x30, BlockHeader;
      HeaderOpens(blockSize100k, d.Rest());
    }

    /** The end of the stream: the checksum of all blocks is compared with the stored one. */
    method ReadTrailer(ghost good: bool) returns (status: Status, ghost stored: nat)
      requires Valid() && phase == BlockHeader &&
               (good && d.Fed() ==> d.Rest() == TrailerTail(final) + rest && final < Pow2(32))
      modifies this`phase, d
      ensures d.Valid() && |d.Rest()| <= |old(d.Rest())| && d.Kept() && (old(d.starved) ==> d.starved)
      ensures status == StreamEnd || status == Refused
      ensures phase == Idle || phase == Stopped
      ensures phase == Idle ==> d.starved == old(d.starved) && old(d.Rest()) == TrailerTail(stored) + d.Rest()
      ensures status == StreamEnd <==> phase == Idle && stored == Number(calculatedCombinedCRC)
      ensures good && d.Fed() ==> phase == Idle && stored == final
    {
      hide BitReader.Valid, BitReader.Rest, BytesBits, Bits, Number, Pow2;
      phase, status, stored := Stopped, Refused, 0;
      if good && d.Fed() { Associate(BytesBits(TrailerMagic()[1..]), Bits(final, 32), rest); }
      var ok := GetKnown(d, TrailerMagic()[1..], Bits(final, 32) + rest);
      if !ok { return; }
      var storedCombinedCRC;
      ok, storedCombinedCRC := GetBytes(d, 4, final, rest);
      if !ok { return; }
      stored := storedCombinedCRC;
      Associate(BytesBits(TrailerMagic()[1..]), Bits(stored, 32), d.Rest());
      phase := Idle;
      if storedCombinedCRC == Number(calculatedCombinedCRC) { status := StreamEnd; }
    }

    /** A block, up to where its bytes can be given out. */
    method OpenBlock(ghost good: bool, ghost after: seq<int>) returns (status: Status)
      requires Valid() && phase == BlockHeader && 1 <= blockSize100k <= 9
      requires good && d.Fed() ==>
                 todo != [] && Readable(todo[0], 100000 * blockSize100k) &&
                 d.Rest() == BlockTail(todo[0].coding) + after
      modifies this`phase, this`out, this`storedBlockCRC, this`todo, this`tail, this`current, d
      ensures Valid() && fresh(Parts() - old(Parts())) && |d.Rest()| <= |old(d.Rest())|
      ensures if status == Fine then phase == Output else status == Refused && phase == Stopped
      ensures d.Kept() && (old(d.starved) ==> d.starved) && (status == Fine ==> d.starved == old(d.starved))
      ensures status == Refused ==> out == old(out) && storedBlockCRC == old(storedBlockCRC) && todo == old(todo)
      ensures status == Fine ==> out.calculatedBlockCRC == INITIAL && current == []
      ensures status == Fine ==> IsTail(tail, storedBlockCRC) && old(d.Rest()) == tail + d.Rest()
      ensures good && d.Fed() ==>
                status == Fine && d.Rest() == after && todo == old(todo)[1..] &&
                storedBlockCRC == old(todo)[0].coding.crc && out.Coming() == (BytesOf(old(todo)[0]), true)
    {
      hide BitReader.Valid, BitReader.Rest, Number, Codes, BlockTail, FastOutput.Valid, FastOutput.Coming, AllOf,
           RunLength.Decode, UpdateAll, Readable, CodedSymbols, BytesOf, SelectorsOverrun, IsTail, Pow2;
      ghost var c, data := SomeCoding();
      if good && d.Fed() {
        c, data := todo[0].coding, todo[0].data;
        ReadableOpen(todo[0], 100000 * blockSize100k);
      }
      phase, status := Stopped, Refused;
      var r, stored, next;
      ghost var selectorsAt, head;
      r, stored, next, selectorsAt, head := DecodeFast(d, blockSize100k, c, data, after);
      if !r.Done? { return; }
      if good && d.Fed() { SymbolsDeliver(todo[0], 100000 * blockSize100k, next.y); }
      out, storedBlockCRC, phase, status := next, stored, Output, Fine;
      tail, current := head, [];
      if good && d.Fed() { todo := todo[1..]; }
    }

    /** On track before a block or the end of the stream. */
    lemma AtHeader()
      requires Valid() && OnTrack() && phase == BlockHeader
      ensures 1 <= level <= 9 && final < Pow2(32) && blockSize100k == level && AllReadable(todo, 100000 * level)
      ensures d.Rest() == CodedBits(todo) + (TrailerWith(final) + rest) &&
              Ahead() == Outcome(todo, calculatedCombinedCRC, final)
    {
      hide BitReader.Valid, BitReader.Rest, AllReadable, CodedBits, TrailerWith, Outcome, Pow2;
    }

    /** ... with a block just opened. */
    lemma InBlock(bytes: seq<Byte>)
      requires Valid() && phase == Output && 1 <= level <= 9 && final < Pow2(32) && blockSize100k == level &&
               AllReadable(todo, 100000 * level)
      requires d.Rest() == CodedBits(todo) + (TrailerWith(final) + rest)
      requires out.Coming() == (bytes, true) && out.calculatedBlockCRC == INITIAL
      ensures OnTrack() &&
              Ahead() == AfterBlock(bytes, INITIAL, storedBlockCRC, todo, calculatedCombinedCRC, final)
    {
      hide BitReader.Valid, BitReader.Rest, AllReadable, CodedBits, TrailerWith, AfterBlock, FastOutput.Valid,
           FastOutput.Coming, Pow2;
    }

    /** ... and at the end. */
    lemma AtEnd()
      requires Valid() && phase == Idle && 1 <= level <= 9 && final < Pow2(32) && todo == []
      ensures OnTrack() && Ahead() == ([], true)
    {
      hide BitReader.Valid, BitReader.Rest, Pow2;
    }

    /** A block after its first byte. */
    method EnterBlock(ghost good: bool) returns (status: Status)
      requires Valid() && phase == BlockHeader && 1 <= blockSize100k <= 9
      requires good && d.Fed() ==>
                 && todo != [] && level == blockSize100k && AllReadable(todo, 100000 * level) && final < Pow2(32)
                 && d.Rest() == BlockTail(todo[0].coding) + (CodedBits(todo[1..]) + (TrailerWith(final) + rest))
      modifies this`phase, this`out, this`storedBlockCRC, this`todo, this`tail, this`current, d
      ensures Valid() && fresh(Parts() - old(Parts())) && |d.Rest()| <= |old(d.Rest())|
      ensures if status == Fine then phase == Output else status == Refused && phase == Stopped
      ensures d.Kept() && (old(d.starved) ==> d.starved) && (status == Fine ==> d.starved == old(d.starved))
      ensures status == Refused ==> out == old(out) && storedBlockCRC == old(storedBlockCRC) && todo == old(todo)
      ensures status == Fine ==> out.calculatedBlockCRC == INITIAL && current == []
      ensures status == Fine ==> IsTail(tail, storedBlockCRC) && old(d.Rest()) == tail + d.Rest()
      ensures good && d.Fed() ==>
                status == Fine && OnTrack() && Ahead() == Outcome(old(todo), calculatedCombinedCRC, final)
    {
      hide BitReader.Valid, BitReader.Rest, CodedBits, TrailerWith, BytesOf, BlockTail, FastOutput.Valid,
           FastOutput.Coming, Readable, OnTrack, Ahead, AfterBlock, IsTail, Pow2;
      ghost var was := todo;
      ghost var more := if todo == [] then [] else CodedBits(todo[1..]) + (TrailerWith(final) + rest);
      status := OpenBlock(good, more);
      if good && d.Fed() { InBlock(BytesOf(was[0])); }
    }

    /** A block has been opened. */
    twostate lemma TracedBlock()
      requires old(Valid()) && old(Traced()) && old(phase) == BlockHeader
      requires Valid() && phase == Output && out.calculatedBlockCRC == INITIAL && current == []
      requires parts == old(parts) && delivered == old(delivered) && blockSize100k == old(blockSize100k) &&
               calculatedCombinedCRC == old(calculatedCombinedCRC)
      requires d.Taken() == old(d.Taken()) + (Bits(0x31, 8) + tail) && IsTail(tail, storedBlockCRC)
      ensures Traced()
    {
      hide BitReader.Valid, BitReader.Taken, Bits, AllSealed, PartSum, PartBytes, ReadBits, IsTail;
      assert delivered == delivered + [];
      StartsUpdate();
    }

    lemma StartsUpdate()
      ensures UpdateAll(INITIAL, []) == INITIAL
    {
    }

    /** A block's header and contents, or the end of the stream. */
    method ReadBlock() returns (status: Status)
      requires Valid() && phase == BlockHeader && 1 <= blockSize100k <= 9
      modifies this`phase, this`out, this`storedBlockCRC, this`todo, this`tail, this`current, d
      ensures Valid() && fresh(Parts() - old(Parts()))
      ensures status == Fine ==> phase == Output && |d.Rest()| < |old(d.Rest())|
      ensures status == StreamEnd ==> phase == Idle
      ensures phase == Output || phase == Idle || phase == Stopped
      ensures status == Fine || status == StreamEnd || status == Refused
      ensures d.Kept() && (old(d.starved) ==> d.starved) && (phase != Stopped ==> d.starved == old(d.starved))
      ensures status == Refused ==>
                phase != Output && out == old(out) && storedBlockCRC == old(storedBlockCRC) && todo == old(todo)
      ensures status == Fine ==> out.calculatedBlockCRC == INITIAL && current == []
      ensures status == Fine ==>
                IsTail(tail, storedBlockCRC) && d.Taken() == old(d.Taken()) + (Bits(0x31, 8) + tail)
      ensures status == StreamEnd ==> d.Taken() == old(d.Taken()) + TrailerBits(calculatedCombinedCRC)
      ensures old(OnTrack()) && d.Fed() ==>
                if status == Refused then phase == Idle && old(Ahead()) == ([], false)
                else OnTrack() && Ahead() == old(Ahead())
    {
      hide BitReader.Valid, BitReader.Rest, BytesBits, Bits, CodedBits, TrailerWith, TrailerTail, BytesOf, Number,
           BlockTail, FastOutput.Valid, FastOutput.Coming, AllReadable, Readable, OnTrack, Ahead, AfterBlock, IsTail,
           BitReader.Taken, Pow2;
      ghost var good := OnTrack();
      ghost var kind: nat, after := if todo == [] then 0x17 else 0x31, [];
      if good {
        AtHeader();
        after := NextBits(todo, blockSize100k, final, rest, d.Rest());
      }
      KindFits();
      var uc := GetNumber(d, 8, kind, after);
      if uc.None? || (uc.value != 0x17 && uc.value != 0x31) { phase := Stopped; return Refused; }
      if uc.value == 0x17 {
        ghost var stored;
        status, stored := ReadTrailer(good);
        if good && d.Fed() && status == StreamEnd { AtEnd(); }
        if status == StreamEnd {
          TrailerOpens(stored);
          Associate(Bits(0x17, 8), TrailerTail(stored), d.Rest());
          d.TakenMore(TrailerWith(stored));
        }
      } else {
        status := EnterBlock(good);
        if status == Fine {
          Associate(Bits(0x31, 8), tail, d.Rest());
          d.TakenMore(Bits(0x31, 8) + tail);
        }
      }
    }

    /** Gives out what fits of the block in hand. */
    method WriteOut(space: nat) returns (corrupt: bool, output: seq<Byte>)
      requires Valid() && Traced() && phase == Output
      modifies out, this`delivered, this`current
      ensures |output| <= space && Valid() && d.Valid() && out != null && delivered == old(delivered) + output
      ensures !corrupt ==> Traced()
      ensures !corrupt && |output| < space ==> out.nblock_used == out.save_nblock + 1 && out.state_out_len == 0
      ensures old(OnTrack()) ==>
                !corrupt && OnTrack() && old(Ahead()) == (output + Ahead().0, Ahead().1)
    {
      hide BitReader.Valid, BitReader.Rest, BytesBits, CodedBits, TrailerWith, AfterBlock, UpdateAll, AllReadable,
           FastOutput.Valid, FastOutput.Coming, Taken, Left, BitReader.Taken, Bits, IsTail, AllSealed, PartSum,
           ReadBits, PartBytes, Pow2;
      ghost var good, coming, before := OnTrack(), out.Coming(), out.calculatedBlockCRC;
      corrupt, output := out.UnRleFast(space);
      Delivery(coming, space, output);
      UpdateAllConcat(INITIAL, current, output);
      Associate(PartBytes(parts), current, output);
      delivered, current := delivered + output, current + output;
      if good { SomeBytes(output, out.Coming().0, before, storedBlockCRC, todo, calculatedCombinedCRC, final); }
    }

    lemma MoreToCome()
      requires Valid() && OnTrack() && phase == Output &&
               !(out.nblock_used == out.save_nblock + 1 && out.state_out_len == 0)
      ensures Ahead().0 != []
    {
      hide BitReader.Valid, FastOutput.Valid, FastOutput.Coming, Outcome, UpdateAll;
      out.Unfinished();
    }

    /** The block's checksum is compared with the stored one and joins that of the stream. */
    method CloseBlock() returns (status: Status)
      requires Valid() && Traced() && phase == Output && out.nblock_used == out.save_nblock + 1 &&
               out.state_out_len == 0
      modifies this`phase, this`calculatedCombinedCRC, this`parts
      ensures Valid() && if status == Fine then phase == BlockHeader else status == Refused && phase == Stopped
      ensures status == Fine <==> storedBlockCRC == Number(Finalise(UpdateAll(INITIAL, current)))
      ensures status == Fine ==> Traced() && parts == old(parts) + [Part(storedBlockCRC, tail, current)]
      ensures old(OnTrack()) ==>
                if status == Fine then OnTrack() && Ahead() == old(Ahead()) else old(Ahead()) == ([], false)
    {
      hide BitReader.Valid, BitReader.Rest, BytesBits, CodedBits, TrailerWith, Outcome, Number, AllReadable, Combine,
           FastOutput.Valid, FastOutput.Coming, BitReader.Taken, Bits, IsTail, ReadBits, PartBytes, PartSum, Pow2,
           AllSealed, AfterBlock, UpdateAll, Finalise;
      out.Finished();
      var calculatedBlockCRC := Finalise(out.calculatedBlockCRC);
      NothingMore(out.calculatedBlockCRC, storedBlockCRC, todo, calculatedCombinedCRC, final);
      status := Refused;
      if Number(calculatedBlockCRC) != storedBlockCRC { phase := Stopped; return; }
      PartsMore(parts, Part(storedBlockCRC, tail, current));
      parts := parts + [Part(storedBlockCRC, tail, current)];
      calculatedCombinedCRC := Combine(calculatedCombinedCRC, calculatedBlockCRC);
      phase, status := BlockHeader, Fine;
    }

    lemma NothingLeft()
      requires Valid() && phase == Idle
      ensures Ahead() == ([], true)
    {
    }

    /** The bits supplied and not read. */
    ghost function Unread(): (bits: seq<int>)
      requires Valid()
      reads this, Parts()
      ensures BytesBits(d.supplied) == d.Taken() + bits
    {
      hide BytesBits, HeldAtBottom;
      d.Ahead()
    }

    /** The block size is known once the header is read. */
    ghost predicate Started()
      reads this
    {
      if phase == Header then out == null else phase == Stopped || 1 <= blockSize100k <= 9
    }

    lemma ValidStopped()
      requires d.Valid() && phase == Stopped
      ensures Valid()
    {
    }

    /** The part of the loop that gives out bytes; it ends the call unless a block is done. */
    method OutputStep(space: nat) returns (stop: bool, status: Status, output: seq<Byte>)
      requires Valid() && Started() && Traced() && phase == Output
      modifies this`phase, this`calculatedCombinedCRC, this`parts, this`delivered, this`current, out
      ensures Valid() && Started() && |output| <= space && delivered == old(delivered) + output
      ensures if status == Fine then Traced() else status == Refused && stop && phase == Stopped
      ensures !stop ==> phase == BlockHeader
      ensures stop && status == Fine ==> phase == Output
      ensures old(OnTrack()) ==>
                if status == Refused then old(Ahead()) == (output, false)
                else OnTrack() && old(Ahead()) == (output + Ahead().0, Ahead().1)
      ensures old(OnTrack()) && stop && status == Fine ==> |output| == space && Ahead().0 != [] && phase == Output
    {
      hide OnTrack, Ahead, Traced, BitReader.Valid, BitReader.Rest, FastOutput.Valid, FastOutput.Coming, UpdateAll,
           Number, Finalise, Valid;
      var corrupt;
      stop, status := true, Fine;
      corrupt, output := WriteOut(space);
      if corrupt {
        phase := Stopped;
        ValidStopped();
        return true, Refused, output;
      }
      if out.nblock_used == out.save_nblock + 1 && out.state_out_len == 0 {
        status := CloseBlock();
        stop := status == Refused;
        assert output + [] == output;
      } else if old(OnTrack()) {
        MoreToCome();
      }
    }

    /** Where the stream header is still to be read. */
    lemma BeforeHeader()
      requires Valid() && OnTrack() && phase == Header
      ensures 1 <= level <= 9 && final < Pow2(32) && AllReadable(todo, 100000 * level)
      ensures d.Rest() == BytesBits(HeaderBytes(level)) + (CodedBits(todo) + (TrailerWith(final) + rest)) &&
              Ahead() == Outcome(todo, calculatedCombinedCRC, final)
    {
      hide BitReader.Valid, BitReader.Rest, AllReadable, CodedBits, TrailerWith, BytesBits, Outcome, Pow2;
    }

    lemma StillBeforeHeader()
      requires Valid() && phase == Header
      requires 1 <= level <= 9 && final < Pow2(32) && AllReadable(todo, 100000 * level)
      requires d.Rest() == BytesBits(HeaderBytes(level)) + (CodedBits(todo) + (TrailerWith(final) + rest))
      ensures OnTrack() && Ahead() == Outcome(todo, calculatedCombinedCRC, final)
    {
      hide BitReader.Valid, BitReader.Rest, AllReadable, CodedBits, TrailerWith, BytesBits, Outcome, Pow2;
    }

    lemma StillAtHeader()
      requires Valid() && phase == BlockHeader
      requires 1 <= level <= 9 && final < Pow2(32) && blockSize100k == level && AllReadable(todo, 100000 * level)
      requires d.Rest() == CodedBits(todo) + (TrailerWith(final) + rest)
      ensures OnTrack() && Ahead() == Outcome(todo, calculatedCombinedCRC, final)
    {
      hide BitReader.Valid, BitReader.Rest, AllReadable, CodedBits, TrailerWith, Outcome, Pow2;
    }

    lemma ReaderOpen()
      requires d.Valid()
      ensures d.bsLive == |d.held| <= WORD && HeldAtBottom(d.bsBuff, d.held) &&
              d.Rest() == d.held + BytesBits(d.input) + d.future
      ensures EndsWith(BytesBits(d.supplied), d.held + BytesBits(d.input))
    {
    }

    /** The reader has gone back to where nothing more had been read. */
    twostate lemma TakenAsBefore()
      requires old(d.Valid()) && d.Valid() && d.Kept() && d.Rest() == old(d.Rest())
      ensures d.Taken() == old(d.Taken())
    {
      hide BitReader.Valid, BitReader.Rest, BitReader.Taken;
      assert [] + d.Rest() == d.Rest();
      d.TakenMore([]);
      assert old(d.Taken()) + [] == old(d.Taken());
    }

    /** The stream header, if all of it is at hand. */
    method TryHeader() returns (status: Status)
      requires Valid() && Traced() && phase == Header && out == null && !d.starved
      modifies this`phase, this`blockSize100k, d
      ensures Valid() && out == null && d.Kept() && |d.Rest()| <= |old(d.Rest())|
      ensures status == Fine ==> phase == BlockHeader && 1 <= blockSize100k <= 9 && !d.starved
      ensures status == NeedInput ==> phase == Header && d.starved
      ensures status == Refused ==> phase == Stopped && !d.starved
      ensures status in {Fine, NeedInput, Refused} && (status != Refused ==> Traced())
      ensures old(OnTrack()) ==> status != Refused && OnTrack() && Ahead() == old(Ahead())
      ensures old(OnTrack()) && d.future == [] ==> status == Fine
    {
      hide OnTrack, Ahead, BitReader.Valid, BitReader.Rest, AllReadable, CodedBits, TrailerWith, BytesBits, Outcome,
           HeldAtBottom, EndsWith, BitReader.Taken, PartSum, AllSealed, PartBytes, UpdateAll, IsTail, Bits, Pow2;
      var input, bsBuff, bsLive := d.input, d.bsBuff, d.bsLive;
      ghost var held, good := d.held, OnTrack();
      ReaderOpen();
      if good { BeforeHeader(); }
      ReadHeader();
      status := Fine;
      if phase == Stopped {
        status := Refused;
        if d.starved {
          d.GoBack(input, bsBuff, bsLive, held);
          phase, status := Header, NeedInput;
          TakenAsBefore();
          if good { StillBeforeHeader(); }
        }
      } else {
        d.TakenMore(BytesBits(HeaderBytes(blockSize100k)));
        NoParts(blockSize100k);
      }
    }

    lemma NoParts(level: int)
      requires 1 <= level <= 9
      ensures [] + BytesBits(HeaderBytes(level)) == BytesBits(HeaderBytes(level)) + ReadBits([]) && PartBytes([]) == []
    {
      hide BytesBits;
    }

    /** A block or the trailer, if all of it is at hand. */
    method TryBlock() returns (status: Status)
      requires Valid() && Traced() && phase == BlockHeader && 1 <= blockSize100k <= 9 && !d.starved
      modifies this`phase, this`out, this`storedBlockCRC, this`todo, this`tail, this`current, d
      ensures Valid() && fresh(Parts() - old(Parts())) && d.Kept()
      ensures status == Fine ==> phase == Output && |d.Rest()| < |old(d.Rest())| && !d.starved
      ensures status == StreamEnd ==> phase == Idle && !d.starved
      ensures status == NeedInput ==> phase == BlockHeader && d.starved
      ensures status == Refused ==> (phase == Idle || phase == Stopped) && !d.starved
      ensures status in {Fine, StreamEnd, NeedInput, Refused} && (status != Refused ==> Traced())
      ensures status == StreamEnd ==> Authentic(d.Taken(), blockSize100k, parts, delivered)
      ensures old(OnTrack()) ==>
                if status == Refused then old(Ahead()) == ([], false) else OnTrack() && Ahead() == old(Ahead())
      ensures old(OnTrack()) && d.future == [] ==> status != NeedInput
    {
      hide OnTrack, Ahead, BitReader.Valid, BitReader.Rest, FastOutput.Valid, FastOutput.Coming, AllReadable,
           CodedBits, TrailerWith, TrailerBits, BytesBits, Outcome, HeldAtBottom, EndsWith, BitReader.Taken, PartSum,
           AllSealed, PartBytes, ReadBits, UpdateAll, IsTail, Bits, Pow2;
      var input, bsBuff, bsLive := d.input, d.bsBuff, d.bsLive;
      ghost var held, good := d.held, OnTrack();
      ReaderOpen();
      if good { AtHeader(); }
      status := ReadBlock();
      if status == Refused && d.starved {
        d.GoBack(input, bsBuff, bsLive, held);
        phase, status := BlockHeader, NeedInput;
        TakenAsBefore();
        if good { StillAtHeader(); }
      }
      if status == Fine { TracedBlock(); }
    }

    /** The part of the loop that reads: the stream header, if it is still to come, and a block
        or the end of the stream. */
    method ReadStep() returns (status: Status)
      requires Valid() && Started() && Traced() && (phase == Header || phase == BlockHeader) && !d.starved
      modifies this`phase, this`blockSize100k, this`out, this`storedBlockCRC, this`todo, this`tail, this`current, d
      ensures Valid() && Started() && fresh(Parts() - old(Parts())) && d.Kept()
      ensures status == Fine ==> phase == Output && |d.Rest()| < |old(d.Rest())| && !d.starved
      ensures status == StreamEnd ==> phase == Idle && !d.starved
      ensures status == NeedInput ==> phase in {Header, BlockHeader} && d.starved
      ensures status == Refused ==> phase in {Idle, Stopped} && !d.starved
      ensures status in {Fine, StreamEnd, NeedInput, Refused} && (status != Refused ==> Traced())
      ensures status == StreamEnd ==> Authentic(d.Taken(), blockSize100k, parts, delivered)
      ensures old(OnTrack()) ==>
                if status == Refused then old(Ahead()) == ([], false) else OnTrack() && Ahead() == old(Ahead())
      ensures old(OnTrack()) && d.future == [] ==> status != NeedInput
    {
      hide OnTrack, Ahead, Traced, Authentic, BitReader.Valid, BitReader.Rest, FastOutput.Valid, FastOutput.Coming;
      if phase == Header {
        status := TryHeader();
        if status != Fine { return; }
      }
      status := TryBlock();
    }

    /** The caller supplies input. */
    method Feed(more: seq<Byte>)
      requires Valid() && Traced()
      modifies d
      ensures Valid() && Traced() && !d.starved && d.supplied == old(d.supplied) + more
      ensures BytesBits(more) <= old(d.future) ==> d.future == old(d.future)[8 * |more|..]
      ensures BytesBits(more) <= old(d.future) && old(OnTrack()) ==> OnTrack() && Ahead() == old(Ahead())
    {
      hide BitReader.Valid, BitReader.Rest, AllReadable, CodedBits, TrailerWith, BytesBits, Outcome, AfterBlock,
           FastOutput.Valid, FastOutput.Coming, BitReader.Taken, PartSum, AllSealed, PartBytes, ReadBits, UpdateAll,
           IsTail, Bits, Pow2;
      d.Supply(more);
    }

    /** The loop: gives out and reads in turn, until the space is full, the input at hand is
        used up, the stream ends or an error is found. */
    method Proceed(space: nat) returns (status: Status, output: seq<Byte>)
      requires Valid() && Started() && Traced() && phase != Stopped && phase != Idle && !d.starved
      modifies this, Parts()
      ensures Valid() && Started() && fresh(Parts() - old(Parts())) && |output| <= space && d.Kept()
      ensures status in {Fine, StreamEnd, Refused} && delivered == old(delivered) + output
      ensures if status == Refused then phase in {Idle, Stopped} else Traced()
      ensures status == StreamEnd ==> Authentic(d.Taken(), blockSize100k, parts, delivered)
      ensures status == StreamEnd <==> phase == Idle && status != Refused
      ensures status == Fine ==> phase != Stopped
      ensures old(OnTrack()) ==>
                if status == Refused then old(Ahead()) == (output, false)
                else OnTrack() && old(Ahead()) == (output + Ahead().0, Ahead().1)
      ensures old(OnTrack()) && status == Fine ==> (|output| == space && Ahead().0 != []) || d.future != []
    {
      hide OnTrack, Ahead, Traced, Authentic, BitReader.Valid, BitReader.Rest, FastOutput.Valid, FastOutput.Coming;
      output := [];
      assert OnTrack() ==> [] + Ahead().0 == Ahead().0;
      assert delivered + [] == delivered;
      while true
        invariant Valid() && fresh(Parts() - old(Parts())) && |output| <= space && d.Kept()
        invariant Started() && Traced() && phase != Stopped && phase != Idle && !d.starved
        invariant delivered == old(delivered) + output
        invariant old(OnTrack()) ==> OnTrack() && old(Ahead()) == (output + Ahead().0, Ahead().1)
        decreases |d.Rest()|
      {
        if phase == Output {
          var stop, chunk;
          ghost var before := output;
          stop, status, chunk := OutputStep(space - |output|);
          output := output + chunk;
          Associate(old(delivered), before, chunk);
          if old(OnTrack()) && status == Fine { Associate(before, chunk, Ahead().0); }
          if stop { return; }
        }
        status := ReadStep();
        assert output + [] == output;
        if status == NeedInput { status := Fine; return; }
        if status != Fine { return; }
      }
    }

    /** BZ2_bzDecompress with more input and output space as the caller provides them.  Too
        little input is no error: the call does what it can.  Of any bytes, the end of the
        stream is reported only when the bits read are a header, blocks whose stored checksums
        are those of the bytes given out for them, and a trailer with their combination.  On
        coded blocks, however their bytes are divided, each call gives the next bytes, up to a
        wrong checksum, and stops short of its space only there, at the end of the stream or
        when more input is to come. */
    method Decompress(more: seq<Byte>, space: nat) returns (status: Status, output: seq<Byte>)
      requires Valid() && Started() && Traced() && phase != Stopped
      modifies this, Parts()
      ensures Valid() && Started() && fresh(Parts() - old(Parts())) && |output| <= space && status != NeedInput
      ensures if status == Refused then phase in {Idle, Stopped} else phase != Stopped && Traced()
      ensures old(phase) == Idle ==> status == SequenceError && output == [] && phase == Idle
      ensures old(phase) != Idle ==>
                d.supplied == old(d.supplied) + more && delivered == old(delivered) + output
      ensures old(phase) != Idle && status != Refused ==> status == if phase == Idle then StreamEnd else Fine
      ensures status == StreamEnd ==> Authentic(d.Taken(), blockSize100k, parts, delivered)
      ensures old(phase) != Idle && BytesBits(more) <= old(d.future) ==> d.future == old(d.future)[8 * |more|..]
      ensures old(OnTrack()) && BytesBits(more) <= old(d.future) ==>
                if status == Refused then old(Ahead()) == (output, false)
                else OnTrack() && old(Ahead()) == (output + Ahead().0, Ahead().1)
      ensures old(OnTrack()) && BytesBits(more) <= old(d.future) && status == Fine ==>
                (|output| == space && Ahead().0 != []) || d.future != []
    {
      hide OnTrack, Ahead, Traced, Authentic, BitReader.Valid, BitReader.Rest, FastOutput.Valid, FastOutput.Coming,
           BytesBits;
      output := [];
      if phase == Idle {
        assert OnTrack() ==> [] + Ahead().0 == Ahead().0;
        return SequenceError, output;
      }
      Feed(more);
      status, output := Proceed(space);
    }
  }

  /** The bytes given out and those to come are those that came. */
  lemma Delivery(coming: (seq<Byte>, bool), space: nat, output: seq<Byte>)
    requires output == Taken(coming, space)
    ensures coming.0 == output + Left(coming, space).0 && Left(coming, space).1 == coming.1 && |output| <= space
    ensures |output| < space ==> Left(coming, space).0 == []
  {
  }

  /** All bytes of a block are out. */
  lemma NothingMore(sum: bv32, stored: nat, parts: seq<Block>, crc: bv32, final: nat)
    ensures AfterBlock([], sum, stored, parts, crc, final) ==
            if Number(Finalise(sum)) != stored then ([], false) else Outcome(parts, Combine(crc, Finalise(sum)), final)
  {
    hide Combine, Number, Outcome;
    var later := Outcome(parts, Combine(crc, Finalise(sum)), final);
    assert [] + later.0 == later.0;
  }

  lemma KindFits()
    ensures 0x17 < Pow2(8) && 0x31 < Pow2(8)
  {
    Powers();
  }

  /** What comes after the byte that tells a block from the end. */
  lemma NextBits(todo: seq<Block>, level: int, final: nat, rest: seq<int>, bits: seq<int>) returns (after: seq<int>)
    requires AllReadable(todo, 100000 * level) && bits == CodedBits(todo) + (TrailerWith(final) + rest)
    ensures bits == Bits(if todo == [] then 0x17 else 0x31, 8) + after
    ensures todo == [] ==> after == TrailerTail(final) + rest
    ensures todo != [] ==> Suitable(todo[0].coding.plan)
                           && after == BlockTail(todo[0].coding) + (CodedBits(todo[1..]) + (TrailerWith(final) + rest))
  {
    hide Bits, TrailerWith, TrailerTail, BlockTail, CodedBits, Readable, Suitable;
    if todo == [] {
      NothingCoded();
      TrailerOpens(final);
      after := TrailerTail(final) + rest;
      Associate(Bits(0x17, 8), TrailerTail(final), rest);
      assert [] + (TrailerWith(final) + rest) == TrailerWith(final) + rest;
    } else {
      assert Readable(todo[0], 100000 * level);
      FirstBlock(todo, level);
      var c, tail := todo[0].coding, CodedBits(todo[1..]) + (TrailerWith(final) + rest);
      after := BlockTail(c) + tail;
      assert Bits(0x31, 8) + BlockTail(c) + CodedBits(todo[1..]) + (TrailerWith(final) + rest) ==
          Bits(0x31, 8) + (BlockTail(c) + tail);
    }
  }

  lemma FirstBlock(todo: seq<Block>, level: int)
    requires todo != [] && Readable(todo[0], 100000 * level)
    ensures Suitable(todo[0].coding.plan) && CodedBits(todo) ==
            Bits(0x31, 8) + BlockTail(todo[0].coding) + CodedBits(todo[1..])
  {
    hide Bits, BlockBits, BlockTail, Number, UpdateAll, RunLength.Decode, Suitable;
    PlanSuits(todo[0].coding, todo[0].data);
    BlockOpens(todo[0].coding);
  }

  lemma HeaderOpens(level: int, after: seq<int>)
    requires 1 <= level <= 9
    ensures BytesBits(HeaderBytes(level)) + after == BytesBits([0x42, 0x5a, 0x68]) + (Bits(0x30 + level, 8) + after)
  {
    hide BytesBits, Bits;
    BytesBitsPush([0x42, 0x5a, 0x68], 0x30 + level);
    assert HeaderBytes(level) == [0x42, 0x5a, 0x68] + [0x30 + level];
    Associate(BytesBits([0x42, 0x5a, 0x68]), Bits(0x30 + level, 8), after);
  }

  // ---------- a whole file ----------

  /** A finished stream: header, blocks, trailer. */
  lemma WholeStream(level: int, blocks: seq<Block>, limit: int)
    requires 1 <= level <= 9 && CompressStream.Sound(blocks, limit) && CompressStream.Contents(blocks).Some? &&
             AllCoded(blocks)
    requires CompressStream.Ended(blocks)
    ensures StreamBits(level, blocks) == BytesBits(HeaderBytes(level)) +
            (CodedBits(Fulls(blocks)) + TrailerBits(CompressStream.Checksum(blocks)))
  {
    hide CompressStream.Sound, CompressStream.Contents, CodedBits, TrailerBits, BytesBits, AllBits, AllCoded, Fulls;
    StreamParts(blocks, limit);
  }

  /** Bytes that are the bits of a stream of coded blocks, whatever checksums it carries. */
  ghost predicate IsStream(file: seq<Byte>, level: int, todo: seq<Block>, final: nat) {
    1 <= level <= 9 && final < Pow2(32) && AllReadable(todo, 100000 * level) && exists rest ::
      BytesBits(file) == BytesBits(HeaderBytes(level)) + (CodedBits(todo) + (TrailerWith(final) + rest))
  }

  /** A finished compression gives such a stream, and its outcome is all that was compressed. */
  lemma FinishedStream(e: CompressStream.Encoder)
    requires e.Valid() && e.CaughtUp() && CompressStream.Ended(e.blocks)
    ensures var todo, final := Fulls(e.blocks), Number(CompressStream.Checksum(e.blocks));
            IsStream(e.emitted, e.blockSize100k, todo, final) && Outcome(todo, 0, final) == (e.consumed, true)
  {
    hide CompressStream.Encoder.Valid, CompressStream.Sound, CompressStream.Contents, CompressStream.Ended, AllCoded,
         StreamBits, BytesBits, TrailerWith, CodedBits, Bytes, Fulls, Outcome, Chain, AllWhole, AllReadable;
    var pad := e.Complete();
    var todo, level := Fulls(e.blocks), e.blockSize100k;
    StreamParts(e.blocks, 100000 * level);
    WholeStream(level, e.blocks, 100000 * level);
    OutcomeWhole(todo, 0, 100000 * level);
    var h, c, t := BytesBits(HeaderBytes(level)), CodedBits(todo), TrailerBits(CompressStream.Checksum(e.blocks));
    assert h + (c + t) + Bits(0, pad) == h + (c + (t + Bits(0, pad)));
  }

  /** A decoder that is to be given such bytes is on their track. */
  method Start(file: seq<Byte>, ghost level: int, ghost todo: seq<Block>, ghost final: nat) returns (d: Decoder)
    requires IsStream(file, level, todo, final)
    ensures fresh(d) && fresh(d.Parts()) && d.Valid() && d.Started() && d.Traced() && d.phase == Header &&
            d.d.future == BytesBits(file)
    ensures d.OnTrack() && d.Ahead() == Outcome(todo, 0, final)
  {
    hide BytesBits, TrailerWith, CodedBits, Outcome, AllReadable, BitReader.Valid, BitReader.Rest, Decoder.Traced;
    ghost var rest :|
      BytesBits(file) == BytesBits(HeaderBytes(level)) + (CodedBits(todo) + (TrailerWith(final) + rest));
    AreBits(file);
    d := new Decoder(BytesBits(file), level, final, rest, todo);
  }

  lemma AreBits(bytes: seq<Byte>)
    ensures IsBits(BytesBits(bytes)) && |BytesBits(bytes)| == 8 * |bytes|
  {
  }

  /** A stream of coded blocks with any checksums, all of it supplied in the first call, and
      output space divided in any way whatever.  The bytes given out are those of the blocks
      up to the first that carries a wrong checksum; then the stream is refused, as it is if
      the trailer's checksum is wrong; if all are right, its end is reported as soon as all
      bytes have been given out. */
  method Judge(file: seq<Byte>, spaces: seq<nat>, ghost level: int, ghost todo: seq<Block>, ghost final: nat)
    returns (bytes: seq<Byte>, ended: bool, refused: bool)
    requires IsStream(file, level, todo, final)
    ensures var (all, sound) := Outcome(todo, 0, final);
            && bytes == all[..Min(Space(spaces, |spaces|), |all|)]
            && (ended <==> sound && spaces != [] && |all| <= Space(spaces, |spaces|))
            && (refused ==> !sound && bytes == all)
            && (!sound && |all| < Space(spaces, |spaces|) ==> refused)
  {
    hide Decoder.Valid, Decoder.OnTrack, Decoder.Ahead, Decoder.Traced, BytesBits, Outcome, IsStream, Authentic,
         BitReader.Taken, BitReader.Valid;
    var d := Start(file, level, todo, final);
    ghost var all, sound := d.Ahead().0, d.Ahead().1;
    bytes, ended, refused := [], false, false;
    assert [] + d.Ahead().0 == d.Ahead().0;
    AreBits(file);
    NoBytes();
    for k := 0 to |spaces|
      invariant d.Valid() && d.Started() && d.Traced() && d.phase != Stopped && d.phase != Idle && d.OnTrack()
      invariant fresh(d) && fresh(d.Parts()) && d.d.future == if k == 0 then BytesBits(file) else []
      invariant !ended && !refused && sound == d.Ahead().1
      invariant all == bytes + d.Ahead().0 && |bytes| == Space(spaces, k) && (k > 0 ==> d.Ahead().0 != [])
    {
      SpaceGrows(spaces, k + 1, |spaces|);
      var more := if k == 0 then file else [];
      var status, chunk := d.Decompress(more, spaces[k]);
      ghost var later := if status == Refused then [] else d.Ahead().0;
      Associate(bytes, chunk, later);
      bytes := bytes + chunk;
      if status == StreamEnd || status == Refused {
        assert status == StreamEnd ==> d.Ahead() == ([], true) by { if status == StreamEnd { d.NothingLeft(); } }
        assert bytes == all;
        ended, refused := status == StreamEnd, status == Refused;
        return;
      }
    }
  }

  /** Decompresses what a finished compression gave out, all of it supplied in the first call,
      into output space divided in any way whatever: the bytes are those compressed, no call
      is refused, and the end of the stream is reported as soon as they have all been given
      out. */
  method Restore(file: seq<Byte>, spaces: seq<nat>, ghost e: CompressStream.Encoder)
    returns (bytes: seq<Byte>, ended: bool)
    requires e.Valid() && e.CaughtUp() && CompressStream.Ended(e.blocks) && file == e.emitted
    ensures bytes == e.consumed[..Min(Space(spaces, |spaces|), |e.consumed|)]
    ensures ended <==> spaces != [] && |e.consumed| <= Space(spaces, |spaces|)
  {
    hide CompressStream.Encoder.Valid, CompressStream.Ended, Outcome, IsStream, Fulls;
    FinishedStream(e);
    var refused;
    bytes, ended, refused := Judge(file, spaces, e.blockSize100k, Fulls(e.blocks),
                                   Number(CompressStream.Checksum(e.blocks)));
  }

  /** One call of BZ2_bzDecompress: how much of the file is supplied, and the output space. */
  datatype Call = Call(input: nat, space: nat)

  /** The same with the input, too, divided in any way: nothing but those bytes ever comes
      out; all of them are out when the end is reported or the stream refused, which depends
      on the checksums alone; and neither happens only if input is withheld, or the last call
      has filled its space. */
  method JudgeInPieces(file: seq<Byte>, calls: seq<Call>, ghost level: int, ghost todo: seq<Block>, ghost final: nat)
    returns (bytes: seq<Byte>, ended: bool, refused: bool, supplied: nat, full: bool)
    requires IsStream(file, level, todo, final)
    ensures var (all, sound) := Outcome(todo, 0, final);
            && supplied <= |file| && bytes <= all
            && (ended ==> sound && bytes == all) && (refused ==> !sound && bytes == all)
    ensures calls != [] && !ended && !refused ==> supplied < |file| || full
  {
    hide Decoder.Valid, Decoder.OnTrack, Decoder.Ahead, Decoder.Traced, BytesBits, Outcome;
    var d := Start(file, level, todo, final);
    ghost var all, sound := d.Ahead().0, d.Ahead().1;
    bytes, ended, refused, supplied, full := [], false, false, 0, false;
    assert [] + d.Ahead().0 == d.Ahead().0 && file[0..] == file;
    AreBits(file);
    NoBytes();
    for k := 0 to |calls|
      invariant d.Valid() && d.Started() && d.Traced() && d.phase != Stopped && d.phase != Idle && d.OnTrack()
      invariant fresh(d) && fresh(d.Parts()) && supplied <= |file| && d.d.future == BytesBits(file[supplied..])
      invariant !ended && !refused && sound == d.Ahead().1
      invariant all == bytes + d.Ahead().0 && (k > 0 ==> supplied < |file| || full)
    {
      var n := Min(calls[k].input, |file| - supplied);
      var more := file[supplied..supplied + n];
      NextPiece(file, supplied, n);
      var status, chunk := d.Decompress(more, calls[k].space);
      ghost var later := if status == Refused then [] else d.Ahead().0;
      Associate(bytes, chunk, later);
      bytes, supplied, full := bytes + chunk, supplied + n, |chunk| == calls[k].space;
      if status == StreamEnd || status == Refused {
        assert status == StreamEnd ==> d.Ahead() == ([], true) by { if status == StreamEnd { d.NothingLeft(); } }
        assert bytes == all;
        ended, refused := status == StreamEnd, status == Refused;
        return;
      }
    }
  }

  /** What a finished compression gave out, in pieces. */
  method RestoreInPieces(file: seq<Byte>, calls: seq<Call>, ghost e: CompressStream.Encoder)
    returns (bytes: seq<Byte>, ended: bool, supplied: nat, full: bool)
    requires e.Valid() && e.CaughtUp() && CompressStream.Ended(e.blocks) && file == e.emitted
    ensures supplied <= |file| && bytes <= e.consumed && (ended ==> bytes == e.consumed)
    ensures calls != [] && !ended ==> supplied < |file| || full
  {
    hide CompressStream.Encoder.Valid, CompressStream.Ended, Outcome, IsStream, Fulls;
    FinishedStream(e);
    var refused;
    bytes, ended, refused, supplied, full :=
      JudgeInPieces(file, calls, e.blockSize100k, Fulls(e.blocks), Number(CompressStream.Checksum(e.blocks)));
  }

  /** Any bytes at all, supplied in any pieces with any output spaces: the end of the stream is
      reported only if the bytes begin with a whole stream each of whose blocks carries the
      checksum of the bytes given out for it, and whose trailer carries their combination. */
  method AnyBytes(pieces: seq<seq<Byte>>, spaces: seq<nat>)
    returns (bytes: seq<Byte>, ended: bool, supplied: seq<Byte>, ghost level: int, ghost parts: seq<Part>,
             ghost unread: seq<int>)
    requires |pieces| == |spaces|
    ensures exists k :: 0 <= k <= |pieces| && supplied == Joined(pieces[..k])
    ensures ended ==> exists bits :: BytesBits(supplied) == bits + unread && Authentic(bits, level, parts, bytes)
  {
    hide Decoder.Valid, Decoder.OnTrack, Decoder.Ahead, Decoder.Traced, BytesBits, Authentic, Joined;
    NoBytes();
    assert Joined<Byte>([]) == [] by { NothingJoined(); }
    assert pieces[..0] == [];
    var d := new Decoder([], 0, 0, [], []);
    bytes, ended, supplied, level, parts, unread := [], false, [], 0, [], [];
    for k := 0 to |pieces|
      invariant d.Valid() && d.Started() && d.Traced() && d.phase != Stopped && d.phase != Idle && !ended
      invariant fresh(d) && fresh(d.Parts()) && supplied == Joined(pieces[..k]) == d.d.supplied && bytes == d.delivered
    {
      ghost var later := JoinedPast(pieces, k);
      var status, chunk := d.Decompress(pieces[k], spaces[k]);
      bytes, supplied := bytes + chunk, supplied + pieces[k];
      if status == StreamEnd {
        ended, level, parts, unread := true, d.blockSize100k, d.parts, d.Unread();
        return;
      }
      if status == Refused { return; }
    }
  }

  lemma NothingJoined()
    ensures Joined<Byte>([]) == []
  {
  }

  /** The bits of some bytes are those of the next n and those of the others. */
  lemma NextPiece(file: seq<Byte>, at: nat, n: nat)
    requires at + n <= |file|
    ensures var f, more := BytesBits(file[at..]), BytesBits(file[at..at + n]);
            more <= f && f[8 * n..] == BytesBits(file[at + n..]) && (at + n == |file| ==> f[8 * n..] == [])
  {
    hide BytesBits;
    assert file[at..] == file[at..at + n] + file[at + n..];
    BytesBitsConcat(file[at..at + n], file[at + n..]);
    AreBits(file[at..at + n]);
    NoBytes();
  }
}
