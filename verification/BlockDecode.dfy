/** The decompressor's way through a block, and the round trip of a whole block. */
module BlockDecode {
  import opened Common
  import opened Rotations
  import opened Counting
  import opened BurrowsWheeler
  import opened CanonicalCode
  import opened BitStream
  import opened BlockFormat
  import opened BlockReceive
  import opened MtfEncoder
  import opened BlockCodec
  import InverseFast
  import MoveToFront
  import MtfDecoder
  import opened RunLengthOutput
  import InverseSmall
  import RunLength
  import BlockCrc

  // ---------- numbers of several bytes ----------

  lemma AboveTwice(v: nat, a: nat, b: nat)
    ensures Above(Above(v, a), b) == Above(v, a + b)
  {
    hide Pow2;
    var p, q := Pow2(a), Pow2(b);
    QuotientSign(v, p);
    QuotientSign(v / p, q);
    Pow2Add(a, b);
    TwoDivisions(v, p, q);
  }

  /** The top byte of 8m bits, and the others. */
  lemma ByteOff(v: nat, m: nat)
    requires m > 0
    ensures Bits(v, 8 * m) == Bits(Above(v, 8 * (m - 1)) % 256, 8) + Bits(v, 8 * (m - 1))
    ensures Above(v, 8 * (m - 1)) == Above(v, 8 * m) * 256 + Above(v, 8 * (m - 1)) % 256
  {
    hide Bits, Pow2;
    BitsJoin(v, 8, 8 * (m - 1));
    Powers();
    BitsLow(Above(v, 8 * (m - 1)), 8);
    AboveTwice(v, 8 * (m - 1), 8);
  }

  /** A number of k bytes, the first of them the highest. */
  method GetBytes(d: BitReader, k: nat, ghost sent: nat, ghost rest: seq<int>) returns (ok: bool, v: nat)
    requires d.Valid()
    modifies d
    ensures d.Kept() && (old(d.starved) ==> d.starved) && (ok ==> d.starved == old(d.starved))
    ensures d.Valid() && |d.Rest()| <= |old(d.Rest())|
    ensures ok ==> v < Pow2(8 * k) && old(d.Rest()) == Bits(v, 8 * k) + d.Rest()
    ensures old(d.Rest()) == Bits(sent, 8 * k) + rest && sent < Pow2(8 * k) && d.Fed() ==>
              ok && v == sent && d.Rest() == rest
  {
    hide BitReader.Valid, BitReader.Rest, Bits, Pow2, Above;
    ghost var good := d.Rest() == Bits(sent, 8 * k) + rest && sent < Pow2(8 * k);
    Powers();
    v := 0;
    if good && d.Fed() { NothingAbove(sent, 8 * k); }
    ghost var seen: seq<int> := [];
    assert [] + d.Rest() == d.Rest();
    for i := 0 to k
      invariant old(d.Rest()) == seen + d.Rest() && |seen| == 8 * i && IsBits(seen) && v == Value(seen)
      invariant d.Valid() && |d.Rest()| <= |old(d.Rest())|
      invariant d.Kept() && d.starved == old(d.starved)
      invariant good && d.Fed() ==> v == Above(sent, 8 * (k - i)) && d.Rest() == Bits(sent, 8 * (k - i)) + rest
    {
      ghost var m := k - i;
      ghost var byte := Above(sent, 8 * (m - 1)) % 256;
      ByteOff(sent, m);
      if good && d.Fed() { Coming(d.Rest(), Bits(byte, 8), Bits(sent, 8 * (m - 1)), rest); }
      var uc := GetNumber(d, 8, byte, Bits(sent, 8 * (m - 1)) + rest);
      if uc.None? { return false, v; }
      NextByte(seen, uc.value);
      Associate(seen, Bits(uc.value, 8), d.Rest());
      seen, v := seen + Bits(uc.value, 8), v * 256 + uc.value;
    }
    ok := true;
    ValueBits(seen);
    if good && d.Fed() { AllAbove(sent); assert [] + rest == rest; }
  }

  lemma NextByte(seen: seq<int>, b: nat)
    requires IsBits(seen) && b < Pow2(8)
    ensures |Bits(b, 8)| == 8 && IsBits(seen + Bits(b, 8)) && Value(seen + Bits(b, 8)) == Value(seen) * 256 + b
  {
    hide Bits, Value;
    BitsValue(b, 8);
    ValueConcat(seen, Bits(b, 8));
    Powers();
  }

  lemma NothingAbove(v: nat, n: nat)
    requires v < Pow2(n)
    ensures Above(v, n) == 0
  {
    QuotientUnique(v, Pow2(n), 0, v);
  }

  lemma AllAbove(v: nat)
    ensures Above(v, 0) == v && Bits(v, 0) == []
  {
    QuotientUnique(v, Pow2(0), v, 0);
  }

  /** Bytes that have to come. */
  method GetKnown(d: BitReader, bytes: seq<Byte>, ghost rest: seq<int>) returns (ok: bool)
    requires d.Valid()
    modifies d
    ensures d.Kept() && (old(d.starved) ==> d.starved) && (ok ==> d.starved == old(d.starved))
    ensures d.Valid() && (old(d.Rest()) == BytesBits(bytes) + rest && d.Fed() ==> ok && d.Rest() == rest)
    ensures ok ==> old(d.Rest()) == BytesBits(bytes) + d.Rest()
    ensures |d.Rest()| <= |old(d.Rest())|
  {
    hide BitReader.Valid, BitReader.Rest, Bits, BytesBits;
    ghost var good := d.Rest() == BytesBits(bytes) + rest;
    assert bytes[0..] == bytes && bytes[..0] == [] && [] + d.Rest() == d.Rest();
    Powers();
    NoBytes();
    for i := 0 to |bytes|
      invariant old(d.Rest()) == BytesBits(bytes[..i]) + d.Rest()
      invariant d.Valid() && |d.Rest()| <= |old(d.Rest())|
      invariant d.Kept() && d.starved == old(d.starved)
      invariant good && d.Fed() ==> d.Rest() == BytesBits(bytes[i..]) + rest
    {
      BytesBitsFirst(bytes[i..]);
      assert bytes[i..][0] == bytes[i] && bytes[i..][1..] == bytes[i + 1..];
      if good && d.Fed() { Coming(d.Rest(), Bits(bytes[i], 8), BytesBits(bytes[i + 1..]), rest); }
      var uc := GetNumber(d, 8, bytes[i], BytesBits(bytes[i + 1..]) + rest);
      if uc != Some(bytes[i]) { return false; }
      BytesBitsPush(bytes[..i], bytes[i]);
      assert bytes[..i + 1] == bytes[..i] + [bytes[i]];
      Associate(BytesBits(bytes[..i]), Bits(bytes[i], 8), d.Rest());
    }
    ok := true;
    assert bytes[..|bytes|] == bytes;
    assert [] + rest == rest;
  }

  /** The bits of a block between its first byte, by which it is told from the end of the
      stream, and its tables: its checksum, a bit that tells it is not randomised, and the
      place of its own row. */
  ghost function HeadBits(stored: nat, origPtr: nat): seq<int> {
    BytesBits(Magic()[1..]) + (Bits(stored, 32) + ([0] + Bits(origPtr, 24)))
  }

  /** The bits of a block after its first byte. */
  ghost function BlockTail(c: Coding): seq<int>
    requires Suitable(c.plan)
  {
    HeadBits(c.crc, c.origPtr) + PlanBits(c.plan)
  }

  /** ... of some block with this checksum. */
  ghost predicate IsTail(bits: seq<int>, stored: nat) {
    exists origPtr: nat, body :: bits == HeadBits(stored, origPtr) + body
  }

  lemma BlockOpens(c: Coding)
    requires Suitable(c.plan)
    ensures BlockBits(c) == Bits(0x31, 8) + BlockTail(c)
  {
    hide Bits, BytesBits, PlanBits, Suitable;
    BytesBitsFirst(Magic());
    var a, b, x, y, z := Bits(0x31, 8), BytesBits(Magic()[1..]), Bits(c.crc, 32), Bits(c.origPtr, 24), PlanBits(c.plan);
    assert a + b + x + [0] + y + z == a + (b + (x + ([0] + y)) + z);
  }

  // ---------- from symbols to words ----------

  /** The last column that symbols stand for, if there is room for it. */
  ghost function Column(syms: seq<int>, seqToUnseq: seq<Byte>, nInUse: int, room: int): Option<seq<Byte>>
    requires |seqToUnseq| == 256
  {
    var d := MoveToFront.Decode(syms, MtfDecoder.IdentityList(), 0, 1, room, nInUse + 1);
    if d.Some? && (forall i :: 0 <= i < |d.value| ==> 0 <= d.value[i] < 256) then
        Some(MtfDecoder.BytesOf(d.value, seqToUnseq)) else None
  }

  /** The map's entries for bytes not in use, which nothing ever sets, are never read. */
  lemma UnusedEntries(syms: seq<int>, a: seq<Byte>, b: seq<Byte>, nInUse: int, room: int)
    requires |a| == |b| == 256 && 0 < nInUse <= 256 && a[..nInUse] == b[..nInUse] && EndsOnce(syms, nInUse + 1)
    ensures Column(syms, a, nInUse, room) == Column(syms, b, nInUse, room)
  {
    MtfDecoder.DecodeBelow(syms, MtfDecoder.IdentityList(), 0, 1, room, nInUse + 1);
    var d := MoveToFront.Decode(syms, MtfDecoder.IdentityList(), 0, 1, room, nInUse + 1);
    if d.Some? {
      forall i | 0 <= i < |d.value| ensures a[d.value[i]] == b[d.value[i]] {
        assert a[..nInUse][d.value[i]] == b[..nInUse][d.value[i]];
      }
      assert MtfDecoder.BytesOf(d.value, a) == MtfDecoder.BytesOf(d.value, b);
    }
  }

  /** Move-to-front decoding gives back the last column. */
  lemma ColumnBack(c: Coding, block: seq<Byte>, seqToUnseq: seq<Byte>, room: int)
    requires Codes(c, block) && |block| <= room
    requires |seqToUnseq| == 256
    requires forall b :: 0 <= b < 256 && c.plan.inUse[b] ==>
               UsedBelow(c.plan.inUse, b) < 256 && seqToUnseq[UsedBelow(c.plan.inUse, b)] == b
    ensures Column(c.plan.mtfv, seqToUnseq, UsedBelow(c.plan.inUse, 256), room) == Some(LastColumn(block, c.f))
  {
    hide MoveToFront.Decode, MoveToFront.Encode, UsedBelow, Suitable, RotationSorted;
    SortedIsPermutation(block, c.f);
    var n := UsedBelow(c.plan.inUse, 256);
    var l := LastColumn(block, c.f);
    var ranks := RanksOf(l, c.plan.inUse);
    RanksInUse(block, c.f, c.plan.inUse, n);
    assert Identity(n) <= MtfDecoder.IdentityList();
    MoveToFront.RoundTrip(ranks, Identity(n), MtfDecoder.IdentityList(), 0, room, n + 1);
    assert Repeat(Identity(n)[0], 0) + ranks == ranks;
    forall i | 0 <= i < |block| ensures 0 <= ranks[i] < 256 && seqToUnseq[ranks[i]] == l[i] {
      assert c.plan.inUse[l[i]];
    }
    assert MtfDecoder.BytesOf(ranks, seqToUnseq) == l;
  }

  /** The last column in words, low bytes only, and its bucket starts; fails if the symbols
      do not make a block, or one that does not reach the given row. */
  method DecodeColumn(syms: seq<int>, seqToUnseq: seq<Byte>, nInUse: int, origPtr: nat, words: array<int>,
                      nblockMAX: nat)
    returns (r: Result<array<int>>, nblock: int)
    requires |seqToUnseq| == 256 && 0 < nInUse <= 256 && EndsOnce(syms, nInUse + 1) && nblockMAX <= words.Length
    modifies words
    ensures r.Ok? <==> var l := Column(syms, seqToUnseq, nInUse, nblockMAX); l.Some? && origPtr < |l.value|
    ensures r.Ok? ==> var l := Column(syms, seqToUnseq, nInUse, nblockMAX).value;
                      && nblock == |l| <= nblockMAX && fresh(r.value) && r.value.Length == 257
                      && (forall i :: 0 <= i < nblock ==> words[i] == l[i]) && forall c :: 0 <= c <= 256 ==>
                           r.value[c] == Cum(l, c)
  {
    hide MoveToFront.Decode, MtfDecoder.Written;
    var unzftab := new int[256];
    var ok;
    ok, nblock := MtfDecoder.DecodeBlock(syms, seqToUnseq, nInUse, words, unzftab, nblockMAX);
    if !ok || origPtr >= nblock { return DataError, nblock; }
    ghost var l := Column(syms, seqToUnseq, nInUse, nblockMAX).value;
    WrittenOpen(words, unzftab, l);
    InverseFast.TotalIsCum(unzftab[..], l);
    TallyFits(unzftab[..], l);
    r := InverseFast.BuildCftab(unzftab[..], nblock);
  }

  /** The word-per-symbol output stage for a column in words. */
  method StartFast(tt: array<int>, cftab: array<int>, origPtr: nat, nblock: int, blockSize100k: nat, ghost l: seq<Byte>)
    returns (out: FastOutput)
    requires origPtr < nblock == |l| <= tt.Length && nblock <= 100000 * blockSize100k && cftab.Length == 257 &&
             tt != cftab
    requires (forall i :: 0 <= i < nblock ==> tt[i] == l[i]) && forall c :: 0 <= c <= 256 ==> cftab[c] == Cum(l, c)
    modifies tt, cftab
    ensures fresh(out) && out.tt == tt && out.Valid() && out.calculatedBlockCRC == BlockCrc.INITIAL
    ensures out.Coming() == AllOf(out.y) && out.y == SymbolsFrom(l, origPtr)
  {
    hide Cum, InverseFast.Packed, Links, AllOf, Spelled;
    ghost var tl := InverseFast.BuildLinks(tt, cftab, nblock, l);
    LinksInverse(l, tl);
    SymbolsSpelled(l, tl, origPtr);
    out := new FastOutput(tt, origPtr, nblock, blockSize100k, l, tl);
  }

  /** The 20-bit output stage for a column in the low halves. */
  method StartSmall(st: InverseSmall.LinkStore, cftab: array<int>, origPtr: nat, nblock: int, blockSize100k: nat,
                    ghost l: seq<Byte>)
    returns (out: SmallOutput)
    requires st.Valid() && origPtr < nblock == |l| <= st.ll16.Length && nblock <= 100000 * blockSize100k <= BLOCK_LIMIT
    requires cftab.Length == 257 && st.ll16 != cftab
    requires (forall i :: 0 <= i < nblock ==> st.ll16[i] == l[i]) && forall c :: 0 <= c <= 256 ==> cftab[c] == Cum(l, c)
    modifies st.ll16, st.ll4
    ensures fresh(out) && out.st == st && out.cftab == cftab && out.Valid() &&
            out.calculatedBlockCRC == BlockCrc.INITIAL
    ensures out.Coming() == AllOf(out.y) && out.y == SymbolsFrom(l, origPtr)
  {
    hide Cum, InverseSmall.CycleLinked, Links, AllOf, Spelled, Rank;
    var cftabCopy := new int[257];
    for i := 0 to 257
      modifies cftabCopy
      invariant forall c :: 0 <= c < i ==> cftabCopy[c] == cftab[c]
    {
      cftabCopy[i] := cftab[i];
    }
    InverseSmall.ForwardVector(st, cftabCopy, nblock, l);
    ghost var cycle := InverseSmall.ReverseCycle(st, origPtr, nblock, l);
    ghost var tl := InverseSmall.InverseLinks(l);
    LinksInverse(l, tl);
    SymbolsSpelled(l, tl, origPtr);
    out := new SmallOutput(st, cftab, origPtr, nblock, blockSize100k, l, tl, cycle);
  }

  /** The symbols that a column spells from a row. */
  ghost function SymbolsFrom(l: seq<Byte>, origPtr: nat): (y: seq<Byte>)
    requires origPtr < |l|
    ensures |y| == |l| + 1
  {
    var tl := LinksOf(l);
    Spelled(l, tl, origPtr)
  }

  /** The links of a column. */
  ghost function LinksOf(l: seq<Byte>): (tl: seq<int>)
    ensures Links(l, tl) && IsPermutation(tl, |l|)
  {
    LinksExist(l);
    var tl :| Links(l, tl) && IsPermutation(tl, |l|);
    tl
  }

  lemma LinksExist(l: seq<Byte>)
    ensures exists tl :: Links(l, tl) && IsPermutation(tl, |l|)
  {
    var tl := InverseSmall.InverseLinks(l);
    LinksInverse(l, tl);
  }

  /** There is only one way to undo the ranking. */
  lemma SymbolsSpelled(l: seq<Byte>, tl: seq<int>, origPtr: nat)
    requires origPtr < |l| && Links(l, tl) && IsPermutation(tl, |l|)
    ensures Spelled(l, tl, origPtr) == SymbolsFrom(l, origPtr)
  {
    hide Rank, Spelled;
    var other := LinksOf(l);
    LinksInverse(l, other);
    forall k | 0 <= k < |l| ensures tl[k] == other[k] { assert tl[Rank(l, other[k])] == other[k]; }
    assert tl == other;
  }

  /** From the last column of a block and the block's own row, the symbols are the block. */
  lemma BlockSpelled(s: seq<Byte>, f: seq<int>, origPtr: nat)
    requires RotationSorted(s, f) && IsPermutation(f, |s|) && origPtr < |s| && f[origPtr] == 0
    ensures Block(SymbolsFrom(LastColumn(s, f), origPtr)) == s
  {
    hide RotationSorted, Links, LastColumn;
    InverseTransform(s, f, LinksOf(LastColumn(s, f)), origPtr);
  }

  lemma UsedAtMost(inUse: seq<bool>)
    requires |inUse| == 256
    ensures UsedBelow(inUse, 256) <= 256
  {
  }

  lemma CodingFacts(c: Coding, block: seq<Byte>)
    requires Codes(c, block)
    ensures c.origPtr < |block| && IsPermutation(c.f, |block|) && |c.plan.inUse| == 256
    ensures RotationSorted(block, c.f) && c.f[c.origPtr] == 0 && Suitable(c.plan)
  {
  }

  lemma WrittenOpen(words: array<int>, unzftab: array<int>, b: seq<Byte>)
    requires MtfDecoder.Written(words, unzftab, b)
    ensures |b| <= words.Length && unzftab.Length == 256
    ensures (forall i :: 0 <= i < |b| ==> words[i] == b[i]) && forall c :: 0 <= c < 256 ==>
              unzftab[..][c] == Count(b, c, |b|)
  {
  }

  lemma TallyFits(counts: seq<int>, l: seq<Byte>)
    requires |counts| == 256 && forall c :: 0 <= c < 256 ==> counts[c] == Count(l, c, |l|)
    ensures forall c :: 0 <= c < 256 ==> 0 <= counts[c] <= |l|
  {
  }

  // ---------- a whole block ----------

  /** BZ2_decompress from a block's second byte to its tables.  Randomised blocks, which the
      compressor never makes, are refused. */
  method ReadHead(d: BitReader, blockSize100k: nat, ghost sent: nat, ghost ptr: nat, ghost after: seq<int>)
    returns (ok: bool, stored: nat, origPtr: nat)
    requires d.Valid()
    modifies d
    ensures d.Kept() && (old(d.starved) ==> d.starved) && (ok ==> d.starved == old(d.starved))
    ensures d.Valid() && |d.Rest()| <= |old(d.Rest())|
    ensures ok ==> stored < Pow2(32) && old(d.Rest()) == HeadBits(stored, origPtr) + d.Rest()
    ensures old(d.Rest()) == HeadBits(sent, ptr) + after && sent < Pow2(32) && ptr < Pow2(24) && d.Fed() &&
            ptr <= 10 + 100000 * blockSize100k ==>
              ok && d.Rest() == after && stored == sent && origPtr == ptr
  {
    hide BitReader.Valid, BitReader.Rest, Bits, BytesBits, Pow2;
    ghost var good := d.Rest() == HeadBits(sent, ptr) + after && sent < Pow2(32) && ptr < Pow2(24);
    stored, origPtr := 0, 0;
    ghost var afterBit := Bits(ptr, 24) + after;
    ghost var afterCrc := [Flag(false)] + afterBit;
    HeadJoins(sent, ptr, after);
    ok := GetKnown(d, Magic()[1..], Bits(sent, 32) + afterCrc);
    if !ok { return; }
    ok, stored := GetBytes(d, 4, sent, afterCrc);
    if !ok { return; }
    var blockRandomised;
    d.RestIsBits();
    ghost var flagAt := d.Rest();
    ok, blockRandomised := GetFlag(d, false, afterBit);
    if !ok || blockRandomised { return false, stored, origPtr; }
    assert flagAt == [0] + d.Rest();
    ok, origPtr := GetBytes(d, 3, ptr, after);
    HeadJoins(stored, origPtr, d.Rest());
    if origPtr > 10 + 100000 * blockSize100k { ok := false; }
  }

  lemma HeadJoins(stored: nat, origPtr: nat, after: seq<int>)
    ensures HeadBits(stored, origPtr) + after ==
            BytesBits(Magic()[1..]) + (Bits(stored, 32) + ([Flag(false)] + (Bits(origPtr, 24) + after)))
  {
    hide Bits, BytesBits;
  }

  /** The rest of a block's bits, up to its symbols.  Any bits are accepted; those that
      EncodeBlock wrote give back its symbols, and a store is out of range exactly when more
      selectors are announced, and come, than there is room for. */
  method ReadBlock(d: BitReader, blockSize100k: nat, ghost c: Coding, ghost block: seq<Byte>, ghost rest: seq<int>)
    returns (r: Reading, stored: nat, origPtr: nat, inUse: seq<bool>, syms: seq<int>,
             ghost selectorsAt: Option<seq<int>>, ghost head: seq<int>)
    requires d.Valid() && Codes(c, block)
    modifies d
    ensures d.Kept() && (old(d.starved) ==> d.starved) && (r.Done? ==> d.starved == old(d.starved))
    ensures d.Valid() && (r.Done? ==>
                          |inUse| == 256 && UsedBelow(inUse, 256) > 0 && EndsOnce(syms, UsedBelow(inUse, 256) + 1))
    ensures |d.Rest()| <= |old(d.Rest())|
    ensures r.Done? ==> stored < Pow2(32) && IsTail(head, stored) && old(d.Rest()) == head + d.Rest()
    ensures (r.OutOfRange? ==> selectorsAt.Some? && SelectorsOverrun(selectorsAt.value)) &&
            (d.Fed() && selectorsAt.Some? && SelectorsOverrun(selectorsAt.value) ==> r.OutOfRange?)
    ensures old(d.Rest()) == BlockTail(c) + rest && |block| <= 100000 * blockSize100k && d.Fed() ==>
              r.Done? && d.Rest() == rest && stored == c.crc && origPtr == c.origPtr && syms == c.plan.mtfv &&
              inUse == c.plan.inUse
  {
    hide BitReader.Valid, BitReader.Rest, Bits, BytesBits, PlanBits, Codes, UsedBelow, Suitable, Pow2, SelectorsOverrun,
         HeadBits;
    CodingSizes(c, block);
    inUse, syms, stored, origPtr, r, selectorsAt, head := [], [], 0, 0, Failed, None, [];
    Associate(HeadBits(c.crc, c.origPtr), PlanBits(c.plan), rest);
    var ok;
    ok, stored, origPtr := ReadHead(d, blockSize100k, c.crc, c.origPtr, PlanBits(c.plan) + rest);
    if !ok { return; }
    label Tables:
    r, inUse, syms, selectorsAt := GetMtfValues(d, c.plan, rest);
    ghost var body := d.FromFront@Tables();
    head := HeadBits(stored, origPtr) + body;
    Associate(HeadBits(stored, origPtr), body, d.Rest());
  }

  /** The symbols a coded block spells: its own, and the first one again. */
  ghost function CodedSymbols(c: Coding, block: seq<Byte>): (y: seq<Byte>)
    requires Codes(c, block)
    ensures |y| == |block| + 1 && Block(y) == block
  {
    hide SymbolsFrom, Block;
    CodingFacts(c, block);
    BlockSpelled(block, c.f, c.origPtr);
    SymbolsFrom(LastColumn(block, c.f), c.origPtr)
  }

  /** What a decoder has yet to write after reading a block that EncodeBlock wrote. */
  lemma ColumnOfBlock(c: Coding, block: seq<Byte>, seqToUnseq: seq<Byte>, room: int)
    requires Codes(c, block) && |block| <= room && |seqToUnseq| == 256
    requires forall b :: 0 <= b < 256 && c.plan.inUse[b] ==>
               UsedBelow(c.plan.inUse, b) < 256 && seqToUnseq[UsedBelow(c.plan.inUse, b)] == b
    ensures var l := Column(c.plan.mtfv, seqToUnseq, UsedBelow(c.plan.inUse, 256), room);
            l.Some? && c.origPtr < |l.value| == |block| && SymbolsFrom(l.value, c.origPtr) == CodedSymbols(c, block)
  {
    hide Column, SymbolsFrom, Codes, UsedBelow, Block;
    ColumnBack(c, block, seqToUnseq, room);
    CodingFacts(c, block);
  }

  /** A block read and made ready for output, one word a symbol: any bits either fail or lead
      to a valid output stage, and those of a block to one that has the block to write. */
  method DecodeFast(d: BitReader, blockSize100k: nat, ghost c: Coding, ghost block: seq<Byte>, ghost rest: seq<int>)
    returns (r: Reading, stored: nat, out: FastOutput?, ghost selectorsAt: Option<seq<int>>, ghost head: seq<int>)
    requires d.Valid() && Codes(c, block)
    modifies d
    ensures d.Kept() && (old(d.starved) ==> d.starved) && (r.Done? ==> d.starved == old(d.starved))
    ensures d.Valid() && (r.Done? ==>
                          out != null && fresh(out) && fresh(out.tt) && out.Valid() && out.Coming() == AllOf(out.y) &&
                          out.calculatedBlockCRC == BlockCrc.INITIAL)
    ensures |d.Rest()| <= |old(d.Rest())|
    ensures r.Done? ==> stored < Pow2(32) && IsTail(head, stored) && old(d.Rest()) == head + d.Rest()
    ensures (r.OutOfRange? ==> selectorsAt.Some? && SelectorsOverrun(selectorsAt.value)) &&
            (d.Fed() && selectorsAt.Some? && SelectorsOverrun(selectorsAt.value) ==> r.OutOfRange?)
    ensures old(d.Rest()) == BlockTail(c) + rest && |block| <= 100000 * blockSize100k && d.Fed() ==>
              r.Done? && d.Rest() == rest && stored == c.crc && out.y == CodedSymbols(c, block)
  {
    hide BitReader.Valid, BitReader.Rest, Codes, UsedBelow, BlockTail, IsTail, SelectorsOverrun, Column, SymbolsFrom,
         CodedSymbols, AllOf, FastOutput.Valid;
    CodingFacts(c, block);
    ghost var good := d.Rest() == BlockTail(c) + rest && |block| <= 100000 * blockSize100k;
    var origPtr, inUse, syms;
    out := null;
    r, stored, origPtr, inUse, syms, selectorsAt, head := ReadBlock(d, blockSize100k, c, block, rest);
    if !r.Done? { return; }
    UsedAtMost(inUse);
    var maps, nInUse := MakeMapsD(inUse);
    var tt := new int[100000 * blockSize100k];
    if good && d.Fed() { ColumnOfBlock(c, block, maps[..], tt.Length); }
    var cftab, nblock := DecodeColumn(syms, maps[..], nInUse, origPtr, tt, tt.Length);
    if cftab.DataError? { r := Failed; return; }
    out := StartFast(tt, cftab.value, origPtr, nblock, blockSize100k, Column(syms, maps[..], nInUse, tt.Length).value);
  }

  /** The same in 20 bits a symbol. */
  method DecodeSmall(d: BitReader, blockSize100k: nat, ghost c: Coding, ghost block: seq<Byte>, ghost rest: seq<int>)
    returns (r: Reading, stored: nat, out: SmallOutput?, ghost selectorsAt: Option<seq<int>>, ghost head: seq<int>)
    requires d.Valid() && Codes(c, block) && 100000 * blockSize100k <= BLOCK_LIMIT
    modifies d
    ensures d.Kept() && (old(d.starved) ==> d.starved) && (r.Done? ==> d.starved == old(d.starved))
    ensures d.Valid() && (r.Done? ==>
                          out != null && fresh(out) && out.Valid() && out.Coming() == AllOf(out.y) &&
                          out.calculatedBlockCRC == BlockCrc.INITIAL)
    ensures |d.Rest()| <= |old(d.Rest())|
    ensures r.Done? ==> stored < Pow2(32) && IsTail(head, stored) && old(d.Rest()) == head + d.Rest()
    ensures (r.OutOfRange? ==> selectorsAt.Some? && SelectorsOverrun(selectorsAt.value)) &&
            (d.Fed() && selectorsAt.Some? && SelectorsOverrun(selectorsAt.value) ==> r.OutOfRange?)
    ensures old(d.Rest()) == BlockTail(c) + rest && |block| <= 100000 * blockSize100k && d.Fed() ==>
              r.Done? && d.Rest() == rest && stored == c.crc && out.y == CodedSymbols(c, block)
  {
    hide BitReader.Valid, BitReader.Rest, Codes, UsedBelow, BlockTail, IsTail, SelectorsOverrun, Column, SymbolsFrom,
         CodedSymbols, AllOf, SmallOutput.Valid;
    CodingFacts(c, block);
    ghost var good := d.Rest() == BlockTail(c) + rest && |block| <= 100000 * blockSize100k;
    var origPtr, inUse, syms;
    out := null;
    r, stored, origPtr, inUse, syms, selectorsAt, head := ReadBlock(d, blockSize100k, c, block, rest);
    if !r.Done? { return; }
    UsedAtMost(inUse);
    var maps, nInUse := MakeMapsD(inUse);
    var st := new InverseSmall.LinkStore(100000 * blockSize100k);
    if good && d.Fed() { ColumnOfBlock(c, block, maps[..], st.ll16.Length); }
    var cftab, nblock := DecodeColumn(syms, maps[..], nInUse, origPtr, st.ll16, st.ll16.Length);
    if cftab.DataError? { r := Failed; return; }
    out := StartSmall(st, cftab.value, origPtr, nblock, blockSize100k,
                      Column(syms, maps[..], nInUse, st.ll16.Length).value);
  }

  lemma CodingSizes(c: Coding, block: seq<Byte>)
    requires Codes(c, block)
    ensures Suitable(c.plan) && c.crc < Pow2(32) && c.origPtr < |block| <= BLOCK_LIMIT && c.origPtr < Pow2(24) &&
            IsPermutation(c.f, |block|)
  {
    hide Suitable, Pow2;
    Positions24();
  }

  /** Writing a block and reading it back: for every block and every checksum, the output stage
      starts with exactly the run-length decoded block to write, and the stored checksum is the
      one given. */
  method RoundTrip(block: array<Byte>, inUse: seq<bool>, crc: nat, blockSize100k: nat)
    returns (out: FastOutput, small: SmallOutput, stored: nat)
    requires 1 <= blockSize100k <= 9 && 0 < block.Length <= 100000 * blockSize100k && Covers(inUse, block[..]) &&
             crc < Pow2(32)
    modifies block
    ensures block[..] == old(block[..]) && stored == crc
    ensures out.Valid() && small.Valid() && out.Coming() == small.Coming()
    ensures RunLength.Decode(block[..]) == if out.Coming().1 then Some(out.Coming().0) else None
    ensures out.calculatedBlockCRC == small.calculatedBlockCRC == BlockCrc.INITIAL
  {
    hide BitReader.Valid, BitReader.Rest, BitWriter.Valid, BitWriter.Written, Codes, BlockBits, BlockTail, Bits, Covers,
         BytesBits, Pow2, AllOf, WellPlanned, FastOutput.Valid, SmallOutput.Valid;
    var w := new BitWriter();
    ghost var c := EncodeBlock(w, block, inUse, crc);
    CodingSizes(c, block[..]);
    ghost var bits := BlockBits(c);
    assert [] + bits == bits;
    ghost var pad := w.FinishWrite();
    BlockOpens(c);
    ghost var tail := BlockTail(c) + Bits(0, pad);
    assert bits + Bits(0, pad) == Bits(0x31, 8) + tail && BytesBits(w.zbits) + [] == BytesBits(w.zbits);
    Powers();
    var d := new BitReader(w.zbits, []);
    var e := new BitReader(w.zbits, []);
    var kind := GetNumber(d, 8, 0x31, tail);
    kind := GetNumber(e, 8, 0x31, tail);
    var r, fast, other, twenty;
    ghost var selectorsAt;
    ghost var head;
    r, stored, fast, selectorsAt, head := DecodeFast(d, blockSize100k, c, block[..], Bits(0, pad));
    r, other, twenty, selectorsAt, head := DecodeSmall(e, blockSize100k, c, block[..], Bits(0, pad));
    AllDecodes(fast.y);
    out, small := fast, twenty;
  }
}
