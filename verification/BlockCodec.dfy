/** One block from its bytes to its bits: sorted, transformed and coded. */
module BlockCodec {
  import opened Common
  import opened Rotations
  import opened BurrowsWheeler
  import opened CanonicalCode
  import opened BitStream
  import opened BlockFormat
  import opened MtfEncoder
  import opened TableChoice
  import FallbackSort
  import MoveToFront

  const BLOCK_LIMIT := 900000

  /** The bytes that start a block. */
  function Magic(): seq<Byte> { [0x31, 0x41, 0x59, 0x26, 0x53, 0x59] }

  // ---------- the format of a block ----------

  /** The symbols of a sorted block. */
  ghost function SymbolsOf(block: seq<Byte>, f: seq<int>, inUse: seq<bool>): seq<int>
    requires 0 < |block| && IsPermutation(f, |block|) && Covers(inUse, block)
  {
    var n := UsedBelow(inUse, 256);
    RanksInUse(block, f, inUse, n);
    MoveToFront.Encode(RanksOf(LastColumn(block, f), inUse), Identity(n), 0, n + 1)
  }

  ghost predicate Covers(inUse: seq<bool>, block: seq<Byte>) {
    |inUse| == 256 && forall i :: 0 <= i < |block| ==> inUse[block[i]]
  }

  /** What the compressor settles for a block. */
  datatype Coding = Coding(f: seq<int>, origPtr: nat, crc: nat, plan: Plan)

  ghost predicate Codes(c: Coding, block: seq<Byte>) {
    && 0 < |block| <= BLOCK_LIMIT && RotationSorted(block, c.f) && 0 <= c.origPtr < |block| && c.f[c.origPtr] == 0
    && c.crc < Pow2(32) && Suitable(c.plan) && Covers(c.plan.inUse, block)
    && c.plan.mtfv == SymbolsOf(block, c.f, c.plan.inUse)
  }

  /** The bits of the block: magic bytes, checksum, a zero for not randomised, the position
      of the unrotated block, and then tables and symbols. */
  ghost function BlockBits(c: Coding): seq<int>
    requires Suitable(c.plan)
  {
    BytesBits(Magic()) + Bits(c.crc, 32) + [0] + Bits(c.origPtr, 24) + PlanBits(c.plan)
  }

  // ---------- other sorts ----------

  /** The same block, sorted in two ways and otherwise coded alike: the bits differ at most in
      the 24 that give the block's own row, and if the block equals none of its rotations,
      not at all. */
  lemma OnlyOrigPtr(c: Coding, d: Coding, block: seq<Byte>)
    requires Codes(c, block) && Codes(d, block) && c.crc == d.crc
    requires c.plan.(mtfv := []) == d.plan.(mtfv := [])
    ensures c.plan == d.plan && |BlockBits(c)| == |BlockBits(d)| >= 105
    ensures BlockBits(c)[..81] == BlockBits(d)[..81] && BlockBits(c)[105..] == BlockBits(d)[105..]
    ensures BlockBits(c)[81..105] == Bits(c.origPtr, 24)
    ensures BlockBits(c) == BlockBits(d) <==> c.origPtr == d.origPtr
    ensures Primitive(block) ==> c.origPtr == d.origPtr
  {
    hide RotationSorted, Suitable, PlanBits, Bits, BytesBits, LastColumn, Primitive;
    LastColumnUnique(block, c.f, d.f);
    assert c.plan.mtfv == d.plan.mtfv;
    RowsDiffer(c.origPtr, d.origPtr);
    MagicBits();
    var head := BytesBits(Magic()) + Bits(c.crc, 32) + [0];
    assert BlockBits(c)[81..105] == Bits(c.origPtr, 24) && BlockBits(d)[81..105] == Bits(d.origPtr, 24);
    if Primitive(block) {
      OrderUnique(block, c.f, d.f);
      OneOwnRow(block, c.f, c.origPtr, d.origPtr);
    }
  }

  lemma MagicBits()
    ensures |BytesBits(Magic())| == 48
  {
    hide Bits;
  }

  lemma RowsDiffer(a: nat, b: nat)
    requires a < BLOCK_LIMIT && b < BLOCK_LIMIT
    ensures Bits(a, 24) == Bits(b, 24) <==> a == b
  {
    hide Bits, Value;
    Powers();
    BitsValue(a, 24);
    BitsValue(b, 24);
  }

  lemma OneOwnRow(block: seq<Byte>, f: seq<int>, p: nat, q: nat)
    requires RotationSorted(block, f) && p < |block| && q < |block| && f[p] == f[q]
    ensures p == q
  {
  }

  // ---------- encoding ----------

  /** A number without its b low bits. */
  function Above(v: nat, b: nat): nat {
    QuotientSign(v, Pow2(b));
    v / Pow2(b)
  }

  /** A number's bits, the top ones and the low ones. */
  lemma {:induction false} BitsJoin(v: nat, a: nat, b: nat)
    ensures Bits(v, a + b) == Bits(Above(v, b), a) + Bits(v, b)
    decreases b
  {
    hide Bits;
    if b == 0 {
      assert Above(v, 0) == v;
      NoBits(v);
      assert Bits(v, a) + [] == Bits(v, a);
    } else {
      hide Pow2;
      BitsJoin(v / 2, a, b - 1);
      PowerTwice(b);
      TwoDivisions(v, 2, Pow2(b - 1));
      BitsOpen(v, a + b);
      BitsOpen(v, b);
      assert Above(v, b) == Above(v / 2, b - 1);
      var top := Bits(Above(v, b), a);
      assert top + (Bits(v / 2, b - 1) + [v % 2]) == top + Bits(v / 2, b - 1) + [v % 2];
    }
  }

  lemma PowerTwice(b: nat)
    requires b > 0
    ensures Pow2(b) == 2 * Pow2(b - 1)
  {
  }

  lemma BitsOpen(v: nat, n: nat)
    requires n > 0
    ensures Bits(v, n) == Bits(v / 2, n - 1) + [v % 2]
  {
  }

  /** Only the low n bits count. */
  lemma {:induction false} BitsLow(v: nat, n: nat)
    ensures Bits(v % Pow2(n), n) == Bits(v, n)
  {
    if n > 0 {
      var q, r, p := v / Pow2(n), v % Pow2(n), Pow2(n - 1);
      QuotientSign(v, Pow2(n));
      MulDouble(q, p);
      QuotientUnique(v / 2, p, q, r / 2);
      BitsLow(v / 2, n - 1);
    }
  }

  method PutByte(w: BitWriter, b: Byte)
    requires w.Valid()
    modifies w
    ensures w.Valid() && w.Written() == old(w.Written()) + Bits(b, 8)
  {
    hide BitWriter.Valid, BitWriter.Written;
    Powers();
    w.BsW(8, b);
  }

  /** bsPutUInt32. */
  method PutUInt32(w: BitWriter, u: nat)
    requires w.Valid() && u < Pow2(32)
    modifies w
    ensures w.Valid() && w.Written() == old(w.Written()) + Bits(u, 32)
  {
    hide BitWriter.Valid, BitWriter.Written, Bits, Pow2;
    UInt32Bytes(u);
    PutByte(w, (u / 0x100_0000) % 256);
    PutByte(w, (u / 0x1_0000) % 256);
    PutByte(w, (u / 0x100) % 256);
    PutByte(w, u % 256);
  }

  lemma UInt32Bytes(u: nat)
    ensures Bits(u, 32) == Bits((u / 0x100_0000) % 256, 8) + Bits((u / 0x1_0000) % 256, 8) +
            Bits((u / 0x100) % 256, 8) + Bits(u % 256, 8)
  {
    hide Bits, Pow2;
    Powers();
    Power16();
    BitsJoin(u, 8, 24);
    BitsJoin(u, 8, 16);
    BitsJoin(u, 8, 8);
    BitsLow(u / 0x100_0000, 8);
    BitsLow(u / 0x1_0000, 8);
    BitsLow(u / 0x100, 8);
    BitsLow(u, 8);
    assert Bits(u, 24) == Bits(u / 0x1_0000, 8) + Bits(u, 16) && Bits(u, 16) == Bits(u / 0x100, 8) + Bits(u, 8);
  }

  lemma Power16()
    ensures Pow2(16) == 0x1_0000
  {
    Powers();
    Pow2Add(8, 8);
  }

  /** The end-of-block symbol ends the symbols and does not occur before. */
  lemma {:induction false} EncodeEnds(ll: seq<int>, yy: seq<int>, z: nat, eob: int)
    requires yy != [] && eob == |yy| + 1 && forall k :: 0 <= k < |ll| ==> ll[k] in yy
    ensures EndsOnce(MoveToFront.Encode(ll, yy, z, eob), eob)
    decreases |ll|
  {
    hide MoveToFront.MoveFront, MoveToFront.IndexOf, MoveToFront.RunCode;
    var run := if z > 0 then MoveToFront.RunCode(z - 1) else [];
    if ll == [] {
    } else if yy[0] == ll[0] {
      EncodeEnds(ll[1..], yy, z + 1, eob);
    } else {
      var j := MoveToFront.IndexOf(yy, ll[0]);
      MoveToFront.MoveFrontSame(yy, j);
      forall k | 0 <= k < |ll[1..]| ensures ll[1..][k] in MoveToFront.MoveFront(yy, j) {
        assert ll[1..][k] == ll[k + 1];
      }
      EncodeEnds(ll[1..], MoveToFront.MoveFront(yy, j), 0, eob);
      EndsAfter(run + [j + 1], MoveToFront.Encode(ll[1..], MoveToFront.MoveFront(yy, j), 0, eob), eob);
    }
  }

  lemma EndsAfter(a: seq<int>, b: seq<int>, eob: int)
    requires EndsOnce(b, eob) && forall i :: 0 <= i < |a| ==> 0 <= a[i] < eob
    ensures EndsOnce(a + b, eob)
  {
  }

  /** The words of ptr seen as halves. */
  method Halves(fmap: array<int>) returns (half: array<int>)
    ensures fresh(half) && half.Length == 2 * fmap.Length
    ensures forall i :: 0 <= i < fmap.Length ==> PtrAt(half, i) == fmap[i]
  {
    half := new int[2 * fmap.Length];
    for i := 0 to fmap.Length
      invariant forall k :: 0 <= k < i ==> PtrAt(half, k) == fmap[k]
    {
      half[2 * i], half[2 * i + 1] := fmap[i] % 0x1_0000, fmap[i] / 0x1_0000;
    }
  }

  /** BZ2_blockSort: the sorted rotations and the place of the block itself. */
  method SortBlock(block: array<Byte>) returns (fmap: array<int>, origPtr: nat)
    requires 0 < block.Length <= BLOCK_LIMIT
    modifies block
    ensures block[..] == old(block[..]) && fresh(fmap) && RotationSorted(block[..], fmap[..])
    ensures origPtr < fmap.Length == block.Length && fmap[origPtr] == 0
  {
    hide RotationSorted;
    fmap := new int[block.Length];
    var eclass := new int[block.Length];
    var bhtab := new bool[FallbackSort.HEADER_BITS];
    FallbackSort.Sort(block, fmap, eclass, bhtab);
    SortedIsPermutation(block[..], fmap[..]);
    assert fmap[..block.Length] == fmap[..];
    origPtr := FallbackSort.FindOrigPtr(fmap, block.Length);
  }

  lemma SortedIsPermutation(s: seq<Byte>, f: seq<int>)
    requires RotationSorted(s, f)
    ensures IsPermutation(f, |s|) && |f| == |s|
  {
  }

  /** The tables and selectors are those that sendMTFValues arrives at. */
  ghost predicate WellPlanned(p: Plan) {
    |p.inUse| == 256 &&
    Settled(p.mtfv, Counts(multiset(p.mtfv), UsedBelow(p.inUse, 256) + 2), p.selector, p.tables)
  }

  /** The symbols of a sorted block and how often each occurs. */
  method BlockSymbols(block: seq<Byte>, fmap: array<int>, inUse: seq<bool>)
    returns (mtfv: seq<int>, freq: seq<int>, nInUse: int)
    requires 0 < |block| <= BLOCK_LIMIT && Covers(inUse, block) && IsPermutation(fmap[..], |block|)
    ensures nInUse == UsedBelow(inUse, 256) && 1 <= nInUse <= 256 && |mtfv| <= |block| + 1
    ensures mtfv == SymbolsOf(block, fmap[..], inUse) && EndsOnce(mtfv, nInUse + 1)
    ensures freq == Counts(multiset(mtfv), nInUse + 2)
  {
    hide IsPermutation, LastColumn, RanksOf;
    ghost var f := fmap[..];
    PermutationLength(f, |block|);
    var half := Halves(fmap);
    var mtfFreq := new int[258];
    var nMTF;
    nMTF, nInUse := GenerateMtfValues(half, block, inUse, mtfFreq, f);
    mtfv := half[..nMTF];
    ghost var ranks := RanksOf(LastColumn(block, f), inUse);
    RanksInUse(block, f, inUse, nInUse);
    EncodeEnds(ranks, Identity(nInUse), 0, nInUse + 1);
    freq := mtfFreq[..nInUse + 2];
  }

  /** A plan to code the symbols of a sorted block. */
  method PlanBlock(block: seq<Byte>, fmap: array<int>, inUse: seq<bool>) returns (plan: Plan)
    requires 0 < |block| <= BLOCK_LIMIT && Covers(inUse, block) && IsPermutation(fmap[..], |block|)
    ensures Suitable(plan) && plan.inUse == inUse && plan.mtfv == SymbolsOf(block, fmap[..], inUse)
    ensures WellPlanned(plan)
  {
    hide IsPermutation, TableFits, SymbolsOf, Settled, Counts;
    var mtfv, freq, nInUse := BlockSymbols(block, fmap, inUse);
    var tables, selector := ChooseTables(mtfv, freq);
    plan := Plan(inUse, tables, selector, mtfv);
  }

  lemma PermutationLength(f: seq<int>, n: nat)
    requires IsPermutation(f, n)
    ensures |f| == n
  {
  }

  /** The part of BZ2_compressBlock that writes a block. */
  method EncodeBlock(w: BitWriter, block: array<Byte>, inUse: seq<bool>, crc: nat) returns (ghost c: Coding)
    requires w.Valid() && 0 < block.Length <= BLOCK_LIMIT && Covers(inUse, block[..]) && crc < Pow2(32)
    modifies w, block
    ensures block[..] == old(block[..]) && w.Valid() && Codes(c, block[..]) && c.crc == crc && c.plan.inUse == inUse
    ensures WellPlanned(c.plan)
    ensures w.Written() == old(w.Written()) + BlockBits(c)
  {
    hide BitWriter.Valid, BitWriter.Written, RotationSorted, Suitable, PlanBits, Bits, Covers, SymbolsOf, Pow2,
         WellPlanned;
    var fmap, origPtr := SortBlock(block);
    SortedIsPermutation(block[..], fmap[..]);
    ghost var start := w.Written();
    PutMagic(w);
    PutUInt32(w, crc);
    OneBit(false);
    w.BsW(1, 0);
    Positions24();
    w.BsW(24, origPtr);
    var plan := PlanBlock(block[..], fmap, inUse);
    SendMtfValues(w, plan);
    c := Coding(fmap[..], origPtr, crc, plan);
    assert w.Written() == start + BlockBits(c);
  }

  lemma Positions24()
    ensures BLOCK_LIMIT < Pow2(24)
  {
    Powers();
  }

  method PutMagic(w: BitWriter)
    requires w.Valid()
    modifies w
    ensures w.Valid() && w.Written() == old(w.Written()) + BytesBits(Magic())
  {
    hide BitWriter.Valid, BitWriter.Written, BytesBits, Bits;
    assert Magic()[..0] == [];
    NoBytes();
    for i := 0 to 6
      invariant w.Valid() && w.Written() == old(w.Written()) + BytesBits(Magic()[..i])
    {
      BytesBitsPush(Magic()[..i], Magic()[i]);
      assert Magic()[..i + 1] == Magic()[..i] + [Magic()[i]];
      PutByte(w, Magic()[i]);
    }
    assert Magic()[..6] == Magic();
  }
}
