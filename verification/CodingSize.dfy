/** How long the bits of a block can be: never so long that they do not fit behind the block
    in the array they share. */
module CodingSize {
  import opened Common
  import opened CanonicalCode
  import opened Rotations
  import opened BurrowsWheeler
  import opened SelectorMtf
  import opened Huffman
  import opened BitStream
  import opened BlockFormat
  import opened BlockCodec
  import opened MtfEncoder
  import MoveToFront

  // ---------- the parts ----------

  lemma {:induction false} RowsShort(inUse: seq<bool>, i: nat)
    requires |inUse| == 256 && i <= 16
    ensures |RowsBits(inUse, i)| <= 16 * (16 - i)
    decreases 16 - i
  {
    if i < 16 { RowsShort(inUse, i + 1); }
  }

  lemma {:induction false} UnaryLength(j: nat)
    ensures |UnaryBits(j)| == j + 1
  {
    if j > 0 { UnaryLength(j - 1); }
  }

  lemma {:induction false} UnariesShort(codes: seq<int>, most: nat)
    requires forall k :: 0 <= k < |codes| ==> 0 <= codes[k] < most
    ensures |AllUnary(codes)| <= most * |codes|
    decreases |codes|
  {
    if codes != [] {
      UnaryLength(codes[0]);
      UnariesShort(codes[1..], most);
      MulDistributes(most, 1, |codes| - 1);
    }
  }

  lemma {:induction false} StepsLength(curr: int, target: int)
    ensures |Steps(curr, target)| == 2 * (if curr < target then target - curr else curr - target) + 1
    decreases if curr < target then target - curr else curr - target
  {
    if curr < target { StepsLength(curr + 1, target); } else if curr > target { StepsLength(curr - 1, target); }
  }

  lemma {:induction false} DeltasShort(curr: int, lens: seq<Byte>)
    requires 1 <= curr <= LONGEST && forall i :: 0 <= i < |lens| ==> 1 <= lens[i] <= LONGEST
    ensures |DeltaBits(curr, lens)| <= 39 * |lens|
    decreases |lens|
  {
    if lens != [] {
      StepsLength(curr, lens[0]);
      DeltasShort(lens[0], lens[1..]);
    }
  }

  lemma {:induction false} TablesShort(tables: seq<seq<Byte>>, alphaSize: nat)
    requires alphaSize > 0 && forall t :: 0 <= t < |tables| ==> tables[t] != [] && TableFits(tables[t], alphaSize)
    ensures |TablesBits(tables)| <= (5 + 39 * alphaSize) * |tables|
    decreases |tables|
  {
    hide Kraft, Bits;
    if tables != [] {
      assert TableFits(tables[0], alphaSize);
      DeltasShort(tables[0][0], tables[0]);
      forall t | 0 <= t < |tables[1..]|
        ensures tables[1..][t] != [] && TableFits(tables[1..][t], alphaSize)
      {
        assert tables[1..][t] == tables[t + 1];
      }
      TablesShort(tables[1..], alphaSize);
      MulDistributes(5 + 39 * alphaSize, 1, |tables| - 1);
    }
  }

  lemma {:induction false} SymbolsShort(p: Plan, i: int)
    requires Suitable(p) && 0 <= i <= |p.mtfv|
    ensures |SymbolBits(p, i)| <= LONGEST * (|p.mtfv| - i)
    decreases |p.mtfv| - i
  {
    hide Kraft, EndsOnce;
    if i < |p.mtfv| {
      CodeShort(p, i);
      SymbolsShort(p, i + 1);
    }
  }

  lemma CodeShort(p: Plan, i: int)
    requires Suitable(p) && 0 <= i < |p.mtfv|
    ensures |CodeBits(TableOf(p, i), p.mtfv[i])| <= LONGEST
  {
    hide Kraft, EndsOnce;
    var lens := TableOf(p, i);
    var t :| 0 <= t < |p.tables| && p.tables[t] == lens;
    assert TableFits(p.tables[t], MtfEncoder.UsedBelow(p.inUse, 256) + 2);
  }

  lemma {:induction false} NumeralShort(z: nat)
    ensures |MoveToFront.RunCode(z)| <= z + 1
  {
    if z >= 2 { NumeralShort((z - 2) / 2); }
  }

  /** No more symbols than ranks, and the end. */
  lemma {:induction false} SymbolsFew(ll: seq<int>, yy: seq<int>, z: nat, eob: int)
    requires forall k :: 0 <= k < |ll| ==> ll[k] in yy
    ensures |MoveToFront.Encode(ll, yy, z, eob)| <= |ll| + z + 1
    decreases |ll|
  {
    hide MoveToFront.MoveFront, MoveToFront.IndexOf, MoveToFront.RunCode;
    if z > 0 { NumeralShort(z - 1); }
    if ll == [] {
      return;
    }
    assert ll[0] in yy;
    if yy[0] == ll[0] {
      SymbolsFew(ll[1..], yy, z + 1, eob);
    } else {
      var j := MoveToFront.IndexOf(yy, ll[0]);
      MoveToFront.MoveFrontSame(yy, j);
      forall k | 0 <= k < |ll[1..]| ensures ll[1..][k] in MoveToFront.MoveFront(yy, j) {
        assert ll[1..][k] == ll[k + 1];
      }
      SymbolsFew(ll[1..], MoveToFront.MoveFront(yy, j), 0, eob);
    }
  }

  // ---------- the whole ----------

  /** The most bits besides those of the symbols: the stream's header and trailer, the block's,
      the map, the selectors, the tables, and what the bit buffer held and rounds up to. */
  const BESIDES := 32 + 80 + 105 + 272 + (18 + GROUP_LIMIT * MAX_SELECTORS) + GROUP_LIMIT * (5 + 39 * MAX_ALPHA_SIZE) +
      WORD + 8

  lemma SelectorsShort(p: Plan)
    requires Suitable(p)
    ensures |SelectorBits(p)| <= 18 + GROUP_LIMIT * MAX_SELECTORS
  {
    hide Bits, TableFits, EndsOnce;
    SelectorsInList(p);
    var codes := Positions(p.selector, Identity(|p.tables|));
    UnariesShort(codes, |p.tables|);
    MulMonotone(|p.tables|, GROUP_LIMIT, |codes|);
  }

  lemma PlanShort(p: Plan)
    requires Suitable(p)
    ensures |PlanBits(p)| <= 272 + (18 + GROUP_LIMIT * MAX_SELECTORS) + GROUP_LIMIT * (5 + 39 * MAX_ALPHA_SIZE) +
            LONGEST * |p.mtfv|
  {
    hide TableFits, EndsOnce, SelectorBits, TablesBits, SymbolBits;
    RowsShort(p.inUse, 0);
    SelectorsShort(p);
    PlanTables(p);
    SymbolsShort(p, 0);
  }

  lemma PlanTables(p: Plan)
    requires Suitable(p)
    ensures |TablesBits(p.tables)| <= GROUP_LIMIT * (5 + 39 * MAX_ALPHA_SIZE)
  {
    hide Kraft, EndsOnce;
    var alphaSize := MtfEncoder.UsedBelow(p.inUse, 256) + 2;
    TablesShort(p.tables, alphaSize);
    MulMonotone(|p.tables|, GROUP_LIMIT, 5 + 39 * alphaSize);
  }

  /** The bits of a block of n bytes. */
  lemma BlockShort(c: Coding, block: seq<Byte>)
    requires Codes(c, block)
    ensures |BlockBits(c)| <= BESIDES - 32 - 80 - WORD - 8 + LONGEST * (|block| + 1)
  {
    hide Suitable, PlanBits, Bits, BytesBits, RotationSorted;
    MagicBits();
    PlanShort(c.plan);
    var n := MtfEncoder.UsedBelow(c.plan.inUse, 256);
    SymbolsCount(c, block);
  }

  lemma SymbolsCount(c: Coding, block: seq<Byte>)
    requires Codes(c, block)
    ensures |c.plan.mtfv| <= |block| + 1
  {
    hide Suitable, MoveToFront.Encode, MtfEncoder.RanksOf;
    var n := MtfEncoder.UsedBelow(c.plan.inUse, 256);
    MtfEncoder.RanksInUse(block, c.f, c.plan.inUse, n);
    SymbolsFew(MtfEncoder.RanksOf(LastColumn(block, c.f), c.plan.inUse), MtfEncoder.Identity(n), 0, n + 1);
  }

  /** At every level, a block and the bytes of its bits fit into the array they share. */
  lemma FitsBehind(nblock: nat, bytes: nat, level: nat)
    requires 1 <= level <= 9 && nblock <= 100000 * level && 8 * bytes <= BESIDES + LONGEST * (nblock + 1)
    ensures nblock + bytes <= 4 * (100000 * level + 34)
  {
  }
}
