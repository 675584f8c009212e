/** The bits of a compressed block of bzip2, and how the compressor writes them. */
module BlockFormat {
  import opened Common
  import opened CanonicalCode
  import opened MtfEncoder
  import opened SelectorMtf
  import opened BitStream
  import opened Huffman

  const GROUP_SIZE := 50
  const GROUP_LIMIT := 6
  /** The room for selectors in the states of both sides (BZ_MAX_SELECTORS). */
  const MAX_SELECTORS := 2 + 900000 / GROUP_SIZE

  /** What one block is coded with: the bytes in use, the tables of code lengths, which table
      each group of symbols uses, and the symbols. */
  datatype Plan = Plan(inUse: seq<bool>, tables: seq<seq<Byte>>, selector: seq<int>, mtfv: seq<int>)

  ghost predicate TableFits(lens: seq<Byte>, alphaSize: int) {
    && |lens| == alphaSize && Kraft(lens, LONGEST)
    && forall i :: 0 <= i < |lens| ==> 1 <= lens[i] <= LONGEST
  }

  /** Any choice of tables and selectors that covers all symbols will do. */
  ghost predicate Suitable(p: Plan) {
    && |p.inUse| == 256 && 1 <= UsedBelow(p.inUse, 256)
    && 2 <= |p.tables| <= GROUP_LIMIT
    && (forall t :: 0 <= t < |p.tables| ==> TableFits(p.tables[t], UsedBelow(p.inUse, 256) + 2))
    && 1 <= |p.selector| <= MAX_SELECTORS && (forall g :: 0 <= g < |p.selector| ==> 0 <= p.selector[g] < |p.tables|)
    && GROUP_SIZE * (|p.selector| - 1) < |p.mtfv| <= GROUP_SIZE * |p.selector|
    && EndsOnce(p.mtfv, UsedBelow(p.inUse, 256) + 1)
  }

  /** The symbols are those of the alphabet, and the last of them, and no other, is eob. */
  ghost predicate EndsOnce(mtfv: seq<int>, eob: int) {
    && mtfv != [] && mtfv[|mtfv| - 1] == eob
    && forall i :: 0 <= i < |mtfv| - 1 ==> 0 <= mtfv[i] < eob
  }

  // ---------- the bits ----------

  function Flag(b: bool): int { if b then 1 else 0 }

  function FlagBits(flags: seq<bool>): (r: seq<int>)
    ensures |r| == |flags| && forall i :: 0 <= i < |r| ==> r[i] == Flag(flags[i])
  {
    seq(|flags|, i requires 0 <= i < |flags| => Flag(flags[i]))
  }

  function Row(inUse: seq<bool>, i: int): (r: seq<bool>)
    requires |inUse| == 256 && 0 <= i < 16
    ensures |r| == 16
  {
    inUse[16 * i..16 * i + 16]
  }

  /** Which rows of sixteen bytes have one in use. */
  function Summary(inUse: seq<bool>): (r: seq<bool>)
    requires |inUse| == 256
    ensures |r| == 16 && forall i :: 0 <= i < 16 ==> (r[i] <==> true in Row(inUse, i))
  {
    seq(16, i requires 0 <= i < 16 => true in Row(inUse, i))
  }

  /** The rows from the i-th on that have one in use. */
  function RowsBits(inUse: seq<bool>, i: nat): seq<int>
    requires |inUse| == 256 && i <= 16
    decreases 16 - i
  {
    if i == 16 then [] else RowBits(inUse, i) + RowsBits(inUse, i + 1)
  }

  function RowBits(inUse: seq<bool>, i: nat): seq<int>
    requires |inUse| == 256 && i < 16
  {
    if true in Row(inUse, i) then FlagBits(Row(inUse, i)) else []
  }

  function UnaryBits(j: nat): seq<int> { if j == 0 then [0] else [1] + UnaryBits(j - 1) }

  function AllUnary(codes: seq<int>): seq<int>
    requires forall k :: 0 <= k < |codes| ==> 0 <= codes[k]
  {
    if codes == [] then [] else UnaryBits(codes[0]) + AllUnary(codes[1..])
  }

  /** From one code length to another, a step at a time. */
  function Steps(curr: int, target: int): seq<int>
    decreases if curr < target then target - curr else curr - target
  {
    if curr < target then [1, 0] + Steps(curr + 1, target)
    else if curr > target then [1, 1] + Steps(curr - 1, target)
    else [0]
  }

  function DeltaBits(curr: int, lens: seq<Byte>): seq<int>
    decreases |lens|
  {
    if lens == [] then [] else Steps(curr, lens[0]) + DeltaBits(lens[0], lens[1..])
  }

  predicate NoneEmpty(tables: seq<seq<Byte>>) {
    forall t :: 0 <= t < |tables| ==> tables[t] != []
  }

  function TablesBits(tables: seq<seq<Byte>>): seq<int>
    requires NoneEmpty(tables)
  {
    if tables == [] then []
    else Bits(tables[0][0], 5) + DeltaBits(tables[0][0], tables[0]) + TablesBits(tables[1..])
  }

  /** The code length table that the i-th symbol uses. */
  function TableOf(p: Plan, i: int): (lens: seq<Byte>)
    requires Suitable(p) && 0 <= i < |p.mtfv|
    ensures lens in p.tables && 0 <= p.mtfv[i] < |lens|
  {
    assert i / GROUP_SIZE < |p.selector|;
    p.tables[p.selector[i / GROUP_SIZE]]
  }

  /** The codes of the symbols from the i-th on. */
  function SymbolBits(p: Plan, i: int): seq<int>
    requires Suitable(p) && 0 <= i <= |p.mtfv|
    decreases |p.mtfv| - i
  {
    if i == |p.mtfv| then [] else CodeBits(TableOf(p, i), p.mtfv[i]) + SymbolBits(p, i + 1)
  }

  function SelectorBits(p: Plan): seq<int>
    requires Suitable(p)
  {
    SelectorsInList(p);
    Bits(|p.tables|, 3) + Bits(|p.selector|, 15) + AllUnary(Positions(p.selector, Identity(|p.tables|)))
  }

  lemma SelectorsInList(p: Plan)
    requires Suitable(p)
    ensures forall k :: 0 <= k < |p.selector| ==> p.selector[k] in Identity(|p.tables|)
  {
    forall k | 0 <= k < |p.selector| ensures p.selector[k] in Identity(|p.tables|) {
      assert Identity(|p.tables|)[p.selector[k]] == p.selector[k];
    }
  }

  function MapBits(inUse: seq<bool>): seq<int>
    requires |inUse| == 256
  {
    FlagBits(Summary(inUse)) + RowsBits(inUse, 0)
  }

  /** All bits of the block after its header. */
  function PlanBits(p: Plan): seq<int>
    requires Suitable(p)
  {
    MapBits(p.inUse) + SelectorBits(p) + TablesBits(p.tables) + SymbolBits(p, 0)
  }

  // ---------- writing ----------

  /** What comes next has been written. */
  lemma MoveOver(x: seq<int>, a: seq<int>, rest: seq<int>, all: seq<int>)
    requires x + (a + rest) == all
    ensures (x + a) + rest == all
  {
  }

  lemma OneBit(b: bool)
    ensures Bits(Flag(b), 1) == [Flag(b)] && Flag(b) < Pow2(1)
  {
    assert Bits(Flag(b) / 2, 0) == [];
  }

  method SendFlags(w: BitWriter, flags: seq<bool>)
    requires w.Valid()
    modifies w
    ensures w.Valid() && w.Written() == old(w.Written()) + FlagBits(flags)
  {
    hide HeldAtTop, BytesBits, Bits;
    for i := 0 to |flags|
      invariant w.Valid() && w.Written() == old(w.Written()) + FlagBits(flags)[..i]
    {
      OneBit(flags[i]);
      w.BsW(1, if flags[i] then 1 else 0);
      assert FlagBits(flags)[..i + 1] == FlagBits(flags)[..i] + [Flag(flags[i])];
    }
  }

  method Summarise(inUse: seq<bool>) returns (inUse16: seq<bool>)
    requires |inUse| == 256
    ensures inUse16 == Summary(inUse)
  {
    inUse16 := [];
    for i := 0 to 16
      invariant inUse16 == Summary(inUse)[..i]
    {
      var any := false;
      for j := 0 to 16
        invariant any <==> true in Row(inUse, i)[..j]
      {
        if inUse[16 * i + j] { any := true; }
        assert Row(inUse, i)[..j + 1] == Row(inUse, i)[..j] + [inUse[16 * i + j]];
      }
      assert Row(inUse, i)[..16] == Row(inUse, i);
      inUse16 := inUse16 + [any];
    }
  }

  /** The mapping table. */
  method SendMap(w: BitWriter, inUse: seq<bool>)
    requires w.Valid() && |inUse| == 256
    modifies w
    ensures w.Valid() && w.Written() == old(w.Written()) + MapBits(inUse)
  {
    hide FlagBits, BitWriter.Valid, BitWriter.Written, RowBits, Summary;
    var inUse16 := Summarise(inUse);
    SendFlags(w, inUse16);
    ghost var all := w.Written() + RowsBits(inUse, 0);
    for i := 0 to 16
      invariant w.Valid() && w.Written() + RowsBits(inUse, i) == all
    {
      MoveOver(w.Written(), RowBits(inUse, i), RowsBits(inUse, i + 1), all);
      SendRow(w, inUse, i, inUse16[i]);
    }
    assert old(w.Written()) + (FlagBits(Summary(inUse)) + RowsBits(inUse, 0)) == all;
    assert w.Written() + [] == w.Written();
  }

  method SendRow(w: BitWriter, inUse: seq<bool>, i: nat, used: bool)
    requires w.Valid() && |inUse| == 256 && i < 16 && (used <==> true in Row(inUse, i))
    modifies w
    ensures w.Valid() && w.Written() == old(w.Written()) + RowBits(inUse, i)
  {
    hide FlagBits, BitWriter.Valid, BitWriter.Written;
    if used {
      SendFlags(w, inUse[16 * i..16 * i + 16]);
    } else {
      assert w.Written() + [] == w.Written();
    }
  }

  method SendUnary(w: BitWriter, j: nat)
    requires w.Valid()
    modifies w
    ensures w.Valid() && w.Written() == old(w.Written()) + UnaryBits(j)
  {
    hide BitWriter.Valid, BitWriter.Written;
    OneBit(true);
    OneBit(false);
    ghost var all := w.Written() + UnaryBits(j);
    for k := 0 to j
      invariant w.Valid() && w.Written() + UnaryBits(j - k) == all
    {
      MoveOver(w.Written(), [1], UnaryBits(j - k - 1), all);
      w.BsW(1, 1);
    }
    w.BsW(1, 0);
  }

  /** The selectors. */
  method SendSelectors(w: BitWriter, p: Plan)
    requires w.Valid() && Suitable(p)
    modifies w
    ensures w.Valid() && w.Written() == old(w.Written()) + SelectorBits(p)
  {
    hide Suitable, UnaryBits, Positions, Bits, BitWriter.Valid, BitWriter.Written;
    SuitableSizes(p);
    SelectorsInList(p);
    var selectorMtf := EncodeSelectors(p.selector, |p.tables|);
    w.BsW(3, |p.tables|);
    w.BsW(15, |p.selector|);
    ghost var all := w.Written() + AllUnary(selectorMtf);
    assert selectorMtf[0..] == selectorMtf;
    for i := 0 to |selectorMtf|
      invariant w.Valid() && w.Written() + AllUnary(selectorMtf[i..]) == all
    {
      assert selectorMtf[i..][0] == selectorMtf[i] && selectorMtf[i..][1..] == selectorMtf[i + 1..];
      MoveOver(w.Written(), UnaryBits(selectorMtf[i]), AllUnary(selectorMtf[i + 1..]), all);
      SendUnary(w, selectorMtf[i]);
    }
    assert w.Written() + [] == w.Written();
    assert old(w.Written()) + SelectorBits(p) == all;
  }

  lemma SuitableSizes(p: Plan)
    requires Suitable(p)
    ensures |p.inUse| == 256 && UsedBelow(p.inUse, 256) + 2 <= MAX_ALPHA_SIZE
    ensures |p.tables| < Pow2(3) && |p.selector| < Pow2(15) && forall g :: 0 <= g < |p.selector| ==>
              0 <= p.selector[g] < |p.tables|
    ensures forall t :: 0 <= t < |p.tables| ==>
              TableFits(p.tables[t], UsedBelow(p.inUse, 256) + 2) && p.tables[t] != [] && p.tables[t][0] <= LONGEST
  {
    assert Pow2(3) == 8;
    Powers();
    Pow2Add(8, 7);
    assert Pow2(7) == 128;
  }

  lemma TwoBits()
    ensures Bits(2, 2) == [1, 0] && Bits(3, 2) == [1, 1] && 3 < Pow2(2)
  {
    OneBit(true);
    assert Bits(2, 2) == Bits(1, 1) + [0] && Bits(3, 2) == Bits(1, 1) + [1];
  }

  /** Two bits for each step up or down, then a zero. */
  method SendSteps(w: BitWriter, curr0: int, target: int)
    requires w.Valid()
    modifies w
    ensures w.Valid() && w.Written() == old(w.Written()) + Steps(curr0, target)
  {
    hide BitWriter.Valid, BitWriter.Written;
    TwoBits();
    OneBit(false);
    ghost var all := w.Written() + Steps(curr0, target);
    var curr := curr0;
    while curr < target
      invariant w.Valid() && w.Written() + Steps(curr, target) == all
    {
      MoveOver(w.Written(), [1, 0], Steps(curr + 1, target), all);
      w.BsW(2, 2);
      curr := curr + 1;
    }
    while curr > target
      invariant w.Valid() && w.Written() + Steps(curr, target) == all && curr >= target
    {
      MoveOver(w.Written(), [1, 1], Steps(curr - 1, target), all);
      w.BsW(2, 3);
      curr := curr - 1;
    }
    w.BsW(1, 0);
  }

  /** One table of code lengths. */
  method SendTable(w: BitWriter, lens: seq<Byte>)
    requires w.Valid() && lens != [] && lens[0] <= LONGEST
    modifies w
    ensures w.Valid() && w.Written() == old(w.Written()) + (Bits(lens[0], 5) + DeltaBits(lens[0], lens))
  {
    hide Steps, Bits, BitWriter.Valid, BitWriter.Written;
    assert Pow2(5) == 32;
    ghost var all := w.Written() + (Bits(lens[0], 5) + DeltaBits(lens[0], lens));
    MoveOver(w.Written(), Bits(lens[0], 5), DeltaBits(lens[0], lens), all);
    w.BsW(5, lens[0]);
    var curr: int := lens[0];
    assert lens[0..] == lens;
    for i := 0 to |lens|
      invariant w.Valid() && w.Written() + DeltaBits(curr, lens[i..]) == all
    {
      assert lens[i..][0] == lens[i] && lens[i..][1..] == lens[i + 1..];
      MoveOver(w.Written(), Steps(curr, lens[i]), DeltaBits(lens[i], lens[i + 1..]), all);
      SendSteps(w, curr, lens[i]);
      curr := lens[i];
    }
    assert w.Written() + [] == w.Written();
  }

  method SendTables(w: BitWriter, tables: seq<seq<Byte>>)
    requires w.Valid() && forall t :: 0 <= t < |tables| ==> tables[t] != [] && tables[t][0] <= LONGEST
    modifies w
    ensures w.Valid() && w.Written() == old(w.Written()) + TablesBits(tables)
  {
    hide DeltaBits, Bits, BitWriter.Valid, BitWriter.Written;
    ghost var all := w.Written() + TablesBits(tables);
    assert tables[0..] == tables;
    for t := 0 to |tables|
      invariant w.Valid() && w.Written() + TablesBits(tables[t..]) == all
    {
      assert tables[t..][0] == tables[t] && tables[t..][1..] == tables[t + 1..];
      MoveOver(w.Written(), Bits(tables[t][0], 5) + DeltaBits(tables[t][0], tables[t]), TablesBits(tables[t + 1..]),
               all);
      SendTable(w, tables[t]);
    }
    assert w.Written() + [] == w.Written();
  }

  /** The codes assigned to each table. */
  method AssignAll(tables: seq<seq<Byte>>, ghost alphaSize: int) returns (codes: seq<seq<int>>)
    requires forall t :: 0 <= t < |tables| ==> TableFits(tables[t], alphaSize)
    requires 0 < alphaSize <= MAX_ALPHA_SIZE
    ensures |codes| == |tables|
    ensures forall t :: 0 <= t < |tables| ==>
              |codes[t]| == |tables[t]| && forall i :: 0 <= i < |tables[t]| ==> codes[t][i] == Code(tables[t], i)
  {
    codes := [];
    for t := 0 to |tables|
      invariant |codes| == t
      invariant forall u :: 0 <= u < t ==>
                  |codes[u]| == |tables[u]| && forall i :: 0 <= i < |tables[u]| ==> codes[u][i] == Code(tables[u], i)
    {
      var minLen, maxLen := LengthRange(tables[t]);
      var code := AssignCodes(tables[t], minLen, maxLen);
      codes := codes + [code[..]];
    }
  }

  /** The shortest and the longest length. */
  method LengthRange(lens: seq<Byte>) returns (minLen: int, maxLen: int)
    requires 0 < |lens| <= MAX_ALPHA_SIZE && forall i :: 0 <= i < |lens| ==> 1 <= lens[i] <= LONGEST
    ensures Lengths(lens, minLen, maxLen)
    ensures exists i, j :: 0 <= i < |lens| && 0 <= j < |lens| && lens[i] == minLen && lens[j] == maxLen
  {
    minLen, maxLen := 32, 0;
    ghost var a, b := 0, 0;
    for i := 0 to |lens|
      invariant i == 0 ==> minLen == 32 && maxLen == 0
      invariant i > 0 ==> 0 <= a < i && 0 <= b < i && lens[a] == minLen && lens[b] == maxLen
      invariant forall k :: 0 <= k < i ==> minLen <= lens[k] <= maxLen
    {
      if lens[i] > maxLen { maxLen, b := lens[i], i; }
      if lens[i] < minLen { minLen, a := lens[i], i; }
    }
  }

  /** The symbols, group by group. */
  method SendSymbols(w: BitWriter, p: Plan, codes: seq<seq<int>>)
    requires w.Valid() && Suitable(p) && |codes| == |p.tables|
    requires forall t :: 0 <= t < |p.tables| ==>
               |codes[t]| == |p.tables[t]| && forall i :: 0 <= i < |p.tables[t]| ==> codes[t][i] == Code(p.tables[t], i)
    modifies w
    ensures w.Valid() && w.Written() == old(w.Written()) + SymbolBits(p, 0)
  {
    hide Suitable, TableOf, Code, CodeBits, Kraft, Bits, BitWriter.Valid, BitWriter.Written;
    ghost var all := w.Written() + SymbolBits(p, 0);
    var selCtr, gs := 0, 0;
    while gs < |p.mtfv|
      invariant 0 <= gs <= |p.mtfv| && gs == Min(GROUP_SIZE * selCtr, |p.mtfv|) && 0 <= selCtr
      invariant w.Valid() && w.Written() + SymbolBits(p, gs) == all
    {
      var ge := if gs + GROUP_SIZE - 1 >= |p.mtfv| then |p.mtfv| - 1 else gs + GROUP_SIZE - 1;
      TableAt(p, gs, selCtr);
      var t := p.selector[selCtr];
      for i := gs to ge + 1
        invariant w.Valid() && w.Written() + SymbolBits(p, i) == all
      {
        TableAt(p, i, selCtr);
        MoveOver(w.Written(), CodeBits(p.tables[t], p.mtfv[i]), SymbolBits(p, i + 1), all);
        w.BsW(p.tables[t][p.mtfv[i]], codes[t][p.mtfv[i]]);
      }
      gs := ge + 1;
      selCtr := selCtr + 1;
    }
    assert w.Written() + [] == w.Written();
  }

  /** The symbol at position i belongs to group g. */
  lemma TableAt(p: Plan, i: int, g: int)
    requires Suitable(p) && 0 <= i < |p.mtfv| && GROUP_SIZE * g <= i < GROUP_SIZE * (g + 1)
    ensures 0 <= g < |p.selector| && 0 <= p.selector[g] < |p.tables| && TableOf(p, i) == p.tables[p.selector[g]]
    ensures var lens := TableOf(p, i);
            0 <= p.mtfv[i] < |lens| && lens[p.mtfv[i]] <= LONGEST && Code(lens, p.mtfv[i]) < Pow2(lens[p.mtfv[i]])
    ensures var lens := TableOf(p, i); CodeBits(lens, p.mtfv[i]) == Bits(Code(lens, p.mtfv[i]), lens[p.mtfv[i]])
  {
    hide Code, Kraft, Bits;
    assert i / GROUP_SIZE == g;
    CodeFits(TableOf(p, i), p.mtfv[i], LONGEST);
  }

  /** sendMTFValues, for tables and selectors already chosen. */
  method SendMtfValues(w: BitWriter, p: Plan)
    requires w.Valid() && Suitable(p)
    modifies w
    ensures w.Valid() && w.Written() == old(w.Written()) + PlanBits(p)
  {
    hide Suitable, MapBits, SelectorBits, TablesBits, SymbolBits, Kraft, BitWriter.Valid, BitWriter.Written, UsedBelow,
         Code;
    SuitableSizes(p);
    var codes := AssignAll(p.tables, UsedBelow(p.inUse, 256) + 2);
    SendMap(w, p.inUse);
    SendSelectors(w, p);
    SendTables(w, p.tables);
    SendSymbols(w, p, codes);
  }
}
