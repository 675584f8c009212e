/** Which lengths and distances the symbols of a deflate block stand for (section 3.2.5 of RFC
    1951), from both sides: the tables that inflate_table copies its entries from, and the maps
    from lengths and distances to codes that the compressor makes. */
module CodeRanges {
  import opened Common
  import opened InflateTable

  // ---------- what an entry means ----------

  /** What inflate() does with an entry. */
  datatype Meaning = Plain(value: int) | Base(base: int, extra: nat) | EndOfBlock | Invalid

  /** The tests of the LEN and DIST states on op: none set, 32, 64, else the extra bits. */
  function MeaningOf(op: int, val: int): Meaning {
    if op == 0 then Plain(val)
    else if op / 32 % 2 == 1 then EndOfBlock
    else if op / 64 % 2 == 1 then Invalid
    else Base(val, op % 16)
  }

  function SymbolMeaning(ty: CodeType, sym: int): Meaning
    requires 0 <= sym < MaxSymbols(ty)
  {
    MeaningOf(SymbolOp(ty, sym), SymbolVal(ty, sym))
  }

  /** The number of extra bits, by rule: they grow by one every four lengths and every two
      distances. */
  function ExtraBits(ty: CodeType, sym: int): nat
    requires 0 <= sym
  {
    match ty
    case Codes => 0
    case Lens => if sym < 265 || sym == 285 then 0 else (sym - 261) / 4
    case Dists => if sym < 4 then 0 else (sym - 2) / 2
  }

  lemma Powers13()
    ensures Pow2(0) == 1 && Pow2(1) == 2 && Pow2(2) == 4 && Pow2(3) == 8 && Pow2(4) == 16 && Pow2(5) == 32
    ensures Pow2(6) == 64 && Pow2(7) == 128 && Pow2(8) == 256 && Pow2(9) == 512 && Pow2(10) == 1024
    ensures Pow2(11) == 2048 && Pow2(12) == 4096 && Pow2(13) == 8192
  {
    assert Pow2(4) == 16;
    assert Pow2(8) == 256;
    assert Pow2(11) == 2048;
  }

  /** Literals stand for themselves; the end of a block and the symbols that do not exist are
      told apart from each other and from all others. */
  lemma LiteralsAndEnd(sym: int)
    requires 0 <= sym < 288
    ensures sym < 256 ==> SymbolMeaning(Lens, sym) == Plain(sym)
    ensures sym == 256 <==> SymbolMeaning(Lens, sym) == EndOfBlock
    ensures sym > 285 <==> SymbolMeaning(Lens, sym) == Invalid
    ensures 257 <= sym <= 285 <==> SymbolMeaning(Lens, sym).Base?
  {
  }

  lemma DistancesExist(sym: int)
    requires 0 <= sym < 32
    ensures sym < 30 <==> SymbolMeaning(Dists, sym).Base?
    ensures sym >= 30 <==> SymbolMeaning(Dists, sym) == Invalid
  {
  }

  /** The code lengths of the code length code are the symbols themselves. */
  lemma CodeLengthSymbols(sym: int)
    requires 0 <= sym < 19
    ensures SymbolMeaning(Codes, sym) == Plain(sym)
  {
  }

  // ---------- the ranges ----------

  /** The first length or distance of a symbol. */
  function FirstOf(ty: CodeType, sym: int): int
    requires 0 <= sym < MaxSymbols(ty)
  {
    SymbolVal(ty, sym)
  }

  /** The next symbol's range begins where this one's ends. */
  predicate Adjoining(ty: CodeType, sym: int)
    requires 0 <= sym && sym + 1 < MaxSymbols(ty)
  {
    FirstOf(ty, sym + 1) == FirstOf(ty, sym) + Pow2(ExtraBits(ty, sym))
  }

  lemma LengthMeans(sym: int)
    requires 257 <= sym <= 285
    ensures SymbolMeaning(Lens, sym) == Base(FirstOf(Lens, sym), ExtraBits(Lens, sym))
  {
  }

  lemma DistanceMeans(sym: int)
    requires 0 <= sym < 30
    ensures SymbolMeaning(Dists, sym) == Base(FirstOf(Dists, sym), ExtraBits(Dists, sym))
  {
  }

  lemma LengthsAdjoin(sym: int)
    requires 257 <= sym < 284
    ensures Adjoining(Lens, sym)
  {
    hide Pow2;
    Powers13();
  }

  lemma NearDistancesAdjoin(sym: int)
    requires 0 <= sym < 10
    ensures Adjoining(Dists, sym)
  {
    hide Pow2;
    Powers13();
  }

  lemma MiddleDistancesAdjoin(sym: int)
    requires 10 <= sym < 20
    ensures Adjoining(Dists, sym)
  {
    hide Pow2;
    Powers13();
  }

  lemma FarDistancesAdjoin(sym: int)
    requires 20 <= sym < 29
    ensures Adjoining(Dists, sym)
  {
    hide Pow2;
    Powers13();
  }

  /** Every symbol has the extra bits of the rule, the ranges follow one another without gap
      from 3 to 258, and the last symbol is 258 alone. */
  lemma LengthsTile(sym: int)
    requires 257 <= sym <= 285
    ensures SymbolMeaning(Lens, sym) == Base(FirstOf(Lens, sym), ExtraBits(Lens, sym))
    ensures FirstOf(Lens, 257) == 3 && FirstOf(Lens, 285) == 258 && ExtraBits(Lens, 285) == 0
    ensures sym < 284 ==> FirstOf(Lens, sym + 1) == FirstOf(Lens, sym) + Pow2(ExtraBits(Lens, sym))
    ensures sym == 284 ==> FirstOf(Lens, sym) + Pow2(ExtraBits(Lens, sym)) - 1 == 258
  {
    hide Pow2, SymbolMeaning;
    Powers13();
    LengthMeans(sym);
    if sym < 284 { LengthsAdjoin(sym); }
  }

  /** ... and of distances, from 1 to 32768. */
  lemma DistancesTile(sym: int)
    requires 0 <= sym < 30
    ensures SymbolMeaning(Dists, sym) == Base(FirstOf(Dists, sym), ExtraBits(Dists, sym))
    ensures FirstOf(Dists, 0) == 1
    ensures sym < 29 ==> FirstOf(Dists, sym + 1) == FirstOf(Dists, sym) + Pow2(ExtraBits(Dists, sym))
    ensures sym == 29 ==> FirstOf(Dists, sym) + Pow2(ExtraBits(Dists, sym)) - 1 == 32768
  {
    hide Pow2, SymbolMeaning;
    Powers13();
    DistanceMeans(sym);
    if sym < 10 {
      NearDistancesAdjoin(sym);
    } else if sym < 20 {
      MiddleDistancesAdjoin(sym);
    } else if sym < 29 {
      FarDistancesAdjoin(sym);
    }
  }

  /** The symbol has a value in its range. */
  predicate InRange(ty: CodeType, sym: int, v: int)
    requires 0 <= sym < MaxSymbols(ty)
  {
    FirstOf(ty, sym) <= v < FirstOf(ty, sym) + Pow2(ExtraBits(ty, sym))
  }

  lemma {:induction false} RangesApart(ty: CodeType, a: int, b: int)
    requires (ty == Lens && 257 <= a < b <= 284) || (ty == Dists && 0 <= a < b < 30)
    ensures FirstOf(ty, a) + Pow2(ExtraBits(ty, a)) <= FirstOf(ty, b)
    decreases b - a
  {
    hide FirstOf, Pow2;
    if ty == Lens { LengthsTile(b - 1); } else { DistancesTile(b - 1); }
    if a < b - 1 { RangesApart(ty, a, b - 1); }
  }

  lemma {:induction false} SymbolFor(ty: CodeType, v: int, top: int) returns (sym: int)
    requires (ty == Lens && 257 <= top <= 284 && 3 <= v) || (ty == Dists && 0 <= top < 30 && 1 <= v)
    requires v < FirstOf(ty, top) + Pow2(ExtraBits(ty, top))
    ensures (if ty == Lens then 257 else 0) <= sym <= top && InRange(ty, sym, v)
    decreases top
  {
    hide FirstOf, Pow2;
    if FirstOf(ty, top) <= v { return top; }
    if ty == Lens { LengthsTile(top); } else { DistancesTile(top); }
    if ty == Lens { LengthsTile(top - 1); } else { DistancesTile(top - 1); }
    sym := SymbolFor(ty, v, top - 1);
  }

  /** Every length from 3 to 258 belongs to one symbol of 257..284, and to no other of them. */
  lemma OneLength(v: int) returns (sym: int)
    requires 3 <= v <= 258
    ensures 257 <= sym <= 284 && forall s {:trigger InRange(Lens, s, v)} :: 257 <= s <= 284 ==>
              (InRange(Lens, s, v) <==> s == sym)
  {
    hide FirstOf, Pow2;
    LengthsTile(284);
    sym := SymbolFor(Lens, v, 284);
    forall s {:trigger InRange(Lens, s, v)} | 257 <= s <= 284 && InRange(Lens, s, v) ensures s == sym {
      if s < sym { RangesApart(Lens, s, sym); } else if sym < s { RangesApart(Lens, sym, s); }
    }
  }

  /** Every distance from 1 to 32768 belongs to exactly one symbol. */
  lemma OneDistance(v: int) returns (sym: int)
    requires 1 <= v <= 32768
    ensures 0 <= sym < 30 && forall s {:trigger InRange(Dists, s, v)} :: 0 <= s < 30 ==>
              (InRange(Dists, s, v) <==> s == sym)
  {
    hide FirstOf, Pow2;
    DistancesTile(29);
    sym := SymbolFor(Dists, v, 29);
    forall s {:trigger InRange(Dists, s, v)} | 0 <= s < 30 && InRange(Dists, s, v) ensures s == sym {
      if s < sym { RangesApart(Dists, s, sym); } else if sym < s { RangesApart(Dists, sym, s); }
    }
  }

  // ---------- the compressor's side ----------

  const EXTRA_LBITS := [0, 0, 0, 0, 0, 0, 0, 0, 1, 1, 1, 1, 2, 2, 2, 2, 3, 3, 3, 3, 4, 4, 4, 4, 5, 5, 5, 5, 0]
  const EXTRA_DBITS := [0, 0, 0, 0, 1, 1, 2, 2, 3, 3, 4, 4, 5, 5, 6, 6, 7, 7, 8, 8, 9, 9, 10, 10, 11, 11, 12, 12, 13,
                        13]

  /** The maps of tr_static_init. */
  datatype StaticMaps = StaticMaps(lengthCode: array<int>, baseLength: array<int>, distCode: array<int>,
                                   baseDist: array<int>)

  /** d_code, for a distance less one. */
  function DCodeAt(dist: nat): nat {
    if dist < 256 then dist else 256 + dist / 128
  }

  /** Every length less three has the code in whose range it lies, the longest a code of its
      own; every distance less one has the code in whose range it lies. */
  ghost predicate Mapped(m: StaticMaps)
    reads m.lengthCode, m.baseLength, m.distCode, m.baseDist
  {
    && m.lengthCode.Length == 256 && m.baseLength.Length == 29 && m.distCode.Length == 512 && m.baseDist.Length == 30
    && (forall l :: 0 <= l < 255 ==> 0 <= m.lengthCode[l] < 28 && InRange(Lens, 257 + m.lengthCode[l], l + 3))
    && m.lengthCode[255] == 28
    && (forall c :: 0 <= c < 28 ==> m.baseLength[c] == FirstOf(Lens, 257 + c) - 3)
    && (forall d: nat {:trigger DCodeAt(d)} :: d < 32768 ==>
          0 <= m.distCode[DCodeAt(d)] < 30 && InRange(Dists, m.distCode[DCodeAt(d)], d + 1))
    && (forall c :: 0 <= c < 30 ==> m.baseDist[c] == FirstOf(Dists, c) - 1)
  }

  lemma ExtraTables(c: int)
    ensures 0 <= c < 29 ==> EXTRA_LBITS[c] == ExtraBits(Lens, 257 + c)
    ensures 0 <= c < 30 ==> EXTRA_DBITS[c] == ExtraBits(Dists, c)
  {
  }

  /** The lengths' part of tr_static_init. */
  method MapLengths() returns (lengthCode: array<int>, baseLength: array<int>)
    ensures fresh(lengthCode) && fresh(baseLength) && lengthCode.Length == 256 && baseLength.Length == 29
    ensures forall l :: 0 <= l < 255 ==> 0 <= lengthCode[l] < 28 && InRange(Lens, 257 + lengthCode[l], l + 3)
    ensures lengthCode[255] == 28 && forall c :: 0 <= c < 28 ==> baseLength[c] == FirstOf(Lens, 257 + c) - 3
  {
    hide FirstOf, Pow2, SymbolMeaning;
    lengthCode, baseLength := new int[256], new int[29];
    LengthsTile(257);
    LengthsTile(284);
    var length := 0;
    for code := 0 to 28
      invariant code < 28 ==> length == FirstOf(Lens, 257 + code) - 3
      invariant code == 28 ==> length == 256
      invariant 0 <= length <= 256
      invariant forall l :: 0 <= l < length ==> 0 <= lengthCode[l] < 28 && InRange(Lens, 257 + lengthCode[l], l + 3)
      invariant forall c :: 0 <= c < code ==> baseLength[c] == FirstOf(Lens, 257 + c) - 3
    {
      ExtraTables(code);
      LengthsTile(257 + code);
      if code < 27 { RangesApart(Lens, 257 + code, 284); }
      baseLength[code] := length;
      ghost var first := length;
      for n := 0 to Pow2(EXTRA_LBITS[code])
        modifies lengthCode
        invariant length == first + n
        invariant forall l :: 0 <= l < length ==> 0 <= lengthCode[l] < 28 && InRange(Lens, 257 + lengthCode[l], l + 3)
      {
        lengthCode[length] := code;
        length := length + 1;
      }
    }
    lengthCode[length - 1] := 28;
  }

  /** The distances' part: up to 256 one by one, and from there on in steps of 128. */
  method MapDistances() returns (distCode: array<int>, baseDist: array<int>)
    ensures fresh(distCode) && fresh(baseDist) && distCode.Length == 512 && baseDist.Length == 30
    ensures forall d: nat {:trigger DCodeAt(d)} :: d < 32768 ==>
              0 <= distCode[DCodeAt(d)] < 30 && InRange(Dists, distCode[DCodeAt(d)], d + 1)
    ensures forall c :: 0 <= c < 30 ==> baseDist[c] == FirstOf(Dists, c) - 1
  {
    hide FirstOf, Pow2, Whole;
    distCode, baseDist := new int[512], new int[30];
    MapNear(distCode, baseDist);
    MapFar(distCode, baseDist);
    forall d: nat {:trigger DCodeAt(d)} | d < 32768
      ensures 0 <= distCode[DCodeAt(d)] < 30 && InRange(Dists, distCode[DCodeAt(d)], d + 1)
    {
      if d >= 256 {
        assert Whole(distCode[256 + d / 128], d / 128);
        WholeMeans(distCode[256 + d / 128], d / 128, d);
      }
    }
  }

  method MapNear(distCode: array<int>, baseDist: array<int>)
    requires distCode.Length == 512 && baseDist.Length == 30 && distCode != baseDist
    modifies distCode, baseDist
    ensures forall d :: 0 <= d < 256 ==> 0 <= distCode[d] < 30 && InRange(Dists, distCode[d], d + 1)
    ensures forall c :: 0 <= c < 16 ==> baseDist[c] == FirstOf(Dists, c) - 1
  {
    hide FirstOf, Pow2, SymbolMeaning;
    DistancesTile(0);
    Boundaries();
    var dist := 0;
    for code := 0 to 16
      invariant dist == FirstOf(Dists, code) - 1 && 0 <= dist <= 256
      invariant forall d :: 0 <= d < dist ==> 0 <= distCode[d] < 30 && InRange(Dists, distCode[d], d + 1)
      invariant forall c :: 0 <= c < code ==> baseDist[c] == FirstOf(Dists, c) - 1
    {
      ExtraTables(code);
      DistancesTile(code);
      if code < 15 { RangesApart(Dists, code + 1, 16); }
      baseDist[code] := dist;
      ghost var first := dist;
      for n := 0 to Pow2(EXTRA_DBITS[code])
        modifies distCode
        invariant dist == first + n
        invariant forall d :: 0 <= d < dist ==> 0 <= distCode[d] < 30 && InRange(Dists, distCode[d], d + 1)
      {
        distCode[dist] := code;
        dist := dist + 1;
      }
    }
  }

  method MapFar(distCode: array<int>, baseDist: array<int>)
    requires distCode.Length == 512 && baseDist.Length == 30 && distCode != baseDist
    modifies distCode, baseDist
    ensures forall d :: 0 <= d < 256 ==> distCode[d] == old(distCode[d])
    ensures forall c :: 0 <= c < 16 ==> baseDist[c] == old(baseDist[c])
    ensures forall c :: 16 <= c < 30 ==> baseDist[c] == FirstOf(Dists, c) - 1
    ensures forall j {:trigger distCode[j]} :: 258 <= j < 512 ==> Whole(distCode[j], j - 256)
  {
    hide FirstOf, Pow2, SymbolMeaning, Whole;
    Boundaries();
    var dist := 256 / 128;
    for code := 16 to 30
      invariant code < 30 ==> 128 * dist == FirstOf(Dists, code) - 1
      invariant code == 30 ==> dist == 256
      invariant 2 <= dist <= 256
      invariant forall d :: 0 <= d < 256 ==> distCode[d] == old(distCode[d])
      invariant forall j {:trigger distCode[j]} :: 258 <= j < 256 + dist ==> Whole(distCode[j], j - 256)
      invariant forall c :: 0 <= c < 16 ==> baseDist[c] == old(baseDist[c])
      invariant forall c :: 16 <= c < code ==> baseDist[c] == FirstOf(Dists, c) - 1
    {
      FarStep(code, dist);
      baseDist[code] := dist * 128;
      ghost var first := dist;
      for n := 0 to Pow2(EXTRA_DBITS[code] - 7)
        modifies distCode
        invariant dist == first + n
        invariant forall d :: 0 <= d < 256 ==> distCode[d] == old(distCode[d])
        invariant forall j {:trigger distCode[j]} :: 258 <= j < 256 + dist ==> Whole(distCode[j], j - 256)
      {
        StepWhole(code, dist, first);
        distCode[256 + dist] := code;
        dist := dist + 1;
      }
    }
  }

  /** A symbol's range in steps of 128. */
  lemma FarStep(code: int, dist: int)
    requires 16 <= code < 30 && 128 * dist == FirstOf(Dists, code) - 1
    ensures EXTRA_DBITS[code] == ExtraBits(Dists, code) >= 7
    ensures code < 29 ==> 128 * (dist + Pow2(EXTRA_DBITS[code] - 7)) == FirstOf(Dists, code + 1) - 1
    ensures code == 29 ==> dist + Pow2(EXTRA_DBITS[code] - 7) == 256
    ensures dist + Pow2(EXTRA_DBITS[code] - 7) <= 256
  {
    hide FirstOf, Pow2, SymbolMeaning;
    ExtraTables(code);
    DistancesTile(code);
    DistancesTile(29);
    if code < 29 { RangesApart(Dists, code, 29); }
    PowerOver(EXTRA_DBITS[code] - 7);
    PowerOver(6);
  }

  lemma WholeMeans(code: int, e: int, d: int)
    requires Whole(code, e) && d / 128 == e
    ensures 0 <= code < 30 && InRange(Dists, code, d + 1)
  {
    hide FirstOf, Pow2;
  }

  /** All distances of a step of 128 have the code. */
  ghost predicate Whole(code: int, e: int) {
    0 <= code < 30 && FirstOf(Dists, code) <= 128 * e + 1 &&
    128 * e + 128 < FirstOf(Dists, code) + Pow2(ExtraBits(Dists, code))
  }

  lemma StepWhole(code: int, dist: int, first: int)
    requires 16 <= code < 30 && 128 * first == FirstOf(Dists, code) - 1 &&
             first <= dist < first + Pow2(ExtraBits(Dists, code) - 7)
    ensures Whole(code, dist)
  {
    hide FirstOf, Pow2;
    PowerOver(ExtraBits(Dists, code) - 7);
  }

  lemma PowerOver(n: nat)
    ensures Pow2(n + 7) == 128 * Pow2(n)
  {
    Pow2Add(n, 7);
    assert Pow2(7) == 128;
  }

  lemma Boundaries()
    ensures FirstOf(Dists, 16) == 257 && FirstOf(Dists, 29) == 24577
  {
  }

  /** tr_static_init. */
  method StaticInit() returns (m: StaticMaps)
    ensures Mapped(m)
  {
    hide InRange, FirstOf;
    var lengthCode, baseLength := MapLengths();
    var distCode, baseDist := MapDistances();
    m := StaticMaps(lengthCode, baseLength, distCode, baseDist);
  }
}
