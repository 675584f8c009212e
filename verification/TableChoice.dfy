/** Coding tables for a block of symbols: four times every group of fifty symbols goes to the
    table that codes it in the fewest bits, and every table is made anew for the symbols of its
    groups. */
module TableChoice {
  import opened Common
  import opened CanonicalCode
  import opened Huffman
  import opened BlockFormat
  import opened TableParts
  import CodeLengths
  import Counting
  import Forest
  import MoveToFront
  import TreeCost
  import TreeDepth

  const MAX_SYMBOLS := MoveToFront.MAX_BLOCK + 1
  /** BZ_N_ITERS. */
  const PASSES := 4

  lemma {:induction false} SumIncrement(freq: seq<int>, v: nat, k: nat)
    requires v < |freq| && k <= |freq|
    ensures Sum(freq[v := freq[v] + 1], k) == Sum(freq, k) + if v < k then 1 else 0
  {
    if k > 0 { SumIncrement(freq, v, k - 1); }
  }

  /** Weights, of which an unused symbol has one, add up to little more than frequencies. */
  lemma {:induction false} WeightsBounded(freq: seq<int>, k: nat)
    requires k <= |freq| && forall i :: 0 <= i < |freq| ==> 0 <= freq[i]
    ensures Forest.Total(CodeLengths.AllScaled(freq, 0), k) <= Sum(freq, k) + k
  {
    if k > 0 {
      WeightsBounded(freq, k - 1);
      CodeLengths.ScaledStart(freq[k - 1]);
    }
  }

  lemma {:induction false} SumNone(n: nat, k: nat)
    requires k <= n
    ensures Sum(seq(n, _ => 0), k) == 0
  {
    if k > 0 { SumNone(n, k - 1); }
  }

  /** A complete code stays complete when longer codes are allowed. */
  lemma {:induction false} KraftLonger(lens: seq<Byte>, m: nat, n: nat)
    requires m <= n && (forall i :: 0 <= i < |lens| ==> 1 <= lens[i] <= m) && KraftSum(lens, m, |lens|) == Pow2(m)
    ensures KraftSum(lens, n, |lens|) == Pow2(n)
  {
    if m < n {
      KraftLonger(lens, m, n - 1);
      KraftStep(lens, n, |lens|);
      Counting.NoneAbove(lens, n, |lens|);
    }
  }

  /** How many tables the compressor uses. */
  function GroupsFor(nMTF: int): (n: int)
    ensures 2 <= n <= GROUP_LIMIT
  {
    if nMTF < 200 then 2 else if nMTF < 600 then 3 else if nMTF < 1200 then 4 else if nMTF < 2400 then 5 else 6
  }

  // ---------- what a pass comes to ----------

  /** The symbols of a group. */
  function Group(mtfv: seq<int>, g: nat): seq<int>
    requires GROUP_SIZE * g <= |mtfv|
  {
    mtfv[GROUP_SIZE * g..Min(GROUP_SIZE * (g + 1), |mtfv|)]
  }

  /** The bits that symbols take with these code lengths. */
  function CostOf(lens: seq<Byte>, syms: seq<int>): nat {
    if syms == [] then 0
    else
      var v := syms[|syms| - 1];
      CostOf(lens, syms[..|syms| - 1]) + if 0 <= v < |lens| then lens[v] else 0
  }

  /** The first of the tables that code the symbols in the fewest bits. */
  ghost predicate Cheapest(tables: seq<seq<Byte>>, syms: seq<int>, bt: int) {
    && 0 <= bt < |tables| && (forall t :: 0 <= t < |tables| ==> CostOf(tables[bt], syms) <= CostOf(tables[t], syms))
    && forall t :: 0 <= t < bt ==> CostOf(tables[bt], syms) < CostOf(tables[t], syms)
  }

  predicate Grouped(mtfv: seq<int>, selector: seq<int>) {
    GROUP_SIZE * (|selector| - 1) < |mtfv| <= GROUP_SIZE * |selector|
  }

  ghost predicate Picks(mtfv: seq<int>, tables: seq<seq<Byte>>, selector: seq<int>) {
    forall g :: 0 <= g < |selector| ==> GROUP_SIZE * g <= |mtfv| && Cheapest(tables, Group(mtfv, g), selector[g])
  }

  /** The group of a symbol, by its place. */
  function GroupOf(i: int): (g: int)
    ensures GROUP_SIZE * g <= i < GROUP_SIZE * (g + 1)
  {
    i / GROUP_SIZE
  }

  /** Those of the first n symbols that are in groups of table t. */
  ghost function Used(mtfv: seq<int>, selector: seq<int>, t: int, n: nat): multiset<int>
    requires n <= |mtfv| && n <= GROUP_SIZE * |selector|
  {
    if n == 0 then multiset{}
    else
      Used(mtfv, selector, t, n - 1) + if selector[GroupOf(n - 1)] == t then multiset{mtfv[n - 1]} else multiset{}
  }

  function Counts(s: multiset<int>, alphaSize: nat): (freq: seq<int>)
    ensures |freq| == alphaSize && forall v :: 0 <= v < alphaSize ==> freq[v] == s[v]
  {
    seq(alphaSize, v => s[v])
  }

  /** The occurrences of all symbols together. */
  lemma {:induction false} CountsAddUp(mtfv: seq<int>, alphaSize: nat)
    requires forall i :: 0 <= i < |mtfv| ==> 0 <= mtfv[i] < alphaSize
    ensures Sum(Counts(multiset(mtfv), alphaSize), alphaSize) == |mtfv|
  {
    if mtfv == [] {
      assert Counts(multiset(mtfv), alphaSize) == seq(alphaSize, _ => 0);
      SumNone(alphaSize, alphaSize);
    } else {
      var most, v := mtfv[..|mtfv| - 1], mtfv[|mtfv| - 1];
      CountsAddUp(most, alphaSize);
      assert mtfv == most + [v];
      var freq := Counts(multiset(most), alphaSize);
      assert Counts(multiset(mtfv), alphaSize) == freq[v := freq[v] + 1];
      SumIncrement(freq, v, alphaSize);
    }
  }

  /** Each symbol is favoured by exactly one of the tables that the passes start from, if the
      last symbol of the alphabet occurs. */
  lemma OneStarts(mtfv: seq<int>, alphaSize: nat, first: seq<seq<Byte>>, v: int) returns (t: int)
    requires mtfv != [] && mtfv[|mtfv| - 1] == alphaSize - 1 && 0 <= v < alphaSize && first != []
    requires forall i :: 0 <= i < |mtfv| ==> 0 <= mtfv[i] < alphaSize
    requires FirstTables(first, Counts(multiset(mtfv), alphaSize), |mtfv|)
    ensures 0 <= t < |first|
    ensures forall u :: 0 <= u < |first| ==>
              |first[u]| == alphaSize && first[u][v] == if u == t then LESSER_ICOST else GREATER_ICOST
  {
    hide FirstTables, Sum;
    CountsAddUp(mtfv, alphaSize);
    assert mtfv[|mtfv| - 1] in multiset(mtfv);
    t := OneFavours(first, Counts(multiset(mtfv), alphaSize), |mtfv|, v);
  }

  /** The lengths of a cheapest code for weights halved no more often than needed. */
  ghost predicate MadeFor(freq: seq<int>, lens: seq<Byte>) {
    && |lens| == |freq| > 0 && (forall v :: 0 <= v < |freq| ==> 0 <= freq[v])
    && exists rounds: nat :: MadeWith(freq, rounds, lens)
  }

  ghost predicate MadeWith(freq: seq<int>, rounds: nat, lens: seq<Byte>)
    requires |lens| == |freq| > 0 && forall v :: 0 <= v < |freq| ==> 0 <= freq[v]
  {
    && TreeDepth.HuffmanDepth(CodeLengths.AllScaled(freq, rounds)) <= 17
    && (forall r :: 0 <= r < rounds ==> TreeDepth.HuffmanDepth(CodeLengths.AllScaled(freq, r)) > 17)
    && TreeCost.CheapestCode(CodeLengths.AllScaled(freq, rounds)[1..], lens)
  }

  /** A pass: groups choose among the tables before, and tables are made for the choice. */
  ghost predicate Passed(mtfv: seq<int>, alphaSize: nat, before: seq<seq<Byte>>, selector: seq<int>,
                         after: seq<seq<Byte>>)
  {
    && Grouped(mtfv, selector) && Picks(mtfv, before, selector) && |after| == |before|
    && forall t :: 0 <= t < |after| ==> MadeFor(Counts(Used(mtfv, selector, t, |mtfv|), alphaSize), after[t])
  }

  /** What n passes lead to. */
  ghost predicate Refined(mtfv: seq<int>, alphaSize: nat, first: seq<seq<Byte>>, n: nat, tables: seq<seq<Byte>>)
    decreases n
  {
    if n == 0 then tables == first
    else
      exists before, selector :: Passed(mtfv, alphaSize, before, selector, tables) &&
                                 Refined(mtfv, alphaSize, first, n - 1, before)
  }

  /** The selectors and tables that sendMTFValues arrives at: those of the last pass. */
  ghost predicate Settled(mtfv: seq<int>, mtfFreq: seq<int>, selector: seq<int>, tables: seq<seq<Byte>>) {
    exists first, before ::
      && |first| == GroupsFor(|mtfv|) && FirstTables(first, mtfFreq, |mtfv|)
      && Refined(mtfv, |mtfFreq|, first, PASSES - 1, before)
      && Passed(mtfv, |mtfFreq|, before, selector, tables)
  }

  /** The bits that the first n groups take. */
  ghost function TotalCost(mtfv: seq<int>, tables: seq<seq<Byte>>, selector: seq<int>, n: nat): int
    requires n <= |selector| && forall g :: 0 <= g < n ==> 0 <= selector[g] < |tables| && GROUP_SIZE * g <= |mtfv|
  {
    if n == 0 then 0
    else TotalCost(mtfv, tables, selector, n - 1) + CostOf(tables[selector[n - 1]], Group(mtfv, n - 1))
  }

  /** With the tables at hand no other choice of tables codes the groups in fewer bits. */
  lemma {:induction false} NoBetterChoice(mtfv: seq<int>, tables: seq<seq<Byte>>, selector: seq<int>, other: seq<int>,
                                          n: nat)
    requires Picks(mtfv, tables, selector) && n <= |selector| && n <= |other|
    requires forall g :: 0 <= g < n ==> 0 <= other[g] < |tables|
    ensures (forall g :: 0 <= g < n ==> 0 <= selector[g] < |tables| && GROUP_SIZE * g <= |mtfv|) &&
            TotalCost(mtfv, tables, selector, n) <= TotalCost(mtfv, tables, other, n)
    decreases n
  {
    hide CostOf;
    if n > 0 {
      NoBetterChoice(mtfv, tables, selector, other, n - 1);
      assert Cheapest(tables, Group(mtfv, n - 1), selector[n - 1]);
    }
  }

  // ---------- the cheapest table for a group ----------

  /** Code lengths so short that the costs of a group fit into sixteen bits. */
  ghost predicate Short(tables: seq<seq<Byte>>, alphaSize: int) {
    forall t :: 0 <= t < |tables| ==>
      |tables[t]| == alphaSize && forall v :: 0 <= v < alphaSize ==> tables[t][v] <= LONGEST
  }

  lemma {:induction false} CostBound(lens: seq<Byte>, syms: seq<int>)
    requires forall v :: 0 <= v < |lens| ==> lens[v] <= LONGEST
    ensures CostOf(lens, syms) <= LONGEST * |syms|
  {
    if syms != [] { CostBound(lens, syms[..|syms| - 1]); }
  }

  /** One symbol more. */
  lemma CostMore(tables: seq<seq<Byte>>, alphaSize: int, group: seq<int>, i: nat, t: int)
    requires Short(tables, alphaSize) && i < |group| <= GROUP_SIZE && 0 <= group[i] < alphaSize && 0 <= t < |tables|
    ensures CostOf(tables[t], group[..i + 1]) == CostOf(tables[t], group[..i]) + tables[t][group[i]] < 0x1_0000
  {
    assert group[..i + 1][..i] == group[..i];
    CostBound(tables[t], group[..i + 1]);
  }

  /** The slow version, which handles all situations; the costs are kept in sixteen bits. */
  method CostsSlow(tables: seq<seq<Byte>>, alphaSize: nat, group: seq<int>) returns (cost: seq<int>)
    requires Short(tables, alphaSize) && |group| <= GROUP_SIZE
    requires forall i :: 0 <= i < |group| ==> 0 <= group[i] < alphaSize
    ensures |cost| == |tables| && forall t :: 0 <= t < |tables| ==> cost[t] == CostOf(tables[t], group)
  {
    hide CostOf, Short;
    ShortOpen(tables, alphaSize);
    cost := seq(|tables|, _ => 0);
    NoCost(tables, group);
    for i := 0 to |group|
      invariant |cost| == |tables| && forall t :: 0 <= t < |tables| ==> cost[t] == CostOf(tables[t], group[..i])
    {
      var icv := group[i];
      for t := 0 to |tables|
        invariant |cost| == |tables| && forall u :: 0 <= u < |tables| ==>
                    cost[u] == CostOf(tables[u], if u < t then group[..i + 1] else group[..i])
      {
        CostMore(tables, alphaSize, group, i, t);
        cost := cost[t := (cost[t] + tables[t][icv]) % 0x1_0000];
      }
    }
    assert group[..|group|] == group;
  }

  lemma ShortOpen(tables: seq<seq<Byte>>, alphaSize: int)
    requires Short(tables, alphaSize)
    ensures forall t :: 0 <= t < |tables| ==> |tables[t]| == alphaSize
  {
  }

  lemma NoCost(tables: seq<seq<Byte>>, group: seq<int>)
    ensures forall t :: 0 <= t < |tables| ==> CostOf(tables[t], group[..0]) == 0
  {
  }

  /** Two code lengths, or two costs, in one word. */
  function Packed(high: int, low: int): int { high * 0x1_0000 + low }

  lemma Unpacked(high: int, low: int)
    requires 0 <= low < 0x1_0000 && 0 <= high < 0x1_0000
    ensures Packed(high, low) % 0x1_0000 == low && Packed(high, low) / 0x1_0000 == high
    ensures Packed(high, low) % 0x1_0000_0000 == Packed(high, low)
  {
  }

  /** The costs of two tables, added up in one word of 32 bits. */
  method CostPair(low: seq<Byte>, high: seq<Byte>, group: seq<int>) returns (c: int, d: int)
    requires Short([low, high], |low|) && |group| == GROUP_SIZE
    requires forall i :: 0 <= i < |group| ==> 0 <= group[i] < |low|
    ensures c == CostOf(low, group) && d == CostOf(high, group)
  {
    hide CostOf, Short, Packed;
    var both := [low, high];
    ShortOpen(both, |low|);
    assert both[0] == low && both[1] == high;
    NoCost(both, group);
    var sum := 0;
    assert Packed(0, 0) == 0 by { PackedZero(); }
    for i := 0 to GROUP_SIZE
      invariant sum == Packed(CostOf(both[1], group[..i]), CostOf(both[0], group[..i]))
    {
      CostMore(both, |low|, group, i, 0);
      CostMore(both, |low|, group, i, 1);
      var icv := group[i];
      PackedSum(CostOf(both[1], group[..i]), CostOf(both[0], group[..i]), high[icv], low[icv]);
      Unpacked(CostOf(both[1], group[..i + 1]), CostOf(both[0], group[..i + 1]));
      sum := (sum + Packed(high[icv], low[icv])) % 0x1_0000_0000;
    }
    assert group[..GROUP_SIZE] == group;
    CostFits(both, |low|, group);
    Unpacked(CostOf(high, group), CostOf(low, group));
    c, d := sum % 0x1_0000, sum / 0x1_0000;
  }

  lemma PackedZero()
    ensures Packed(0, 0) == 0
  {
  }

  lemma PackedSum(a: int, b: int, c: int, d: int)
    ensures Packed(a, b) + Packed(c, d) == Packed(a + c, b + d)
  {
  }

  lemma CostFits(tables: seq<seq<Byte>>, alphaSize: int, group: seq<int>)
    requires Short(tables, alphaSize) && |group| <= GROUP_SIZE
    ensures forall t :: 0 <= t < |tables| ==> CostOf(tables[t], group) < 0x1_0000
  {
    forall t | 0 <= t < |tables| ensures CostOf(tables[t], group) < 0x1_0000 { CostBound(tables[t], group); }
  }

  /** The fast track for six tables and a whole group: three words of two costs each. */
  method CostsFast(tables: seq<seq<Byte>>, alphaSize: nat, group: seq<int>) returns (cost: seq<int>)
    requires Short(tables, alphaSize) && |tables| == 6 && |group| == GROUP_SIZE
    requires forall i :: 0 <= i < |group| ==> 0 <= group[i] < alphaSize
    ensures |cost| == 6 && forall t :: 0 <= t < 6 ==> cost[t] == CostOf(tables[t], group)
  {
    hide CostOf;
    var c0, c1 := CostPair(tables[0], tables[1], group);
    var c2, c3 := CostPair(tables[2], tables[3], group);
    var c4, c5 := CostPair(tables[4], tables[5], group);
    cost := [c0, c1, c2, c3, c4, c5];
  }

  /** The table that is best for a group. */
  method BestTable(tables: seq<seq<Byte>>, alphaSize: nat, group: seq<int>) returns (bt: int)
    requires Short(tables, alphaSize) && tables != [] && |group| <= GROUP_SIZE
    requires forall i :: 0 <= i < |group| ==> 0 <= group[i] < alphaSize
    ensures Cheapest(tables, group, bt)
  {
    hide CostOf, Short;
    var cost;
    if |tables| == 6 && |group| == GROUP_SIZE {
      cost := CostsFast(tables, alphaSize, group);
    } else {
      cost := CostsSlow(tables, alphaSize, group);
    }
    CostFits(tables, alphaSize, group);
    var bc := 999999999;
    bt := -1;
    for t := 0 to |tables|
      invariant if t == 0 then bt == -1 && bc == 999999999 else 0 <= bt < t && bc == cost[bt]
      invariant forall u :: 0 <= u < t ==> bc <= cost[u] && (u < bt ==> bc < cost[u])
    {
      if cost[t] < bc { bc, bt := cost[t], t; }
    }
  }

  // ---------- a pass ----------

  /** Symbol frequencies of each table, after i symbols. */
  ghost predicate Frequencies(rfreq: seq<seq<int>>, alphaSize: int, i: int) {
    forall t :: 0 <= t < |rfreq| ==>
      && |rfreq[t]| == alphaSize && (forall v :: 0 <= v < alphaSize ==> 0 <= rfreq[t][v])
      && Sum(rfreq[t], alphaSize) <= i
  }

  lemma CountSymbol(rfreq: seq<seq<int>>, alphaSize: int, i: int, bt: int, v: int)
    requires Frequencies(rfreq, alphaSize, i) && 0 <= bt < |rfreq| && 0 <= v < alphaSize
    ensures Frequencies(rfreq[bt := rfreq[bt][v := rfreq[bt][v] + 1]], alphaSize, i + 1)
  {
    SumIncrement(rfreq[bt], v, alphaSize);
  }

  /** ... and what they count. */
  ghost predicate CountsUsed(rfreq: seq<seq<int>>, alphaSize: nat, mtfv: seq<int>, selector: seq<int>, i: nat)
    requires i <= |mtfv| && i <= GROUP_SIZE * |selector|
  {
    forall t :: 0 <= t < |rfreq| ==> rfreq[t] == Counts(Used(mtfv, selector, t, i), alphaSize)
  }

  lemma UseSymbol(rfreq: seq<seq<int>>, alphaSize: nat, mtfv: seq<int>, selector: seq<int>, i: nat)
    requires i < |mtfv| && i < GROUP_SIZE * |selector| && CountsUsed(rfreq, alphaSize, mtfv, selector, i)
    requires 0 <= mtfv[i] < alphaSize && 0 <= selector[GroupOf(i)] < |rfreq|
    ensures var bt, v := selector[GroupOf(i)], mtfv[i];
            |rfreq[bt]| == alphaSize &&
            CountsUsed(rfreq[bt := rfreq[bt][v := rfreq[bt][v] + 1]], alphaSize, mtfv, selector, i + 1)
  {
    var bt, v := selector[GroupOf(i)], mtfv[i];
    var next := rfreq[bt := rfreq[bt][v := rfreq[bt][v] + 1]];
    forall t | 0 <= t < |next| ensures next[t] == Counts(Used(mtfv, selector, t, i + 1), alphaSize) {
      assert rfreq[t] == Counts(Used(mtfv, selector, t, i), alphaSize);
    }
  }

  /** A further selector does not matter to the groups before. */
  lemma {:induction false} UsedStays(mtfv: seq<int>, selector: seq<int>, longer: seq<int>, t: int, n: nat)
    requires n <= |mtfv| && n <= GROUP_SIZE * |selector| <= GROUP_SIZE * |longer|
    requires forall g :: 0 <= g < |selector| ==> longer[g] == selector[g]
    ensures Used(mtfv, longer, t, n) == Used(mtfv, selector, t, n)
    decreases n
  {
    if n > 0 {
      UsedStays(mtfv, selector, longer, t, n - 1);
      assert longer[GroupOf(n - 1)] == selector[GroupOf(n - 1)];
    }
  }

  lemma CountsStay(rfreq: seq<seq<int>>, alphaSize: nat, mtfv: seq<int>, selector: seq<int>, bt: int, i: nat)
    requires i <= |mtfv| && i <= GROUP_SIZE * |selector| && CountsUsed(rfreq, alphaSize, mtfv, selector, i)
    ensures CountsUsed(rfreq, alphaSize, mtfv, selector + [bt], i)
  {
    forall t | 0 <= t < |rfreq| ensures rfreq[t] == Counts(Used(mtfv, selector + [bt], t, i), alphaSize) {
      UsedStays(mtfv, selector, selector + [bt], t, i);
    }
  }

  /** Counts the symbols of the group that was given its table last. */
  method CountGroup(mtfv: seq<int>, alphaSize: nat, selector: seq<int>, rfreq0: seq<seq<int>>, gs: nat, ge: int)
    returns (rfreq: seq<seq<int>>)
    requires selector != [] && gs == GROUP_SIZE * (|selector| - 1) <= ge < Min(gs + GROUP_SIZE, |mtfv|)
    requires 0 <= selector[|selector| - 1] < |rfreq0| && forall i :: 0 <= i < |mtfv| ==> 0 <= mtfv[i] < alphaSize
    requires Frequencies(rfreq0, alphaSize, gs) && CountsUsed(rfreq0, alphaSize, mtfv, selector, gs)
    ensures |rfreq| == |rfreq0| && Frequencies(rfreq, alphaSize, ge + 1)
    ensures CountsUsed(rfreq, alphaSize, mtfv, selector, ge + 1)
  {
    hide Frequencies, CountsUsed;
    rfreq := rfreq0;
    var bt := selector[|selector| - 1];
    for i := gs to ge + 1
      invariant |rfreq| == |rfreq0| && Frequencies(rfreq, alphaSize, i)
      invariant CountsUsed(rfreq, alphaSize, mtfv, selector, i)
    {
      assert GroupOf(i) == |selector| - 1;
      CountSymbol(rfreq, alphaSize, i, bt, mtfv[i]);
      UseSymbol(rfreq, alphaSize, mtfv, selector, i);
      rfreq := rfreq[bt := rfreq[bt][mtfv[i] := rfreq[bt][mtfv[i]] + 1]];
    }
  }

  /** Chooses a table for each group and counts the symbols of each table. */
  method ChooseGroups(mtfv: seq<int>, alphaSize: nat, tables: seq<seq<Byte>>)
    returns (selector: seq<int>, rfreq: seq<seq<int>>)
    requires 0 < |mtfv| && tables != [] && Short(tables, alphaSize) && forall i :: 0 <= i < |mtfv| ==>
               0 <= mtfv[i] < alphaSize
    ensures Grouped(mtfv, selector) && Picks(mtfv, tables, selector)
    ensures |rfreq| == |tables| && Frequencies(rfreq, alphaSize, |mtfv|) &&
            CountsUsed(rfreq, alphaSize, mtfv, selector, |mtfv|)
  {
    hide Frequencies, CountsUsed, Cheapest, Short;
    rfreq := seq(|tables|, _ => seq(alphaSize, _ => 0));
    NoFrequencies(|tables|, alphaSize, mtfv);
    selector := [];
    var gs := 0;
    while gs < |mtfv|
      invariant 0 <= gs <= |mtfv| && gs == Min(GROUP_SIZE * |selector|, |mtfv|)
      invariant selector == [] || GROUP_SIZE * (|selector| - 1) < |mtfv|
      invariant |rfreq| == |tables| && Frequencies(rfreq, alphaSize, gs)
      invariant CountsUsed(rfreq, alphaSize, mtfv, selector, gs) && Picks(mtfv, tables, selector)
    {
      var ge := if gs + GROUP_SIZE - 1 >= |mtfv| then |mtfv| - 1 else gs + GROUP_SIZE - 1;
      var group := mtfv[gs..ge + 1];
      assert group == Group(mtfv, |selector|) && forall i :: 0 <= i < |group| ==> group[i] == mtfv[gs + i];
      var bt := BestTable(tables, alphaSize, group);
      CheapestRange(tables, group, bt);
      CountsStay(rfreq, alphaSize, mtfv, selector, bt, gs);
      PicksMore(mtfv, tables, selector, bt);
      selector := selector + [bt];
      rfreq := CountGroup(mtfv, alphaSize, selector, rfreq, gs, ge);
      gs := ge + 1;
    }
  }

  lemma CheapestRange(tables: seq<seq<Byte>>, syms: seq<int>, bt: int)
    requires Cheapest(tables, syms, bt)
    ensures 0 <= bt < |tables|
  {
  }

  lemma PicksMore(mtfv: seq<int>, tables: seq<seq<Byte>>, selector: seq<int>, bt: int)
    requires Picks(mtfv, tables, selector) && GROUP_SIZE * |selector| <= |mtfv|
    requires Cheapest(tables, Group(mtfv, |selector|), bt)
    ensures Picks(mtfv, tables, selector + [bt])
  {
    hide Cheapest;
  }

  lemma NoFrequencies(nGroups: nat, alphaSize: nat, mtfv: seq<int>)
    ensures var none := seq(nGroups, _ => seq(alphaSize, _ => 0));
            Frequencies(none, alphaSize, 0) && CountsUsed(none, alphaSize, mtfv, [], 0)
  {
    SumNone(alphaSize, alphaSize);
  }

  lemma CountedRow(rfreq: seq<seq<int>>, alphaSize: int, i: int, t: int)
    requires Frequencies(rfreq, alphaSize, i) && 0 <= t < |rfreq|
    ensures |rfreq[t]| == alphaSize && forall v :: 0 <= v < alphaSize ==> 0 <= rfreq[t][v]
    ensures alphaSize >= 0 ==> Sum(rfreq[t], alphaSize) <= i
  {
  }

  lemma UsedRow(rfreq: seq<seq<int>>, alphaSize: nat, mtfv: seq<int>, selector: seq<int>, t: int)
    requires |mtfv| <= GROUP_SIZE * |selector| && CountsUsed(rfreq, alphaSize, mtfv, selector, |mtfv|)
    requires 0 <= t < |rfreq|
    ensures rfreq[t] == Counts(Used(mtfv, selector, t, |mtfv|), alphaSize)
  {
  }

  method MakeTable(freq: seq<int>, alphaSize: int) returns (lens: seq<Byte>)
    requires 3 <= alphaSize <= MAX_ALPHA_SIZE && |freq| == alphaSize &&
             (forall v :: 0 <= v < alphaSize ==> 0 <= freq[v])
    requires Sum(freq, alphaSize) <= MAX_SYMBOLS
    ensures TableFits(lens, alphaSize) && MadeFor(freq, lens)
  {
    hide TreeDepth.HuffmanDepth, TreeCost.CheapestCode, CodeLengths.Scaled;
    var len := new Byte[MAX_ALPHA_SIZE];
    WeightsBounded(freq, alphaSize);
    CodeLengths.LimitSeventeen();
    ghost var rounds := CodeLengths.MakeCodeLengths(len, freq, alphaSize, 17);
    lens := len[..alphaSize];
    KraftLonger(lens, 17, LONGEST);
    assert MadeWith(freq, rounds, lens);
  }

  /** Recomputes the tables from the accumulated frequencies. */
  method MakeTables(mtfv: seq<int>, alphaSize: nat, ghost selector: seq<int>, rfreq: seq<seq<int>>)
    returns (tables: seq<seq<Byte>>)
    requires 3 <= alphaSize <= MAX_ALPHA_SIZE && |mtfv| <= MAX_SYMBOLS && |mtfv| <= GROUP_SIZE * |selector|
    requires Frequencies(rfreq, alphaSize, |mtfv|) && CountsUsed(rfreq, alphaSize, mtfv, selector, |mtfv|)
    ensures |tables| == |rfreq| && forall t :: 0 <= t < |tables| ==> TableFits(tables[t], alphaSize)
    ensures forall t :: 0 <= t < |tables| ==>
              MadeFor(Counts(Used(mtfv, selector, t, |mtfv|), alphaSize), tables[t])
  {
    hide Frequencies, CountsUsed, MadeFor, TableFits;
    tables := [];
    for t := 0 to |rfreq|
      invariant |tables| == t && forall u :: 0 <= u < t ==> TableFits(tables[u], alphaSize)
      invariant forall u :: 0 <= u < t ==> MadeFor(Counts(Used(mtfv, selector, u, |mtfv|), alphaSize), tables[u])
    {
      CountedRow(rfreq, alphaSize, |mtfv|, t);
      UsedRow(rfreq, alphaSize, mtfv, selector, t);
      var lens := MakeTable(rfreq[t], alphaSize);
      tables := tables + [lens];
    }
  }

  lemma FitsShort(tables: seq<seq<Byte>>, alphaSize: int)
    requires forall t :: 0 <= t < |tables| ==> TableFits(tables[t], alphaSize)
    ensures Short(tables, alphaSize)
  {
    hide Kraft;
  }

  /** One pass. */
  method Improve(mtfv: seq<int>, alphaSize: nat, before: seq<seq<Byte>>)
    returns (tables: seq<seq<Byte>>, selector: seq<int>)
    requires 3 <= alphaSize <= MAX_ALPHA_SIZE && 0 < |mtfv| <= MAX_SYMBOLS && before != []
    requires Short(before, alphaSize) && forall i :: 0 <= i < |mtfv| ==> 0 <= mtfv[i] < alphaSize
    ensures Passed(mtfv, alphaSize, before, selector, tables) && Short(tables, alphaSize)
    ensures forall t :: 0 <= t < |tables| ==> TableFits(tables[t], alphaSize)
  {
    hide Frequencies, CountsUsed, MadeFor, TableFits, Picks, Short;
    var rfreq;
    selector, rfreq := ChooseGroups(mtfv, alphaSize, before);
    tables := MakeTables(mtfv, alphaSize, selector, rfreq);
    FitsShort(tables, alphaSize);
  }

  lemma PassedFacts(mtfv: seq<int>, alphaSize: nat, before: seq<seq<Byte>>, selector: seq<int>, after: seq<seq<Byte>>)
    requires Passed(mtfv, alphaSize, before, selector, after)
    ensures |after| == |before| && Grouped(mtfv, selector) && forall g :: 0 <= g < |selector| ==>
              0 <= selector[g] < |after|
  {
    hide CostOf, Used, MadeFor, Counts;
    forall g | 0 <= g < |selector| ensures 0 <= selector[g] < |before| {
      assert Cheapest(before, Group(mtfv, g), selector[g]);
    }
  }

  /** The tables and selectors for a block: an initial set of tables, and four passes over the
      symbols. */
  method ChooseTables(mtfv: seq<int>, mtfFreq: seq<int>) returns (tables: seq<seq<Byte>>, selector: seq<int>)
    requires 3 <= |mtfFreq| <= MAX_ALPHA_SIZE && 0 < |mtfv| <= MAX_SYMBOLS
    requires forall i :: 0 <= i < |mtfv| ==> 0 <= mtfv[i] < |mtfFreq|
    ensures |tables| == GroupsFor(|mtfv|) && forall t :: 0 <= t < |tables| ==> TableFits(tables[t], |mtfFreq|)
    ensures Grouped(mtfv, selector) && forall g :: 0 <= g < |selector| ==> 0 <= selector[g] < |tables|
    ensures Settled(mtfv, mtfFreq, selector, tables)
  {
    hide FirstTables, Short, TableFits, Passed, Grouped;
    var alphaSize, nGroups := |mtfFreq|, GroupsFor(|mtfv|);
    tables := MakeFirstTables(mtfFreq, |mtfv|, nGroups);
    ghost var first := tables;
    ghost var before := first;
    selector := [];
    FirstShort(tables, alphaSize);
    for iter := 0 to PASSES
      invariant |tables| == nGroups && Short(tables, alphaSize) && Refined(mtfv, alphaSize, first, iter, tables)
      invariant iter > 0 ==>
                  Refined(mtfv, alphaSize, first, iter - 1, before) && Passed(mtfv, alphaSize, before, selector, tables)
      invariant iter > 0 ==> forall t :: 0 <= t < nGroups ==> TableFits(tables[t], alphaSize)
    {
      before := tables;
      tables, selector := Improve(mtfv, alphaSize, tables);
      PassedFacts(mtfv, alphaSize, before, selector, tables);
    }
    PassedFacts(mtfv, alphaSize, before, selector, tables);
  }

  lemma FirstShort(tables: seq<seq<Byte>>, alphaSize: nat)
    requires forall t :: 0 <= t < |tables| ==> |tables[t]| == alphaSize && forall v :: 0 <= v < alphaSize ==>
               0 <= tables[t][v] <= GREATER_ICOST
    ensures Short(tables, alphaSize)
  {
  }
}
