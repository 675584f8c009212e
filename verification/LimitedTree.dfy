/** A Huffman tree whose depths are cut off at a limit, and how much the cut lengths
    overspend.  The nodes are listed parents first; par gives the position of each node's
    parent in that list. */
module LimitedTree {
  import opened Common

  /** Every node but the first has its parent before it. */
  ghost predicate Parents(par: seq<int>) {
    forall i :: 0 < i < |par| ==> 0 <= par[i] < i
  }

  /** Inner nodes have two children, leaves none. */
  ghost predicate IsTree(par: seq<int>, leaf: seq<bool>) {
    && |par| == |leaf| > 0 && !leaf[0] && Parents(par)
    && (forall k :: 0 <= k < |par| ==> Kids(par, k, |par|) == if leaf[k] then 0 else 2)
  }

  /** How many of the nodes before position j have their parent at position k. */
  ghost function Kids(par: seq<int>, k: int, j: nat): nat
    requires j <= |par|
  {
    if j <= 1 then 0 else Kids(par, k, j - 1) + if par[j - 1] == k then 1 else 0
  }

  /** The depth of the node at position i, cut off at l. */
  ghost function Cut(par: seq<int>, l: nat, i: nat): (d: nat)
    requires i < |par| && Parents(par)
    ensures d <= l && (i == 0 ==> d == 0)
    decreases i
  {
    if i == 0 then 0 else Min(Cut(par, l, par[i]) + 1, l)
  }

  // ---------- summing by parent ----------

  /** g of the parent, summed over the nodes from position 1 to j - 1. */
  ghost function SumByParent(par: seq<int>, g: seq<int>, j: nat): int
    requires j <= |par| == |g| && Parents(par)
  {
    if j <= 1 then 0 else SumByParent(par, g, j - 1) + g[par[j - 1]]
  }

  /** g times the number of children, summed over the nodes before position n. */
  ghost function SumByKids(par: seq<int>, g: seq<int>, n: nat, j: nat): int
    requires n <= |g| && j <= |par|
  {
    if n == 0 then 0 else SumByKids(par, g, n - 1, j) + g[n - 1] * Kids(par, n - 1, j)
  }

  lemma {:induction false} NoKids(par: seq<int>, g: seq<int>, n: nat, j: nat)
    requires n <= |g| && j <= |par| && j <= 1
    ensures SumByKids(par, g, n, j) == 0
  {
    if n > 0 { NoKids(par, g, n - 1, j); }
  }

  lemma {:induction false} OneMoreKid(par: seq<int>, g: seq<int>, n: nat, j: nat)
    requires n <= |g| && 0 < j < |par|
    ensures SumByKids(par, g, n, j + 1) == SumByKids(par, g, n, j) + if 0 <= par[j] < n then g[par[j]] else 0
  {
    if n > 0 {
      OneMoreKid(par, g, n - 1, j);
      MulDistributes(g[n - 1], Kids(par, n - 1, j), Kids(par, n - 1, j + 1) - Kids(par, n - 1, j));
    }
  }

  /** Summing over children is summing over parents as often as they have children. */
  lemma {:induction false} DoubleCount(par: seq<int>, g: seq<int>, j: nat)
    requires j <= |par| == |g| && Parents(par)
    ensures SumByParent(par, g, j) == SumByKids(par, g, |g|, j)
  {
    if j <= 1 {
      NoKids(par, g, |g|, j);
    } else {
      DoubleCount(par, g, j - 1);
      OneMoreKid(par, g, |g|, j - 1);
    }
  }

  // ---------- what the cut costs ----------

  ghost function Weight(par: seq<int>, l: nat, i: nat): nat
    requires i < |par| && Parents(par)
  {
    Pow2(l - Cut(par, l, i))
  }

  /** The sum of 2^(l - length) over the leaves, or inner nodes, before position n. */
  ghost function WeightSum(par: seq<int>, leaf: seq<bool>, l: nat, n: nat, leaves: bool): nat
    requires Parents(par) && |leaf| == |par| && n <= |par|
  {
    if n == 0 then 0 else WeightSum(par, leaf, l, n - 1,
                                    leaves) + if leaf[n - 1] == leaves then Weight(par, l, n - 1) else 0
  }

  /** How many leaves, or inner nodes, before position n have cut depth d. */
  ghost function AtDepth(par: seq<int>, leaf: seq<bool>, l: nat, n: nat, leaves: bool, d: int): nat
    requires Parents(par) && |leaf| == |par| && n <= |par|
  {
    if n == 0 then 0 else AtDepth(par, leaf, l, n - 1, leaves,
                                  d) + if leaf[n - 1] == leaves && Cut(par, l, n - 1) == d then 1 else 0
  }

  /** How many nodes from position 1 to n - 1 would lie deeper than l. */
  ghost function Overflow(par: seq<int>, leaf: seq<bool>, l: nat, n: nat): nat
    requires Parents(par) && |leaf| == |par| && n <= |par|
  {
    if n <= 1 then 0 else Overflow(par, leaf, l, n - 1) + if Cut(par, l, par[n - 1]) == l then 1 else 0
  }

  ghost function ChildWeight(par: seq<int>, l: nat, k: nat): nat
    requires k < |par| && Parents(par)
  {
    Pow2(l - Min(Cut(par, l, k) + 1, l))
  }

  ghost function ChildWeights(par: seq<int>, leaf: seq<bool>, l: nat): (g: seq<int>)
    requires Parents(par) && |leaf| == |par|
    ensures |g| == |par| && forall k :: 0 <= k < |g| ==> g[k] == ChildWeight(par, l, k)
  {
    seq(|par|, k requires 0 <= k < |par| => ChildWeight(par, l, k))
  }

  ghost function DeepMarks(par: seq<int>, leaf: seq<bool>, l: nat): (g: seq<int>)
    requires Parents(par) && |leaf| == |par|
    ensures |g| == |par| && forall k :: 0 <= k < |g| ==> g[k] == if Cut(par, l, k) == l then 1 else 0
  {
    seq(|par|, k requires 0 <= k < |par| => if Cut(par, l, k) == l then 1 else 0)
  }

  /** The weight of all nodes is that of the root and of every child. */
  lemma {:induction false} AllWeights(par: seq<int>, leaf: seq<bool>, l: nat, n: nat)
    requires Parents(par) && |leaf| == |par| && 0 < n <= |par|
    ensures WeightSum(par, leaf, l, n, true) + WeightSum(par, leaf, l, n, false) ==
            Pow2(l) + SumByParent(par, ChildWeights(par, leaf, l), n)
  {
    hide Pow2, Kids;
    if n > 1 { AllWeights(par, leaf, l, n - 1); }
  }

  lemma KidsProduct(g: int, kids: int, leaf: bool)
    requires kids == if leaf then 0 else 2
    ensures g * kids == if leaf then 0 else 2 * g
  {
  }

  lemma KidsWeighOne(par: seq<int>, leaf: seq<bool>, l: nat, k: nat)
    requires Parents(par) && |leaf| == |par| && k < |par|
    ensures 2 * ChildWeights(par, leaf, l)[k] == Weight(par, l, k) + if Cut(par, l, k) == l then 1 else 0
  {
    hide Cut;
    if Cut(par, l, k) < l { assert Pow2(l - Cut(par, l, k)) == 2 * Pow2(l - (Cut(par, l, k) + 1)); }
  }

  /** The children of an inner node weigh as much as it, or one more at the limit. */
  lemma {:induction false} KidsWeigh(par: seq<int>, leaf: seq<bool>, l: nat, n: nat)
    requires IsTree(par, leaf) && n <= |par|
    ensures SumByKids(par, ChildWeights(par, leaf, l), n, |par|) ==
            WeightSum(par, leaf, l, n, false) + AtDepth(par, leaf, l, n, false, l)
  {
    hide Kids, ChildWeight, Weight, Cut;
    if n > 0 {
      var g := ChildWeights(par, leaf, l);
      KidsWeigh(par, leaf, l, n - 1);
      KidsWeighOne(par, leaf, l, n - 1);
      KidsProduct(g[n - 1], Kids(par, n - 1, |par|), leaf[n - 1]);
    }
  }

  lemma {:induction false} OverflowIsSum(par: seq<int>, leaf: seq<bool>, l: nat, n: nat)
    requires Parents(par) && |leaf| == |par| && n <= |par|
    ensures Overflow(par, leaf, l, n) == SumByParent(par, DeepMarks(par, leaf, l), n)
  {
    if n > 1 { OverflowIsSum(par, leaf, l, n - 1); }
  }

  lemma {:induction false} KidsMarked(par: seq<int>, leaf: seq<bool>, l: nat, n: nat)
    requires IsTree(par, leaf) && n <= |par|
    ensures SumByKids(par, DeepMarks(par, leaf, l), n, |par|) == 2 * AtDepth(par, leaf, l, n, false, l)
  {
    hide Kids;
    if n > 0 { KidsMarked(par, leaf, l, n - 1); }
  }

  /** What hangs from a node at the limit is itself cut to the limit. */
  lemma {:induction false} OverflowAtLimit(par: seq<int>, leaf: seq<bool>, l: nat, n: nat)
    requires Parents(par) && |leaf| == |par| && n <= |par|
    ensures Overflow(par, leaf, l, n) <= AtDepth(par, leaf, l, n, true, l) + AtDepth(par, leaf, l, n, false, l)
  {
    if n > 0 { OverflowAtLimit(par, leaf, l, n - 1); }
  }

  lemma {:induction false} SomeAtDepth(par: seq<int>, leaf: seq<bool>, l: nat, n: nat, k: nat)
    requires Parents(par) && |leaf| == |par| && k < n <= |par|
    ensures AtDepth(par, leaf, l, n, true, Cut(par, l, k)) + AtDepth(par, leaf, l, n, false, Cut(par, l, k)) > 0
  {
    hide Cut;
    if k < n - 1 { SomeAtDepth(par, leaf, l, n - 1, k); }
  }

  /** If anything is cut off, something is at the limit by itself. */
  lemma {:induction false} OverflowHangs(par: seq<int>, leaf: seq<bool>, l: nat, n: nat)
    requires Parents(par) && |leaf| == |par| && n <= |par| && Overflow(par, leaf, l, n) > 0
    ensures Overflow(par, leaf, l, n) < AtDepth(par, leaf, l, n, true, l) + AtDepth(par, leaf, l, n, false, l)
  {
    if Overflow(par, leaf, l, n - 1) > 0 {
      OverflowHangs(par, leaf, l, n - 1);
    } else {
      SomeAtDepth(par, leaf, l, n - 1, par[n - 1]);
    }
  }

  /** So some leaf remains at the limit after half the overflow is taken from there. */
  lemma LeavesRemain(par: seq<int>, leaf: seq<bool>, l: nat)
    requires IsTree(par, leaf) && Overflow(par, leaf, l, |par|) > 0
    ensures AtDepth(par, leaf, l, |par|, true, l) > Overflow(par, leaf, l, |par|) / 2
  {
    hide Kids, Weight, Cut, WeightSum, AtDepth, Overflow, SumByParent, SumByKids, Pow2;
    var n := |par|;
    OverflowIsSum(par, leaf, l, n);
    DoubleCount(par, DeepMarks(par, leaf, l), n);
    KidsMarked(par, leaf, l, n);
    OverflowHangs(par, leaf, l, n);
  }

  /** If nothing is cut off, every node is one deeper than its parent. */
  lemma {:induction false} NothingCut(par: seq<int>, leaf: seq<bool>, l: nat, n: nat, i: nat)
    requires Parents(par) && |leaf| == |par| && 0 < i < n <= |par| && Overflow(par, leaf, l, n) == 0
    ensures Cut(par, l, i) == Cut(par, l, par[i]) + 1
  {
    if i < n - 1 { NothingCut(par, leaf, l, n - 1, i); }
  }

  /** The cut lengths overspend by half the number of nodes that lie too deep, and enough
      leaves are at the limit to take that back one by one. */
  lemma Excess(par: seq<int>, leaf: seq<bool>, l: nat)
    requires IsTree(par, leaf)
    ensures var n := |par|;
            && Overflow(par, leaf, l, n) % 2 == 0
            && WeightSum(par, leaf, l, n, true) == Pow2(l) + Overflow(par, leaf, l, n) / 2
            && AtDepth(par, leaf, l, n, true, l) >= Overflow(par, leaf, l, n) / 2
  {
    hide Kids, Weight, Cut, WeightSum, AtDepth, Overflow, SumByParent, SumByKids, Pow2;
    var n := |par|;
    AllWeights(par, leaf, l, n);
    DoubleCount(par, ChildWeights(par, leaf, l), n);
    KidsWeigh(par, leaf, l, n);
    OverflowIsSum(par, leaf, l, n);
    DoubleCount(par, DeepMarks(par, leaf, l), n);
    KidsMarked(par, leaf, l, n);
    OverflowAtLimit(par, leaf, l, n);
  }
}
