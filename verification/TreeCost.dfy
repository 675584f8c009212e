/** What the tree that build_tree makes means for its code: rarer symbols have no shorter
    codes, and if no length reaches the limit no code is cheaper. */
module TreeCost {
  import opened LimitedTree
  import opened BitLengths
  import opened HuffmanCost

  /** The symbols in use. */
  ghost function UseMask(freq: seq<int>): (use: seq<bool>)
    ensures |use| == |freq| && forall x :: 0 <= x < |freq| ==> use[x] == (freq[x] > 0)
  {
    seq(|freq|, x requires 0 <= x < |freq| => freq[x] > 0)
  }

  /** No prefix code for the symbols in use has fewer bits in all. */
  ghost predicate CheapestCode(freq: seq<int>, lens: seq<int>)
    requires |lens| == |freq|
  {
    forall other, t :: Affordable(UseMask(freq), other, t) ==>
    Cost(UseMask(freq), freq, lens) <= Cost(UseMask(freq), freq, other)
  }

  // ---------- from positions to symbols ----------

  ghost function ListedMask(order: seq<int>, n: nat, count: nat): (use: seq<bool>)
    requires n <= |order|
    ensures |use| == count && forall x :: 0 <= x < count ==> use[x] == (x in order[..n])
  {
    seq(count, x => x in order[..n])
  }

  /** Values of symbols, at the positions of the symbols. */
  ghost function AtPositions(order: seq<int>, g: seq<int>): (f: seq<int>)
    ensures |f| == |order| && forall k :: 0 <= k < |f| ==> f[k] == if 0 <= order[k] < |g| then g[order[k]] else 0
  {
    seq(|order|, k requires 0 <= k < |order| => if 0 <= order[k] < |g| then g[order[k]] else 0)
  }

  lemma {:induction false} NothingListed(g: seq<int>, use: seq<bool>, j: nat)
    requires j <= |use| && j <= |g| && forall x :: 0 <= x < j ==> !use[x]
    ensures Sum(use, g, j) == 0
  {
    if j > 0 { NothingListed(g, use, j - 1); }
  }

  lemma {:induction false} SumBySymbol(order: seq<int>, g: seq<int>, n: nat)
    requires Distinct(order) && n <= |order| && forall k :: 0 <= k < |order| ==> 0 <= order[k]
    ensures Sum(Leaves(order, |g| - 1), AtPositions(order, g), n) == Sum(ListedMask(order, n, |g|), g, |g|)
  {
    if n == 0 {
      NothingListed(g, ListedMask(order, 0, |g|), |g|);
    } else {
      SumBySymbol(order, g, n - 1);
      var before, x := ListedMask(order, n - 1, |g|), order[n - 1];
      assert order[..n] == order[..n - 1] + [x];
      assert forall k :: 0 <= k < n - 1 ==> order[..n - 1][k] == order[k] != x;
      if x < |g| {
        SumMarked(before, g, x, |g|);
        assert ListedMask(order, n, |g|) == before[x := true];
      } else {
        assert ListedMask(order, n, |g|) == before;
      }
    }
  }

  /** The symbols in use are those listed. */
  ghost predicate Lists(order: seq<int>, freq: seq<int>) {
    && Distinct(order) && (forall k :: 0 <= k < |order| ==> 0 <= order[k])
    && forall x :: 0 <= x < |freq| ==> (x in order <==> freq[x] > 0)
  }

  lemma SumOfSymbols(order: seq<int>, freq: seq<int>, g: seq<int>)
    requires Lists(order, freq) && |g| == |freq|
    ensures Sum(Leaves(order, |freq| - 1), AtPositions(order, g), |order|) == Sum(UseMask(freq), g, |g|)
  {
    SumBySymbol(order, g, |order|);
    assert order[..|order|] == order;
    assert ListedMask(order, |order|, |g|) == UseMask(freq);
  }

  /** Lengths at positions: the symbols' own, whatever is said of the other nodes. */
  lemma CostByPosition(order: seq<int>, freq: seq<int>, w: seq<int>, lens: seq<int>, d: seq<int>)
    requires Lists(order, freq) && |lens| == |freq| && |w| == |d| == |order|
    requires forall k :: 0 <= k < |order| && order[k] < |freq| ==> w[k] == freq[order[k]] && d[k] == lens[order[k]]
    ensures Cost(Leaves(order, |freq| - 1), w, d) == Cost(UseMask(freq), freq, lens)
  {
    SumOfSymbols(order, freq, Costs(freq, lens));
    SumLeaves(Leaves(order, |freq| - 1), Costs(w, d), AtPositions(order, Costs(freq, lens)), |order|);
  }

  lemma SpentByPosition(order: seq<int>, freq: seq<int>, other: seq<int>, m: seq<int>, t: nat)
    requires Lists(order, freq) && |other| == |freq| && |m| == |order|
    requires forall k :: 0 <= k < |order| && order[k] < |freq| ==> m[k] == other[order[k]]
    ensures Spent(Leaves(order, |freq| - 1), m, t) == Spent(UseMask(freq), other, t)
  {
    hide Share;
    SumOfSymbols(order, freq, Shares(other, t));
    SumLeaves(Leaves(order, |freq| - 1), Shares(m, t), AtPositions(order, Shares(other, t)), |order|);
  }

  lemma {:induction false} SumLeaves(leaf: seq<bool>, f: seq<int>, g: seq<int>, j: nat)
    requires j <= |leaf| && j <= |f| == |g| && forall k :: 0 <= k < j && leaf[k] ==> f[k] == g[k]
    ensures Sum(leaf, f, j) == Sum(leaf, g, j)
  {
    if j > 0 { SumLeaves(leaf, f, g, j - 1); }
  }

  // ---------- the two properties ----------

  /** A finished tree for the symbols in use, with w the frequencies of its nodes. */
  ghost predicate TreeFor(order: seq<int>, par: seq<int>, w: seq<int>, freq: seq<int>) {
    && |order| == |par| && Huffman(par, w) && IsTree(par, Leaves(order, |freq| - 1)) && Distinct(order)
    && (forall k :: 0 <= k < |order| ==> 0 <= order[k] && (order[k] < |freq| ==> w[k] == freq[order[k]]))
  }

  lemma CutDepths(par: seq<int>, leaf: seq<bool>, l: nat) returns (d: seq<int>)
    requires Parents(par) && |leaf| == |par| && Overflow(par, leaf, l, |par|) == 0
    ensures Depths(par, d) && forall i {:trigger Cut(par, l, i)} :: 0 <= i < |par| ==> d[i] == Cut(par, l, i)
  {
    hide Cut, Overflow;
    d := seq(|par|, i requires 0 <= i < |par| => Cut(par, l, i));
    forall i {:trigger d[i]} | 0 < i < |d| ensures d[i] == d[par[i]] + 1 { NothingCut(par, leaf, l, |par|, i); }
    if |par| > 0 { RootCut(par, l); }
  }

  lemma RootCut(par: seq<int>, l: nat)
    requires Parents(par) && |par| > 0
    ensures Cut(par, l, 0) == 0
  {
  }

  lemma LeavesAgree(order: seq<int>, par: seq<int>, w: seq<int>, freq: seq<int>)
    requires TreeFor(order, par, w, freq)
    ensures LeavesOf(par) == Leaves(order, |freq| - 1) && Parents(par)
  {
    hide Huffman;
  }

  /** A rarer symbol's code is no shorter. */
  lemma RarerLonger(order: seq<int>, par: seq<int>, w: seq<int>, freq: seq<int>, dl: seq<int>, l: nat, i: nat, j: nat)
    requires TreeFor(order, par, w, freq) && Parents(par) && (forall k :: 0 <= k < |order| ==> order[k] < |dl|)
    requires DeepOrOrdered(dl, order, |freq| - 1, l, par)
    requires i < |order| && j < |order| && order[i] < |freq| && order[j] < |freq| && w[i] < w[j]
    ensures dl[order[i]] >= dl[order[j]]
  {
    hide Overflow, Cut, IsTree, Distinct;
    if Overflow(par, Leaves(order, |freq| - 1), l, |order|) == 0 {
      var d := CutDepths(par, Leaves(order, |freq| - 1), l);
      RarerDeeper(par, w, d, i, j);
      assert Cut(par, l, i) >= Cut(par, l, j);
    } else {
      HuffmanShape(par, w);
      assert j < i;
    }
  }

  lemma NothingDeep(dl: seq<int>, order: seq<int>, maxCode: int, l: nat, par: seq<int>)
    requires |par| == |order| && Parents(par) && (forall i :: 0 <= i < |order| ==> 0 <= order[i] < |dl|)
    requires DeepOrOrdered(dl, order, maxCode, l, par) && forall k :: 0 <= k < |order| && order[k] <= maxCode ==>
               dl[order[k]] < l
    ensures Overflow(par, Leaves(order, maxCode), l, |order|) == 0
  {
    hide Cut, Overflow, Leaves;
  }

  /** If no length reaches the limit, no code is cheaper. */
  lemma NoneCheaper(order: seq<int>, par: seq<int>, w: seq<int>, freq: seq<int>, dl: seq<int>, lens: seq<int>, l: nat)
    requires TreeFor(order, par, w, freq) && Parents(par) && (forall k :: 0 <= k < |order| ==> order[k] < |dl|)
    requires DeepOrOrdered(dl, order, |freq| - 1, l, par)
    requires Lists(order, freq) && |lens| == |freq| && forall x :: 0 <= x < |lens| && x in order ==>
               lens[x] == dl[x] < l
    ensures CheapestCode(freq, lens)
  {
    hide Overflow, Cut, IsTree, Distinct, Huffman, Cost, Affordable, Depths;
    var leaf := Leaves(order, |freq| - 1);
    forall k | 0 <= k < |order| && order[k] <= |freq| - 1 ensures dl[order[k]] < l { assert order[k] in order; }
    NothingDeep(dl, order, |freq| - 1, l, par);
    var d := CutDepths(par, leaf, l);
    TreeSizes(order, par, w, freq);
    DepthSize(par, d);
    forall k | 0 <= k < |order| && order[k] < |freq| ensures d[k] == lens[order[k]] {
      assert order[k] in order && d[k] == Cut(par, l, k);
    }
    DepthsCheapest(order, par, w, freq, d, lens);
  }

  /** The depths of the symbols in such a tree are the lengths of a cheapest code. */
  lemma DepthsCheapest(order: seq<int>, par: seq<int>, w: seq<int>, freq: seq<int>, d: seq<int>, lens: seq<int>)
    requires TreeFor(order, par, w, freq) && Lists(order, freq) && Depths(par, d) && |lens| == |freq|
    requires |d| == |order| && forall k :: 0 <= k < |order| && order[k] < |freq| ==> d[k] == lens[order[k]]
    ensures CheapestCode(freq, lens)
  {
    hide IsTree, Distinct, Huffman, Cost, Affordable, Depths;
    LeavesAgree(order, par, w, freq);
    TreeSizes(order, par, w, freq);
    CostByPosition(order, freq, w, lens, d);
    forall other, t | Affordable(UseMask(freq), other, t)
      ensures |other| == |freq| && Cost(UseMask(freq), freq, lens) <= Cost(UseMask(freq), freq, other)
    {
      var m := OtherByPosition(order, par, w, freq, other, t);
      Cheapest(par, w, d, m, t);
    }
  }

  lemma TreeSizes(order: seq<int>, par: seq<int>, w: seq<int>, freq: seq<int>)
    requires TreeFor(order, par, w, freq)
    ensures |order| == |par| == |w|
  {
  }

  lemma DepthSize(par: seq<int>, d: seq<int>)
    requires Depths(par, d)
    ensures |d| == |par|
  {
  }

  /** Another code, by positions. */
  lemma OtherByPosition(order: seq<int>, par: seq<int>, w: seq<int>, freq: seq<int>, other: seq<int>, t: nat)
    returns (m: seq<int>)
    requires TreeFor(order, par, w, freq) && Lists(order, freq) && Affordable(UseMask(freq), other, t)
    ensures Affordable(Leaves(order, |freq| - 1), m, t) && |m| == |w| == |order| && |other| == |freq|
    ensures Cost(Leaves(order, |freq| - 1), w, m) == Cost(UseMask(freq), freq, other)
  {
    hide Huffman, IsTree, Distinct, Cost, Spent;
    TreeSizes(order, par, w, freq);
    m := AtPositions(order, other);
    SpentByPosition(order, freq, other, m, t);
    CostByPosition(order, freq, w, other, m);
  }
}
