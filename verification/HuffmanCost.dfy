/** Why a tree that always joins the two least frequent nodes gives a cheapest code, and a
    longer one to what is less frequent.  The nodes are listed most frequent first, so that
    brothers stand side by side. */
module HuffmanCost {
  import opened Common
  import opened LimitedTree

  // ---------- sums over leaves ----------

  ghost function Sum(leaf: seq<bool>, f: seq<int>, j: nat): int
    requires j <= |leaf| && j <= |f|
  {
    if j == 0 then 0 else Sum(leaf, f, j - 1) + if leaf[j - 1] then f[j - 1] else 0
  }

  lemma {:induction false} SumChanged(leaf: seq<bool>, f: seq<int>, k: nat, v: int, j: nat)
    requires j <= |leaf| && j <= |f| && k < |f| && k < |leaf|
    ensures Sum(leaf, f[k := v], j) == Sum(leaf, f, j) + if k < j && leaf[k] then v - f[k] else 0
  {
    if j > 0 { SumChanged(leaf, f, k, v, j - 1); }
  }

  lemma {:induction false} SumMarked(leaf: seq<bool>, f: seq<int>, k: nat, j: nat)
    requires j <= |leaf| && j <= |f| && k < |leaf| && k < |f| && !leaf[k]
    ensures Sum(leaf[k := true], f, j) == Sum(leaf, f, j) + if k < j then f[k] else 0
  {
    if j > 0 { SumMarked(leaf, f, k, j - 1); }
  }

  lemma {:induction false} SumSame(leaf: seq<bool>, f: seq<int>, leaf': seq<bool>, f': seq<int>, j: nat)
    requires j <= |leaf| && j <= |f| && j <= |leaf'| && j <= |f'|
    requires forall k :: 0 <= k < j ==> leaf'[k] == leaf[k] && f'[k] == f[k]
    ensures Sum(leaf', f', j) == Sum(leaf, f, j)
  {
    if j > 0 { SumSame(leaf, f, leaf', f', j - 1); }
  }

  // ---------- the cost of a code, and what it uses up ----------

  ghost function Costs(w: seq<int>, m: seq<int>): (f: seq<int>)
    requires |m| == |w|
    ensures |f| == |w| && forall k :: 0 <= k < |f| ==> f[k] == w[k] * m[k]
  {
    seq(|w|, k requires 0 <= k < |w| => w[k] * m[k])
  }

  /** Of 2^t strings of length t, those that begin with a given one of length d. */
  ghost function Share(t: nat, d: int): nat {
    if 0 <= d <= t then Pow2(t - d) else 0
  }

  ghost function Shares(m: seq<int>, t: nat): (f: seq<int>)
    ensures |f| == |m| && forall k :: 0 <= k < |f| ==> f[k] == Share(t, m[k])
  {
    seq(|m|, k requires 0 <= k < |m| => Share(t, m[k]))
  }

  ghost function Cost(leaf: seq<bool>, w: seq<int>, m: seq<int>): int
    requires |m| == |w| == |leaf|
  {
    Sum(leaf, Costs(w, m), |leaf|)
  }

  ghost function Spent(leaf: seq<bool>, m: seq<int>, t: nat): int
    requires |m| == |leaf|
  {
    Sum(leaf, Shares(m, t), |leaf|)
  }

  /** Lengths m, none above t, that a prefix code for the leaves can have. */
  ghost predicate Affordable(leaf: seq<bool>, m: seq<int>, t: nat) {
    |m| == |leaf| && (forall k :: 0 <= k < |m| ==> 0 <= m[k] <= t) && Spent(leaf, m, t) <= Pow2(t)
  }

  lemma OneLength(leaf: seq<bool>, w: seq<int>, m: seq<int>, t: nat, k: nat, v: nat)
    requires |m| == |w| == |leaf| && k < |m| && leaf[k]
    ensures Cost(leaf, w, m[k := v]) == Cost(leaf, w, m) + w[k] * v - w[k] * m[k]
    ensures Spent(leaf, m[k := v], t) == Spent(leaf, m, t) + Share(t, v) - Share(t, m[k])
  {
    hide Share;
    assert Costs(w, m[k := v]) == Costs(w, m)[k := w[k] * v];
    SumChanged(leaf, Costs(w, m), k, w[k] * v, |leaf|);
    assert Shares(m[k := v], t) == Shares(m, t)[k := Share(t, v)];
    SumChanged(leaf, Shares(m, t), k, Share(t, v), |leaf|);
  }

  // ---------- any code can be made deepest where it is cheapest ----------

  lemma SwapProduct(a: int, b: int, x: int, y: int)
    requires a >= b && x >= y
    ensures a * y + b * x <= a * x + b * y
  {
    MulMonotone(0, a - b, x - y);
    MulDistributes(a - b, x, -y);
  }

  /** The longer of two codes goes to the later, less frequent leaf. */
  lemma Swap(leaf: seq<bool>, w: seq<int>, m: seq<int>, t: nat, a: nat, b: nat) returns (m': seq<int>)
    requires Affordable(leaf, m, t) && |w| == |m| && a <= b < |m| && leaf[a] && leaf[b] && w[a] >= w[b] && m[a] >= m[b]
    ensures m' == m[a := m[b]][b := m[a]] && Affordable(leaf, m', t) && Cost(leaf, w, m') <= Cost(leaf, w, m)
  {
    hide Cost, Spent, Pow2, Share;
    var half := m[a := m[b]];
    m' := half[b := m[a]];
    OneLength(leaf, w, m, t, a, m[b]);
    OneLength(leaf, w, half, t, b, m[a]);
    if a < b { SwapProduct(w[a], w[b], m[a], m[b]); }
  }

  lemma Deepest(leaf: seq<bool>, m: seq<int>, j: nat) returns (a: nat)
    requires 0 < j <= |leaf| == |m| && leaf[j - 1]
    ensures a < j && leaf[a] && forall k :: 0 <= k < j && leaf[k] ==> m[k] <= m[a]
  {
    a := j - 1;
    var i := j - 1;
    while i > 0
      invariant i <= j - 1 && a < j && leaf[a] && forall k :: i <= k < j && leaf[k] ==> m[k] <= m[a]
    {
      i := i - 1;
      if leaf[i] && m[i] > m[a] { a := i; }
    }
  }

  ghost predicate LastDeepest(leaf: seq<bool>, m: seq<int>) {
    var n := |leaf|;
    n >= 2 && |m| == n && m[n - 1] >= m[n - 2] && forall k :: 0 <= k < n - 1 && leaf[k] ==> m[k] <= m[n - 2]
  }

  lemma Reorder(leaf: seq<bool>, w: seq<int>, m: seq<int>, t: nat) returns (m': seq<int>)
    requires Affordable(leaf, m, t) && |w| == |m| >= 2 && leaf[|m| - 1] && leaf[|m| - 2]
    requires forall i, j :: 0 <= i <= j < |w| ==> w[j] <= w[i]
    ensures Affordable(leaf, m', t) && Cost(leaf, w, m') <= Cost(leaf, w, m) && LastDeepest(leaf, m')
  {
    hide Cost, Affordable;
    AffordableRange(leaf, m, t);
    var n := |m|;
    var a := Deepest(leaf, m, n);
    var half := Swap(leaf, w, m, t, a, n - 1);
    var b := Deepest(leaf, half, n - 1);
    m' := Swap(leaf, w, half, t, b, n - 2);
  }

  lemma AffordableRange(leaf: seq<bool>, m: seq<int>, t: nat)
    requires Affordable(leaf, m, t)
    ensures |m| == |leaf| && forall k :: 0 <= k < |m| ==> 0 <= m[k] <= t
  {
  }

  /** Codes no longer than d use up a multiple of what one of length d does. */
  lemma {:induction false} WholeShares(leaf: seq<bool>, m: seq<int>, t: nat, d: nat, j: nat) returns (q: nat)
    requires j <= |leaf| == |m| && d <= t && forall k :: 0 <= k < j && leaf[k] ==> 0 <= m[k] <= d
    ensures Sum(leaf, Shares(m, t), j) == q * Pow2(t - d)
  {
    hide Pow2;
    if j == 0 {
      q := 0;
    } else {
      q := WholeShares(leaf, m, t, d, j - 1);
      if leaf[j - 1] {
        Pow2Add(d - m[j - 1], t - d);
        MulDistributes(Pow2(t - d), q, Pow2(d - m[j - 1]));
        q := q + Pow2(d - m[j - 1]);
      }
    }
  }

  /** Below a multiple of p there is room for p more. */
  lemma RoomForOne(q: nat, r: nat, p: nat, more: nat)
    requires q * p + more <= r * p && more > 0
    ensures q * p + p <= r * p
  {
    if q >= r {
      MulMonotone(r, q, p);
    } else {
      MulMonotone(q + 1, r, p);
    }
  }

  /** The last code need not be longer than the last but one. */
  lemma Shorten(leaf: seq<bool>, w: seq<int>, m: seq<int>, t: nat)
    requires Affordable(leaf, m, t) && LastDeepest(leaf, m) && |w| == |m| && leaf[|m| - 1] && w[|m| - 1] >= 0
    ensures var m' := m[|m| - 1 := m[|m| - 2]];
            Affordable(leaf, m', t) && Cost(leaf, w, m') <= Cost(leaf, w, m)
  {
    hide Cost, Pow2;
    var n, d := |m|, m[|m| - 2];
    OneLength(leaf, w, m, t, n - 1, d);
    MulMonotone(d, m[n - 1], w[n - 1]);
    var q := WholeShares(leaf, m, t, d, n - 1);
    Pow2Add(d, t - d);
    RoomForOne(q, Pow2(d), Pow2(t - d), Pow2(t - m[n - 1]));
  }

  // ---------- Huffman trees ----------

  /** Brothers are listed in pairs after the root. */
  function Mate(i: nat): nat
    requires i > 0
  {
    if i % 2 == 1 then i + 1 else i - 1
  }

  /** The node has a brother, and their parent is as frequent as both together. */
  ghost predicate Mated(par: seq<int>, w: seq<int>, i: nat)
    requires 0 < i < |par| == |w|
  {
    Mate(i) < |par| && 0 <= par[i] < |w| && par[Mate(i)] == par[i] && w[par[i]] == w[i] + w[Mate(i)]
  }

  ghost predicate Huffman(par: seq<int>, w: seq<int>) {
    && |par| == |w| && |par| % 2 == 1 && Parents(par)
    && (forall i :: 0 < i < |par| ==> Mated(par, w, i))
    && (forall k :: 0 <= k < |par| ==> Kids(par, k, |par|) == 0 || Kids(par, k, |par|) == 2)
    && (forall i, j :: 0 <= i <= j < |par| ==> 0 <= w[j] <= w[i])
  }

  ghost function LeavesOf(par: seq<int>): (leaf: seq<bool>)
    ensures |leaf| == |par| && forall k :: 0 <= k < |par| ==> leaf[k] == (Kids(par, k, |par|) == 0)
  {
    seq(|par|, k requires 0 <= k < |par| => Kids(par, k, |par|) == 0)
  }

  /** The depths of the nodes. */
  ghost predicate Depths(par: seq<int>, d: seq<int>) {
    && |d| == |par| && Parents(par) && (|d| > 0 ==> d[0] == 0)
    && forall i {:trigger d[i]} :: 0 < i < |d| ==> d[i] == d[par[i]] + 1
  }

  /** What is less frequent lies at least as deep. */
  lemma {:induction false} RarerDeeper(par: seq<int>, w: seq<int>, d: seq<int>, i: nat, j: nat)
    requires Huffman(par, w) && Depths(par, d) && i < |par| && j < |par| && w[i] < w[j]
    ensures d[i] >= d[j]
    decreases i + j
  {
    hide Kids;
    assert j < i;
    if j > 0 {
      assert Mated(par, w, i) && Mated(par, w, j);
      if par[i] != par[j] {
        MatesApart(i, j);
        assert w[Mate(i)] <= w[Mate(j)];
        RarerDeeper(par, w, d, par[i], par[j]);
      }
    } else {
      DepthNatural(par, d, i);
    }
  }

  lemma MatesApart(i: nat, j: nat)
    requires 0 < j < i && Mate(i) != j
    ensures Mate(j) < Mate(i)
  {
  }

  lemma {:induction false} DepthNatural(par: seq<int>, d: seq<int>, i: nat)
    requires Depths(par, d) && i < |par|
    ensures d[i] >= 0
  {
    if i > 0 { DepthNatural(par, d, par[i]); }
  }

  // ---------- taking the last pair off ----------

  lemma {:induction false} KidsPrefix(par: seq<int>, k: int, n: nat, j: nat)
    requires j <= n <= |par|
    ensures Kids(par[..n], k, j) == Kids(par, k, j)
  {
    if j > 1 { KidsPrefix(par, k, n, j - 1); }
  }

  /** Children come after their parents. */
  lemma {:induction false} KidsLater(par: seq<int>, k: nat, j: nat)
    requires Parents(par) && j <= |par| && j <= k + 1
    ensures Kids(par, k, j) == 0
  {
    if j > 1 { KidsLater(par, k, j - 1); }
  }

  lemma LastPair(par: seq<int>, w: seq<int>)
    requires Huffman(par, w) && |par| >= 3
    ensures var n := |par|; var p := par[n - 1];
            && par[n - 2] == p && 0 <= p < n - 2 && w[p] == w[n - 1] + w[n - 2]
            && (forall k :: 0 <= k < n - 2 ==> Kids(par, k, n) == Kids(par, k, n - 2) + if k == p then 2 else 0)
  {
    var n := |par|;
    assert Mated(par, w, n - 1) && Mate(n - 1) == n - 2;
    forall k | 0 <= k < n - 2 ensures Kids(par, k, n) == Kids(par, k, n - 2) + if k == par[n - 1] then 2 else 0 {
      assert Kids(par, k, n) == Kids(par, k, n - 1) + if par[n - 1] == k then 1 else 0;
      assert Kids(par, k, n - 1) == Kids(par, k, n - 2) + if par[n - 2] == k then 1 else 0;
    }
  }

  lemma Pruned(par: seq<int>, w: seq<int>)
    requires Huffman(par, w) && |par| >= 3
    ensures Huffman(par[..|par| - 2], w[..|par| - 2])
    ensures var n := |par|; var leaf := LeavesOf(par);
            && leaf[n - 1] && leaf[n - 2] && 0 <= par[n - 1] < n - 2 && !leaf[par[n - 1]]
            && LeavesOf(par[..n - 2]) == leaf[par[n - 1] := true][..n - 2]
  {
    hide Kids, Mated;
    var n := |par|;
    var par', w' := par[..n - 2], w[..n - 2];
    LastPair(par, w);
    KidsLater(par, n - 1, n);
    OnlyPairs(par, w);
    forall k | 0 <= k < n - 2
      ensures Kids(par', k, |par'|) == if k == par[n - 1] then 0 else Kids(par, k, n)
    {
      KidsPruned(par, w, k);
    }
    forall i | 0 < i < n - 2 ensures Mated(par', w', i) { MatedPrefix(par, w, i); }
  }

  lemma KidsPruned(par: seq<int>, w: seq<int>, k: nat)
    requires Huffman(par, w) && |par| >= 3 && k < |par| - 2
    ensures Kids(par[..|par| - 2], k, |par| - 2) == if k == par[|par| - 1] then 0 else Kids(par, k, |par|)
  {
    LastPair(par, w);
    KidsPrefix(par, k, |par| - 2, |par| - 2);
    assert Kids(par, k, |par|) == 0 || Kids(par, k, |par|) == 2;
  }

  /** The last node but one has no child either: it would have to be the last, its brother. */
  lemma OnlyPairs(par: seq<int>, w: seq<int>)
    requires Huffman(par, w) && |par| >= 3
    ensures Kids(par, |par| - 2, |par|) == 0
  {
    var n := |par|;
    LastPair(par, w);
    KidsLater(par, n - 2, n - 1);
  }

  lemma MatedPrefix(par: seq<int>, w: seq<int>, i: nat)
    requires Huffman(par, w) && 0 < i < |par| - 2
    ensures Mated(par[..|par| - 2], w[..|par| - 2], i)
  {
    hide Kids;
    assert Mated(par, w, i);
  }

  /** With equal lengths for the last pair: their parent can have one bit less instead. */
  lemma JoinedCost(leaf: seq<bool>, w: seq<int>, m: seq<int>, t: nat, p: nat)
    requires |leaf| == |w| == |m| >= 3 && p < |m| - 2 && leaf[|m| - 1] && leaf[|m| - 2] && !leaf[p]
    requires w[p] == w[|m| - 1] + w[|m| - 2] && m[|m| - 1] == m[|m| - 2] && 0 < m[|m| - 1] <= t
    ensures var n := |m|; var leaf', w', m' := leaf[p := true][..n - 2], w[..n - 2], m[p := m[n - 1] - 1][..n - 2];
            && Cost(leaf, w, m) == Cost(leaf', w', m') + w[p]
            && Spent(leaf, m, t) == Spent(leaf', m', t)
  {
    hide Pow2;
    var n, d := |m|, m[|m| - 1];
    var leaf', w', m' := leaf[p := true][..n - 2], w[..n - 2], m[p := d - 1][..n - 2];
    JoinedSum(leaf, Costs(w, m), p, w[p] * (d - 1), leaf', Costs(w', m'));
    MulDistributes(d, w[n - 1], w[n - 2]);
    MulDistributes(w[p], d, -1);
    JoinedSum(leaf, Shares(m, t), p, Share(t, d - 1), leaf', Shares(m', t));
    ShareSplit(t, d);
  }

  lemma ShareSplit(t: nat, d: nat)
    requires 0 < d <= t
    ensures Share(t, d - 1) == 2 * Share(t, d)
  {
  }

  lemma JoinedSum(leaf: seq<bool>, f: seq<int>, p: nat, v: int, leaf': seq<bool>, f': seq<int>)
    requires |leaf| == |f| >= 3 && p < |f| - 2 && leaf[|f| - 1] && leaf[|f| - 2] && !leaf[p]
    requires leaf' == leaf[p := true][..|f| - 2] && f' == f[p := v][..|f| - 2]
    ensures Sum(leaf, f, |f|) == Sum(leaf', f', |f'|) - v + f[|f| - 1] + f[|f| - 2]
  {
    var n := |f|;
    assert Sum(leaf, f, n) == Sum(leaf, f, n - 1) + f[n - 1] == Sum(leaf, f, n - 2) + f[n - 2] + f[n - 1];
    SumChanged(leaf, f, p, v, n - 2);
    SumMarked(leaf, f[p := v], p, n - 2);
    SumSame(leaf[p := true], f[p := v], leaf', f', n - 2);
  }

  // ---------- optimality ----------

  /** Two leaves cannot both have the empty code. */
  lemma NotEmpty(leaf: seq<bool>, m: seq<int>, t: nat)
    requires Affordable(leaf, m, t) && |m| >= 2 && leaf[|m| - 1] && leaf[|m| - 2] && m[|m| - 1] == m[|m| - 2]
    ensures m[|m| - 1] > 0
  {
    hide Pow2;
    var n := |m|;
    var f := Shares(m, t);
    assert Sum(leaf, f, n) == Sum(leaf, f, n - 2) + f[n - 2] + f[n - 1];
    SumNatural(leaf, f, n - 2);
  }

  lemma {:induction false} SumNatural(leaf: seq<bool>, f: seq<int>, j: nat)
    requires j <= |leaf| && j <= |f| && forall k :: 0 <= k < |f| ==> 0 <= f[k]
    ensures Sum(leaf, f, j) >= 0
  {
    if j > 0 { SumNatural(leaf, f, j - 1); }
  }

  /** No prefix code for the leaves costs less than their depths in the tree. */
  lemma {:induction false} Cheapest(par: seq<int>, w: seq<int>, d: seq<int>, m: seq<int>, t: nat)
    requires Huffman(par, w) && Depths(par, d) && Affordable(LeavesOf(par), m, t)
    ensures Cost(LeavesOf(par), w, d) <= Cost(LeavesOf(par), w, m)
    decreases |par|
  {
    hide Huffman, Depths, Affordable, Cost;
    HuffmanShape(par, w);
    AffordableRange(LeavesOf(par), m, t);
    if |par| == 1 {
      OneNode(par, w, d, m);
    } else {
      CheapestStep(par, w, d, m, t);
    }
  }

  lemma HuffmanShape(par: seq<int>, w: seq<int>)
    requires Huffman(par, w)
    ensures |par| == |w| && |par| % 2 == 1 && (forall i, j :: 0 <= i <= j < |w| ==> w[j] <= w[i]) && w[|w| - 1] >= 0
  {
  }

  lemma OneNode(par: seq<int>, w: seq<int>, d: seq<int>, m: seq<int>)
    requires Huffman(par, w) && Depths(par, d) && |par| == 1 == |m| && m[0] >= 0
    ensures Cost(LeavesOf(par), w, d) <= Cost(LeavesOf(par), w, m)
  {
    var leaf := LeavesOf(par);
    MulMonotone(0, m[0], w[0]);
    assert Sum(leaf, Costs(w, d), 0) == 0 && Sum(leaf, Costs(w, m), 0) == 0;
  }

  lemma {:induction false} CheapestStep(par: seq<int>, w: seq<int>, d: seq<int>, m: seq<int>, t: nat)
    requires Huffman(par, w) && Depths(par, d) && Affordable(LeavesOf(par), m, t) && |par| >= 3
    ensures Cost(LeavesOf(par), w, d) <= Cost(LeavesOf(par), w, m)
    decreases |par|, 0
  {
    hide Huffman, Depths, Affordable, Cost;
    var n, leaf, p := |par|, LeavesOf(par), par[|par| - 1];
    HuffmanShape(par, w);
    Pruned(par, w);
    LastPair(par, w);
    AffordableRange(leaf, m, t);
    var m1 := Reorder(leaf, w, m, t);
    AffordableRange(leaf, m1, t);
    Shorten(leaf, w, m1, t);
    var m2 := m1[n - 1 := m1[n - 2]];
    NotEmpty(leaf, m2, t);
    JoinedCost(leaf, w, m2, t, p);
    var m3 := m2[p := m2[n - 1] - 1][..n - 2];
    DepthsPruned(par, d);
    var d3 := d[..n - 2];
    assert d3 == d[p := d[n - 1] - 1][..n - 2];
    JoinedCost(leaf, w, d, d[n - 1], p);
    StillAffordable(leaf, m2, t, leaf[p := true][..n - 2], m3);
    Cheapest(par[..n - 2], w[..n - 2], d3, m3, t);
  }

  lemma DepthsPruned(par: seq<int>, d: seq<int>)
    requires Depths(par, d) && |par| >= 3 && par[|par| - 1] == par[|par| - 2]
    ensures Depths(par[..|par| - 2], d[..|par| - 2])
    ensures |d| == |par| && d[|d| - 1] == d[|d| - 2] == d[par[|par| - 1]] + 1 > 0
  {
    DepthNatural(par, d, par[|par| - 1]);
  }

  lemma StillAffordable(leaf: seq<bool>, m: seq<int>, t: nat, leaf': seq<bool>, m': seq<int>)
    requires Affordable(leaf, m, t) && |leaf'| == |m'| <= |m| && Spent(leaf', m', t) == Spent(leaf, m, t)
    requires forall k :: 0 <= k < |m'| ==> 0 <= m'[k] <= t
    ensures Affordable(leaf', m', t)
  {
  }
}
