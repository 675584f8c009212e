/** BZ2_hbMakeCodeLengths: Huffman code lengths limited by rescaling the frequencies and
    building again whenever a code comes out too long. */
module CodeLengths {
  import opened Common
  import opened CanonicalCode
  import opened Forest
  import opened WeightHeap
  import opened TreeDepth
  import opened JoinOrder
  import TreeCost

  const MAX_ALPHA := 258
  /** Weights carry a depth in their low eight bits, so sums must stay below 2^23. */
  const WEIGHT_CAP := 0x80_0000

  /** ADDWEIGHTS: the weights add, and above them both sits one more than the greater depth.
      The source or-s the depth in, which is addition as long as it fits eight bits. */
  function AddWeights(a: int, b: int): int
    requires 1 + Max(a % 256, b % 256) < 256
  {
    (a - a % 256) + (b - b % 256) + (1 + Max(a % 256, b % 256))
  }

  ghost predicate Summable(a: int, b: int) { 1 + Max(a % 256, b % 256) < 256 }

  // ---------- what holds while the tree is being built ----------

  /** The roots of a forest. */
  ghost function Roots(p: seq<int>, k: nat): multiset<int>
    requires k < |p|
  {
    if k == 0 then multiset{} else Roots(p, k - 1) + if p[k] == -1 then multiset{k} else multiset{}
  }

  lemma {:induction false} RootsAre(p: seq<int>, k: nat, x: int)
    requires k < |p|
    ensures Roots(p, k)[x] == if 1 <= x <= k && p[x] == -1 then 1 else 0
  {
    if k > 0 { RootsAre(p, k - 1, x); }
  }

  lemma MergeRoots(p: seq<int>, a: int, b: int)
    requires Mergeable(p, a, b)
    ensures Roots(Merge(p, a, b), |p|) == Roots(p, |p| - 1) - multiset{a} - multiset{b} + multiset{|p|}
  {
    hide Roots;
    var q := Merge(p, a, b);
    var before, after := Roots(p, |p| - 1), Roots(q, |p|);
    forall x ensures after[x] == (before - multiset{a} - multiset{b} + multiset{|p|})[x] {
      RootsAre(q, |p|, x);
      RootsAre(p, |p| - 1, x);
    }
  }

  /** Node x weighs wt[x] and has a leaf depth[x] below it; leaves are nodes 1 to n with
      weights w, and every tree is a full binary tree over its leaves. */
  ghost predicate Building(p: seq<int>, wt: seq<int>, depth: seq<int>, w: seq<int>, n: nat) {
    && IsForest(p) && 2 <= n < |p| <= 2 * n && |wt| == |p| && |depth| == |p| && |w| == n + 1
    && (forall i :: 1 <= i <= n ==> 0 < w[i])
    && (forall x :: 1 <= x < |p| ==> 0 < wt[x])
    && Graded(p, wt) && RootsHeaviest(p, wt) && Fair(p, wt) && wt[..n + 1] == w
    && (forall r :: 1 <= r < |p| && p[r] == -1 ==> RootOk(p, w, n, r, wt[r], depth[r]))
    && (forall i :: 1 <= i <= n ==> Depth(p, i) <= |p| - 1 - n)
  }

  /** What is known of the tree of root r. */
  ghost predicate RootOk(p: seq<int>, w: seq<int>, n: nat, r: int, weight: int, d: int)
    requires IsForest(p) && n < |p| && n < |w|
  {
    weight == WeightOf(p, w, r, n) && KraftOf(p, n, r, n) == Pow2(n) && Deepest(p, n, r, d)
  }

  /** The deepest leaf lies d below root r. */
  ghost predicate Deepest(p: seq<int>, n: nat, r: int, d: int)
    requires IsForest(p) && n < |p|
  {
    && (exists i :: 1 <= i <= n && Root(p, i) == r && Depth(p, i) == d)
    && forall i :: 1 <= i <= n && Root(p, i) == r ==> Depth(p, i) <= d
  }

  /** The leaves alone. */
  lemma BuildingStart(w: seq<int>, n: nat)
    requires 2 <= n && |w| == n + 1 && forall i :: 1 <= i <= n ==> 0 < w[i]
    ensures Building(seq(n + 1, _ => -1), w, seq(n + 1, _ => 0), w, n)
  {
    var p, depth := seq(n + 1, _ => -1), seq(n + 1, _ => 0);
    forall r | 1 <= r < |p| ensures RootOk(p, w, n, r, w[r], 0) {
      LoneLeaf(p, w, n, r, n);
      assert Root(p, r) == r && Depth(p, r) == 0;
    }
  }

  lemma {:induction false} LoneLeaf(p: seq<int>, w: seq<int>, l: nat, r: int, k: nat)
    requires IsForest(p) && (forall x :: 1 <= x < |p| ==> p[x] == -1) && k < |p| == |w| && 1 <= r
    ensures WeightOf(p, w, r, k) == (if r <= k then w[r] else 0) &&
            KraftOf(p, l, r, k) == (if r <= k then Pow2(l) else 0)
  {
    if k > 0 { LoneLeaf(p, w, l, r, k - 1); }
  }

  /** The depth below any root stays small, because weight doubles every two levels and no
      root outweighs all leaves together. */
  lemma DepthSmall(p: seq<int>, wt: seq<int>, depth: seq<int>, w: seq<int>, n: nat, r: int)
    requires Building(p, wt, depth, w, n) && Total(w, n) < WEIGHT_CAP && 1 <= r < |p| && p[r] == -1
    ensures 0 <= depth[r] < 46 && wt[r] <= Total(w, n)
  {
    var i :| 1 <= i <= n && Root(p, i) == r && Depth(p, i) == depth[r];
    GradedDepth(p, wt, i);
    WeightAtMostTotal(p, w, r, n);
    var h := Pow2(depth[r] / 2);
    MulMonotone(2, wt[i] + 1, h);
    if depth[r] >= 46 {
      Pow2Monotone(23, depth[r] / 2);
      Pow2At23();
    }
  }

  lemma Pow2At23()
    ensures Pow2(23) == WEIGHT_CAP
  {
    assert Pow2(10) == 1024;
    assert Pow2(20) == 0x10_0000;
  }

  /** Joining the two lightest roots keeps the order of weights along the trees. */
  lemma MergeOrdered(p: seq<int>, wt: seq<int>, a: int, b: int)
    requires Mergeable(p, a, b) && |wt| == |p| && Graded(p, wt) && RootsHeaviest(p, wt) && Fair(p, wt) &&
             0 < wt[a] <= wt[b]
    requires forall r :: 1 <= r < |p| && p[r] == -1 && r != a ==> wt[b] <= wt[r]
    ensures var q, wt' := Merge(p, a, b), wt + [wt[a] + wt[b]];
            IsForest(q) && Graded(q, wt') && RootsHeaviest(q, wt') && Fair(q, wt')
  {
    hide Graded, RootsHeaviest, Fair, Merge;
    var wt' := wt + [wt[a] + wt[b]];
    GradedWiden(p, wt, wt');
    MergeGraded(p, a, b, wt');
    MergeFair(p, a, b, wt');
  }

  /** ... and makes one tree of two. */
  lemma MergeRootsOk(p: seq<int>, wt: seq<int>, depth: seq<int>, w: seq<int>, n: nat, a: int, b: int)
    requires Mergeable(p, a, b) && IsForest(Merge(p, a, b)) && 0 < n < |p| == |wt| == |depth| && n < |w|
    requires forall i :: 1 <= i <= n ==> Depth(p, i) < n
    requires forall r :: 1 <= r < |p| && p[r] == -1 ==> RootOk(p, w, n, r, wt[r], depth[r])
    ensures var q, wt', depth' := Merge(p, a, b), wt + [wt[a] + wt[b]], depth + [1 + Max(depth[a], depth[b])];
            |q| == |p| + 1 && forall r :: 1 <= r < |q| && q[r] == -1 ==> RootOk(q, w, n, r, wt'[r], depth'[r])
  {
    hide RootOk, Depth;
    var q, wt', depth' := Merge(p, a, b), wt + [wt[a] + wt[b]], depth + [1 + Max(depth[a], depth[b])];
    forall r | 1 <= r < |q| && q[r] == -1 ensures RootOk(q, w, n, r, wt'[r], depth'[r]) {
      if r == |p| {
        RootOkMerged(p, a, b, w, n, wt[a], wt[b], depth[a], depth[b]);
      } else {
        RootOkOther(p, a, b, w, n, r, wt[r], depth[r]);
      }
    }
  }

  /** Joining the two lightest roots. */
  lemma BuildingMerge(p: seq<int>, wt: seq<int>, depth: seq<int>, w: seq<int>, n: nat, a: int, b: int)
    requires Building(p, wt, depth, w, n) && Mergeable(p, a, b) && |p| < 2 * n
    requires wt[a] <= wt[b] && forall r :: 1 <= r < |p| && p[r] == -1 && r != a ==> wt[b] <= wt[r]
    ensures Building(Merge(p, a, b), wt + [wt[a] + wt[b]], depth + [1 + Max(depth[a], depth[b])], w, n)
  {
    hide Graded, RootsHeaviest, Fair, RootOk, Depth, IsForest;
    var q := Merge(p, a, b);
    MergeOrdered(p, wt, a, b);
    MergeRootsOk(p, wt, depth, w, n, a, b);
    forall i | 1 <= i <= n ensures Depth(q, i) <= |q| - 1 - n { MergeAt(p, a, b, i); }
  }

  lemma RootOkMerged(p: seq<int>, a: int, b: int, w: seq<int>, n: nat, wa: int, wb: int, da: int, db: int)
    requires Mergeable(p, a, b) && IsForest(Merge(p, a, b)) && n < |p| && n < |w| && n > 0
    requires RootOk(p, w, n, a, wa, da) && RootOk(p, w, n, b, wb, db) && forall i :: 1 <= i <= n ==> Depth(p, i) < n
    ensures RootOk(Merge(p, a, b), w, n, |p|, wa + wb, 1 + Max(da, db))
  {
    hide KraftOf, WeightOf, Deepest, Merge;
    MergeWeight(p, a, b, w, n);
    MergeKraft(p, a, b, n, n);
    DeepestMerged(p, a, b, n, da, db);
  }

  lemma RootOkOther(p: seq<int>, a: int, b: int, w: seq<int>, n: nat, r: int, wr: int, d: int)
    requires Mergeable(p, a, b) && IsForest(Merge(p, a, b)) && n < |p| && n < |w|
    requires RootOk(p, w, n, r, wr, d) && r != a && r != b && r != |p|
    ensures RootOk(Merge(p, a, b), w, n, r, wr, d)
  {
    hide KraftOf, WeightOf, Deepest, Merge;
    MergeWeightOther(p, a, b, w, r, n);
    MergeKraftOther(p, a, b, n, r, n);
    DeepestOther(p, a, b, n, r, d);
  }

  lemma GradedWiden(p: seq<int>, wt: seq<int>, wt': seq<int>)
    requires IsForest(p) && Graded(p, wt) && RootsHeaviest(p, wt) && Fair(p, wt) && |wt| == |p| && wt <= wt'
    ensures Graded(p, wt') && RootsHeaviest(p, wt') && Fair(p, wt')
  {
    assert forall x :: 0 <= x < |p| ==> wt'[x] == wt[x];
  }

  lemma DeepestMerged(p: seq<int>, a: int, b: int, n: nat, da: int, db: int)
    requires Mergeable(p, a, b) && IsForest(Merge(p, a, b)) && n < |p| && Deepest(p, n, a, da) && Deepest(p, n, b, db)
    ensures Deepest(Merge(p, a, b), n, |p|, 1 + Max(da, db))
  {
    var r, d := if da > db then a else b, Max(da, db);
    var i :| 1 <= i <= n && Root(p, i) == r && Depth(p, i) == d;
    forall k | 1 <= k <= n ensures Root(Merge(p, a, b), k) == |p| ==> Depth(Merge(p, a, b), k) <= 1 + d {
      MergeAt(p, a, b, k);
    }
    MergeAt(p, a, b, i);
  }

  lemma DeepestOther(p: seq<int>, a: int, b: int, n: nat, r: int, d: int)
    requires Mergeable(p, a, b) && IsForest(Merge(p, a, b)) && n < |p| && Deepest(p, n, r, d) && r != a && r != b
    ensures Deepest(Merge(p, a, b), n, r, d)
  {
    var i :| 1 <= i <= n && Root(p, i) == r && Depth(p, i) == d;
    forall k | 1 <= k <= n ensures Root(Merge(p, a, b), k) == r ==> Depth(Merge(p, a, b), k) <= d {
      MergeAt(p, a, b, k);
    }
    MergeAt(p, a, b, i);
  }

  // ---------- what the finished tree gives ----------

  /** One root is left. */
  ghost predicate Finished(p: seq<int>, wt: seq<int>, depth: seq<int>, w: seq<int>, n: nat) {
    Building(p, wt, depth, w, n) && forall r :: 1 <= r < |p| && p[r] == -1 ==> r == |p| - 1
  }

  lemma AllUnderRoot(p: seq<int>, wt: seq<int>, depth: seq<int>, w: seq<int>, n: nat, i: int)
    requires Finished(p, wt, depth, w, n) && 1 <= i <= n
    ensures Root(p, i) == |p| - 1
  {
  }

  lemma {:induction false} WeightOfAll(p: seq<int>, w: seq<int>, r: int, k: nat)
    requires IsForest(p) && k < |p| && k < |w| && forall i :: 1 <= i <= k ==> Root(p, i) == r
    ensures WeightOf(p, w, r, k) == Total(w, k)
  {
    if k > 0 { WeightOfAll(p, w, r, k - 1); }
  }

  /** A code of length d needs a total weight exponential in d / 2. */
  lemma LengthBound(p: seq<int>, wt: seq<int>, depth: seq<int>, w: seq<int>, n: nat, i: int)
    requires Finished(p, wt, depth, w, n) && 1 <= i <= n
    ensures 2 * Pow2(Depth(p, i) / 2) <= Total(w, n) + 1
  {
    GradedDepth(p, wt, i);
    MulMonotone(2, wt[i] + 1, Pow2(Depth(p, i) / 2));
    var r := |p| - 1;
    assert p[r] == -1 by { assert Root(p, i) == r; }
    forall j | 1 <= j <= n ensures Root(p, j) == r { AllUnderRoot(p, wt, depth, w, n, j); }
    WeightOfAll(p, w, r, n);
  }

  /** The lengths of all codes satisfy the Kraft equality. */
  lemma LengthsKraft(p: seq<int>, wt: seq<int>, depth: seq<int>, w: seq<int>, n: nat, lens: seq<Byte>, maxLen: nat)
    requires Finished(p, wt, depth, w, n) && |lens| == n
    requires forall j {:trigger lens[j]} :: 0 <= j < n ==> lens[j] == Depth(p, j + 1) && 1 <= lens[j] <= maxLen
    ensures KraftSum(lens, maxLen, n) == Pow2(maxLen)
  {
    var r := |p| - 1;
    assert p[r] == -1 && KraftOf(p, n, r, n) == Pow2(n) by { assert Root(p, 1) == r; }
    forall j | 1 <= j <= n ensures Root(p, j) == r && Depth(p, j) <= n { AllUnderRoot(p, wt, depth, w, n, j); }
    KraftFromTree(p, n, lens, maxLen, r);
  }

  lemma KraftFromTree(p: seq<int>, n: nat, lens: seq<Byte>, maxLen: nat, r: int)
    requires IsForest(p) && n < |p| && |lens| == n && KraftOf(p, n, r, n) == Pow2(n)
    requires forall i :: 1 <= i <= n ==> Root(p, i) == r && Depth(p, i) <= n
    requires forall j {:trigger lens[j]} :: 0 <= j < n ==> lens[j] == Depth(p, j + 1) && 1 <= lens[j] <= maxLen
    ensures KraftSum(lens, maxLen, n) == Pow2(maxLen)
  {
    hide KraftOf, KraftSum;
    if maxLen <= n {
      KraftScaled(p, lens, r, n, maxLen, n, n);
      Pow2Add(n - maxLen, maxLen);
      MulCancel(Pow2(n - maxLen), KraftSum(lens, maxLen, n), Pow2(maxLen));
    } else {
      KraftScaledUp(p, lens, r, n, maxLen, n, n);
      Pow2Add(maxLen - n, n);
    }
  }

  lemma MulCancel(a: int, x: int, y: int)
    requires a > 0 && a * x == a * y
    ensures x == y
  {
    if x < y { MulStrict(x, y, a); } else if y < x { MulStrict(y, x, a); }
  }

  lemma {:induction false} KraftScaled(p: seq<int>, lens: seq<Byte>, r: int, l: nat, maxLen: nat, n: nat, k: nat)
    requires IsForest(p) && k <= n < |p| && |lens| == n && maxLen <= l
    requires (forall i :: 1 <= i <= n ==> Root(p, i) == r)
    requires forall j {:trigger lens[j]} :: 0 <= j < n ==> lens[j] == Depth(p, j + 1) && 1 <= lens[j] <= maxLen
    ensures KraftOf(p, l, r, k) == Pow2(l - maxLen) * KraftSum(lens, maxLen, k)
  {
    hide Pow2, Root;
    if k > 0 {
      KraftScaled(p, lens, r, l, maxLen, n, k - 1);
      var d := Depth(p, k);
      assert lens[k - 1] == d;
      Pow2Add(l - maxLen, maxLen - d);
      MulDistributes(Pow2(l - maxLen), KraftSum(lens, maxLen, k - 1), Pow2(maxLen - d));
    }
  }

  lemma {:induction false} KraftScaledUp(p: seq<int>, lens: seq<Byte>, r: int, l: nat, maxLen: nat, n: nat, k: nat)
    requires IsForest(p) && k <= n < |p| && |lens| == n && l <= maxLen
    requires (forall i :: 1 <= i <= n ==> Root(p, i) == r)
    requires forall j {:trigger lens[j]} :: 0 <= j < n ==> lens[j] == Depth(p, j + 1) && 1 <= lens[j] <= l
    ensures Pow2(maxLen - l) * KraftOf(p, l, r, k) == KraftSum(lens, maxLen, k)
  {
    hide Pow2, Root;
    if k > 0 {
      KraftScaledUp(p, lens, r, l, maxLen, n, k - 1);
      var d := Depth(p, k);
      assert lens[k - 1] == d;
      Pow2Add(maxLen - l, l - d);
      MulDistributes(Pow2(maxLen - l), KraftOf(p, l, r, k - 1), Pow2(l - d));
    }
  }

  // ---------- the construction ----------

  /** Weights and depths small enough to share a 31-bit number. */
  ghost predicate Bounded(wt: seq<int>, depth: seq<int>) {
    && |wt| == |depth| > 0
    && forall x :: 1 <= x < |wt| ==> 0 <= depth[x] < 46 && 0 < wt[x] < WEIGHT_CAP
  }

  /** The array weight: a node's weight and depth packed into one number; entry 0 is zero. */
  ghost function PackOf(wt: seq<int>, depth: seq<int>): (weights: seq<int>)
    requires |wt| == |depth|
    ensures |weights| == |wt|
  {
    seq(|wt|, x requires 0 <= x < |wt| => if x == 0 then 0 else wt[x] * 256 + depth[x])
  }

  lemma PackedWeights(wt: seq<int>, depth: seq<int>)
    requires Bounded(wt, depth)
    ensures PackOf(wt, depth)[0] == 0 && forall x :: 0 <= x < |wt| ==> 0 <= PackOf(wt, depth)[x] < 0x8000_0000
    ensures forall x, y :: 1 <= x < |wt| && 1 <= y < |wt| && PackOf(wt, depth)[x] <= PackOf(wt, depth)[y] ==>
              wt[x] <= wt[y]
  {
  }

  /** The heap holds exactly the roots. */
  ghost predicate HeapOfRoots(heap: seq<int>, weights: seq<int>, nHeap: int, p: seq<int>) {
    && IsHeap(heap, weights, nHeap) && heap[0] == 0 && |p| > 0
    && Content(heap, nHeap) == Roots(p, |p| - 1)
  }

  /** Takes the lightest node out of the heap. */
  method PopMin(heap: array<int>, weights: seq<int>, nHeap0: int) returns (n1: int, nHeap: int)
    requires 1 <= nHeap0 < heap.Length && IsHeap(heap[..], weights, nHeap0)
    modifies heap
    ensures nHeap == nHeap0 - 1 && IsHeap(heap[..], weights, nHeap) && heap[0] == old(heap[0])
    ensures 0 <= n1 < |weights| && n1 in old(Content(heap[..], nHeap0))
    ensures Content(heap[..], nHeap) == old(Content(heap[..], nHeap0)) - multiset{n1}
    ensures forall x :: x in old(Content(heap[..], nHeap0)) ==> 0 <= x < |weights| && weights[n1] <= weights[x]
  {
    hide Content;
    ghost var f := heap[..];
    LightestFirst(f, weights, nHeap0);
    n1 := heap[1];
    heap[1] := heap[nHeap0];
    nHeap := nHeap0 - 1;
    RemoveFirst(f, heap[..], nHeap0);
    DownHeap(heap, weights, nHeap);
  }

  lemma LightestFirst(f: seq<int>, weights: seq<int>, n: int)
    requires 1 <= n && IsHeap(f, weights, n)
    ensures f[1] in Content(f, n) && forall x :: x in Content(f, n) ==>
              0 <= x < |weights| && weights[f[1]] <= weights[x]
  {
    ContentHas(f, n, f[1]);
    forall x | x in Content(f, n) ensures 0 <= x < |weights| && weights[f[1]] <= weights[x] {
      ContentHas(f, n, x);
      var j :| 1 <= j <= n && f[j] == x;
      HeapMin(f, weights, n, j);
    }
  }

  lemma RemoveFirst(f: seq<int>, g: seq<int>, n: int)
    requires 1 <= n < |f| && g == f[1 := f[n]]
    ensures Content(g, n - 1) == Content(f, n) - multiset{f[1]}
  {
    if n == 1 {
      assert g[1..1] == [];
      assert f[1..2] == [f[1]];
    } else {
      assert f[1..n + 1] == [f[1]] + f[2..n] + [f[n]];
      assert g[1..n] == [f[n]] + f[2..n];
    }
  }

  /** Puts a node into the heap. */
  method Push(heap: array<int>, weights: seq<int>, nHeap0: int, x: int) returns (nHeap: int)
    requires 0 <= nHeap0 && nHeap0 + 1 < heap.Length && IsHeap(heap[..], weights, nHeap0) && 0 <= x < |weights|
    requires heap[0] == 0 && weights[0] == 0 && forall k :: 0 <= k < |weights| ==> 0 <= weights[k]
    modifies heap
    ensures nHeap == nHeap0 + 1 && IsHeap(heap[..], weights, nHeap) && heap[0] == 0
    ensures Content(heap[..], nHeap) == old(Content(heap[..], nHeap0)) + multiset{x}
  {
    hide Content;
    ghost var f := heap[..];
    nHeap := nHeap0 + 1;
    heap[nHeap] := x;
    AppendLast(f, heap[..], nHeap0, x);
    UpHeap(heap, weights, nHeap, nHeap);
  }

  lemma AppendLast(f: seq<int>, g: seq<int>, n: int, x: int)
    requires 0 <= n && n + 1 < |f| && g == f[n + 1 := x]
    ensures Content(g, n + 1) == Content(f, n) + multiset{x}
  {
    assert g[1..n + 2] == f[1..n + 1] + [x];
  }

  /** A heap stays one when weights not in it are added at the end. */
  lemma HeapWiden(f: seq<int>, weights: seq<int>, weights': seq<int>, n: int)
    requires IsHeap(f, weights, n) && weights <= weights'
    ensures IsHeap(f, weights', n)
  {
  }

  /** Puts all leaves into the heap. */
  method FillHeap(heap: array<int>, parent: array<int>, weight: array<int>, n: int, ghost w: seq<int>)
    requires 2 <= n <= MAX_ALPHA && heap.Length == MAX_ALPHA + 2 && parent.Length == weight.Length == 2 * MAX_ALPHA
    requires heap != parent && heap != weight && parent != weight
    requires |w| == n + 1 && Bounded(w, seq(n + 1, _ => 0)) && weight[..n + 1] == PackOf(w, seq(n + 1, _ => 0))
    modifies heap, parent
    ensures parent[1..n + 1] == seq(n, _ => -1)
    ensures HeapOfRoots(heap[..], PackOf(w, seq(n + 1, _ => 0)), n, seq(n + 1, _ => -1))
  {
    hide Content, IsHeap;
    PackedWeights(w, seq(n + 1, _ => 0));
    var weights := weight[..n + 1];
    heap[0] := 0;
    parent[0] := -2;
    var nHeap := 0;
    ghost var p := seq(n + 1, _ => -1);
    EmptyHeap(heap[..], weights);
    for i := 1 to n + 1
      invariant nHeap == i - 1 && heap[0] == 0
      invariant forall x :: 1 <= x < i ==> parent[x] == -1
      invariant IsHeap(heap[..], weights, nHeap) && Content(heap[..], nHeap) == Roots(p, i - 1)
    {
      parent[i] := -1;
      nHeap := Push(heap, weights, nHeap, i);
    }
  }

  lemma EmptyHeap(f: seq<int>, weights: seq<int>)
    requires |f| > 0 && |weights| > 0 && f[0] == 0
    ensures IsHeap(f, weights, 0) && Content(f, 0) == multiset{}
  {
  }

  // ---------- merging ----------

  /** What the two nodes taken from the heap are. */
  lemma LightestPair(p: seq<int>, wt: seq<int>, weights: seq<int>, roots: multiset<int>, n1: int, n2: int)
    requires IsForest(p) && |wt| == |weights| == |p| && roots == Roots(p, |p| - 1)
    requires forall x, y :: 1 <= x < |wt| && 1 <= y < |wt| && weights[x] <= weights[y] ==> wt[x] <= wt[y]
    requires n1 in roots && n2 in roots - multiset{n1} && 0 <= n1 < |p| && 0 <= n2 < |p|
    requires forall x :: x in roots ==> 0 <= x < |p| && weights[n1] <= weights[x]
    requires forall x :: x in roots - multiset{n1} ==> 0 <= x < |p| && weights[n2] <= weights[x]
    ensures Mergeable(p, n1, n2) && wt[n1] <= wt[n2]
    ensures forall r :: 1 <= r < |p| && p[r] == -1 && r != n1 ==> wt[n2] <= wt[r]
    ensures forall r :: 1 <= r < |p| && p[r] == -1 ==>
              weights[n1] <= weights[r] && (r != n1 ==> weights[n2] <= weights[r])
  {
    hide Roots;
    RootsAre(p, |p| - 1, n1);
    RootsAre(p, |p| - 1, n2);
    forall r | 1 <= r < |p| && p[r] == -1
      ensures weights[n1] <= weights[r] && (r != n1 ==> weights[n2] <= weights[r] && wt[n2] <= wt[r])
    {
      RootsAre(p, |p| - 1, r);
      assert r != n1 ==> r in roots - multiset{n1};
    }
  }

  /** How the forest came about: node by node, towards a root that the leaf weights alone
      determine. */
  ghost predicate Faithful(p: seq<int>, wt: seq<int>, depth: seq<int>, w: seq<int>, n: nat, pairs: seq<Pair>) {
    && JoinedBy(p, wt, pairs, n) && |depth| == |p| > 1 && |w| == n + 1 > 1
    && Bag(p, PackOf(wt, depth), |p| - 1) != multiset{} && LeafBag(w, n) != multiset{}
    && Settle(Bag(p, PackOf(wt, depth), |p| - 1)) == Settle(LeafBag(w, n))
  }

  lemma FaithfulStart(w: seq<int>, n: nat)
    requires 2 <= n && |w| == n + 1
    ensures Faithful(seq(n + 1, _ => -1), w, seq(n + 1, _ => 0), w, n, [])
  {
    hide Settle;
    var p, depth := seq(n + 1, _ => -1), seq(n + 1, _ => 0);
    JoinNone(p, w, n);
    BagOfLeaves(w, p, PackOf(w, depth), n);
    LeafSome(w);
  }

  lemma FaithfulStep(p: seq<int>, wt: seq<int>, depth: seq<int>, w: seq<int>, n: nat, pairs: seq<Pair>, a: int, b: int)
    requires Faithful(p, wt, depth, w, n, pairs) && Mergeable(p, a, b) && IsForest(Merge(p, a, b))
    requires RootsHeaviest(p, wt) && wt[a] <= wt[b] && Bounded(wt, depth)
    requires forall r :: 1 <= r < |p| && p[r] == -1 ==>
               var f := PackOf(wt, depth); f[a] <= f[r] && (r != a ==> f[b] <= f[r])
    ensures Faithful(Merge(p, a, b), wt + [wt[a] + wt[b]], depth + [1 + Max(depth[a], depth[b])], w, n,
                     pairs + [Pair(a, b)])
  {
    hide Settle, JoinedBy, RootsHeaviest, IsForest, PackOf, Bag, Join, LeafBag;
    var f := PackOf(wt, depth);
    JoinMore(p, wt, pairs, n, a, b);
    SettleStep(p, f, a, b);
    PackAppend(wt, depth, wt[a] + wt[b], 1 + Max(depth[a], depth[b]));
    JoinPacked(wt[a], depth[a], wt[b], depth[b]);
  }

  lemma JoinPacked(a: int, da: int, b: int, db: int)
    requires 0 <= da < 46 && 0 <= db < 46
    ensures Join(a * 256 + da, b * 256 + db) == (a + b) * 256 + (1 + Max(da, db))
  {
  }

  /** With one node left in the heap there is one root. */
  lemma OneRoot(heap: seq<int>, p: seq<int>)
    requires IsForest(p) && |p| > 1 && |heap| > 1 && Content(heap, 1) == Roots(p, |p| - 1)
    ensures forall r :: 1 <= r < |p| && p[r] == -1 ==> r == |p| - 1
  {
    hide Roots;
    assert heap[1..2] == [heap[1]];
    RootsAre(p, |p| - 1, |p| - 1);
    forall r | 1 <= r < |p| && p[r] == -1 ensures r == |p| - 1 { RootsAre(p, |p| - 1, r); }
  }

  /** Adding packed weights gives the packed weight of the new node. */
  lemma PackedSum(a: int, da: int, b: int, db: int)
    requires 0 <= da < 46 && 0 <= db < 46
    ensures (a * 256 + da) % 256 == da && (b * 256 + db) % 256 == db
    ensures AddWeights(a * 256 + da, b * 256 + db) == (a + b) * 256 + 1 + Max(da, db)
  {
  }

  lemma PackAppend(wt: seq<int>, depth: seq<int>, a: int, d: int)
    requires |wt| == |depth| > 0
    ensures PackOf(wt + [a], depth + [d]) == PackOf(wt, depth) + [a * 256 + d]
    ensures Bounded(wt, depth) && 0 <= d < 46 && 0 < a < WEIGHT_CAP ==> Bounded(wt + [a], depth + [d])
    ensures forall x :: 1 <= x < |wt| ==> PackOf(wt, depth)[x] == wt[x] * 256 + depth[x]
  {
  }

  lemma PackedMerge(wt: seq<int>, depth: seq<int>, weights: seq<int>, n1: int, n2: int)
    requires Bounded(wt, depth) && weights == PackOf(wt, depth) && 1 <= n1 < |wt| && 1 <= n2 < |wt|
    ensures Summable(weights[n1], weights[n2])
    ensures var a, d := wt[n1] + wt[n2], 1 + Max(depth[n1], depth[n2]);
            && PackOf(wt + [a], depth + [d]) == weights + [AddWeights(weights[n1], weights[n2])]
            && (d < 46 && a < WEIGHT_CAP ==> Bounded(wt + [a], depth + [d]))
  {
    hide PackOf, AddWeights;
    PackAppend(wt, depth, wt[n1] + wt[n2], 1 + Max(depth[n1], depth[n2]));
    PackedSum(wt[n1], depth[n1], wt[n2], depth[n2]);
  }

  /** Everything that joining the two lightest roots keeps. */
  lemma MergeStep(p: seq<int>, wt: seq<int>, depth: seq<int>, w: seq<int>, n: nat, weights: seq<int>,
                  roots: multiset<int>, pairs: seq<Pair>, n1: int, n2: int)
    requires Faithful(p, wt, depth, w, n, pairs)
    requires Building(p, wt, depth, w, n) && Bounded(wt, depth) && Total(w, n) < WEIGHT_CAP && |p| < 2 * n
    requires weights == PackOf(wt, depth) && roots == Roots(p, |p| - 1)
    requires 0 <= n1 < |p| && 0 <= n2 < |p| && n1 in roots && n2 in roots - multiset{n1}
    requires forall x :: x in roots ==> 0 <= x < |p| && weights[n1] <= weights[x]
    requires forall x :: x in roots - multiset{n1} ==> 0 <= x < |p| && weights[n2] <= weights[x]
    ensures Mergeable(p, n1, n2)
    ensures var wt', depth' := wt + [wt[n1] + wt[n2]], depth + [1 + Max(depth[n1], depth[n2])];
            && Building(Merge(p, n1, n2), wt', depth', w, n) && Bounded(wt', depth')
            && Summable(weights[n1], weights[n2]) &&
               PackOf(wt', depth') == weights + [AddWeights(weights[n1], weights[n2])]
            && Faithful(Merge(p, n1, n2), wt', depth', w, n, pairs + [Pair(n1, n2)])
    ensures Roots(Merge(p, n1, n2), |p|) == roots - multiset{n1} - multiset{n2} + multiset{|p|}
  {
    hide Building, Roots, Total, PackOf, AddWeights, Bounded, Faithful, RootsHeaviest;
    BuildingForest(p, wt, depth, w, n);
    PackedWeights(wt, depth);
    LightestPair(p, wt, weights, roots, n1, n2);
    PackedMerge(wt, depth, weights, n1, n2);
    BuildingMerge(p, wt, depth, w, n, n1, n2);
    BuildingForest(Merge(p, n1, n2), wt + [wt[n1] + wt[n2]], depth + [1 + Max(depth[n1], depth[n2])], w, n);
    FaithfulStep(p, wt, depth, w, n, pairs, n1, n2);
    MergeRoots(p, n1, n2);
    DepthSmall(Merge(p, n1, n2), wt + [wt[n1] + wt[n2]], depth + [1 + Max(depth[n1], depth[n2])], w, n, |p|);
  }

  /** The arrays hold a forest under construction and the heap of its roots. */
  ghost predicate Growing(heap: array<int>, parent: array<int>, weight: array<int>, nNodes: int, nHeap: int,
                          p: seq<int>, wt: seq<int>, depth: seq<int>, w: seq<int>, n: nat, pairs: seq<Pair>)
    reads heap, parent, weight
  {
    && heap.Length == MAX_ALPHA + 2 && parent.Length == weight.Length == 2 * MAX_ALPHA
    && heap != parent && heap != weight && parent != weight
    && 1 <= nHeap && n <= nNodes && nNodes + nHeap == 2 * n <= 2 * MAX_ALPHA
    && |p| == |wt| == |depth| == nNodes + 1
    && Building(p, wt, depth, w, n) && Bounded(wt, depth) && weight[..nNodes + 1] == PackOf(wt, depth)
    && HeapOfRoots(heap[..], PackOf(wt, depth), nHeap, p)
    && parent[1..nNodes + 1] == p[1..] && Faithful(p, wt, depth, w, n, pairs)
  }

  lemma ParentStep(f: seq<int>, p: seq<int>, a: int, b: int)
    requires 1 <= a < |p| < |f| && 1 <= b < |p| && f[1..|p|] == p[1..]
    ensures f[a := |p|][b := |p|][|p| := -1][1..|p| + 1] == Merge(p, a, b)[1..]
  {
    assert forall x :: 1 <= x < |p| ==> f[x] == f[1..|p|][x - 1] && p[x] == p[1..][x - 1];
  }

  /** Makes the two lightest roots the children of a new node. */
  method MergeLightest(heap: array<int>, parent: array<int>, weight: array<int>, nNodes0: int, nHeap0: int,
                       ghost p: seq<int>, ghost wt: seq<int>, ghost depth: seq<int>, ghost w: seq<int>, ghost n: nat,
                       ghost pairs: seq<Pair>)
    returns (nNodes: int, nHeap: int, ghost p': seq<int>, ghost wt': seq<int>, ghost depth': seq<int>,
             ghost pairs': seq<Pair>)
    requires Growing(heap, parent, weight, nNodes0, nHeap0, p, wt, depth, w, n, pairs) && nHeap0 > 1
    requires Total(w, n) < WEIGHT_CAP
    modifies heap, parent, weight
    ensures nHeap == nHeap0 - 1 && Growing(heap, parent, weight, nNodes, nHeap, p', wt', depth', w, n, pairs')
    ensures weight[..nNodes0 + 1] == old(weight[..nNodes0 + 1])
  {
    hide Content, IsHeap, Building, Roots, Bounded, PackOf, AddWeights, Total, Faithful;
    var weights := weight[..nNodes0 + 1];
    PackedWeights(wt, depth);
    var n1, n2;
    n1, nHeap := PopMin(heap, weights, nHeap0);
    n2, nHeap := PopMin(heap, weights, nHeap);
    MergeStep(p, wt, depth, w, n, weights, Roots(p, |p| - 1), pairs, n1, n2);
    nNodes := nNodes0 + 1;
    p', wt', depth' := Merge(p, n1, n2), wt + [wt[n1] + wt[n2]], depth + [1 + Max(depth[n1], depth[n2])];
    pairs' := pairs + [Pair(n1, n2)];
    PackedWeights(wt', depth');
    ParentStep(parent[..], p, n1, n2);
    parent[n1], parent[n2] := nNodes, nNodes;
    assert weights[n1] == weight[n1] && weights[n2] == weight[n2];
    weight[nNodes] := AddWeights(weights[n1], weights[n2]);
    parent[nNodes] := -1;
    assert weight[..nNodes + 1] == weights + [AddWeights(weights[n1], weights[n2])];
    assert parent[..] == old(parent[..])[n1 := nNodes][n2 := nNodes][nNodes := -1];
    HeapWiden(heap[..], weights, weight[..nNodes + 1], nHeap);
    nHeap := Push(heap, weight[..nNodes + 1], nHeap, nNodes);
    assert weight[..nNodes0 + 1] == weights;
  }

  /** Builds one tree from the n leaves. */
  method BuildTree(heap: array<int>, parent: array<int>, weight: array<int>, n: int, ghost w: seq<int>)
    returns (ghost p: seq<int>, ghost wt: seq<int>, ghost depth: seq<int>, ghost pairs: seq<Pair>)
    requires 2 <= n <= MAX_ALPHA && heap.Length == MAX_ALPHA + 2 && parent.Length == weight.Length == 2 * MAX_ALPHA
    requires heap != parent && heap != weight && parent != weight
    requires |w| == n + 1 && Total(w, n) < WEIGHT_CAP && forall i :: 1 <= i <= n ==> 0 < w[i]
    requires weight[..n + 1] == PackOf(w, seq(n + 1, _ => 0))
    modifies heap, parent, weight
    ensures Finished(p, wt, depth, w, n) && |p| == 2 * n && parent[1..2 * n] == p[1..]
    ensures Done(p, wt, pairs, n) && depth[2 * n - 1] == HuffmanDepth(w)
    ensures weight[..n + 1] == old(weight[..n + 1])
    ensures forall x :: 1 <= x < 2 * n ==> 0 <= weight[x] < 0x8000_0000
  {
    hide Content, IsHeap, Building, Roots, PackOf, Total, Faithful, Done;
    p, wt, depth, pairs := seq(n + 1, _ => -1), w, seq(n + 1, _ => 0), [];
    LeavesBounded(w, n);
    FaithfulStart(w, n);
    FillHeap(heap, parent, weight, n, w);
    assert parent[1..n + 1] == p[1..];
    var nNodes, nHeap := n, n;
    while nHeap > 1
      invariant Growing(heap, parent, weight, nNodes, nHeap, p, wt, depth, w, n, pairs)
      invariant weight[..n + 1] == old(weight[..n + 1])
    {
      ghost var before := weight[..nNodes + 1];
      assert before[..n + 1] == old(weight[..n + 1]);
      nNodes, nHeap, p, wt, depth, pairs :=
        MergeLightest(heap, parent, weight, nNodes, nHeap, p, wt, depth, w, n, pairs);
      assert weight[..n + 1] == before[..n + 1];
    }
    BuildingForest(p, wt, depth, w, n);
    OneRoot(heap[..], p);
    PackedWeights(wt, depth);
    TreeDone(p, wt, depth, w, n, pairs);
    assert forall x :: 1 <= x < 2 * n ==> weight[x] == weight[..nNodes + 1][x];
  }

  /** One root is left: it is the one the leaf weights determine. */
  lemma TreeDone(p: seq<int>, wt: seq<int>, depth: seq<int>, w: seq<int>, n: nat, pairs: seq<Pair>)
    requires Finished(p, wt, depth, w, n) && Faithful(p, wt, depth, w, n, pairs) && Bounded(wt, depth) && |p| == 2 * n
    ensures Done(p, wt, pairs, n) && depth[2 * n - 1] == HuffmanDepth(w)
  {
    hide JoinedBy, Settle, Bag, LeafBag, Graded, RootsHeaviest, Fair, RootOk, PackOf;
    SettledAt(p, PackOf(wt, depth));
    PackAt(wt, depth, 2 * n - 1);
  }

  lemma PackAt(wt: seq<int>, depth: seq<int>, x: int)
    requires Bounded(wt, depth) && 1 <= x < |wt|
    ensures PackOf(wt, depth)[x] % 256 == depth[x]
  {
  }

  lemma LeavesBounded(w: seq<int>, n: nat)
    requires 2 <= n && |w| == n + 1 && Total(w, n) < WEIGHT_CAP && forall i :: 1 <= i <= n ==> 0 < w[i]
    ensures Building(seq(n + 1, _ => -1), w, seq(n + 1, _ => 0), w, n) && Bounded(w, seq(n + 1, _ => 0))
  {
    hide Building;
    BuildingStart(w, n);
    forall x | 1 <= x <= n ensures w[x] < WEIGHT_CAP {
      DepthSmall(seq(n + 1, _ => -1), w, seq(n + 1, _ => 0), w, n, x);
    }
  }

  lemma BuildingForest(p: seq<int>, wt: seq<int>, depth: seq<int>, w: seq<int>, n: nat)
    requires Building(p, wt, depth, w, n)
    ensures IsForest(p) && |wt| == |depth| == |p| > n && RootsHeaviest(p, wt)
  {
  }

  // ---------- reading the lengths and rescaling ----------

  /** In the finished tree every leaf lies below the root, not deeper than a byte can say. */
  lemma LeafDepth(p: seq<int>, wt: seq<int>, depth: seq<int>, w: seq<int>, n: nat, i: int)
    requires Finished(p, wt, depth, w, n) && |p| == 2 * n && 1 <= i <= n && Total(w, n) < WEIGHT_CAP
    ensures 1 <= Depth(p, i) < 46
  {
    LengthBound(p, wt, depth, w, n, i);
    AllUnderRoot(p, wt, depth, w, n, i);
    if Depth(p, i) >= 46 {
      Pow2Monotone(23, Depth(p, i) / 2);
      Pow2At23();
    }
  }

  /** Counts the steps from each leaf to the root. */
  method ReadLengths(len: array<Byte>, parent: seq<int>, n: int, maxLen: int, ghost p: seq<int>)
    returns (tooLong: bool, ghost long: nat)
    requires IsForest(p) && 1 <= n < |p| <= |parent| && len.Length >= n
    requires forall x :: 1 <= x < |p| ==> parent[x] == p[x]
    requires forall i :: 1 <= i <= n ==> Depth(p, i) < 256
    modifies len
    ensures forall j {:trigger len[j]} :: 0 <= j < n ==> len[j] == Depth(p, j + 1)
    ensures tooLong ==> long < n && len[long] > maxLen
    ensures !tooLong ==> forall j {:trigger len[j]} :: 0 <= j < n ==> len[j] <= maxLen
  {
    tooLong, long := false, 0;
    for i := 1 to n + 1
      invariant forall j {:trigger len[j]} :: 0 <= j < i - 1 ==> len[j] == Depth(p, j + 1)
      invariant tooLong ==> long < i - 1 && len[long] > maxLen
      invariant !tooLong ==> forall j {:trigger len[j]} :: 0 <= j < i - 1 ==> len[j] <= maxLen
    {
      var j, k := 0, i;
      while parent[k] >= 0
        invariant 1 <= k < |p| && 0 <= j && j + Depth(p, k) == Depth(p, i)
        decreases |p| - k
      {
        k := parent[k];
        j := j + 1;
      }
      len[i - 1] := j;
      if j > maxLen { tooLong, long := true, i - 1; }
    }
  }

  /** A frequency after some rounds of halving. */
  ghost function Scaled(f: int, rounds: nat): (s: int)
    requires 0 <= f
    ensures 0 < s
  {
    if rounds == 0 then Max(f, 1) else 1 + Scaled(f, rounds - 1) / 2
  }

  lemma ScaledShrinks(f: int, rounds: nat)
    requires 0 <= f
    ensures Scaled(f, rounds + 1) <= Scaled(f, rounds)
    ensures Scaled(f, rounds) > 2 ==> Scaled(f, rounds + 1) < Scaled(f, rounds)
  {
  }

  /** Halving keeps the order of frequencies. */
  lemma {:induction false} ScaledOrder(f: int, g: int, rounds: nat)
    requires 0 <= f <= g
    ensures Scaled(f, rounds) <= Scaled(g, rounds)
  {
    if rounds > 0 { ScaledOrder(f, g, rounds - 1); }
  }

  ghost function AllScaled(freq: seq<int>, rounds: nat): (w: seq<int>)
    requires forall i :: 0 <= i < |freq| ==> 0 <= freq[i]
    ensures |w| == |freq| + 1 && w[0] == 0 && forall i :: 1 <= i < |w| ==> w[i] == Scaled(freq[i - 1], rounds)
  {
    [0] + seq(|freq|, i requires 0 <= i < |freq| => Scaled(freq[i], rounds))
  }

  lemma {:induction false} TotalShrinks(w: seq<int>, w': seq<int>, k: nat)
    requires k < |w| && k < |w'| && forall i :: 1 <= i <= k ==> w'[i] <= w[i]
    ensures Total(w', k) <= Total(w, k)
    ensures (exists i :: 1 <= i <= k && w'[i] < w[i]) ==> Total(w', k) < Total(w, k)
  {
    if k > 0 { TotalShrinks(w, w', k - 1); }
  }

  lemma {:induction false} TotalBound(w: seq<int>, k: nat, c: int)
    requires k < |w| && forall i :: 1 <= i <= k ==> 0 <= w[i] <= c
    ensures 0 <= Total(w, k) <= k * c
  {
    if k > 0 {
      TotalBound(w, k - 1, c);
      MulDistributes(c, k - 1, 1);
    }
  }

  lemma {:induction false} TotalNonNegative(w: seq<int>, k: nat)
    requires k < |w| && forall i :: 1 <= i <= k ==> 0 <= w[i]
    ensures 0 <= Total(w, k)
  {
    if k > 0 { TotalNonNegative(w, k - 1); }
  }

  /** If a code comes out too long, some weight is at least three, so rescaling makes progress. */
  lemma RescaleShrinks(p: seq<int>, wt: seq<int>, depth: seq<int>, freq: seq<int>, rounds: nat, n: nat, maxLen: nat,
                       i: int)
    requires |freq| == n && forall j :: 0 <= j < n ==> 0 <= freq[j]
    requires Finished(p, wt, depth, AllScaled(freq, rounds), n) && 1 <= i <= n && Depth(p, i) > maxLen
    requires Pow2((maxLen + 1) / 2) > n
    ensures Total(AllScaled(freq, rounds + 1), n) < Total(AllScaled(freq, rounds), n)
  {
    hide Building;
    var w, w' := AllScaled(freq, rounds), AllScaled(freq, rounds + 1);
    forall j | 1 <= j <= n ensures w'[j] <= w[j] && 0 <= w[j] && (w[j] > 2 ==> w'[j] < w[j]) {
      ScaledShrinks(freq[j - 1], rounds);
    }
    TotalShrinks(w, w', n);
    if forall j :: 1 <= j <= n ==> w[j] <= 2 {
      BuildingForest(p, wt, depth, w, n);
      LengthBound(p, wt, depth, w, n, i);
      Pow2Monotone((maxLen + 1) / 2, Depth(p, i) / 2);
      TotalBound(w, n, 2);
    }
  }

  /** The length limit the compressor asks for never makes the loop run forever. */
  lemma LimitSeventeen()
    ensures Pow2((17 + 1) / 2) > MAX_ALPHA
  {
  }

  /** Halves all leaf weights. */
  method Rescale(weight: array<int>, ghost freq: seq<int>, n: int, ghost rounds: nat)
    requires |freq| == n < weight.Length && weight[0] == 0 && forall i :: 0 <= i < n ==> 0 <= freq[i]
    requires forall x :: 1 <= x <= n ==> weight[x] == AllScaled(freq, rounds)[x] * 256
    modifies weight
    ensures weight[0] == 0 && forall x :: 1 <= x <= n ==> weight[x] == AllScaled(freq, rounds + 1)[x] * 256
  {
    for i := 1 to n + 1
      invariant weight[0] == 0
      invariant forall x :: 1 <= x <= n ==> weight[x] == AllScaled(freq, if x < i then rounds + 1 else rounds)[x] * 256
    {
      var j := weight[i] / 256;
      j := 1 + j / 2;
      weight[i] := j * 256;
    }
  }

  lemma ScaledStart(f: int)
    requires 0 <= f
    ensures Scaled(f, 0) == if f == 0 then 1 else f
  {
  }

  lemma LengthsFollowWeights(p: seq<int>, wt: seq<int>, depth: seq<int>, w: seq<int>, n: nat)
    requires Finished(p, wt, depth, w, n) && n < |p| - 1
    ensures forall i, j :: 1 <= i <= n && 1 <= j <= n && w[i] < w[j] ==> Depth(p, i) >= Depth(p, j)
  {
    forall i, j | 1 <= i <= n && 1 <= j <= n && w[i] < w[j] ensures Depth(p, i) >= Depth(p, j) {
      assert wt[i] == wt[..n + 1][i] && wt[j] == wt[..n + 1][j];
      LighterDeeper(p, wt, i, j);
    }
  }

  /** What the lengths of a finished tree are good for. */
  ghost predicate GoodLengths(lens: seq<Byte>, maxLen: nat, w: seq<int>) {
    && |w| == |lens| + 1
    && (forall j :: 0 <= j < |lens| ==> 1 <= lens[j] <= maxLen)
    && KraftSum(lens, maxLen, |lens|) == Pow2(maxLen)
    && forall i, j :: 0 <= i < |lens| && 0 <= j < |lens| && w[i + 1] < w[j + 1] ==> lens[i] >= lens[j]
  }

  /** One round: a tree for the current weights and its leaf depths. */
  method Attempt(len: array<Byte>, heap: array<int>, parent: array<int>, weight: array<int>, n: int, maxLen: nat,
                 ghost freq: seq<int>, ghost rounds: nat)
    returns (tooLong: bool)
    requires 2 <= n <= MAX_ALPHA && heap.Length == MAX_ALPHA + 2 && parent.Length == weight.Length == 2 * MAX_ALPHA
    requires heap != parent && heap != weight && parent != weight && len.Length >= n
    requires |freq| == n && forall i :: 0 <= i < n ==> 0 <= freq[i]
    requires Total(AllScaled(freq, rounds), n) < WEIGHT_CAP && Pow2((maxLen + 1) / 2) > n
    requires weight[..n + 1] == PackOf(AllScaled(freq, rounds), seq(n + 1, _ => 0))
    modifies len, heap, parent, weight
    ensures weight[..n + 1] == old(weight[..n + 1])
    ensures tooLong ==> 0 <= Total(AllScaled(freq, rounds + 1), n) < Total(AllScaled(freq, rounds), n)
    ensures tooLong <==> HuffmanDepth(AllScaled(freq, rounds)) > maxLen
    ensures !tooLong ==> TreeCost.CheapestCode(AllScaled(freq, rounds)[1..], len[..n])
    ensures !tooLong ==> GoodLengths(len[..n], maxLen, AllScaled(freq, rounds))
  {
    hide Building, Scaled, Total, KraftSum, Depth, Root, Pow2, PackOf, Done, HuffmanDepth, TreeCost.CheapestCode;
    ghost var w := AllScaled(freq, rounds);
    ghost var p, wt, depth, pairs := BuildTree(heap, parent, weight, n, w);
    BuildingForest(p, wt, depth, w, n);
    assert forall x :: 1 <= x < |p| ==> parent[x] == parent[1..2 * n][x - 1];
    forall i | 1 <= i <= n ensures 1 <= Depth(p, i) < 46 { LeafDepth(p, wt, depth, w, n, i); }
    ghost var long;
    tooLong, long := ReadLengths(len, parent[..], n, maxLen, p);
    ghost var deepest := DeepestLeaf(p, wt, depth, w, n);
    assert len[deepest - 1] == Depth(p, deepest);
    if tooLong {
      RescaleShrinks(p, wt, depth, freq, rounds, n, maxLen, long + 1);
      TotalNonNegative(AllScaled(freq, rounds + 1), n);
    } else {
      LengthsKraft(p, wt, depth, w, n, len[..n], maxLen);
      LengthsFollowWeights(p, wt, depth, w, n);
      LeafDepthsCheapest(p, wt, pairs, n, len[..n]);
      assert wt[1..n + 1] == w[1..] by { LeafWeights(p, wt, depth, w, n); }
    }
  }

  /** The depth carried along with the weights is that of the deepest leaf. */
  lemma DeepestLeaf(p: seq<int>, wt: seq<int>, depth: seq<int>, w: seq<int>, n: nat) returns (deepest: int)
    requires Finished(p, wt, depth, w, n) && |p| == 2 * n
    ensures |depth| == 2 * n && IsForest(p) && 1 <= deepest <= n && Depth(p, deepest) == depth[2 * n - 1]
    ensures forall i :: 1 <= i <= n ==> Depth(p, i) <= depth[2 * n - 1]
  {
    hide Graded, RootsHeaviest, Fair, KraftOf, WeightOf;
    forall i | 1 <= i <= n ensures Root(p, i) == 2 * n - 1 { AllUnderRoot(p, wt, depth, w, n, i); }
    assert p[Root(p, 1)] == -1;
    deepest :| 1 <= deepest <= n && Root(p, deepest) == 2 * n - 1 && Depth(p, deepest) == depth[2 * n - 1];
  }

  lemma LeafWeights(p: seq<int>, wt: seq<int>, depth: seq<int>, w: seq<int>, n: nat)
    requires Building(p, wt, depth, w, n)
    ensures n < |wt| && |w| == n + 1 && wt[1..n + 1] == w[1..]
  {
    assert wt[1..n + 1] == wt[..n + 1][1..];
  }

  lemma LeafPack(weights: seq<int>, w: seq<int>, n: nat)
    requires |w| == n + 1 <= |weights| && weights[0] == 0 && forall x :: 1 <= x <= n ==> weights[x] == w[x] * 256
    ensures weights[..n + 1] == PackOf(w, seq(n + 1, _ => 0))
  {
  }

  /** Scaled frequencies and lengths: a shorter code means a higher frequency, unless scaling
      has made the two frequencies equal. */
  lemma ShorterIsMoreFrequent(lens: seq<Byte>, freq: seq<int>, rounds: nat, maxLen: nat, i: int, j: int)
    requires |lens| == |freq| && (forall k :: 0 <= k < |freq| ==> 0 <= freq[k]) &&
             GoodLengths(lens, maxLen, AllScaled(freq, rounds))
    requires 0 <= i < |lens| && 0 <= j < |lens| && lens[i] < lens[j]
    ensures freq[i] > freq[j] || Scaled(freq[i], rounds) == Scaled(freq[j], rounds)
  {
    hide Scaled, KraftSum, Pow2;
    if freq[i] <= freq[j] { ScaledOrder(freq[i], freq[j], rounds); }
    assert AllScaled(freq, rounds)[i + 1] == Scaled(freq[i], rounds) &&
        AllScaled(freq, rounds)[j + 1] == Scaled(freq[j], rounds);
  }

  /** len receives the lengths of a complete prefix code, none longer than maxLen.  The weights
      are halved as often as their Huffman tree, made by joining the two lightest nodes and of
      equally light ones the shallower, is too deep, and not once more; no code is cheaper for
      the weights so found.  The symbol with the shorter of two codes is the more frequent, as
      far as frequencies still differ. */
  method MakeCodeLengths(len: array<Byte>, freq: seq<int>, alphaSize: int, maxLen: nat) returns (ghost rounds: nat)
    requires 2 <= alphaSize <= MAX_ALPHA && |freq| == alphaSize && len.Length >= alphaSize
    requires forall i :: 0 <= i < |freq| ==> 0 <= freq[i]
    requires Total(AllScaled(freq, 0), alphaSize) < WEIGHT_CAP
    requires Pow2((maxLen + 1) / 2) > alphaSize
    modifies len
    ensures forall j :: 0 <= j < alphaSize ==> 1 <= len[j] <= maxLen
    ensures KraftSum(len[..alphaSize], maxLen, alphaSize) == Pow2(maxLen)
    ensures HuffmanDepth(AllScaled(freq, rounds)) <= maxLen &&
            forall r :: 0 <= r < rounds ==> HuffmanDepth(AllScaled(freq, r)) > maxLen
    ensures TreeCost.CheapestCode(AllScaled(freq, rounds)[1..], len[..alphaSize])
    ensures forall i, j :: 0 <= i < alphaSize && 0 <= j < alphaSize ==>
              (Scaled(freq[i], rounds) < Scaled(freq[j], rounds) ==> len[i] >= len[j])
    ensures forall i, j :: 0 <= i < alphaSize && 0 <= j < alphaSize && len[i] < len[j] ==>
              freq[i] > freq[j] || Scaled(freq[i], rounds) == Scaled(freq[j], rounds)
  {
    hide Scaled, Total, KraftSum, Pow2, PackOf, HuffmanDepth, TreeCost.CheapestCode;
    var heap := new int[MAX_ALPHA + 2];
    var weight, parent := new int[2 * MAX_ALPHA], new int[2 * MAX_ALPHA];
    rounds := 0;
    weight[0] := 0;
    for i := 0 to alphaSize
      modifies weight
      invariant weight[0] == 0 && forall x :: 1 <= x <= i ==> weight[x] == AllScaled(freq, 0)[x] * 256
    {
      ScaledStart(freq[i]);
      weight[i + 1] := (if freq[i] == 0 then 1 else freq[i]) * 256;
    }
    while true
      invariant weight[0] == 0 && forall x :: 1 <= x <= alphaSize ==> weight[x] == AllScaled(freq, rounds)[x] * 256
      invariant Total(AllScaled(freq, rounds), alphaSize) < WEIGHT_CAP
      invariant forall r :: 0 <= r < rounds ==> HuffmanDepth(AllScaled(freq, r)) > maxLen
      decreases Total(AllScaled(freq, rounds), alphaSize)
    {
      ghost var before := weight[..alphaSize + 1];
      LeafPack(weight[..], AllScaled(freq, rounds), alphaSize);
      var tooLong := Attempt(len, heap, parent, weight, alphaSize, maxLen, freq, rounds);
      if !tooLong { break; }
      assert forall x :: 0 <= x <= alphaSize ==> weight[x] == before[x];
      Rescale(weight, freq, alphaSize, rounds);
      rounds := rounds + 1;
    }
    assert GoodLengths(len[..alphaSize], maxLen, AllScaled(freq, rounds));
    forall i, j | 0 <= i < alphaSize && 0 <= j < alphaSize && len[i] < len[j]
      ensures freq[i] > freq[j] || Scaled(freq[i], rounds) == Scaled(freq[j], rounds)
    {
      ShorterIsMoreFrequent(len[..alphaSize], freq, rounds, maxLen, i, j);
    }
    assert forall i :: 0 <= i < alphaSize ==>
        len[i] == len[..alphaSize][i] && AllScaled(freq, rounds)[i + 1] == Scaled(freq[i], rounds);
  }
}
