/** The forest a Huffman construction grows, as parent numbers: nodes are numbered from 1,
    a parent has a higher number than its children, and a root has parent -1. */
module Forest {
  import opened Common

  /** Entry 0 is not a node. */
  ghost predicate IsForest(p: seq<int>) {
    && |p| > 0
    && forall x :: 1 <= x < |p| ==> p[x] == -1 || x < p[x] < |p|
  }

  ghost function Root(p: seq<int>, x: int): (r: int)
    requires IsForest(p) && 1 <= x < |p|
    ensures x <= r < |p| && p[r] == -1
    decreases |p| - x
  {
    if p[x] == -1 then x else Root(p, p[x])
  }

  ghost function Depth(p: seq<int>, x: int): (d: nat)
    requires IsForest(p) && 1 <= x < |p|
    ensures d == 0 <==> p[x] == -1
    decreases |p| - x
  {
    if p[x] == -1 then 0 else 1 + Depth(p, p[x])
  }

  /** Roots a and b become the children of a new node. */
  ghost function Merge(p: seq<int>, a: int, b: int): seq<int>
    requires 1 <= a < |p| && 1 <= b < |p|
  {
    p[a := |p|][b := |p|] + [-1]
  }

  ghost predicate Mergeable(p: seq<int>, a: int, b: int) {
    IsForest(p) && 1 <= a < |p| && 1 <= b < |p| && a != b && p[a] == -1 && p[b] == -1
  }

  /** Only what hung from a or b is affected: it now hangs one deeper from the new root. */
  lemma {:induction false} MergeAt(p: seq<int>, a: int, b: int, x: int)
    requires Mergeable(p, a, b) && IsForest(Merge(p, a, b)) && 1 <= x < |p|
    ensures var q, r := Merge(p, a, b), Root(p, x);
            if r == a || r == b then Root(q, x) == |p| && Depth(q, x) == Depth(p, x) + 1
            else Root(q, x) == r && Depth(q, x) == Depth(p, x)
    decreases |p| - x
  {
    var q := Merge(p, a, b);
    if p[x] == -1 {
      if x == a || x == b {
        assert q[x] == |p| && q[|p|] == -1;
        assert Root(q, |p|) == |p| && Depth(q, |p|) == 0;
      } else {
        assert q[x] == -1;
      }
    } else {
      assert q[x] == p[x];
      MergeAt(p, a, b, p[x]);
    }
  }

  // ---------- sums over the leaves of a tree ----------

  /** Leaves are nodes 1 to n.  Each leaf weighs 2^(l - depth) in the Kraft sum of its tree. */
  ghost function KraftOf(p: seq<int>, l: nat, r: int, k: nat): nat
    requires IsForest(p) && k < |p|
  {
    if k == 0 then 0
    else KraftOf(p, l, r, k - 1) + if Root(p, k) == r && Depth(p, k) <= l then Pow2(l - Depth(p, k)) else 0
  }

  /** The sum of the leaf weights of tree r. */
  ghost function WeightOf(p: seq<int>, w: seq<int>, r: int, k: nat): int
    requires IsForest(p) && k < |p| && k < |w|
  {
    if k == 0 then 0 else WeightOf(p, w, r, k - 1) + if Root(p, k) == r then w[k] else 0
  }

  ghost function Total(w: seq<int>, k: nat): int
    requires k < |w|
  {
    if k == 0 then 0 else Total(w, k - 1) + w[k]
  }

  lemma {:induction false} MergeKraft(p: seq<int>, a: int, b: int, l: nat, k: nat)
    requires Mergeable(p, a, b) && IsForest(Merge(p, a, b)) && k < |p|
    requires forall i :: 1 <= i <= k ==> Depth(p, i) < l
    ensures 2 * KraftOf(Merge(p, a, b), l, |p|, k) == KraftOf(p, l, a, k) + KraftOf(p, l, b, k)
  {
    hide Root, Depth, Merge;
    if k > 0 {
      MergeKraft(p, a, b, l, k - 1);
      MergeAt(p, a, b, k);
    }
  }

  lemma {:induction false} MergeKraftOther(p: seq<int>, a: int, b: int, l: nat, r: int, k: nat)
    requires Mergeable(p, a, b) && IsForest(Merge(p, a, b)) && k < |p|
    requires r != a && r != b && r != |p|
    ensures KraftOf(Merge(p, a, b), l, r, k) == KraftOf(p, l, r, k)
  {
    hide Root, Depth, Merge;
    if k > 0 {
      MergeKraftOther(p, a, b, l, r, k - 1);
      MergeAt(p, a, b, k);
    }
  }

  lemma {:induction false} MergeWeight(p: seq<int>, a: int, b: int, w: seq<int>, k: nat)
    requires Mergeable(p, a, b) && IsForest(Merge(p, a, b)) && k < |p| && k < |w|
    ensures WeightOf(Merge(p, a, b), w, |p|, k) == WeightOf(p, w, a, k) + WeightOf(p, w, b, k)
  {
    if k > 0 {
      MergeWeight(p, a, b, w, k - 1);
      MergeAt(p, a, b, k);
    }
  }

  lemma {:induction false} MergeWeightOther(p: seq<int>, a: int, b: int, w: seq<int>, r: int, k: nat)
    requires Mergeable(p, a, b) && IsForest(Merge(p, a, b)) && k < |p| && k < |w|
    requires r != a && r != b && r != |p|
    ensures WeightOf(Merge(p, a, b), w, r, k) == WeightOf(p, w, r, k)
  {
    if k > 0 {
      MergeWeightOther(p, a, b, w, r, k - 1);
      MergeAt(p, a, b, k);
    }
  }

  lemma {:induction false} WeightAtMostTotal(p: seq<int>, w: seq<int>, r: int, k: nat)
    requires IsForest(p) && k < |p| && k < |w| && forall i :: 1 <= i <= k ==> 0 <= w[i]
    ensures 0 <= WeightOf(p, w, r, k) <= Total(w, k)
  {
    if k > 0 { WeightAtMostTotal(p, w, r, k - 1); }
  }

  // ---------- why the tree is shallow ----------

  /** Node weights as merging the two lightest roots makes them: a parent outweighs its
      children, and a grandparent weighs more than twice a grandchild, since the sibling of
      the parent was not lighter than the grandchild. */
  ghost predicate Graded(p: seq<int>, wt: seq<int>)
    requires IsForest(p)
  {
    && |wt| >= |p|
    && (forall x :: 1 <= x < |p| && p[x] != -1 ==> wt[x] + 1 <= wt[p[x]])
    && (forall x :: 1 <= x < |p| && p[x] != -1 && p[p[x]] != -1 ==> 2 * wt[x] + 1 <= wt[p[p[x]]])
  }

  /** Weight doubles at least every two levels up. */
  lemma {:induction false} GradedDepth(p: seq<int>, wt: seq<int>, x: int)
    requires IsForest(p) && Graded(p, wt) && 1 <= x < |p| && 0 <= wt[x]
    ensures (wt[x] + 1) * Pow2(Depth(p, x) / 2) <= wt[Root(p, x)] + 1
    decreases |p| - x
  {
    if p[x] != -1 {
      var y := p[x];
      if p[y] != -1 {
        var g := p[y];
        GradedDepth(p, wt, g);
        var h := Pow2(Depth(p, g) / 2);
        assert Depth(p, x) / 2 == Depth(p, g) / 2 + 1;
        MulDouble(wt[x] + 1, h);
        MulAssociative(2, wt[x] + 1, h);
        MulMonotone(2 * (wt[x] + 1), wt[g] + 1, h);
      }
    }
  }

  /** Roots outweigh, or equal, everything already merged. */
  ghost predicate RootsHeaviest(p: seq<int>, wt: seq<int>)
    requires IsForest(p) && |wt| >= |p|
  {
    forall x, r :: 1 <= x < |p| && p[x] != -1 && 1 <= r < |p| && p[r] == -1 ==> wt[x] <= wt[r]
  }

  /** Merging two roots no heavier than the others keeps the grading. */
  lemma MergeGraded(p: seq<int>, a: int, b: int, wt: seq<int>)
    requires Mergeable(p, a, b) && Graded(p, wt) && RootsHeaviest(p, wt) && |wt| > |p|
    requires 0 < wt[a] <= wt[b] && wt[|p|] == wt[a] + wt[b]
    requires forall r :: 1 <= r < |p| && p[r] == -1 && r != a ==> wt[b] <= wt[r]
    ensures IsForest(Merge(p, a, b)) && Graded(Merge(p, a, b), wt) && RootsHeaviest(Merge(p, a, b), wt)
  {
    var q := Merge(p, a, b);
    forall x | 1 <= x < |q| && q[x] != -1 && q[q[x]] != -1 ensures 2 * wt[x] + 1 <= wt[q[q[x]]] {
      assert q[x] == p[x];
      if q[x] == a || q[x] == b {
        assert wt[x] + 1 <= wt[p[x]];
        assert wt[x] <= wt[a] && wt[x] <= wt[b];
      }
    }
  }

  // ---------- why lighter nodes lie deeper ----------

  /** No sibling of a merged node outweighs a root, and of two merged nodes the lighter one
      has the lighter parent unless they are siblings. */
  ghost predicate Fair(p: seq<int>, wt: seq<int>)
    requires IsForest(p) && |wt| >= |p|
  {
    && (forall x, r :: 1 <= x < |p| && p[x] != -1 && 1 <= r < |p| && p[r] == -1 ==> wt[p[x]] - wt[x] <= wt[r])
    && (forall x, y :: 1 <= x < |p| && p[x] != -1 && 1 <= y < |p| && p[y] != -1 && wt[x] < wt[y] ==>
          p[x] == p[y] || wt[p[x]] < wt[p[y]])
  }

  lemma MergeFair(p: seq<int>, a: int, b: int, wt: seq<int>)
    requires Mergeable(p, a, b) && |wt| > |p| && RootsHeaviest(p, wt) && Fair(p, wt)
    requires 0 < wt[a] <= wt[b] && wt[|p|] == wt[a] + wt[b]
    requires forall r :: 1 <= r < |p| && p[r] == -1 && r != a ==> wt[b] <= wt[r]
    ensures IsForest(Merge(p, a, b)) && Fair(Merge(p, a, b), wt)
  {
    hide RootsHeaviest;
    var q := Merge(p, a, b);
    MergeNodes(p, a, b);
    forall x, r | 1 <= x < |q| && q[x] != -1 && 1 <= r < |q| && q[r] == -1 ensures wt[q[x]] - wt[x] <= wt[r] {
      MergeLight(p, a, b, wt, x, r);
    }
    forall x, y | 1 <= x < |q| && q[x] != -1 && 1 <= y < |q| && q[y] != -1 && wt[x] < wt[y] && q[x] != q[y]
      ensures wt[q[x]] < wt[q[y]]
    {
      MergeFairPair(p, a, b, wt, x, y);
    }
  }

  lemma MergeNodes(p: seq<int>, a: int, b: int)
    requires Mergeable(p, a, b)
    ensures var q := Merge(p, a, b);
            && IsForest(q) && |q| == |p| + 1 && q[|p|] == -1
            && forall x :: 1 <= x < |p| ==> q[x] == if x == a || x == b then |p| else p[x]
  {
  }

  lemma MergeLight(p: seq<int>, a: int, b: int, wt: seq<int>, x: int, r: int)
    requires Mergeable(p, a, b) && |wt| > |p| && Fair(p, wt) && 0 < wt[a] <= wt[b] && wt[|p|] == wt[a] + wt[b]
    requires forall r :: 1 <= r < |p| && p[r] == -1 && r != a ==> wt[b] <= wt[r]
    requires 1 <= x < |p| && (p[x] != -1 || x == a || x == b) && 1 <= r <= |p| &&
             (r < |p| ==> p[r] == -1 && r != a && r != b)
    ensures wt[if x == a || x == b then |p| else p[x]] - wt[x] <= wt[r]
  {
    if x != a && x != b { SiblingLight(p, wt, x, if r == |p| then a else r); }
  }

  lemma SiblingLight(p: seq<int>, wt: seq<int>, x: int, r: int)
    requires IsForest(p) && |wt| >= |p| && Fair(p, wt) && 1 <= x < |p| && p[x] != -1 && 1 <= r < |p| && p[r] == -1
    ensures wt[p[x]] - wt[x] <= wt[r]
  {
  }

  lemma MergeFairPair(p: seq<int>, a: int, b: int, wt: seq<int>, x: int, y: int)
    requires Mergeable(p, a, b) && |wt| > |p| && RootsHeaviest(p, wt) && Fair(p, wt)
    requires 0 < wt[a] <= wt[b] && wt[|p|] == wt[a] + wt[b]
    requires 1 <= x < |p| && 1 <= y < |p| && wt[x] < wt[y] && (p[x] != -1 || x == a || x == b) &&
             (p[y] != -1 || y == a || y == b)
    ensures var q := Merge(p, a, b); q[x] == q[y] || wt[q[x]] < wt[q[y]]
  {
    var q := Merge(p, a, b);
    assert q[x] == (if x == a || x == b then |p| else p[x]) && q[y] == if y == a || y == b then |p| else p[y];
    if p[x] != -1 && p[y] == -1 {
      SiblingLight(p, wt, x, a);
      SiblingLight(p, wt, x, b);
    }
  }

  /** In a single tree the lighter of two nodes lies at least as deep. */
  lemma {:induction false} LighterDeeper(p: seq<int>, wt: seq<int>, x: int, y: int)
    requires IsForest(p) && |wt| >= |p| && Fair(p, wt) && RootsHeaviest(p, wt)
    requires forall r :: 1 <= r < |p| && p[r] == -1 ==> r == |p| - 1
    requires 1 <= x < |p| - 1 && 1 <= y < |p| - 1 && wt[x] < wt[y]
    ensures Depth(p, x) >= Depth(p, y)
    decreases |p| - x
  {
    assert p[x] != -1 && p[y] != -1;
    if p[x] != p[y] && p[y] != |p| - 1 {
      assert p[p[y]] != -1 && p[|p| - 1] == -1;
      LighterDeeper(p, wt, p[x], p[y]);
    }
  }
}
