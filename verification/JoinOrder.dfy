/** The nodes of a forest in the order in which they were joined.  Read from the last pair to
    the first it lists the most frequent nodes first, and so the leaf depths of a finished tree
    are the lengths of a cheapest code. */
module JoinOrder {
  import opened Forest
  import opened LimitedTree
  import opened BitLengths
  import opened HuffmanCost
  import opened TreeCost

  /** Two nodes that were joined, the lighter one first. */
  datatype Pair = Pair(light: int, heavy: int)

  /** Leaves are nodes 1 to n; the m-th pair lies below node n + 1 + m. */
  ghost predicate JoinedBy(p: seq<int>, wt: seq<int>, pairs: seq<Pair>, n: nat) {
    && IsForest(p) && |wt| == |p| == n + 1 + |pairs|
    && (forall m :: 0 <= m < |pairs| ==> PairAt(p, wt, pairs[m], n + 1 + m))
    && (forall x :: 1 <= x < |p| && p[x] != -1 ==> InPair(pairs, p[x] - n - 1, x))
    && (forall k, m :: 0 <= k < m < |pairs| ==> wt[pairs[k].heavy] <= wt[pairs[m].light])
  }

  ghost predicate PairAt(p: seq<int>, wt: seq<int>, c: Pair, y: int) {
    && 1 <= c.light < |p| && 1 <= c.heavy < |p| && c.light != c.heavy && 1 <= y < |p| == |wt|
    && p[c.light] == y && p[c.heavy] == y && wt[c.light] <= wt[c.heavy] && wt[y] == wt[c.light] + wt[c.heavy]
  }

  ghost predicate InPair(pairs: seq<Pair>, m: int, x: int) {
    0 <= m < |pairs| && (x == pairs[m].light || x == pairs[m].heavy)
  }

  lemma JoinNone(p: seq<int>, wt: seq<int>, n: nat)
    requires IsForest(p) && |wt| == |p| == n + 1 && forall x :: 1 <= x < |p| ==> p[x] == -1
    ensures JoinedBy(p, wt, [], n)
  {
  }

  lemma PairStays(p: seq<int>, wt: seq<int>, c: Pair, y: int, a: int, b: int)
    requires PairAt(p, wt, c, y) && Mergeable(p, a, b)
    ensures PairAt(Merge(p, a, b), wt + [wt[a] + wt[b]], c, y) && p[c.heavy] != -1 && p[c.light] != -1
  {
  }

  /** Joining two roots that no joined node outweighs. */
  lemma JoinMore(p: seq<int>, wt: seq<int>, pairs: seq<Pair>, n: nat, a: int, b: int)
    requires JoinedBy(p, wt, pairs, n) && Mergeable(p, a, b) && IsForest(Merge(p, a, b)) && wt[a] <= wt[b]
    requires RootsHeaviest(p, wt)
    ensures JoinedBy(Merge(p, a, b), wt + [wt[a] + wt[b]], pairs + [Pair(a, b)], n)
  {
    hide PairAt, IsForest, RootsHeaviest;
    var q, wt', all := Merge(p, a, b), wt + [wt[a] + wt[b]], pairs + [Pair(a, b)];
    forall m | 0 <= m < |all| ensures PairAt(q, wt', all[m], n + 1 + m) {
      if m < |pairs| { PairStays(p, wt, pairs[m], n + 1 + m, a, b); } else { PairNew(p, wt, a, b); }
    }
    forall x | 1 <= x < |q| && q[x] != -1 ensures InPair(all, q[x] - n - 1, x) {
      if x != a && x != b { assert InPair(pairs, p[x] - n - 1, x); }
    }
    forall k | 0 <= k < |all| ensures 1 <= all[k].light < |wt'| && 1 <= all[k].heavy < |wt'| {
      if k < |pairs| { PairWeights(p, wt, pairs[k], n + 1 + k); }
    }
    forall k, m | 0 <= k < m < |all| ensures wt'[all[k].heavy] <= wt'[all[m].light] {
      PairStays(p, wt, pairs[k], n + 1 + k, a, b);
      PairWeights(p, wt, pairs[k], n + 1 + k);
      if m < |pairs| {
        PairWeights(p, wt, pairs[m], n + 1 + m);
      } else {
        RootHeavier(p, wt, pairs[k].heavy, a);
      }
    }
  }

  lemma PairNew(p: seq<int>, wt: seq<int>, a: int, b: int)
    requires Mergeable(p, a, b) && |wt| == |p| && wt[a] <= wt[b]
    ensures PairAt(Merge(p, a, b), wt + [wt[a] + wt[b]], Pair(a, b), |p|)
  {
  }

  lemma PairWeights(p: seq<int>, wt: seq<int>, c: Pair, y: int)
    requires PairAt(p, wt, c, y)
    ensures 1 <= c.light < |p| == |wt| && 1 <= c.heavy < |p| && wt[c.light] <= wt[c.heavy]
  {
  }

  lemma RootHeavier(p: seq<int>, wt: seq<int>, x: int, r: int)
    requires IsForest(p) && |wt| >= |p| && RootsHeaviest(p, wt) && 1 <= x < |p| && p[x] != -1 && 1 <= r < |p| &&
             p[r] == -1
    ensures wt[x] <= wt[r]
  {
  }

  // ---------- positions, the last pair first ----------

  /** The pair at position i > 0. */
  function PairOf(n: nat, i: nat): int {
    n - 2 - (i - 1) / 2
  }

  ghost function NodeAt(pairs: seq<Pair>, n: nat, i: nat): (x: int)
    requires n >= 2 && |pairs| == n - 1 && i < 2 * n - 1
  {
    if i == 0 then 2 * n - 1
    else if i % 2 == 1 then pairs[PairOf(n, i)].heavy else pairs[PairOf(n, i)].light
  }

  /** Where a node of the tree stands. */
  ghost function Place(p: seq<int>, pairs: seq<Pair>, n: nat, x: int): int
    requires 1 <= x < |p|
  {
    if p[x] == -1 then 0
    else
      var m := p[x] - n - 1;
      2 * (n - 2 - m) + if 0 <= m < |pairs| && pairs[m].heavy == x then 1 else 2
  }

  ghost predicate Done(p: seq<int>, wt: seq<int>, pairs: seq<Pair>, n: nat) {
    && n >= 2 && JoinedBy(p, wt, pairs, n) && |p| == 2 * n
    && (forall x :: 1 <= x < |p| ==> 0 < wt[x])
    && forall r :: 1 <= r < |p| && p[r] == -1 ==> r == 2 * n - 1
  }

  lemma NodeFacts(p: seq<int>, wt: seq<int>, pairs: seq<Pair>, n: nat, i: nat)
    requires Done(p, wt, pairs, n) && i < 2 * n - 1
    ensures var x := NodeAt(pairs, n, i);
            && 1 <= x < |p| && Place(p, pairs, n, x) == i
            && (if i == 0 then p[x] == -1 else p[x] == n + 1 + PairOf(n, i) && 0 <= PairOf(n, i) < n - 1)
  {
    hide Done;
    DoneSizes(p, wt, pairs, n);
    OneLeft(p, wt, pairs, n);
    if i > 0 {
      HalfOf(n, i);
      PairOpen(p, wt, pairs, n, PairOf(n, i));
    }
  }

  lemma DoneSizes(p: seq<int>, wt: seq<int>, pairs: seq<Pair>, n: nat)
    requires Done(p, wt, pairs, n)
    ensures n >= 2 && |pairs| == n - 1 && |wt| == |p| == 2 * n && IsForest(p)
  {
  }

  lemma HalfOf(n: nat, i: nat)
    requires 0 < i < 2 * n - 1
    ensures 0 <= PairOf(n, i) < n - 1 && 2 * (n - 2 - PairOf(n, i)) == if i % 2 == 1 then i - 1 else i - 2
  {
  }

  lemma PairOpen(p: seq<int>, wt: seq<int>, pairs: seq<Pair>, n: nat, m: nat)
    requires Done(p, wt, pairs, n) && m < n - 1
    ensures |pairs| == n - 1 && |wt| == |p| == 2 * n
    ensures var c, y := pairs[m], n + 1 + m;
            && 1 <= c.light < |p| && 1 <= c.heavy < |p| && c.light != c.heavy
            && p[c.light] == y && p[c.heavy] == y && wt[c.light] <= wt[c.heavy] && wt[y] == wt[c.light] + wt[c.heavy]
  {
    hide IsForest;
    assert PairAt(p, wt, pairs[m], n + 1 + m);
  }

  lemma OneLeft(p: seq<int>, wt: seq<int>, pairs: seq<Pair>, n: nat)
    requires Done(p, wt, pairs, n)
    ensures p[2 * n - 1] == -1
  {
    assert Root(p, 1) == 2 * n - 1;
  }

  lemma PlaceFacts(p: seq<int>, wt: seq<int>, pairs: seq<Pair>, n: nat, x: int)
    requires Done(p, wt, pairs, n) && 1 <= x < 2 * n
    ensures var i := Place(p, pairs, n, x); 0 <= i < 2 * n - 1 && NodeAt(pairs, n, i) == x
  {
    if p[x] != -1 {
      var m := p[x] - n - 1;
      assert InPair(pairs, m, x) && PairAt(p, wt, pairs[m], n + 1 + m);
      var i := Place(p, pairs, n, x);
      assert PairOf(n, i) == m;
    }
  }

  // ---------- the tree by positions ----------

  ghost function Order(pairs: seq<Pair>, n: nat): (order: seq<int>)
    requires n >= 2 && |pairs| == n - 1
    ensures |order| == 2 * n - 1 && forall i :: 0 <= i < |order| ==> order[i] == NodeAt(pairs, n, i) - 1
  {
    seq(2 * n - 1, i requires 0 <= i < 2 * n - 1 => NodeAt(pairs, n, i) - 1)
  }

  ghost function ParentPlaces(p: seq<int>, pairs: seq<Pair>, n: nat): (par: seq<int>)
    requires n >= 2 && |pairs| == n - 1
    ensures |par| == 2 * n - 1
    ensures forall i :: 0 < i < |par| ==>
              par[i] == if 1 <= n + 1 + PairOf(n, i) < |p| then Place(p, pairs, n, n + 1 + PairOf(n, i)) else 0
  {
    seq(2 * n - 1, i requires 0 <= i < 2 * n - 1 =>
      if 0 < i && 1 <= n + 1 + PairOf(n, i) < |p| then Place(p, pairs, n, n + 1 + PairOf(n, i)) else 0)
  }

  ghost function Weights(wt: seq<int>, pairs: seq<Pair>, n: nat): (w: seq<int>)
    requires n >= 2 && |pairs| == n - 1
    ensures |w| == 2 * n - 1
    ensures forall i :: 0 <= i < |w| ==>
              w[i] == if 0 <= NodeAt(pairs, n, i) < |wt| then wt[NodeAt(pairs, n, i)] else 0
  {
    seq(2 * n - 1, i requires 0 <= i < 2 * n - 1 =>
      if 0 <= NodeAt(pairs, n, i) < |wt| then wt[NodeAt(pairs, n, i)] else 0)
  }

  /** The parent of the node at position i stands before it, and outweighs as much as the node
      and its brother together. */
  lemma ParentAt(p: seq<int>, wt: seq<int>, pairs: seq<Pair>, n: nat, i: nat)
    requires Done(p, wt, pairs, n) && 0 < i < 2 * n - 1
    ensures |pairs| == n - 1 && 0 <= PairOf(n, i) < n - 1
    ensures var par, w, y := ParentPlaces(p, pairs, n), Weights(wt, pairs, n), n + 1 + PairOf(n, i);
            && y < |p| == |wt| && par[i] == Place(p, pairs, n, y) && 0 <= par[i] < i && NodeAt(pairs, n, par[i]) == y
            && p[NodeAt(pairs, n, i)] == y && w[par[i]] == wt[y]
  {
    hide Done, NodeAt;
    DoneSizes(p, wt, pairs, n);
    NodeFacts(p, wt, pairs, n, i);
    HalfOf(n, i);
    var y := n + 1 + PairOf(n, i);
    PlaceFacts(p, wt, pairs, n, y);
    AboveLower(p, wt, pairs, n, y);
  }

  lemma AboveLower(p: seq<int>, wt: seq<int>, pairs: seq<Pair>, n: nat, y: int)
    requires Done(p, wt, pairs, n) && n < y < 2 * n
    ensures 0 <= Place(p, pairs, n, y) && (p[y] != -1 ==> Place(p, pairs, n, y) <= 2 * (n - 2 - (y - n)) + 2)
  {
    hide Done, NodeAt;
    DoneSizes(p, wt, pairs, n);
    PlaceFacts(p, wt, pairs, n, y);
  }

  /** Brothers stand side by side. */
  lemma BrotherAt(p: seq<int>, wt: seq<int>, pairs: seq<Pair>, n: nat, i: nat)
    requires Done(p, wt, pairs, n) && 0 < i < 2 * n - 1
    ensures |pairs| == n - 1 && Mated(ParentPlaces(p, pairs, n), Weights(wt, pairs, n), i)
  {
    hide Done, Place;
    DoneSizes(p, wt, pairs, n);
    ParentAt(p, wt, pairs, n, i);
    HalfOf(n, i);
    ParentAt(p, wt, pairs, n, Mate(i));
    PairOpen(p, wt, pairs, n, PairOf(n, i));
    assert PairOf(n, Mate(i)) == PairOf(n, i);
  }

  lemma DoneWeights(p: seq<int>, wt: seq<int>, pairs: seq<Pair>, n: nat, x: int)
    requires Done(p, wt, pairs, n) && 1 <= x < 2 * n
    ensures |wt| == 2 * n && 0 < wt[x]
  {
  }

  lemma PairsOrdered(p: seq<int>, wt: seq<int>, pairs: seq<Pair>, n: nat, k: nat, m: nat)
    requires Done(p, wt, pairs, n) && k <= m < n - 1
    ensures |pairs| == n - 1 && |wt| == 2 * n
    ensures 1 <= pairs[k].light < 2 * n && 1 <= pairs[k].heavy < 2 * n && wt[pairs[k].light] <= wt[pairs[k].heavy]
    ensures 1 <= pairs[m].light < 2 * n && 1 <= pairs[m].heavy < 2 * n && wt[pairs[m].light] <= wt[pairs[m].heavy]
    ensures k < m ==> wt[pairs[k].heavy] <= wt[pairs[m].light]
  {
    hide IsForest, PairAt, InPair;
    PairOpen(p, wt, pairs, n, k);
    PairOpen(p, wt, pairs, n, m);
  }

  /** Weights do not grow along the list. */
  lemma LighterLater(p: seq<int>, wt: seq<int>, pairs: seq<Pair>, n: nat, i: nat, j: nat)
    requires Done(p, wt, pairs, n) && i <= j < 2 * n - 1
    ensures |pairs| == n - 1 && 0 < Weights(wt, pairs, n)[j] <= Weights(wt, pairs, n)[i]
  {
    hide Done, Place;
    DoneSizes(p, wt, pairs, n);
    NodeFacts(p, wt, pairs, n, i);
    NodeFacts(p, wt, pairs, n, j);
    var z := NodeAt(pairs, n, j);
    DoneWeights(p, wt, pairs, n, z);
    if 0 < i < j {
      HalfOf(n, i);
      HalfOf(n, j);
      PairsOrdered(p, wt, pairs, n, PairOf(n, j), PairOf(n, i));
    } else if i == 0 < j {
      RootOutweighs(p, wt, pairs, n, z);
    }
  }

  /** The last node outweighs all others, since it lies above them. */
  lemma {:induction false} RootOutweighs(p: seq<int>, wt: seq<int>, pairs: seq<Pair>, n: nat, x: int)
    requires Done(p, wt, pairs, n) && 1 <= x < 2 * n
    ensures wt[x] <= wt[2 * n - 1]
    decreases 2 * n - x
  {
    if p[x] != -1 {
      var m := p[x] - n - 1;
      assert InPair(pairs, m, x);
      PairOpen(p, wt, pairs, n, m);
      RootOutweighs(p, wt, pairs, n, p[x]);
      assert 0 < wt[pairs[m].light] && 0 < wt[pairs[m].heavy];
    }
  }

  /** Node y has the two children of its pair, a leaf has none. */
  lemma {:induction false} KidsAt(p: seq<int>, wt: seq<int>, pairs: seq<Pair>, n: nat, k: nat, j: nat)
    requires Done(p, wt, pairs, n) && k < 2 * n - 1 && j <= 2 * n - 1
    ensures |pairs| == n - 1
    ensures var m := NodeAt(pairs, n, k) - n - 1; var first := 2 * (n - 2 - m) + 1;
            Kids(ParentPlaces(p, pairs, n), k, j) ==
            if m < 0 then 0 else (if first < j then 1 else 0) + (if first + 1 < j then 1 else 0)
  {
    hide Done, Place, NodeAt;
    DoneSizes(p, wt, pairs, n);
    KidsRange(p, wt, pairs, n, k);
    if j > 1 {
      KidsAt(p, wt, pairs, n, k, j - 1);
      ParentAt(p, wt, pairs, n, j - 1);
      HalfOf(n, j - 1);
      SamePlace(p, wt, pairs, n, k, n + 1 + PairOf(n, j - 1));
    }
  }

  lemma SamePlace(p: seq<int>, wt: seq<int>, pairs: seq<Pair>, n: nat, k: nat, y: int)
    requires Done(p, wt, pairs, n) && k < 2 * n - 1 && 1 <= y < 2 * n
    ensures |pairs| == n - 1 && (Place(p, pairs, n, y) == k <==> NodeAt(pairs, n, k) == y)
  {
    hide Done, Place, NodeAt;
    DoneSizes(p, wt, pairs, n);
    NodeFacts(p, wt, pairs, n, k);
    PlaceFacts(p, wt, pairs, n, y);
  }

  lemma KidsRange(p: seq<int>, wt: seq<int>, pairs: seq<Pair>, n: nat, k: nat)
    requires Done(p, wt, pairs, n) && k < 2 * n - 1
    ensures |pairs| == n - 1 && 1 <= NodeAt(pairs, n, k) < 2 * n
  {
    DoneSizes(p, wt, pairs, n);
    NodeFacts(p, wt, pairs, n, k);
  }

  // ---------- the code of a finished tree ----------

  ghost function DepthsAt(p: seq<int>, pairs: seq<Pair>, n: nat): (d: seq<int>)
    requires n >= 2 && |pairs| == n - 1 && IsForest(p) && |p| == 2 * n
    ensures |d| == 2 * n - 1
    ensures forall i :: 0 <= i < |d| ==>
              d[i] == if 1 <= NodeAt(pairs, n, i) < |p| then Depth(p, NodeAt(pairs, n, i)) else 0
  {
    seq(2 * n - 1, i requires 0 <= i < 2 * n - 1 =>
      if 1 <= NodeAt(pairs, n, i) < |p| then Depth(p, NodeAt(pairs, n, i)) else 0)
  }

  lemma DepthsGood(p: seq<int>, wt: seq<int>, pairs: seq<Pair>, n: nat)
    requires Done(p, wt, pairs, n)
    ensures |pairs| == n - 1 && |p| == 2 * n && IsForest(p) &&
            Depths(ParentPlaces(p, pairs, n), DepthsAt(p, pairs, n))
  {
    hide Done, Place, NodeAt, IsForest;
    DoneSizes(p, wt, pairs, n);
    var par, d := ParentPlaces(p, pairs, n), DepthsAt(p, pairs, n);
    NodeFacts(p, wt, pairs, n, 0);
    forall i | 0 < i < |par| ensures 0 <= par[i] < i && d[i] == d[par[i]] + 1 {
      ParentAt(p, wt, pairs, n, i);
      NodeFacts(p, wt, pairs, n, i);
      NodeFacts(p, wt, pairs, n, par[i]);
    }
  }

  lemma HuffmanGood(p: seq<int>, wt: seq<int>, pairs: seq<Pair>, n: nat)
    requires Done(p, wt, pairs, n)
    ensures |pairs| == n - 1 && Huffman(ParentPlaces(p, pairs, n), Weights(wt, pairs, n))
    ensures IsTree(ParentPlaces(p, pairs, n), Leaves(Order(pairs, n), n - 1))
  {
    hide Done, Place, NodeAt, Mated, Kids;
    DoneSizes(p, wt, pairs, n);
    var par, w, leaf := ParentPlaces(p, pairs, n), Weights(wt, pairs, n), Leaves(Order(pairs, n), n - 1);
    forall i | 0 < i < |par| ensures 0 <= par[i] < i && Mated(par, w, i) {
      ParentAt(p, wt, pairs, n, i);
      BrotherAt(p, wt, pairs, n, i);
    }
    forall k | 0 <= k < |par| ensures Kids(par, k, |par|) == if leaf[k] then 0 else 2 {
      KidsAt(p, wt, pairs, n, k, |par|);
      KidsRange(p, wt, pairs, n, k);
    }
    forall i, j | 0 <= i <= j < |par| ensures 0 <= w[j] <= w[i] { LighterLater(p, wt, pairs, n, i, j); }
    RootFirst(pairs, n);
  }

  lemma RootFirst(pairs: seq<Pair>, n: nat)
    requires n >= 2 && |pairs| == n - 1
    ensures NodeAt(pairs, n, 0) == 2 * n - 1
  {
  }

  lemma OrderGood(p: seq<int>, wt: seq<int>, pairs: seq<Pair>, n: nat)
    requires Done(p, wt, pairs, n)
    ensures |pairs| == n - 1 && |wt| == 2 * n && Lists(Order(pairs, n), wt[1..n + 1])
    ensures forall k :: 0 <= k < 2 * n - 1 && Order(pairs, n)[k] < n ==>
              Weights(wt, pairs, n)[k] == wt[1..n + 1][Order(pairs, n)[k]]
  {
    hide Done, Place, NodeAt;
    DoneSizes(p, wt, pairs, n);
    var order := Order(pairs, n);
    forall k | 0 <= k < |order| ensures 0 <= order[k] < 2 * n - 1 { KidsRange(p, wt, pairs, n, k); }
    forall i, j | 0 <= i < j < |order| ensures order[i] != order[j] {
      NodeFacts(p, wt, pairs, n, i);
      NodeFacts(p, wt, pairs, n, j);
    }
    forall x | 0 <= x < n ensures x in order && wt[1..n + 1][x] > 0 {
      PlaceFacts(p, wt, pairs, n, x + 1);
      DoneWeights(p, wt, pairs, n, x + 1);
      assert order[Place(p, pairs, n, x + 1)] == x;
    }
  }

  /** The leaf depths of a tree made by always joining the two lightest nodes are the lengths
      of a code that is cheapest among all that satisfy Kraft's inequality. */
  lemma LeafDepthsCheapest(p: seq<int>, wt: seq<int>, pairs: seq<Pair>, n: nat, lens: seq<int>)
    requires Done(p, wt, pairs, n) && |lens| == n
    requires forall j :: 0 <= j < n ==> IsForest(p) && j + 1 < |p| && lens[j] == Depth(p, j + 1)
    ensures |wt| == 2 * n && CheapestCode(wt[1..n + 1], lens)
  {
    hide Done, Place, NodeAt, Huffman, Depths, IsTree, CheapestCode, Lists;
    DoneSizes(p, wt, pairs, n);
    DepthsGood(p, wt, pairs, n);
    HuffmanGood(p, wt, pairs, n);
    OrderGood(p, wt, pairs, n);
    ListsOpen(Order(pairs, n), wt[1..n + 1]);
    var order, d := Order(pairs, n), DepthsAt(p, pairs, n);
    forall k | 0 <= k < |order| && order[k] < n ensures d[k] == lens[order[k]] { KidsRange(p, wt, pairs, n, k); }
    DepthsCheapest(order, ParentPlaces(p, pairs, n), Weights(wt, pairs, n), wt[1..n + 1], d, lens);
  }

  lemma ListsOpen(order: seq<int>, freq: seq<int>)
    requires Lists(order, freq)
    ensures Distinct(order) && forall k :: 0 <= k < |order| ==> 0 <= order[k]
  {
  }
}
