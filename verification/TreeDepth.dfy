/** How deep a Huffman tree gets when the two lightest nodes are joined, of equally light ones
    the shallower: a node is its weight times 256 plus its height. */
module TreeDepth {
  import opened Common
  import opened Forest

  ghost predicate IsLeast(s: multiset<int>, x: int) {
    x in s && forall y :: y in s ==> x <= y
  }

  lemma EmptyOrNot(s: multiset<int>)
    ensures s == multiset{} || exists x :: x in s
  {
    if forall x :: x !in s { assert s == multiset{}; }
  }

  lemma {:induction false} LeastExists(s: multiset<int>)
    requires s != multiset{}
    ensures exists x :: IsLeast(s, x)
    decreases |s|
  {
    EmptyOrNot(s);
    var x :| x in s;
    var rest := s - multiset{x};
    assert forall y :: y in s ==> y == x || y in rest;
    if rest == multiset{} {
      assert IsLeast(s, x);
    } else {
      LeastExists(rest);
      var z :| IsLeast(rest, z);
      assert IsLeast(s, if z < x then z else x);
    }
  }

  ghost function Least(s: multiset<int>): (x: int)
    requires s != multiset{}
    ensures IsLeast(s, x)
  {
    LeastExists(s);
    var x :| IsLeast(s, x);
    x
  }

  /** Two nodes under a new one. */
  function Join(a: int, b: int): int {
    (a / 256 + b / 256) * 256 + 1 + Max(a % 256, b % 256)
  }

  /** The root in the end. */
  ghost function Settle(s: multiset<int>): int
    requires s != multiset{}
    decreases |s|
  {
    var a := Least(s);
    var rest := s - multiset{a};
    if rest == multiset{} then a
    else
      var b := Least(rest);
      Settle(rest - multiset{b} + multiset{Join(a, b)})
  }

  /** Leaves 1 to k of these weights. */
  ghost function LeafBag(w: seq<int>, k: nat): multiset<int>
    requires k < |w|
  {
    if k == 0 then multiset{} else LeafBag(w, k - 1) + multiset{w[k] * 256}
  }

  /** The depth of the deepest leaf. */
  ghost function HuffmanDepth(w: seq<int>): int
    requires |w| > 1
  {
    LeafSome(w);
    Settle(LeafBag(w, |w| - 1)) % 256
  }

  lemma LeafSome(w: seq<int>)
    requires |w| > 1
    ensures LeafBag(w, |w| - 1) != multiset{}
  {
    assert w[|w| - 1] * 256 in LeafBag(w, |w| - 1);
  }

  // ---------- the roots of a forest ----------

  /** The values of the roots among nodes 1 to k. */
  ghost function Bag(p: seq<int>, f: seq<int>, k: nat): multiset<int>
    requires k < |p| && k < |f|
  {
    if k == 0 then multiset{} else Bag(p, f, k - 1) + if p[k] == -1 then multiset{f[k]} else multiset{}
  }

  lemma {:induction false} BagHas(p: seq<int>, f: seq<int>, k: nat, v: int)
    requires k < |p| && k < |f|
    ensures v in Bag(p, f, k) <==> exists x :: 1 <= x <= k && p[x] == -1 && f[x] == v
  {
    if k > 0 { BagHas(p, f, k - 1, v); }
  }

  lemma {:induction false} BagSame(p: seq<int>, f: seq<int>, q: seq<int>, g: seq<int>, k: nat)
    requires k < |p| && k < |f| && k < |q| && k < |g|
    requires forall x :: 1 <= x <= k ==> (p[x] == -1 <==> q[x] == -1) && f[x] == g[x]
    ensures Bag(q, g, k) == Bag(p, f, k)
  {
    if k > 0 { BagSame(p, f, q, g, k - 1); }
  }

  /** A root that becomes a child is no longer among them. */
  lemma {:induction false} BagLess(p: seq<int>, f: seq<int>, a: int, y: int, k: nat)
    requires k < |p| && k < |f| && 1 <= a < |p| && p[a] == -1 && y != -1
    ensures Bag(p[a := y], f, k) + (if a <= k then multiset{f[a]} else multiset{}) == Bag(p, f, k)
  {
    if k > 0 {
      BagLess(p, f, a, y, k - 1);
      if k == a { BagSame(p, f, p[a := y], f, k - 1); }
    }
  }

  /** The lightest root. */
  lemma LeastRoot(p: seq<int>, f: seq<int>, a: int)
    requires |p| == |f| && 1 <= a < |p| && p[a] == -1
    requires forall r :: 1 <= r < |p| && p[r] == -1 ==> f[a] <= f[r]
    ensures var s := Bag(p, f, |p| - 1); s != multiset{} && Least(s) == f[a]
  {
    hide Bag;
    var s := Bag(p, f, |p| - 1);
    BagHas(p, f, |p| - 1, f[a]);
    BagHas(p, f, |p| - 1, Least(s));
  }

  lemma SettleOpen(s: multiset<int>, a: int, b: int)
    requires s != multiset{} && Least(s) == a && s - multiset{a} != multiset{} && Least(s - multiset{a}) == b
    ensures Settle(s) == Settle(s - multiset{a} - multiset{b} + multiset{Join(a, b)})
  {
    hide Least, Join;
  }

  /** Joining the two lightest roots is a step towards the same end. */
  lemma SettleStep(p: seq<int>, f: seq<int>, a: int, b: int)
    requires Mergeable(p, a, b) && |f| == |p|
    requires forall r :: 1 <= r < |p| && p[r] == -1 ==> f[a] <= f[r] && (r != a ==> f[b] <= f[r])
    ensures var q, n := Merge(p, a, b), |p|;
            var s, s' := Bag(p, f, n - 1), Bag(q, f + [Join(f[a], f[b])], n);
            s != multiset{} && s' != multiset{} && Settle(s') == Settle(s)
  {
    hide Join, Settle, Least, Bag;
    var n, p1 := |p|, p[a := |p|];
    LeastRoot(p, f, a);
    LeastRoot(p1, f, b);
    BagLess(p, f, a, n, n - 1);
    BagLess(p1, f, b, n, n - 1);
    BagMerged(p, f, a, b);
    SettleNext(Bag(p, f, n - 1), Bag(p1, f, n - 1), Bag(p1[b := n], f, n - 1), f[a], f[b]);
  }

  lemma SettleNext(s: multiset<int>, rest: multiset<int>, others: multiset<int>, a: int, b: int)
    requires rest + multiset{a} == s && others + multiset{b} == rest && s != multiset{} && rest != multiset{}
    requires Least(s) == a && Least(rest) == b
    ensures Settle(s) == Settle(others + multiset{Join(a, b)})
  {
    hide Least, Join, Settle;
    assert s - multiset{a} == rest && rest - multiset{b} == others;
    SettleOpen(s, a, b);
  }

  lemma BagMerged(p: seq<int>, f: seq<int>, a: int, b: int)
    requires Mergeable(p, a, b) && |f| == |p|
    ensures var q, n, v := Merge(p, a, b), |p|, Join(f[a], f[b]);
            Bag(q, f + [v], n) == Bag(p[a := n][b := n], f, n - 1) + multiset{v}
  {
    hide Join;
    var n, q, v := |p|, Merge(p, a, b), Join(f[a], f[b]);
    BagSame(p[a := n][b := n], f, q, f + [v], n - 1);
  }

  /** The leaves alone. */
  lemma {:induction false} BagOfLeaves(w: seq<int>, p: seq<int>, f: seq<int>, k: nat)
    requires k < |w| && k < |p| && k < |f| && forall x :: 1 <= x <= k ==> p[x] == -1 && f[x] == w[x] * 256
    ensures Bag(p, f, k) == LeafBag(w, k)
  {
    if k > 0 { BagOfLeaves(w, p, f, k - 1); }
  }

  lemma {:induction false} BagNone(p: seq<int>, f: seq<int>, k: nat)
    requires k < |p| && k < |f| && forall x :: 1 <= x <= k ==> p[x] != -1
    ensures Bag(p, f, k) == multiset{}
  {
    if k > 0 { BagNone(p, f, k - 1); }
  }

  /** One root is left. */
  lemma SettledAt(p: seq<int>, f: seq<int>)
    requires IsForest(p) && 2 <= |p| == |f| && forall r :: 1 <= r < |p| && p[r] == -1 ==> r == |p| - 1
    ensures Bag(p, f, |p| - 1) == multiset{f[|p| - 1]} && Settle(Bag(p, f, |p| - 1)) == f[|p| - 1]
  {
    BagNone(p, f, |p| - 2);
  }
}
