/** Cyclic rotations of a block and their lexicographic order.

    Rotation i of block s is s[i..] + s[..i].  Rotations are compared symbol by
    symbol with wrap-around, which is also how the block sorter sees them.
    Distinct rotations of a periodic block tie. */
module Rotations {
  import opened Common

  /** The position after i, read cyclically. */
  function Next(n: nat, i: int): int { if i + 1 == n then 0 else i + 1 }

  /** The position before i, read cyclically. */
  function Prev(n: nat, i: int): int { if i == 0 then n - 1 else i - 1 }

  /** The position k steps after i, read cyclically. */
  function Fwd(n: nat, i: int, k: nat): (j: int)
    requires 0 <= i < n
    ensures 0 <= j < n
    decreases k
  {
    if k == 0 then i else Fwd(n, Next(n, i), k - 1)
  }

  /** Three-way comparison of the first h symbols of rotations i and j. */
  function Cmp(s: seq<Byte>, i: int, j: int, h: nat): (c: int)
    requires 0 <= i < |s| && 0 <= j < |s|
    ensures -1 <= c <= 1
    decreases h
  {
    if h == 0 then 0
    else if s[i] < s[j] then -1
    else if s[i] > s[j] then 1
    else Cmp(s, Next(|s|, i), Next(|s|, j), h - 1)
  }

  function Sign(x: int): int { if x < 0 then -1 else if x > 0 then 1 else 0 }

  // ---------- the order ----------

  lemma {:induction false} FwdClosed(n: nat, i: int, k: nat)
    requires 0 <= i < n && k <= n
    ensures Fwd(n, i, k) == if i + k < n then i + k else i + k - n
    decreases k
  {
    if k > 0 { FwdClosed(n, Next(n, i), k - 1); }
  }

  lemma {:induction false} CmpFlip(s: seq<Byte>, i: int, j: int, h: nat)
    requires 0 <= i < |s| && 0 <= j < |s|
    ensures Cmp(s, j, i, h) == -Cmp(s, i, j, h)
    decreases h
  {
    if h > 0 && s[i] == s[j] { CmpFlip(s, Next(|s|, i), Next(|s|, j), h - 1); }
  }

  lemma {:induction false} CmpTrans(s: seq<Byte>, i: int, j: int, k: int, h: nat)
    requires 0 <= i < |s| && 0 <= j < |s| && 0 <= k < |s|
    requires Cmp(s, i, j, h) <= 0 && Cmp(s, j, k, h) <= 0
    ensures Cmp(s, i, k, h) == Min(Cmp(s, i, j, h), Cmp(s, j, k, h))
    decreases h
  {
    if h > 0 && s[i] == s[j] == s[k] {
      CmpTrans(s, Next(|s|, i), Next(|s|, j), Next(|s|, k), h - 1);
    }
  }

  /** Comparing a + b symbols is comparing a of them and then, on a tie, the next b. */
  lemma {:induction false} CmpSplit(s: seq<Byte>, i: int, j: int, a: nat, b: nat)
    requires 0 <= i < |s| && 0 <= j < |s|
    ensures Cmp(s, i, j, a + b) ==
            if Cmp(s, i, j, a) != 0 then Cmp(s, i, j, a)
            else Cmp(s, Fwd(|s|, i, a), Fwd(|s|, j, a), b)
    decreases a
  {
    if a > 0 && s[i] == s[j] { CmpSplit(s, Next(|s|, i), Next(|s|, j), a - 1, b); }
  }

  /** A strict order on h symbols stays strict on more, and stays weak on fewer. */
  lemma CmpResize(s: seq<Byte>, i: int, j: int, h: nat, m: nat)
    requires 0 <= i < |s| && 0 <= j < |s|
    requires Cmp(s, i, j, h) < 0 || (m <= h && Cmp(s, i, j, h) <= 0)
    ensures if h <= m then Cmp(s, i, j, m) < 0 || m == h else Cmp(s, i, j, m) <= 0
  {
    if h <= m {
      CmpSplit(s, i, j, h, m - h);
    } else {
      CmpSplit(s, i, j, m, h - m);
    }
  }

  lemma {:induction false} CmpRefl(s: seq<Byte>, i: int, h: nat)
    requires 0 <= i < |s|
    ensures Cmp(s, i, i, h) == 0
    decreases h
  {
    if h > 0 { CmpRefl(s, Next(|s|, i), h - 1); }
  }

  /** Rotations that agree on a whole turn still agree one position further on. */
  lemma CmpTieNext(s: seq<Byte>, i: int, j: int)
    requires 0 <= i < |s| && 0 <= j < |s|
    requires Cmp(s, i, j, |s|) == 0
    ensures s[i] == s[j] && Cmp(s, Next(|s|, i), Next(|s|, j), |s|) == 0
  {
    var n := |s|;
    assert s[i] == s[j];
    assert Fwd(n, i, n) == i && Fwd(n, j, n) == j by {
      FwdClosed(n, i, n);
      FwdClosed(n, j, n);
    }
    assert Cmp(s, i, j, n + 1) == 0 by {
      CmpSplit(s, i, j, n, 1);
    }
  }

  /** ... and one position before. */
  lemma {:induction false} CmpTiePrev(s: seq<Byte>, i: int, j: int)
    requires 0 <= i < |s| && 0 <= j < |s|
    requires Cmp(s, i, j, |s|) == 0
    ensures Cmp(s, Prev(|s|, i), Prev(|s|, j), |s|) == 0
  {
    var n := |s|;
    CmpTieFwd(s, i, j, n - 1);
    FwdClosed(n, i, n - 1);
    FwdClosed(n, j, n - 1);
  }

  lemma {:induction false} CmpTieFwd(s: seq<Byte>, i: int, j: int, k: nat)
    requires 0 <= i < |s| && 0 <= j < |s|
    requires Cmp(s, i, j, |s|) == 0
    ensures Cmp(s, Fwd(|s|, i, k), Fwd(|s|, j, k), |s|) == 0
    decreases k
  {
    if k > 0 {
      CmpTieNext(s, i, j);
      CmpTieFwd(s, Next(|s|, i), Next(|s|, j), k - 1);
    }
  }

  lemma CmpOne(s: seq<Byte>, i: int, j: int)
    requires 0 <= i < |s| && 0 <= j < |s|
    ensures Cmp(s, i, j, 1) == Sign(s[i] as int - s[j] as int)
  {
  }

  // ---------- the same order, on rotations written out ----------

  /** Rotation i of s, written out. */
  function Rotation(s: seq<Byte>, i: int): seq<Byte>
    requires 0 <= i < |s|
  {
    s[i..] + s[..i]
  }

  /** Three-way lexicographic comparison of equally long byte strings. */
  function LexCmp(a: seq<Byte>, b: seq<Byte>): int
    requires |a| == |b|
  {
    if a == [] then 0
    else if a[0] < b[0] then -1
    else if a[0] > b[0] then 1
    else LexCmp(a[1..], b[1..])
  }

  /** The first h symbols read cyclically from i. */
  function Window(s: seq<Byte>, i: int, h: nat): (w: seq<Byte>)
    requires 0 <= i < |s|
    ensures |w| == h
    decreases h
  {
    if h == 0 then [] else [s[i]] + Window(s, Next(|s|, i), h - 1)
  }

  lemma {:induction false} CmpIsLexCmp(s: seq<Byte>, i: int, j: int, h: nat)
    requires 0 <= i < |s| && 0 <= j < |s|
    ensures Cmp(s, i, j, h) == LexCmp(Window(s, i, h), Window(s, j, h))
    decreases h
  {
    if h > 0 {
      CmpIsLexCmp(s, Next(|s|, i), Next(|s|, j), h - 1);
      assert Window(s, i, h)[1..] == Window(s, Next(|s|, i), h - 1);
      assert Window(s, j, h)[1..] == Window(s, Next(|s|, j), h - 1);
    }
  }

  lemma {:induction false} WindowAt(s: seq<Byte>, i: int, h: nat, k: nat)
    requires 0 <= i < |s| && k < h && k < |s|
    ensures Window(s, i, h)[k] == if i + k < |s| then s[i + k] else s[i + k - |s|]
    decreases h
  {
    if k > 0 { WindowAt(s, Next(|s|, i), h - 1, k - 1); }
  }

  /** Comparing |s| symbols cyclically is comparing the rotations written out. */
  lemma CmpIsRotationOrder(s: seq<Byte>, i: int, j: int)
    requires 0 <= i < |s| && 0 <= j < |s|
    ensures Cmp(s, i, j, |s|) == LexCmp(Rotation(s, i), Rotation(s, j))
  {
    CmpIsLexCmp(s, i, j, |s|);
    forall x | x == i || x == j
      ensures Window(s, x, |s|) == Rotation(s, x)
    {
      forall k | 0 <= k < |s| ensures Window(s, x, |s|)[k] == Rotation(s, x)[k] { WindowAt(s, x, |s|, k); }
    }
  }

  // ---------- permutations sorted by rotation ----------

  /** f lists 0..n-1 without repetition. */
  ghost predicate IsPermutation(f: seq<int>, n: nat) {
    && |f| == n
    && (forall p :: 0 <= p < n ==> 0 <= f[p] < n)
    && (forall p, q :: 0 <= p < q < n ==> f[p] != f[q])
  }

  /** Every pair of rotations listed by f is in order on its first h symbols. */
  ghost predicate SortedTo(s: seq<Byte>, f: seq<int>, h: nat)
    requires forall p :: 0 <= p < |f| ==> 0 <= f[p] < |s|
  {
    forall p, q :: 0 <= p <= q < |f| ==> Cmp(s, f[p], f[q], h) <= 0
  }

  /** What the block sorter promises: all rotations, in lexicographic order. */
  ghost predicate RotationSorted(s: seq<Byte>, f: seq<int>) {
    IsPermutation(f, |s|) && SortedTo(s, f, |s|)
  }

  /** Adjacent order is enough. */
  lemma {:induction false} SortedFromAdjacent(s: seq<Byte>, f: seq<int>, h: nat)
    requires forall p :: 0 <= p < |f| ==> 0 <= f[p] < |s|
    requires forall p :: 0 < p < |f| ==> Cmp(s, f[p - 1], f[p], h) <= 0
    ensures SortedTo(s, f, h)
  {
    forall p, q | 0 <= p <= q < |f| ensures Cmp(s, f[p], f[q], h) <= 0 { AdjacentChain(s, f, h, p, q); }
  }

  lemma {:induction false} AdjacentChain(s: seq<Byte>, f: seq<int>, h: nat, p: int, q: int)
    requires forall p :: 0 <= p < |f| ==> 0 <= f[p] < |s|
    requires forall p :: 0 < p < |f| ==> Cmp(s, f[p - 1], f[p], h) <= 0
    requires 0 <= p <= q < |f|
    ensures Cmp(s, f[p], f[q], h) <= 0
    decreases q - p
  {
    if p == q {
      CmpRefl(s, f[p], h);
    } else {
      AdjacentChain(s, f, h, p, q - 1);
      CmpTrans(s, f[p], f[q - 1], f[q], h);
    }
  }

  lemma {:induction false} SeqSetSize(f: seq<int>)
    requires forall p, q :: 0 <= p < q < |f| ==> f[p] != f[q]
    ensures |set p | 0 <= p < |f| :: f[p]| == |f|
  {
    if f != [] {
      var g := f[..|f| - 1];
      SeqSetSize(g);
      var sg := set p | 0 <= p < |g| :: g[p];
      assert forall p :: 0 <= p < |g| ==> g[p] == f[p];
      assert (set p | 0 <= p < |f| :: f[p]) == sg + {f[|f| - 1]};
      assert f[|f| - 1] !in sg;
    }
  }

  /** {0, ..., n - 1}. */
  ghost function Below(n: nat): (r: set<int>)
    ensures |r| == n
    ensures forall x :: x in r <==> 0 <= x < n
  {
    if n == 0 then {} else Below(n - 1) + {n - 1}
  }

  lemma SubsetSize(a: set<int>, b: set<int>)
    requires a <= b
    ensures |a| <= |b|
    ensures |a| == |b| ==> a == b
  {
    assert b == a + (b - a);
    assert |b| == |a| + |b - a|;
  }

  /** A permutation hits every index. */
  lemma PermutationHits(f: seq<int>, n: nat, x: int) returns (p: int)
    requires IsPermutation(f, n) && 0 <= x < n
    ensures 0 <= p < n && f[p] == x
  {
    SeqSetSize(f);
    var img := set p | 0 <= p < |f| :: f[p];
    SubsetSize(img, Below(n));
    assert x in img;
    p :| 0 <= p < n && f[p] == x;
  }

  /** Two listings of all rotations, each in weak order on h symbols, agree row by row
      up to ties, however each of them breaks the ties. */
  lemma SortedPermutationsAgree(s: seq<Byte>, a: seq<int>, b: seq<int>, h: nat, k: int)
    requires IsPermutation(a, |s|) && SortedTo(s, a, h)
    requires IsPermutation(b, |s|) && SortedTo(s, b, h)
    requires 0 <= k < |s|
    ensures Cmp(s, a[k], b[k], h) == 0
  {
    NoStrictStep(s, a, b, h, k);
    NoStrictStep(s, b, a, h, k);
    CmpFlip(s, a[k], b[k], h);
  }

  lemma NoStrictStep(s: seq<Byte>, a: seq<int>, b: seq<int>, h: nat, k: int)
    requires IsPermutation(a, |s|) && SortedTo(s, a, h)
    requires IsPermutation(b, |s|) && SortedTo(s, b, h)
    requires 0 <= k < |s|
    ensures Cmp(s, a[k], b[k], h) >= 0
  {
    if Cmp(s, a[k], b[k], h) < 0 {
      // the k + 1 rotations a[0..k] are all strictly below b[k..], so they lie in b[..k]
      var low, bot := a[..k + 1], b[..k];
      SeqSetSize(low);
      SeqSetSize(bot);
      var lowSet, botSet := set p | 0 <= p < |low| :: low[p], set p | 0 <= p < |bot| :: bot[p];
      forall x | x in lowSet ensures x in botSet {
        var p :| 0 <= p < |low| && low[p] == x;
        var q := PermutationHits(b, |s|, x);
        if k <= q {
          CmpTrans(s, a[p], a[k], b[k], h);
          CmpTrans(s, a[p], b[k], b[q], h);
          CmpRefl(s, b[q], h);
        }
        assert bot[q] == x;
      }
      SubsetSize(lowSet, botSet);
    }
  }

  /** A listing that undoes a permutation is a permutation, and is undone by it. */
  lemma InversePermutation(f: seq<int>, g: seq<int>, n: nat)
    requires IsPermutation(g, n) && |f| == n
    requires forall i :: 0 <= i < n ==> f[g[i]] == i
    ensures IsPermutation(f, n)
    ensures forall p :: 0 <= p < n ==> g[f[p]] == p
  {
    forall p | 0 <= p < n ensures 0 <= f[p] < n && g[f[p]] == p {
      var i := PermutationHits(g, n, p);
    }
  }
}
