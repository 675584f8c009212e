/** The transform itself: what the last column of the sorted rotations is, and why
    following ranks in it spells the block again, also when rotations tie. */
module BurrowsWheeler {
  import opened Common
  import opened Rotations
  import opened Counting

  /** The symbol before each sorted rotation. */
  function LastColumn(s: seq<Byte>, f: seq<int>): (l: seq<Byte>)
    requires IsPermutation(f, |s|)
    ensures |l| == |s| && forall i :: 0 <= i < |s| ==> l[i] == s[Prev(|s|, f[i])]
  {
    seq(|s|, i requires 0 <= i < |s| => s[Prev(|s|, f[i])])
  }

  /** tl undoes the stable ranking of column l: it leads from each rank to its position. */
  ghost predicate Links(l: seq<Byte>, tl: seq<int>) {
    && |tl| == |l|
    && (forall i :: 0 <= i < |l| ==> 0 <= Rank(l, i) < |l|)
    && forall i :: 0 <= i < |l| ==> tl[Rank(l, i)] == i
  }

  lemma LinksInverse(l: seq<Byte>, tl: seq<int>)
    requires Links(l, tl)
    ensures IsPermutation(tl, |l|)
    ensures forall k :: 0 <= k < |l| ==> Rank(l, tl[k]) == k
  {
    RanksPermutation(l);
    InversePermutation(tl, Ranks(l), |l|);
    forall k | 0 <= k < |l| ensures Rank(l, tl[k]) == k { assert Ranks(l)[tl[k]] == k; }
  }

  /** Ranks are in order of symbol and, for equal symbols, of position. */
  lemma RankOrder(l: seq<Byte>, i: int, j: int)
    requires 0 <= i < |l| && 0 <= j < |l| && Rank(l, i) <= Rank(l, j)
    ensures l[i] < l[j] || (l[i] == l[j] && i <= j)
  {
    RankInBucket(l, i);
    RankInBucket(l, j);
    if l[i] > l[j] {
      CumMonotone(l, l[j] as int + 1, l[i]);
    } else if l[i] == l[j] && j < i {
      CountStep(l, j, i);
    }
  }

  /** The rotations one step before the sorted ones, listed by rank. */
  ghost function Shifted(f: seq<int>, tl: seq<int>): (b: seq<int>)
    requires IsPermutation(f, |f|) && IsPermutation(tl, |f|)
    ensures |b| == |f| && forall k :: 0 <= k < |f| ==> b[k] == Prev(|f|, f[tl[k]])
  {
    seq(|f|, k requires 0 <= k < |f| => Prev(|f|, f[tl[k]]))
  }

  /** Stepping back preserves order among rotations preceded by the same symbol. */
  lemma PrevOrder(s: seq<Byte>, x: int, y: int)
    requires 0 <= x < |s| && 0 <= y < |s|
    requires var a, b := s[Prev(|s|, x)], s[Prev(|s|, y)];
             a < b || (a == b && Cmp(s, x, y, |s|) <= 0)
    ensures Cmp(s, Prev(|s|, x), Prev(|s|, y), |s|) <= 0
  {
    var n, px, py := |s|, Prev(|s|, x), Prev(|s|, y);
    assert Next(n, px) == x && Next(n, py) == y;
    assert Cmp(s, px, py, n + 1) <= 0;
    CmpResize(s, px, py, n + 1, n);
  }

  /** Those rotations are all rotations, sorted again: the ranking is a stable sort on the
      symbol in front of rows that were sorted already. */
  lemma ShiftedSorted(s: seq<Byte>, f: seq<int>, tl: seq<int>)
    requires RotationSorted(s, f) && Links(LastColumn(s, f), tl) && IsPermutation(tl, |s|)
    ensures RotationSorted(s, Shifted(f, tl))
  {
    var n, l, b := |s|, LastColumn(s, f), Shifted(f, tl);
    LinksInverse(l, tl);
    forall p, q | 0 <= p <= q < n ensures Cmp(s, b[p], b[q], n) <= 0 {
      RankOrder(l, tl[p], tl[q]);
      if tl[p] <= tl[q] {
        assert Cmp(s, f[tl[p]], f[tl[q]], n) <= 0;
      }
      PrevOrder(s, f[tl[p]], f[tl[q]]);
    }
    forall p, q | 0 <= p < q < n ensures b[p] != b[q] {
      assert tl[p] != tl[q];
      assert f[tl[p]] != f[tl[q]];
    }
  }

  /** Following a link moves one step on in the block, up to ties. */
  lemma LinkStepsForward(s: seq<Byte>, f: seq<int>, tl: seq<int>, k: int)
    requires RotationSorted(s, f) && Links(LastColumn(s, f), tl) && 0 <= k < |s|
    ensures 0 <= tl[k] < |s| && Cmp(s, Next(|s|, f[k]), f[tl[k]], |s|) == 0
  {
    hide Cmp, SortedTo, LastColumn, Links;
    LinksInverse(LastColumn(s, f), tl);
    ShiftedSorted(s, f, tl);
    SortedPermutationsAgree(s, f, Shifted(f, tl), |s|, k);
    var y := Prev(|s|, f[tl[k]]);
    CmpTieNext(s, f[k], y);
    assert Next(|s|, y) == f[tl[k]];
  }

  // ---------- reading the block back ----------

  /** Row t is the one whose last-column symbol is the block's symbol x. */
  ghost predicate AtSymbol(s: seq<Byte>, f: seq<int>, t: int, x: int) {
    && IsPermutation(f, |s|) && 0 <= t < |s| && 0 <= x < |s|
    && Cmp(s, Next(|s|, x), f[t], |s|) == 0
  }

  /** The walk starts at symbol 0, one link past the row of the block itself. */
  lemma WalkStarts(s: seq<Byte>, f: seq<int>, tl: seq<int>, origPtr: int)
    requires RotationSorted(s, f) && Links(LastColumn(s, f), tl)
    requires 0 <= origPtr < |s| && f[origPtr] == 0
    ensures 0 <= tl[origPtr] < |s| && AtSymbol(s, f, tl[origPtr], 0)
  {
    LinkStepsForward(s, f, tl, origPtr);
  }

  /** One step of the walk yields the block's next symbol and moves on to the one after. */
  lemma WalkSteps(s: seq<Byte>, f: seq<int>, tl: seq<int>, t: int, x: int)
    requires RotationSorted(s, f) && Links(LastColumn(s, f), tl) && AtSymbol(s, f, t, x)
    ensures LastColumn(s, f)[t] == s[x]
    ensures 0 <= tl[t] < |s| && AtSymbol(s, f, tl[t], Next(|s|, x))
  {
    var n := |s|;
    CmpTiePrev(s, Next(n, x), f[t]);
    CmpTieNext(s, Prev(n, Next(n, x)), Prev(n, f[t]));
    assert Prev(n, Next(n, x)) == x;
    CmpTieNext(s, Next(n, x), f[t]);
    LinkStepsForward(s, f, tl, t);
    CmpTrans(s, Next(n, Next(n, x)), Next(n, f[t]), f[tl[t]], n);
  }

  /** What k steps of the walk from row t spell. */
  function Walk(l: seq<Byte>, tl: seq<int>, t: int, k: nat): (w: seq<Byte>)
    requires |tl| == |l| && 0 <= t < |l| && forall i :: 0 <= i < |tl| ==> 0 <= tl[i] < |l|
    ensures |w| == k
    decreases k
  {
    if k == 0 then [] else [l[t]] + Walk(l, tl, tl[t], k - 1)
  }

  lemma {:induction false} WalkSpells(s: seq<Byte>, f: seq<int>, tl: seq<int>, t: int, x: int, k: nat)
    requires RotationSorted(s, f) && Links(LastColumn(s, f), tl) && IsPermutation(tl, |s|) && AtSymbol(s, f, t, x)
    ensures Walk(LastColumn(s, f), tl, t, k) == Window(s, x, k)
    decreases k
  {
    if k > 0 {
      WalkSteps(s, f, tl, t, x);
      WalkSpells(s, f, tl, tl[t], Next(|s|, x), k - 1);
    }
  }

  /** The inverse transform: from the last column and the row of the block, the walk spells
      the block, whichever way ties between equal rotations were broken, and begins again. */
  lemma InverseTransform(s: seq<Byte>, f: seq<int>, tl: seq<int>, origPtr: int)
    requires RotationSorted(s, f) && Links(LastColumn(s, f), tl) && IsPermutation(tl, |s|)
    requires 0 <= origPtr < |s| && f[origPtr] == 0
    ensures Walk(LastColumn(s, f), tl, tl[origPtr], |s| + 1) == s + [s[0]]
  {
    hide RotationSorted, Links, AtSymbol, LastColumn;
    WalkStarts(s, f, tl, origPtr);
    WalkSpells(s, f, tl, tl[origPtr], 0, |s| + 1);
    WindowRound(s);
  }

  lemma WindowRound(s: seq<Byte>)
    requires |s| > 0
    ensures Window(s, 0, |s| + 1) == s + [s[0]]
  {
    hide Window;
    var w := Window(s, 0, |s| + 1);
    forall k | 0 <= k < |s| ensures w[k] == s[k] { WindowAt(s, 0, |s| + 1, k); }
    WindowFirst(s, 0, |s|);
    assert w == s + [s[0]];
  }

  /** After a full turn the first symbol comes again. */
  lemma {:induction false} WindowFirst(s: seq<Byte>, i: int, h: nat)
    requires 0 <= i < |s| && h <= |s|
    ensures Window(s, i, h + 1)[h] == s[if i + h < |s| then i + h else i + h - |s|]
    decreases h
  {
    if h > 0 { WindowFirst(s, Next(|s|, i), h - 1); }
  }

  // ---------- other sorts ----------

  /** The column does not depend on how ties were broken. */
  lemma LastColumnUnique(s: seq<Byte>, f: seq<int>, g: seq<int>)
    requires RotationSorted(s, f) && RotationSorted(s, g)
    ensures LastColumn(s, f) == LastColumn(s, g)
  {
    forall k | 0 <= k < |s| ensures LastColumn(s, f)[k] == LastColumn(s, g)[k] {
      SortedPermutationsAgree(s, f, g, |s|, k);
      CmpTiePrev(s, f[k], g[k]);
      CmpTieNext(s, Prev(|s|, f[k]), Prev(|s|, g[k]));
    }
  }

  /** The block equals none of its rotations. */
  ghost predicate Primitive(s: seq<Byte>) {
    forall r {:trigger Rotation(s, r)} :: 0 < r < |s| ==> Rotation(s, r) != s
  }

  lemma {:induction false} LexCmpZero(a: seq<Byte>, b: seq<Byte>)
    requires |a| == |b|
    ensures LexCmp(a, b) == 0 <==> a == b
    decreases |a|
  {
    if a != [] {
      LexCmpZero(a[1..], b[1..]);
      assert a == [a[0]] + a[1..] && b == [b[0]] + b[1..];
    }
  }

  /** Ties are equal rotations. */
  lemma TiesAreEqual(s: seq<Byte>, i: int, j: int)
    requires 0 <= i < |s| && 0 <= j < |s|
    ensures Cmp(s, i, j, |s|) == 0 <==> Rotation(s, i) == Rotation(s, j)
  {
    CmpIsRotationOrder(s, i, j);
    LexCmpZero(Rotation(s, i), Rotation(s, j));
  }

  /** Two rotations tie only if the block equals one of its rotations. */
  lemma TieTurnsBack(s: seq<Byte>, i: int, j: int)
    requires 0 <= i < |s| && 0 <= j < |s| && Cmp(s, i, j, |s|) == 0 && Primitive(s)
    ensures i == j
  {
    var n := |s|;
    var r := Fwd(n, j, n - i);
    CmpTieFwd(s, i, j, n - i);
    FwdClosed(n, i, n - i);
    FwdClosed(n, j, n - i);
    TiesAreEqual(s, 0, r);
    assert Rotation(s, 0) == s;
  }

  /** Such a block can be sorted in one way only. */
  lemma OrderUnique(s: seq<Byte>, f: seq<int>, g: seq<int>)
    requires RotationSorted(s, f) && RotationSorted(s, g) && Primitive(s)
    ensures f == g
  {
    forall k | 0 <= k < |s| ensures f[k] == g[k] {
      SortedPermutationsAgree(s, f, g, |s|, k);
      TieTurnsBack(s, f[k], g[k]);
    }
  }

  /** Any other can be sorted with its own row in two different places. */
  lemma OrderNotUnique(s: seq<Byte>, f: seq<int>) returns (g: seq<int>, p: nat, q: nat)
    requires RotationSorted(s, f) && !Primitive(s)
    ensures RotationSorted(s, g) && p < |s| && q < |s| && p != q && f[p] == 0 && g[q] == 0
  {
    hide Cmp, SortedTo;
    var r :| 0 < r < |s| && Rotation(s, r) == s;
    assert Rotation(s, 0) == s;
    TiesAreEqual(s, 0, r);
    p := PermutationHits(f, |s|, 0);
    q := PermutationHits(f, |s|, r);
    g := f[p := r][q := 0];
    StillSorted(s, f, g, r);
  }

  /** Exchanging two rotations that tie keeps the order. */
  lemma StillSorted(s: seq<Byte>, f: seq<int>, g: seq<int>, r: int)
    requires |f| == |g| == |s| && 0 < r < |s| && Cmp(s, 0, r, |s|) == 0
    requires (forall a :: 0 <= a < |s| ==> 0 <= f[a] < |s|) && SortedTo(s, f, |s|)
    requires forall a :: 0 <= a < |s| ==> (f[a] == g[a] || (f[a] == 0 && g[a] == r) || (f[a] == r && g[a] == 0))
    ensures SortedTo(s, g, |s|)
  {
    hide Cmp;
    forall a, b | 0 <= a <= b < |s| ensures Cmp(s, g[a], g[b], |s|) <= 0 {
      TieFor(s, f[a], g[a], r);
      TieFor(s, f[b], g[b], r);
      CmpTrans(s, g[a], f[a], f[b], |s|);
      CmpTrans(s, g[a], f[b], g[b], |s|);
    }
  }

  lemma TieFor(s: seq<Byte>, x: int, y: int, r: int)
    requires 0 < r < |s| && Cmp(s, 0, r, |s|) == 0 && 0 <= x < |s|
    requires x == y || (x == 0 && y == r) || (x == r && y == 0)
    ensures Cmp(s, x, y, |s|) == 0 && Cmp(s, y, x, |s|) == 0
  {
    hide Cmp;
    CmpRefl(s, x, |s|);
    CmpFlip(s, 0, r, |s|);
  }
}
