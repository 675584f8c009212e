/** gen_bitlen: code lengths from a Huffman tree, cut off at a limit and repaired so that
    they still make a complete code; gen_codes: the codes themselves. */
module BitLengths {
  import opened Common
  import opened LimitedTree

  const MAX_BITS := 15

  ghost predicate Distinct(order: seq<int>) {
    forall i, j :: 0 <= i < j < |order| ==> order[i] != order[j]
  }

  function Leaves(order: seq<int>, maxCode: int): (leaf: seq<bool>)
    ensures |leaf| == |order| && forall i :: 0 <= i < |order| ==> leaf[i] == (order[i] <= maxCode)
  {
    seq(|order|, i requires 0 <= i < |order| => order[i] <= maxCode)
  }

  /** The nodes as build_tree leaves them: parents first, dad[n] being the parent of n. */
  ghost predicate Built(order: seq<int>, dad: seq<int>, maxCode: int, par: seq<int>) {
    && |par| == |order| && IsTree(par, Leaves(order, maxCode)) && Distinct(order)
    && (forall i :: 0 <= i < |order| ==> 0 <= order[i] < |dad|)
    && (forall i {:trigger par[i]} :: 0 < i < |order| ==> dad[order[i]] == order[par[i]])
  }

  // ---------- the first pass ----------

  /** Lengths cut off at maxLength.  The array dl is the union of a node's dad and its
      length: a dad is read before it is overwritten, and a length after. */
  method FirstPass(dl: array<int>, order: seq<int>, maxCode: int, maxLength: nat, blCount: array<int>,
                   ghost par: seq<int>)
    returns (overflow: nat)
    requires Built(order, dl[..], maxCode, par) && dl != blCount && 1 <= maxLength <= MAX_BITS &&
             blCount.Length == MAX_BITS + 1
    modifies dl, blCount
    ensures forall i {:trigger Cut(par, maxLength, i)} :: 0 <= i < |order| ==> dl[order[i]] == Cut(par, maxLength, i)
    ensures forall d :: 0 <= d <= MAX_BITS ==>
              blCount[d] == AtDepth(par, Leaves(order, maxCode), maxLength, |order|, true, d)
    ensures overflow == Overflow(par, Leaves(order, maxCode), maxLength, |order|)
    ensures forall i :: 0 <= i < dl.Length && i !in order ==> dl[i] == old(dl[i])
  {
    hide Kids, AtDepth, Overflow, Cut;
    ghost var leaf := Leaves(order, maxCode);
    for bits := 0 to MAX_BITS + 1
      modifies blCount
      invariant forall d :: 0 <= d < bits ==> blCount[d] == 0
    {
      blCount[bits] := 0;
    }
    dl[order[0]] := 0;
    overflow := 0;
    FirstNode(par, leaf, maxLength);
    for h := 1 to |order|
      invariant forall k {:trigger Cut(par, maxLength, k)} :: 0 <= k < h ==> dl[order[k]] == Cut(par, maxLength, k)
      invariant forall k {:trigger par[k]} :: h <= k < |order| ==> dl[order[k]] == order[par[k]]
      invariant forall d :: 0 <= d <= MAX_BITS ==> blCount[d] == AtDepth(par, leaf, maxLength, h, true, d)
      invariant overflow == Overflow(par, leaf, maxLength, h)
      invariant forall i :: 0 <= i < dl.Length && i !in order ==> dl[i] == old(dl[i])
    {
      var n := order[h];
      assert dl[n] == order[par[h]];
      var bits := dl[dl[n]] + 1;
      assert bits == Cut(par, maxLength, par[h]) + 1;
      NextNode(par, leaf, maxLength, h);
      if bits > maxLength { bits, overflow := maxLength, overflow + 1; }
      dl[n] := bits;
      if n > maxCode { continue; }
      blCount[bits] := blCount[bits] + 1;
    }
  }

  lemma FirstNode(par: seq<int>, leaf: seq<bool>, l: nat)
    requires Parents(par) && |leaf| == |par| > 0 && !leaf[0]
    ensures Cut(par, l, 0) == 0 && Overflow(par, leaf, l, 1) == 0 && forall d :: AtDepth(par, leaf, l, 1, true, d) == 0
  {
    forall d ensures AtDepth(par, leaf, l, 1, true, d) == 0 { assert AtDepth(par, leaf, l, 0, true, d) == 0; }
  }

  lemma NextNode(par: seq<int>, leaf: seq<bool>, l: nat, h: nat)
    requires Parents(par) && |leaf| == |par| && 0 < h < |par|
    ensures Cut(par, l, h) == Min(Cut(par, l, par[h]) + 1, l)
    ensures Overflow(par, leaf, l, h + 1) == Overflow(par, leaf, l, h) + if Cut(par, l, par[h]) + 1 > l then 1 else 0
    ensures forall d :: AtDepth(par, leaf, l, h + 1, true, d) == AtDepth(par, leaf, l, h, true,
                                                                         d) + if leaf[h] && Cut(par, l, h) == d then 1
                                                                         else 0
  {
  }

  // ---------- sums over the length counts ----------

  /** The Kraft sum of counts of lengths 1 to b, scaled by 2^l. */
  ghost function CountedKraft(s: seq<int>, l: nat, b: nat): int
    requires b <= l && b < |s|
  {
    if b == 0 then 0 else CountedKraft(s, l, b - 1) + s[b] * Pow2(l - b)
  }

  ghost function CountedAll(s: seq<int>, b: nat): int
    requires b < |s|
  {
    if b == 0 then 0 else CountedAll(s, b - 1) + s[b]
  }

  lemma {:induction false} CountChanged(s: seq<int>, l: nat, b: nat, j: nat, v: int)
    requires b <= l && b < |s| && 1 <= j < |s| && j <= l
    ensures CountedKraft(s[j := v], l, b) == CountedKraft(s, l, b) + if j <= b then (v - s[j]) * Pow2(l - j) else 0
    ensures CountedAll(s[j := v], b) == CountedAll(s, b) + if j <= b then v - s[j] else 0
  {
    hide Pow2;
    if b > 0 {
      CountChanged(s, l, b - 1, j, v);
      if b == j { MulDistributes(Pow2(l - j), s[j], v - s[j]); }
    }
  }

  /** The counts of the leaves before position n, by cut depth. */
  ghost function DepthCounts(par: seq<int>, leaf: seq<bool>, l: nat, n: nat): (s: seq<int>)
    requires Parents(par) && |leaf| == |par| && n <= |par|
    ensures |s| == MAX_BITS + 1 && forall d :: 0 <= d <= MAX_BITS ==> s[d] == AtDepth(par, leaf, l, n, true, d)
  {
    seq(MAX_BITS + 1, d requires 0 <= d <= MAX_BITS => AtDepth(par, leaf, l, n, true, d))
  }

  ghost function LeafCount(leaf: seq<bool>, n: nat): nat
    requires n <= |leaf|
  {
    if n == 0 then 0 else LeafCount(leaf, n - 1) + if leaf[n - 1] then 1 else 0
  }

  lemma {:induction false} NothingCounted(s: seq<int>, l: nat, b: nat)
    requires b <= l && b < |s| && forall d :: 0 <= d <= b ==> s[d] == 0
    ensures CountedKraft(s, l, b) == 0 && CountedAll(s, b) == 0
  {
    if b > 0 { NothingCounted(s, l, b - 1); }
  }

  /** Weighing the leaves one by one or by their counts is the same. */
  lemma {:induction false} CountsWeigh(par: seq<int>, leaf: seq<bool>, l: nat, n: nat)
    requires Parents(par) && |leaf| == |par| && n <= |par| && 1 <= l <= MAX_BITS && (|leaf| > 0 ==> !leaf[0])
    ensures CountedKraft(DepthCounts(par, leaf, l, n), l, l) == WeightSum(par, leaf, l, n, true)
    ensures CountedAll(DepthCounts(par, leaf, l, n), l) == LeafCount(leaf, n)
    ensures DepthCounts(par, leaf, l, n)[0] == 0
  {
    hide CountedKraft, CountedAll, Pow2, Cut;
    var s := DepthCounts(par, leaf, l, n);
    if n == 0 {
      NothingCounted(s, l, l);
    } else {
      var t, d := DepthCounts(par, leaf, l, n - 1), Cut(par, l, n - 1);
      CountsWeigh(par, leaf, l, n - 1);
      if leaf[n - 1] {
        CutPositive(par, l, n - 1);
        CountChanged(t, l, l, d, t[d] + 1);
        assert s == t[d := t[d] + 1];
        assert 1 * Pow2(l - d) == Pow2(l - d);
      } else {
        assert s == t;
      }
    }
  }

  lemma CutPositive(par: seq<int>, l: nat, i: nat)
    requires Parents(par) && 0 < i < |par| && 1 <= l
    ensures 1 <= Cut(par, l, i) <= l
  {
  }

  // ---------- the repair ----------

  /** Counts that overspend by half the overflow, with leaves enough at the limit. */
  ghost predicate Overspent(s: seq<int>, l: nat, overflow: int, leaves: nat) {
    && |s| == MAX_BITS + 1 && 1 <= l <= MAX_BITS && (forall d :: 0 <= d <= MAX_BITS ==> 0 <= s[d])
    && s[0] == 0 && overflow % 2 == 0 && 0 <= overflow
    && CountedKraft(s, l, l) == Pow2(l) + overflow / 2
    && CountedAll(s, l) == leaves <= Pow2(l)
    && s[l] >= overflow / 2
  }

  /** If every leaf were at the limit, there would be too many of them. */
  lemma ShorterExists(s: seq<int>, l: nat, overflow: int, leaves: nat) returns (b: nat)
    requires Overspent(s, l, overflow, leaves) && overflow > 0
    ensures 1 <= b < l && s[b] > 0
  {
    AllAtLimit(s, l);
    b :| 1 <= b < l && s[b] > 0;
  }

  lemma AllAtLimit(s: seq<int>, l: nat)
    requires 1 <= l < |s|
    ensures (forall d :: 1 <= d < l ==> s[d] == 0) ==> CountedKraft(s, l, l) == s[l] == CountedAll(s, l)
  {
    if forall d :: 1 <= d < l ==> s[d] == 0 {
      OnlyLast(s, l, l - 1);
      assert s[l] * Pow2(0) == s[l];
    }
  }

  lemma {:induction false} OnlyLast(s: seq<int>, l: nat, b: nat)
    requires b < l < |s| && forall d :: 1 <= d <= b ==> s[d] == 0
    ensures CountedKraft(s, l, b) == 0 && CountedAll(s, b) == 0
  {
    if b > 0 { OnlyLast(s, l, b - 1); }
  }

  /** One leaf moves down a level, a leaf from the limit becomes its brother: one unit less
      is spent. */
  lemma RepairStep(s: seq<int>, l: nat, overflow: int, leaves: nat, b: nat)
    requires Overspent(s, l, overflow, leaves) && overflow > 0 && 1 <= b < l && s[b] > 0
    ensures var t := s[b := s[b] - 1]; var u := t[b + 1 := t[b + 1] + 2];
            Overspent(u[l := u[l] - 1], l, overflow - 2, leaves)
  {
    hide CountedKraft, CountedAll, Pow2;
    var t := s[b := s[b] - 1];
    var u := t[b + 1 := t[b + 1] + 2];
    CountChanged(s, l, l, b, s[b] - 1);
    CountChanged(t, l, l, b + 1, t[b + 1] + 2);
    CountChanged(u, l, l, l, u[l] - 1);
    UnitAndHalf(l, b);
    MovedDown(Pow2(l - b), Pow2(l - (b + 1)), Pow2(l - l), s[b], t[b + 1], u[l]);
  }

  lemma UnitAndHalf(l: nat, b: nat)
    requires b < l
    ensures Pow2(l - b) == 2 * Pow2(l - (b + 1)) && Pow2(l - l) == 1
  {
  }

  lemma MovedDown(p: int, q: int, r: int, x: int, y: int, z: int)
    requires p == 2 * q && r == 1
    ensures (x - 1 - x) * p + (y + 2 - y) * q + (z - 1 - z) * r == -1
  {
  }

  /** The deepest level down to b that has a leaf, or zero. */
  ghost function DeepestUsed(s: seq<int>, b: nat): (d: nat)
    requires b < |s|
    ensures d <= b && (forall c :: d < c <= b ==> s[c] == 0) && (d > 0 ==> s[d] != 0)
  {
    if b == 0 || s[b] != 0 then b else DeepestUsed(s, b - 1)
  }

  /** A leaf of the deepest level above the limit becomes the parent of itself and of a leaf
      from the limit. */
  ghost function SplitDeepest(s: seq<int>, l: nat): seq<int>
    requires 1 <= l < |s|
  {
    var b := DeepestUsed(s, l - 1);
    var t := s[b := s[b] - 1];
    var u := t[b + 1 := t[b + 1] + 2];
    u[l := u[l] - 1]
  }

  /** n such steps. */
  ghost function Repaired(s: seq<int>, l: nat, n: nat): seq<int>
    requires 1 <= l < |s|
    decreases n
  {
    if n == 0 then s else Repaired(SplitDeepest(s, l), l, n - 1)
  }

  /** The repair loop: in the end nothing is overspent. */
  method Repair(blCount: array<int>, maxLength: nat, overflow0: int, ghost leaves: nat)
    requires blCount.Length == MAX_BITS + 1 && Overspent(blCount[..], maxLength, overflow0, leaves) && overflow0 > 0
    requires 1 <= maxLength <= MAX_BITS && blCount[maxLength] > overflow0 / 2
    modifies blCount
    ensures Overspent(blCount[..], maxLength, 0, leaves) && blCount[maxLength] > 0
    ensures forall d :: maxLength < d <= MAX_BITS ==> blCount[d] == old(blCount[d])
    ensures overflow0 >= 0 && blCount[..] == Repaired(old(blCount[..]), maxLength, overflow0 / 2)
  {
    hide Overspent, SplitDeepest;
    ghost var counts := blCount[..];
    OverspentRange(counts, maxLength, overflow0, leaves);
    var overflow := overflow0;
    while true
      invariant overflow >= 0 && overflow % 2 == 0 &&
                Repaired(blCount[..], maxLength, overflow / 2) == Repaired(counts, maxLength, overflow0 / 2)
      invariant Overspent(blCount[..], maxLength, overflow, leaves) && overflow > 0 && blCount[maxLength] > overflow / 2
      invariant forall d :: maxLength < d <= MAX_BITS ==> blCount[d] == old(blCount[d])
      decreases overflow
    {
      ghost var s := blCount[..];
      ghost var low := ShorterExists(s, maxLength, overflow, leaves);
      OverspentRange(s, maxLength, overflow, leaves);
      var bits := maxLength - 1;
      while blCount[bits] == 0
        invariant low <= bits < maxLength && DeepestUsed(s, bits) == DeepestUsed(s, maxLength - 1)
        decreases bits
      {
        bits := bits - 1;
      }
      RepairStep(s, maxLength, overflow, leaves, bits);
      blCount[bits] := blCount[bits] - 1;
      blCount[bits + 1] := blCount[bits + 1] + 2;
      blCount[maxLength] := blCount[maxLength] - 1;
      overflow := overflow - 2;
      ghost var t := s[bits := s[bits] - 1];
      ghost var u := t[bits + 1 := t[bits + 1] + 2];
      assert blCount[..] == u[maxLength := u[maxLength] - 1];
      SplitIs(s, maxLength, bits);
      OverspentRange(blCount[..], maxLength, overflow, leaves);
      if overflow <= 0 { break; }
    }
  }

  lemma SplitIs(s: seq<int>, l: nat, b: nat)
    requires 1 <= b < l < |s| && DeepestUsed(s, l - 1) == b
    ensures var t := s[b := s[b] - 1]; var u := t[b + 1 := t[b + 1] + 2];
            SplitDeepest(s, l) == u[l := u[l] - 1]
  {
  }

  lemma OverspentRange(s: seq<int>, l: nat, overflow: int, leaves: nat)
    requires Overspent(s, l, overflow, leaves)
    ensures |s| == MAX_BITS + 1 && 1 <= l <= MAX_BITS && (forall d :: 0 <= d <= MAX_BITS ==> 0 <= s[d]) && overflow >= 0
    ensures overflow % 2 == 0
  {
  }

  // ---------- handing the lengths out ----------

  /** How many leaves at positions lo to hi - 1 have length d. */
  ghost function LenIn(dl: seq<int>, order: seq<int>, maxCode: int, lo: nat, hi: nat, d: int): nat
    requires hi <= |order| && forall i :: 0 <= i < |order| ==> 0 <= order[i] < |dl|
  {
    if hi <= lo then 0
    else LenIn(dl, order, maxCode, lo, hi - 1, d) + if order[hi - 1] <= maxCode && dl[order[hi - 1]] == d then 1 else 0
  }

  lemma {:induction false} LenInFront(dl: seq<int>, order: seq<int>, maxCode: int, lo: nat, hi: nat, d: int)
    requires lo < hi <= |order| && forall i :: 0 <= i < |order| ==> 0 <= order[i] < |dl|
    ensures LenIn(dl, order, maxCode, lo, hi, d) ==
            LenIn(dl, order, maxCode, lo + 1, hi, d) + if order[lo] <= maxCode && dl[order[lo]] == d then 1 else 0
  {
    if lo + 1 < hi { LenInFront(dl, order, maxCode, lo, hi - 1, d); }
  }

  /** Changing the length of a node before position lo. */
  lemma {:induction false} LenInOther(dl: seq<int>, order: seq<int>, maxCode: int, lo: nat, hi: nat, d: int, k: nat,
                                      v: int)
    requires k < lo && hi <= |order| && Distinct(order) && k < |order|
    requires forall i :: 0 <= i < |order| ==> 0 <= order[i] < |dl|
    ensures LenIn(dl[order[k] := v], order, maxCode, lo, hi, d) == LenIn(dl, order, maxCode, lo, hi, d)
  {
    if lo < hi {
      LenInOther(dl, order, maxCode, lo, hi - 1, d, k, v);
      assert order[k] != order[hi - 1];
    }
  }

  lemma {:induction false} LenInDepths(dl: seq<int>, order: seq<int>, maxCode: int, par: seq<int>, l: nat, n: nat,
                                       d: int)
    requires |par| == |order| && Parents(par) && n <= |order| && forall i :: 0 <= i < |order| ==> 0 <= order[i] < |dl|
    requires forall i {:trigger Cut(par, l, i)} :: 0 <= i < |order| ==> dl[order[i]] == Cut(par, l, i)
    ensures LenIn(dl, order, maxCode, 0, n, d) == AtDepth(par, Leaves(order, maxCode), l, n, true, d)
  {
    hide Cut;
    if n > 0 {
      LenInDepths(dl, order, maxCode, par, l, n - 1, d);
      assert dl[order[n - 1]] == Cut(par, l, n - 1);
    }
  }

  /** Positions from h on have their lengths: all of those above bits, and all but n of
      those equal to bits. */
  ghost predicate HandedOut(dl: seq<int>, order: seq<int>, maxCode: int, l: nat, s: seq<int>, h: nat, bits: nat,
                            n: int) {
    && h <= |order| && Distinct(order) && (forall i :: 0 <= i < |order| ==> 0 <= order[i] < |dl|)
    && 0 <= bits <= l < |s| && 0 <= n && (bits > 0 ==> n <= s[bits])
    && (forall k :: h <= k < |order| && order[k] <= maxCode ==> 1 <= dl[order[k]] <= l && bits <= dl[order[k]])
    && (forall j, k :: h <= j < k < |order| && order[j] <= maxCode && order[k] <= maxCode ==>
        dl[order[j]] <= dl[order[k]])
    && (forall d :: bits < d <= l ==> LenIn(dl, order, maxCode, h, |order|, d) == s[d])
    && (bits > 0 ==> LenIn(dl, order, maxCode, h, |order|, bits) == s[bits] - n)
    && (forall d :: 0 < d < bits ==> LenIn(dl, order, maxCode, h, |order|, d) == 0)
    && LeafCount(Leaves(order, maxCode), h) == (if bits > 0 then CountedAll(s, bits - 1) + n else 0)
  }

  /** A leaf gets its length. */
  lemma LenInLeaf(dl: seq<int>, order: seq<int>, maxCode: int, g: nat, bits: int, d: int)
    requires g < |order| && Distinct(order) && (forall i :: 0 <= i < |order| ==> 0 <= order[i] < |dl|) &&
             order[g] <= maxCode
    ensures LenIn(dl[order[g] := bits], order, maxCode, g, |order|, d) == LenIn(dl, order, maxCode, g + 1, |order|, d) +
            if bits == d then 1 else 0
  {
    hide LenIn, Distinct;
    LenInFront(dl[order[g] := bits], order, maxCode, g, |order|, d);
    LenInOther(dl, order, maxCode, g + 1, |order|, d, g, bits);
  }

  lemma HandOutLeaf(dl: seq<int>, order: seq<int>, maxCode: int, l: nat, s: seq<int>, h: nat, bits: nat, n: int)
    requires HandedOut(dl, order, maxCode, l, s, h, bits, n) && n > 0 && bits > 0 && h > 0 && order[h - 1] <= maxCode
    ensures HandedOut(dl[order[h - 1] := bits], order, maxCode, l, s, h - 1, bits, n - 1)
  {
    hide LenIn, CountedAll;
    var g, m := h - 1, order[h - 1];
    var dl' := dl[m := bits];
    forall d
      ensures LenIn(dl', order, maxCode, g, |order|, d) == LenIn(dl, order, maxCode, h, |order|, d) +
              if bits == d then 1 else 0
    {
      LenInLeaf(dl, order, maxCode, g, bits, d);
    }
    forall k | h <= k < |order| ensures dl'[order[k]] == dl[order[k]] { assert order[g] != order[k]; }
  }

  /** A node that is not a leaf is passed by. */
  lemma PassNode(dl: seq<int>, order: seq<int>, maxCode: int, l: nat, s: seq<int>, h: nat, bits: nat, n: int)
    requires HandedOut(dl, order, maxCode, l, s, h, bits, n) && n > 0 && bits > 0 && h > 0 && order[h - 1] > maxCode
    ensures HandedOut(dl, order, maxCode, l, s, h - 1, bits, n)
  {
    hide LenIn, CountedAll;
    var g := h - 1;
    forall d ensures LenIn(dl, order, maxCode, g, |order|, d) == LenIn(dl, order, maxCode, h, |order|, d) {
      LenInFront(dl, order, maxCode, g, |order|, d);
    }
    assert LeafCount(Leaves(order, maxCode), h) == LeafCount(Leaves(order, maxCode), g);
  }

  lemma HandOutNext(dl: seq<int>, order: seq<int>, maxCode: int, l: nat, s: seq<int>, h: nat, bits: nat)
    requires HandedOut(dl, order, maxCode, l, s, h, bits, 0) && bits > 0 && forall d :: 0 <= d < |s| ==> 0 <= s[d]
    ensures HandedOut(dl, order, maxCode, l, s, h, bits - 1, if bits - 1 > 0 then s[bits - 1] else 0)
  {
  }

  lemma HandOutStart(dl: seq<int>, order: seq<int>, maxCode: int, l: nat, s: seq<int>)
    requires Distinct(order) && (forall i :: 0 <= i < |order| ==> 0 <= order[i] < |dl|) && 0 < l < |s|
    requires (forall d :: 0 <= d < |s| ==> 0 <= s[d]) && CountedAll(s, l) == LeafCount(Leaves(order, maxCode), |order|)
    ensures HandedOut(dl, order, maxCode, l, s, |order|, l, s[l])
  {
  }

  lemma HandOutRange(dl: seq<int>, order: seq<int>, maxCode: int, l: nat, s: seq<int>, h: nat, bits: nat, n: int)
    requires HandedOut(dl, order, maxCode, l, s, h, bits, n) && forall d :: 0 <= d < |s| ==> 0 <= s[d]
    ensures h <= |order| && (n > 0 && bits > 0 ==> h > 0) && (forall i :: 0 <= i < |order| ==> 0 <= order[i] < |dl|)
  {
    if bits > 0 { CountedNonNegative(s, bits - 1); }
    if h == 0 { assert LeafCount(Leaves(order, maxCode), 0) == 0; }
  }

  lemma {:induction false} CountedNonNegative(s: seq<int>, b: nat)
    requires b < |s| && forall d :: 0 <= d < |s| ==> 0 <= s[d]
    ensures CountedAll(s, b) >= 0
  {
    if b > 0 { CountedNonNegative(s, b - 1); }
  }

  /** Every leaf has its length. */
  lemma {:induction false} NoLeafLeft(leaf: seq<bool>, n: nat, k: nat)
    requires k < n <= |leaf| && LeafCount(leaf, n) == 0
    ensures !leaf[k]
  {
    if k < n - 1 { NoLeafLeft(leaf, n - 1, k); }
  }

  lemma {:induction false} NoLeafNoLength(dl: seq<int>, order: seq<int>, maxCode: int, h: nat, n: nat, d: int)
    requires h <= n <= |order| && (forall i :: 0 <= i < |order| ==> 0 <= order[i] < |dl|) &&
             LeafCount(Leaves(order, maxCode), h) == 0
    ensures LenIn(dl, order, maxCode, 0, n, d) == LenIn(dl, order, maxCode, h, n, d)
    decreases n
  {
    if n > h {
      NoLeafNoLength(dl, order, maxCode, h, n - 1, d);
    } else if n > 0 {
      NoLeafLeft(Leaves(order, maxCode), h, n - 1);
      NoLeafNoLength(dl, order, maxCode, h - 1, n - 1, d);
    }
  }

  /** Longest lengths to the least frequent leaves, which come last. */
  method AssignLengths(dl: array<int>, order: seq<int>, maxCode: int, maxLength: nat, blCount: seq<int>)
    requires Distinct(order) && (forall i :: 0 <= i < |order| ==> 0 <= order[i] < dl.Length) &&
             1 <= maxLength <= MAX_BITS
    requires |blCount| == MAX_BITS + 1 && (forall d :: 0 <= d <= MAX_BITS ==> 0 <= blCount[d])
    requires CountedAll(blCount, maxLength) == LeafCount(Leaves(order, maxCode), |order|)
    modifies dl
    ensures forall k :: 0 <= k < |order| && order[k] <= maxCode ==> 1 <= dl[order[k]] <= maxLength
    ensures forall d :: 1 <= d <= maxLength ==> LenIn(dl[..], order, maxCode, 0, |order|, d) == blCount[d]
    ensures forall j, k :: 0 <= j < k < |order| && order[j] <= maxCode && order[k] <= maxCode ==>
              dl[order[j]] <= dl[order[k]]
    ensures forall i :: 0 <= i < dl.Length && i !in order ==> dl[i] == old(dl[i])
  {
    hide HandedOut, LenIn, CountedAll, LeafCount;
    var h: nat := |order|;
    HandOutStart(dl[..], order, maxCode, maxLength, blCount);
    var bits: nat := maxLength;
    while bits != 0
      invariant bits <= maxLength
      invariant HandedOut(dl[..], order, maxCode, maxLength, blCount, h, bits, if bits > 0 then blCount[bits] else 0)
      invariant forall i :: 0 <= i < dl.Length && i !in order ==> dl[i] == old(dl[i])
    {
      var n := blCount[bits];
      while n != 0
        invariant 0 <= n && 0 <= h && HandedOut(dl[..], order, maxCode, maxLength, blCount, h, bits, n)
        invariant forall i :: 0 <= i < dl.Length && i !in order ==> dl[i] == old(dl[i])
        decreases h
      {
        HandOutRange(dl[..], order, maxCode, maxLength, blCount, h, bits, n);
        if order[h - 1] > maxCode {
          PassNode(dl[..], order, maxCode, maxLength, blCount, h, bits, n);
        } else {
          HandOutLeaf(dl[..], order, maxCode, maxLength, blCount, h, bits, n);
        }
        h := h - 1;
        var m := order[h];
        if m > maxCode { continue; }
        ghost var before := dl[..];
        dl[m] := bits;
        assert dl[..] == before[m := bits];
        n := n - 1;
      }
      HandOutNext(dl[..], order, maxCode, maxLength, blCount, h, bits);
      bits := bits - 1;
    }
    AllHandedOut(dl[..], order, maxCode, maxLength, blCount, h);
  }

  lemma AllHandedOut(dl: seq<int>, order: seq<int>, maxCode: int, l: nat, s: seq<int>, h: nat)
    requires HandedOut(dl, order, maxCode, l, s, h, 0, 0)
    ensures forall i :: 0 <= i < |order| ==> 0 <= order[i] < |dl|
    ensures forall k :: 0 <= k < |order| && order[k] <= maxCode ==> 1 <= dl[order[k]] <= l
    ensures forall d :: 1 <= d <= l ==> LenIn(dl, order, maxCode, 0, |order|, d) == s[d]
    ensures forall j, k :: 0 <= j < k < |order| && order[j] <= maxCode && order[k] <= maxCode ==>
              dl[order[j]] <= dl[order[k]]
  {
    forall d | 1 <= d <= l ensures LenIn(dl, order, maxCode, 0, |order|, d) == s[d] {
      NoLeafNoLength(dl, order, maxCode, h, |order|, d);
    }
    forall k | 0 <= k < h ensures order[k] > maxCode { NoLeafLeft(Leaves(order, maxCode), h, k); }
  }

  /** Nothing lay too deep, and every node is as long as it is deep; or leaves were moved,
      the less frequent ones never above the more frequent, and some leaf is at the limit. */
  ghost predicate DeepOrOrdered(dl: seq<int>, order: seq<int>, maxCode: int, maxLength: nat, par: seq<int>)
    requires |par| == |order| && Parents(par) && forall i :: 0 <= i < |order| ==> 0 <= order[i] < |dl|
  {
    if Overflow(par, Leaves(order, maxCode), maxLength, |order|) == 0 then
      forall i {:trigger Cut(par, maxLength, i)} :: 0 <= i < |order| ==> dl[order[i]] == Cut(par, maxLength, i)
    else
      && (forall j, k :: 0 <= j < k < |order| && order[j] <= maxCode && order[k] <= maxCode ==>
          dl[order[j]] <= dl[order[k]])
      && exists k :: 0 <= k < |order| && order[k] <= maxCode && dl[order[k]] == maxLength
  }

  lemma {:induction false} SomeOfLength(dl: seq<int>, order: seq<int>, maxCode: int, n: nat, d: int)
    requires n <= |order| && (forall i :: 0 <= i < |order| ==> 0 <= order[i] < |dl|) &&
             LenIn(dl, order, maxCode, 0, n, d) > 0
    ensures exists k :: 0 <= k < |order| && order[k] <= maxCode && dl[order[k]] == d
  {
    if !(order[n - 1] <= maxCode && dl[order[n - 1]] == d) { SomeOfLength(dl, order, maxCode, n - 1, d); }
  }

  /** gen_bitlen: every leaf gets a length of at most maxLength, blCount counts the lengths,
      and they use up the code space exactly: the counts are those of the tree with its deeper
      leaves at the limit, after as many splits of the deepest level above it as are needed. */
  method GenBitlen(dl: array<int>, order: seq<int>, maxCode: int, maxLength: nat, blCount: array<int>,
                   ghost par: seq<int>)
    requires Built(order, dl[..], maxCode, par) && dl != blCount && 1 <= maxLength <= MAX_BITS &&
             blCount.Length == MAX_BITS + 1
    requires LeafCount(Leaves(order, maxCode), |order|) <= Pow2(maxLength)
    modifies dl, blCount
    ensures forall i :: 0 <= i < |order| ==> 0 <= order[i] < dl.Length
    ensures forall k :: 0 <= k < |order| && order[k] <= maxCode ==> 1 <= dl[order[k]] <= maxLength
    ensures forall d :: 1 <= d <= maxLength ==> blCount[d] == LenIn(dl[..], order, maxCode, 0, |order|, d)
    ensures forall d :: (d == 0 || maxLength < d <= MAX_BITS) ==> blCount[d] == 0
    ensures CountedKraft(blCount[..], maxLength, maxLength) == Pow2(maxLength)
    ensures |par| == |order| && Parents(par) &&
            blCount[..] == Repaired(DepthCounts(par, Leaves(order, maxCode), maxLength, |order|), maxLength,
                                    Overflow(par, Leaves(order, maxCode), maxLength, |order|) / 2)
    ensures DeepOrOrdered(dl[..], order, maxCode, maxLength, par)
    ensures forall i :: 0 <= i < dl.Length && i !in order ==> dl[i] == old(dl[i])
  {
    hide Kids, AtDepth, Overflow, Cut, CountedKraft, CountedAll, LenIn, LeafCount, Pow2, WeightSum, DeepOrOrdered;
    ghost var leaf := Leaves(order, maxCode);
    var overflow := FirstPass(dl, order, maxCode, maxLength, blCount, par);
    FirstCounts(par, leaf, maxLength, blCount[..], overflow);
    assert blCount[..] == DepthCounts(par, leaf, maxLength, |order|);
    if overflow == 0 {
      forall d | 1 <= d <= maxLength ensures blCount[d] == LenIn(dl[..], order, maxCode, 0, |order|, d) {
        LenInDepths(dl[..], order, maxCode, par, maxLength, |order|, d);
      }
      forall k | 0 <= k < |order| && order[k] <= maxCode ensures 1 <= dl[order[k]] <= maxLength {
        assert leaf[k];
        CutPositive(par, maxLength, k);
      }
      Deep(dl[..], order, maxCode, maxLength, par);
      return;
    }
    LeavesRemain(par, leaf, maxLength);
    Repair(blCount, maxLength, overflow, LeafCount(leaf, |order|));
    AssignLengths(dl, order, maxCode, maxLength, blCount[..]);
    SomeOfLength(dl[..], order, maxCode, |order|, maxLength);
    Ordered(dl[..], order, maxCode, maxLength, par);
  }

  lemma Deep(dl: seq<int>, order: seq<int>, maxCode: int, maxLength: nat, par: seq<int>)
    requires |par| == |order| && Parents(par) && forall i :: 0 <= i < |order| ==> 0 <= order[i] < |dl|
    requires Overflow(par, Leaves(order, maxCode), maxLength, |order|) == 0
    requires forall i {:trigger Cut(par, maxLength, i)} :: 0 <= i < |order| ==> dl[order[i]] == Cut(par, maxLength, i)
    ensures DeepOrOrdered(dl, order, maxCode, maxLength, par)
  {
  }

  lemma Ordered(dl: seq<int>, order: seq<int>, maxCode: int, maxLength: nat, par: seq<int>)
    requires |par| == |order| && Parents(par) && forall i :: 0 <= i < |order| ==> 0 <= order[i] < |dl|
    requires Overflow(par, Leaves(order, maxCode), maxLength, |order|) > 0
    requires forall j, k :: 0 <= j < k < |order| && order[j] <= maxCode && order[k] <= maxCode ==>
               dl[order[j]] <= dl[order[k]]
    requires exists k :: 0 <= k < |order| && order[k] <= maxCode && dl[order[k]] == maxLength
    ensures DeepOrOrdered(dl, order, maxCode, maxLength, par)
  {
  }

  /** The first pass leaves counts that may be overspent. */
  lemma FirstCounts(par: seq<int>, leaf: seq<bool>, l: nat, s: seq<int>, overflow: int)
    requires IsTree(par, leaf) && 1 <= l <= MAX_BITS && |s| == MAX_BITS + 1 && overflow == Overflow(par, leaf, l, |par|)
    requires forall d :: 0 <= d <= MAX_BITS ==> s[d] == AtDepth(par, leaf, l, |par|, true, d)
    requires LeafCount(leaf, |par|) <= Pow2(l)
    ensures Overspent(s, l, overflow, LeafCount(leaf, |par|))
    ensures forall d :: l < d <= MAX_BITS ==> s[d] == 0
  {
    hide Kids, AtDepth, Overflow, Cut, CountedKraft, CountedAll, LeafCount, Pow2, WeightSum;
    Excess(par, leaf, l);
    CountsWeigh(par, leaf, l, |par|);
    assert s == DepthCounts(par, leaf, l, |par|);
    forall d | l < d <= MAX_BITS ensures s[d] == 0 { NoneDeeper(par, leaf, l, |par|, d); }
  }

  lemma {:induction false} NoneDeeper(par: seq<int>, leaf: seq<bool>, l: nat, n: nat, d: int)
    requires Parents(par) && |leaf| == |par| && n <= |par| && d > l
    ensures AtDepth(par, leaf, l, n, true, d) == 0
  {
    if n > 0 { NoneDeeper(par, leaf, l, n - 1, d); }
  }
}
