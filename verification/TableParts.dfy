/** The first set of coding tables for a block: the alphabet is cut into parts of about the
    same number of occurrences, and each table favours one of them. */
module TableParts {
  import opened Common

  const LESSER_ICOST := 0
  const GREATER_ICOST := 15

  ghost function Sum(freq: seq<int>, k: int): int
    requires k <= |freq|
  {
    if k <= 0 then 0 else Sum(freq, k - 1) + freq[k - 1]
  }

  /** Occurrences of the symbols from one cut to the next. */
  ghost function Held(freq: seq<int>, from: int, to: int): int
    requires from <= |freq| && to <= |freq|
  {
    Sum(freq, to) - Sum(freq, from)
  }

  lemma {:induction false} SumMonotone(freq: seq<int>, i: int, j: int)
    requires 0 <= i <= j <= |freq| && forall v :: 0 <= v < |freq| ==> 0 <= freq[v]
    ensures Sum(freq, i) <= Sum(freq, j)
    decreases j
  {
    if i < j { SumMonotone(freq, i, j - 1); }
  }

  /** A part reaches its share with the symbol before to and not earlier, or it ends with the
      alphabet. */
  ghost predicate Reaches(freq: seq<int>, from: int, share: int, to: int) {
    && 0 <= from <= to <= |freq| && (to < |freq| ==> Held(freq, from, to) >= share)
    && forall e :: from <= e < to ==> Held(freq, from, e) < share
  }

  /** Where part k of n, which starts at from, ends: with its share of the occurrences that are
      left; every second part, unless it is the last or a single symbol, a symbol earlier. */
  ghost predicate EndsPart(freq: seq<int>, total: int, n: int, k: int, from: int, to: int)
    requires 0 <= k < n && from <= |freq|
  {
    exists e :: Reaches(freq, from, (total - Sum(freq, from)) / (n - k), e) && to == Stepped(n, k, from, e)
  }

  function Stepped(n: int, k: int, from: int, e: int): int {
    if e > from + 1 && k % 2 == 1 && k != n - 1 then e - 1 else e
  }

  /** The cuts between n parts. */
  ghost predicate Cuts(freq: seq<int>, total: int, n: int, b: seq<int>) {
    && 0 < n && |b| == n + 1 && b[0] == 0
    && forall k :: 0 <= k < n ==> 0 <= b[k] <= |freq| && EndsPart(freq, total, n, k, b[k], b[k + 1])
  }

  /** Part by part the whole alphabet is passed through. */
  lemma CutsTile(freq: seq<int>, total: int, n: int, b: seq<int>)
    requires Cuts(freq, total, n, b) && freq != [] && freq[|freq| - 1] > 0 && total == Sum(freq, |freq|)
    requires forall v :: 0 <= v < |freq| ==> 0 <= freq[v]
    ensures b[n] == |freq| && forall k :: 0 <= k < n ==> b[k] <= b[k + 1]
  {
    hide Sum;
    var from := b[n - 1];
    assert EndsPart(freq, total, n, n - 1, from, b[n]);
    var e :| Reaches(freq, from, (total - Sum(freq, from)) / 1, e) && b[n] == Stepped(n, n - 1, from, e);
    if e < |freq| {
      SumMonotone(freq, e, |freq| - 1);
      SumLast(freq);
      assert false;
    }
    forall k | 0 <= k < n ensures b[k] <= b[k + 1] {
      assert EndsPart(freq, total, n, k, b[k], b[k + 1]);
    }
  }

  lemma SumLast(freq: seq<int>)
    requires freq != []
    ensures Sum(freq, |freq|) == Sum(freq, |freq| - 1) + freq[|freq| - 1]
  {
  }

  /** Lengths that favour the symbols from one cut to the next. */
  function Favouring(size: nat, from: int, to: int): (lens: seq<Byte>)
    ensures |lens| == size
    ensures forall v :: 0 <= v < size ==> lens[v] == if from <= v < to then LESSER_ICOST else GREATER_ICOST
  {
    seq(size, v => if from <= v < to then LESSER_ICOST else GREATER_ICOST)
  }

  /** The tables, the last of them for the first part. */
  ghost predicate Favour(tables: seq<seq<Byte>>, size: nat, b: seq<int>) {
    |b| == |tables| + 1 && forall k :: 0 <= k < |tables| ==>
      tables[|tables| - 1 - k] == Favouring(size, b[k], b[k + 1])
  }

  ghost predicate FirstTables(tables: seq<seq<Byte>>, freq: seq<int>, total: int) {
    exists b :: Cuts(freq, total, |tables|, b) && Favour(tables, |freq|, b)
  }

  /** Each symbol is favoured by exactly one of the first tables. */
  lemma OneFavours(tables: seq<seq<Byte>>, freq: seq<int>, total: int, v: int) returns (t: int)
    requires FirstTables(tables, freq, total) && tables != [] && total == Sum(freq, |freq|)
    requires (forall u :: 0 <= u < |freq| ==> 0 <= freq[u]) && 0 <= v < |freq| && freq[|freq| - 1] > 0
    ensures 0 <= t < |tables|
    ensures forall u :: 0 <= u < |tables| ==>
              |tables[u]| == |freq| && tables[u][v] == if u == t then LESSER_ICOST else GREATER_ICOST
  {
    hide Cuts, Sum;
    var n := |tables|;
    var b :| Cuts(freq, total, n, b) && Favour(tables, |freq|, b);
    CutsTile(freq, total, n, b);
    CutsStart(freq, total, n, b);
    var k := PartOf(b, n, v);
    t := n - 1 - k;
    forall u | 0 <= u < n
      ensures |tables[u]| == |freq| && tables[u][v] == if u == t then LESSER_ICOST else GREATER_ICOST
    {
      var j := n - 1 - u;
      assert tables[n - 1 - j] == Favouring(|freq|, b[j], b[j + 1]);
      if j < k { Rising(b, n, j + 1, k); }
      if j > k { Rising(b, n, k + 1, j); }
    }
  }

  lemma CutsStart(freq: seq<int>, total: int, n: int, b: seq<int>)
    requires Cuts(freq, total, n, b)
    ensures 0 < n && |b| == n + 1 && b[0] == 0
  {
  }

  lemma {:induction false} Rising(b: seq<int>, n: int, i: int, j: int)
    requires |b| == n + 1 && 0 <= i <= j <= n && forall k :: 0 <= k < n ==> b[k] <= b[k + 1]
    ensures b[i] <= b[j]
    decreases j
  {
    if i < j { Rising(b, n, i, j - 1); }
  }

  lemma {:induction false} PartOf(b: seq<int>, n: int, v: int) returns (k: int)
    requires |b| == n + 1 && 0 < n && b[0] <= v < b[n]
    ensures 0 <= k < n && b[k] <= v < b[k + 1]
    decreases n
  {
    k := n - 1;
    if v < b[k] {
      assert b[..n][n - 1] == b[k];
      k := PartOf(b[..n], n - 1, v);
    }
  }

  /** The part that starts at gs: it ends before ge + 1 and holds aFreq occurrences. */
  method TakePart(mtfFreq: seq<int>, gs: int, tFreq: int) returns (ge: int, aFreq: int)
    requires 0 <= gs <= |mtfFreq|
    ensures Reaches(mtfFreq, gs, tFreq, ge + 1) && aFreq == Held(mtfFreq, gs, ge + 1)
  {
    ge, aFreq := gs - 1, 0;
    while aFreq < tFreq && ge < |mtfFreq| - 1
      invariant gs - 1 <= ge < |mtfFreq| && aFreq == Held(mtfFreq, gs, ge + 1)
      invariant forall e :: gs <= e <= ge ==> Held(mtfFreq, gs, e) < tFreq
      decreases |mtfFreq| - ge
    {
      ge := ge + 1;
      aFreq := aFreq + mtfFreq[ge];
    }
  }

  /** The initial set of coding tables. */
  method MakeFirstTables(mtfFreq: seq<int>, nMTF: int, nGroups: nat) returns (tables: seq<seq<Byte>>)
    requires 0 < nGroups
    ensures |tables| == nGroups && FirstTables(tables, mtfFreq, nMTF)
    ensures forall t :: 0 <= t < nGroups ==> |tables[t]| == |mtfFreq| && forall v :: 0 <= v < |mtfFreq| ==>
              0 <= tables[t][v] <= GREATER_ICOST
  {
    hide Sum, Reaches;
    var size := |mtfFreq|;
    tables := seq(nGroups, _ => Favouring(size, 0, 0));
    var nPart, remF, gs := nGroups, nMTF, 0;
    ghost var b := [0];
    assert Sum(mtfFreq, 0) == 0 by { NoneHeld(mtfFreq); }
    while nPart > 0
      invariant 0 <= nPart <= nGroups == |tables| && |b| == nGroups - nPart + 1 && b[0] == 0 && b[|b| - 1] == gs
      invariant 0 <= gs <= size && remF == nMTF - Sum(mtfFreq, gs)
      invariant forall k :: 0 <= k < nGroups - nPart ==>
                  0 <= b[k] <= size && EndsPart(mtfFreq, nMTF, nGroups, k, b[k], b[k + 1])
      invariant forall k :: 0 <= k < nGroups - nPart ==> tables[nGroups - 1 - k] == Favouring(size, b[k], b[k + 1])
      invariant forall t :: 0 <= t < nGroups ==> |tables[t]| == size && forall v :: 0 <= v < size ==>
                  0 <= tables[t][v] <= GREATER_ICOST
    {
      var tFreq := remF / nPart;
      var ge, aFreq := TakePart(mtfFreq, gs, tFreq);
      ReachesRange(mtfFreq, gs, tFreq, ge + 1);
      ghost var e := ge + 1;
      if ge > gs && nPart != nGroups && nPart != 1 && (nGroups - nPart) % 2 == 1 {
        HeldLess(mtfFreq, ge);
        aFreq := aFreq - mtfFreq[ge];
        ge := ge - 1;
      }
      assert ge + 1 == Stepped(nGroups, nGroups - nPart, gs, e);
      assert EndsPart(mtfFreq, nMTF, nGroups, nGroups - nPart, gs, ge + 1);
      tables := tables[nPart - 1 := Favouring(size, gs, ge + 1)];
      b := b + [ge + 1];
      nPart := nPart - 1;
      gs := ge + 1;
      remF := remF - aFreq;
    }
    assert Cuts(mtfFreq, nMTF, nGroups, b) && Favour(tables, size, b);
  }

  lemma NoneHeld(freq: seq<int>)
    ensures Sum(freq, 0) == 0
  {
  }

  lemma HeldLess(freq: seq<int>, v: int)
    requires 0 <= v < |freq|
    ensures Sum(freq, v + 1) == Sum(freq, v) + freq[v]
  {
  }

  lemma ReachesRange(freq: seq<int>, from: int, share: int, to: int)
    requires Reaches(freq, from, share, to)
    ensures 0 <= from <= to <= |freq|
  {
  }
}
