/** Occurrence counts of the symbols of a block, and the two counting sorts built on
    them: the one that opens the block sort and the one that undoes the transform. */
module Counting {
  import opened Common
  import opened Rotations

  /** How often c occurs among the first i symbols. */
  function Count(s: seq<Byte>, c: int, i: nat): (k: nat)
    requires i <= |s|
    ensures k <= i
  {
    if i == 0 then 0 else Count(s, c, i - 1) + if s[i - 1] == c then 1 else 0
  }

  /** How many symbols of s are below c: where c's bucket starts. */
  function Cum(s: seq<Byte>, c: nat): nat {
    if c == 0 then 0 else Cum(s, c - 1) + Count(s, c - 1, |s|)
  }

  lemma {:induction false} CumMonotone(s: seq<Byte>, a: nat, b: nat)
    requires a <= b
    ensures Cum(s, a) <= Cum(s, b)
  {
    if a < b { CumMonotone(s, a, b - 1); }
  }

  lemma {:induction false} CountMonotone(s: seq<Byte>, c: int, i: nat, j: nat)
    requires i <= j <= |s|
    ensures Count(s, c, i) <= Count(s, c, j)
  {
    if i < j { CountMonotone(s, c, i, j - 1); }
  }

  /** A value above all those that occur. */
  lemma {:induction false} NoneAbove(s: seq<Byte>, c: int, k: nat)
    requires k <= |s| && forall i :: 0 <= i < |s| ==> s[i] < c
    ensures Count(s, c, k) == 0
  {
    if k > 0 { NoneAbove(s, c, k - 1); }
  }

  /** An occurrence makes the count grow. */
  lemma CountStep(s: seq<Byte>, i: nat, j: nat)
    requires i < j <= |s|
    ensures Count(s, s[i], i) < Count(s, s[i], j)
  {
    CountMonotone(s, s[i], i + 1, j);
  }

  /** Counts over a prefix, by symbol. */
  ghost function CumTo(s: seq<Byte>, c: nat, i: nat): nat
    requires i <= |s|
  {
    if c == 0 then 0 else CumTo(s, c - 1, i) + Count(s, c - 1, i)
  }

  lemma {:induction false} CumToStep(s: seq<Byte>, c: nat, i: nat)
    requires i < |s|
    ensures CumTo(s, c, i + 1) == CumTo(s, c, i) + if s[i] < c then 1 else 0
  {
    if c > 0 { CumToStep(s, c - 1, i); }
  }

  lemma {:induction false} CumToAll(s: seq<Byte>, i: nat)
    requires i <= |s|
    ensures CumTo(s, 256, i) == i
  {
    if i == 0 {
      CumToNone(s, 256);
    } else {
      CumToAll(s, i - 1);
      CumToStep(s, 256, i - 1);
    }
  }

  lemma {:induction false} CumToNone(s: seq<Byte>, c: nat)
    ensures CumTo(s, c, 0) == 0
  {
    if c > 0 { CumToNone(s, c - 1); }
  }

  lemma {:induction false} CumToFull(s: seq<Byte>, c: nat)
    ensures CumTo(s, c, |s|) == Cum(s, c)
  {
    if c > 0 { CumToFull(s, c - 1); }
  }

  /** The buckets of the 256 symbols fill the block exactly. */
  lemma CumAll(s: seq<Byte>)
    ensures Cum(s, 256) == |s|
  {
    CumToAll(s, |s|);
    CumToFull(s, 256);
  }

  // ---------- the two placements ----------

  /** Place of position i when equal symbols keep their order. */
  function Rank(s: seq<Byte>, i: int): int
    requires 0 <= i < |s|
  {
    Cum(s, s[i]) + Count(s, s[i], i)
  }

  /** Place of position i when equal symbols are laid out backwards. */
  function BackRank(s: seq<Byte>, i: int): int
    requires 0 <= i < |s|
  {
    Cum(s, s[i] as int + 1) - 1 - Count(s, s[i], i)
  }

  ghost function Ranks(s: seq<Byte>): (r: seq<int>)
    ensures |r| == |s| && forall i :: 0 <= i < |s| ==> r[i] == Rank(s, i)
  {
    seq(|s|, i requires 0 <= i < |s| => Rank(s, i))
  }

  ghost function BackRanks(s: seq<Byte>): (r: seq<int>)
    ensures |r| == |s| && forall i :: 0 <= i < |s| ==> r[i] == BackRank(s, i)
  {
    seq(|s|, i requires 0 <= i < |s| => BackRank(s, i))
  }

  /** Each position is placed inside its symbol's bucket. */
  lemma RankInBucket(s: seq<Byte>, i: int)
    requires 0 <= i < |s|
    ensures Cum(s, s[i]) <= Rank(s, i) < Cum(s, s[i] as int + 1) <= |s|
    ensures Cum(s, s[i]) <= BackRank(s, i) < Cum(s, s[i] as int + 1)
  {
    CountStep(s, i, |s|);
    CumMonotone(s, s[i] as int + 1, 256);
    CumAll(s);
  }

  /** A place identifies its symbol: it belongs to c exactly when c's bucket holds it. */
  lemma BucketsDisjoint(s: seq<Byte>, p: int, c: nat, d: nat)
    requires Cum(s, c) <= p < Cum(s, c + 1) && Cum(s, d) <= p < Cum(s, d + 1)
    ensures c == d
  {
    if c < d {
      CumMonotone(s, c + 1, d);
    } else if d < c {
      CumMonotone(s, d + 1, c);
    }
  }

  lemma RanksPermutation(s: seq<Byte>)
    ensures IsPermutation(Ranks(s), |s|)
    ensures IsPermutation(BackRanks(s), |s|)
  {
    forall i | 0 <= i < |s| ensures 0 <= Rank(s, i) < |s| && 0 <= BackRank(s, i) < |s| { RankInBucket(s, i); }
    forall i, j | 0 <= i < j < |s| ensures Rank(s, i) != Rank(s, j) && BackRank(s, i) != BackRank(s, j) {
      RankInBucket(s, i);
      RankInBucket(s, j);
      if s[i] == s[j] {
        CountStep(s, i, j);
      } else if Rank(s, i) == Rank(s, j) {
        BucketsDisjoint(s, Rank(s, i), s[i], s[j]);
      } else if BackRank(s, i) == BackRank(s, j) {
        BucketsDisjoint(s, BackRank(s, i), s[i], s[j]);
      }
    }
  }
}
