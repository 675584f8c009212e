/** Undoing the transform in 20 bits per symbol: sixteen bits of each link in one array,
    four in another, and symbols recovered from bucket starts by binary search. */
module InverseSmall {
  import opened Common
  import opened Rotations
  import opened Counting
  import opened BurrowsWheeler

  // ---------- packed links ----------

  /** The split link vector: ll16 holds low halves, ll4 two upper nibbles a byte. */
  class LinkStore {
    const ll16: array<int>
    const ll4: array<Byte>

    ghost predicate Valid()
      reads this
    {
      (1 + ll16.Length) / 2 <= ll4.Length
    }

    constructor (capacity: nat)
      ensures Valid() && fresh(ll16) && fresh(ll4) && ll16.Length == capacity
    {
      ll16 := new int[capacity];
      ll4 := new Byte[(1 + capacity) / 2];
    }

    /** GET_LL4: bits 4 to 7 of the byte for odd positions, 0 to 3 for even ones. */
    function GetLL4(i: int): int
      requires 0 <= i / 2 < ll4.Length
      reads this, ll4
    {
      if i % 2 == 0 then ll4[i / 2] % 16 else ll4[i / 2] / 16
    }

    /** GET_LL. */
    function Get(i: int): int
      requires Valid() && 0 <= i < ll16.Length
      reads this, ll16, ll4
    {
      ll16[i] + GetLL4(i) * 0x1_0000
    }

    /** The links as a sequence. */
    ghost function Links(n: nat): (l: seq<int>)
      requires Valid() && n <= ll16.Length
      reads this, ll16, ll4
      ensures |l| == n && forall i :: 0 <= i < n ==> l[i] == Get(i)
    {
      seq(n, i requires 0 <= i < n reads this, ll16, ll4 requires Valid() && n <= ll16.Length => Get(i))
    }

    /** SET_LL: stores a 20-bit link; the neighbour that shares the byte keeps its own. */
    method Set(i: int, n: int)
      requires Valid() && 0 <= i < ll16.Length && 0 <= n < 0x10_0000
      modifies ll16, ll4
      ensures Valid()
      ensures Get(i) == n
      ensures forall j :: 0 <= j < ll16.Length && j != i ==> ll16[j] == old(ll16[j]) && Get(j) == old(Get(j))
    {
      ll16[i] := n % 0x1_0000;
      var b := ll4[i / 2];
      if i % 2 == 0 {
        ll4[i / 2] := b / 16 * 16 + n / 0x1_0000;
      } else {
        ll4[i / 2] := b % 16 + n / 0x1_0000 * 16;
      }
    }
  }

  // ---------- the forward vector ----------

  lemma RankValue(l: seq<Byte>, i: int)
    requires 0 <= i < |l|
    ensures 0 <= Ranks(l)[i] < |l| && Ranks(l)[i] == Cum(l, l[i]) + Count(l, l[i], i)
    ensures forall c :: Count(l, c, i + 1) == Count(l, c, i) + if l[i] == c then 1 else 0
  {
    RankInBucket(l, i);
  }

  lemma NoneYet(l: seq<Byte>)
    ensures forall c :: Count(l, c, 0) == 0
  {
  }

  /** Replaces the symbol at each position by the position's rank. */
  method ForwardVector(st: LinkStore, cftabCopy: array<int>, nblock: int, ghost l: seq<Byte>)
    requires st.Valid() && 0 <= nblock == |l| <= st.ll16.Length && nblock < 0x10_0000
    requires cftabCopy.Length == 257 && cftabCopy != st.ll16
    requires forall i :: 0 <= i < nblock ==> st.ll16[i] == l[i]
    requires forall c :: 0 <= c < 256 ==> cftabCopy[c] == Cum(l, c)
    modifies st.ll16, st.ll4, cftabCopy
    ensures st.Valid()
    ensures forall i :: 0 <= i < nblock ==> st.Get(i) == Rank(l, i)
  {
    hide Rank, Cum, Count;
    ghost var place := Ranks(l);
    NoneYet(l);
    for i := 0 to nblock
      invariant st.Valid()
      invariant forall k :: i <= k < nblock ==> st.ll16[k] == l[k]
      invariant forall k :: 0 <= k < i ==> st.Get(k) == place[k]
      invariant forall c :: 0 <= c < 256 ==> cftabCopy[c] == Cum(l, c) + Count(l, c, i)
    {
      var uc := st.ll16[i] % 256;
      assert uc == l[i];
      RankValue(l, i);
      st.Set(i, cftabCopy[uc]);
      cftabCopy[uc] := cftabCopy[uc] + 1;
    }
  }

  // ---------- pointer reversal ----------

  /** A path of the forward vector that has not met itself. */
  ghost predicate PathOf(v: seq<int>, path: seq<int>, o: int) {
    && |path| > 0 && path[0] == o
    && (forall k :: 0 <= k < |path| ==> 0 <= path[k] < |v|)
    && (forall k :: 0 < k < |path| ==> path[k] == v[path[k - 1]])
    && (forall k, m :: 0 <= k < m < |path| ==> path[k] != path[m])
  }

  lemma PathShort(v: seq<int>, path: seq<int>, o: int)
    requires PathOf(v, path, o)
    ensures |path| <= |v|
  {
    SeqSetSize(path);
    SubsetSize(set p | 0 <= p < |path| :: path[p], Below(|v|));
  }

  /** Following the permutation from the end of a path leads to a new position or back to
      the start. */
  lemma PathGrows(v: seq<int>, path: seq<int>, o: int)
    requires IsPermutation(v, |v|) && PathOf(v, path, o)
    ensures var j := v[path[|path| - 1]]; j == o || PathOf(v, path + [j], o)
  {
    var last := |path| - 1;
    var j := v[path[last]];
    if j != o {
      forall k | 0 <= k <= last ensures path[k] != j {
        assert k > 0 ==> path[k - 1] != path[last] || k - 1 == last;
      }
    }
  }

  /** The links after the reversal has come to the end of path: all but the first position
      of the path lead back, and everything else is as it was. */
  ghost predicate Reversed(v: seq<int>, path: seq<int>, now: seq<int>) {
    && |now| == |v|
    && (forall k :: 0 < k < |path| && 0 <= path[k] < |v| ==> now[path[k]] == path[k - 1])
    && (forall x {:trigger now[x]} :: 0 <= x < |v| && (|path| > 0 ==> x !in path[1..]) ==> now[x] == v[x])
  }

  lemma ReversedStep(v: seq<int>, path: seq<int>, o: int, now: seq<int>)
    requires IsPermutation(v, |v|) && PathOf(v, path, o) && Reversed(v, path, now)
    ensures var i := path[|path| - 1]; var j := v[i];
            0 <= j < |v| && now[j] == v[j] &&
            (j != o ==> PathOf(v, path + [j], o) && Reversed(v, path + [j], now[j := i]))
  {
    var i := path[|path| - 1];
    var j := v[i];
    PathGrows(v, path, o);
    if j == o {
      assert j !in path[1..];
    } else {
      assert (path + [j])[|path|] == j;
      forall k | 0 <= k < |path| ensures path[k] != j {
        assert (path + [j])[k] != (path + [j])[|path|];
      }
      assert (path + [j])[1..] == path[1..] + [j];
    }
  }

  /** What the decoder relies on: inside cycle, each link leads to the position whose rank
      is where it comes from. */
  ghost predicate CycleLinked(l: seq<Byte>, now: seq<int>, cycle: set<int>) {
    && |now| == |l|
    && forall x :: x in cycle ==> 0 <= x < |l| && now[x] in cycle && 0 <= now[x] < |l| && Rank(l, now[x]) == x
  }

  lemma CycleClosed(l: seq<Byte>, path: seq<int>, o: int, now: seq<int>) returns (cycle: set<int>)
    requires PathOf(Ranks(l), path, o) && Reversed(Ranks(l), path, now)
    requires Ranks(l)[path[|path| - 1]] == o
    ensures o in cycle && CycleLinked(l, now[o := path[|path| - 1]], cycle)
  {
    var v := Ranks(l);
    var end := now[o := path[|path| - 1]];
    cycle := set k | 0 <= k < |path| :: path[k];
    assert path[0] in cycle && path[|path| - 1] in cycle;
    forall x | x in cycle
      ensures 0 <= x < |l| && end[x] in cycle && 0 <= end[x] < |l| && Rank(l, end[x]) == x
    {
      var k :| 0 <= k < |path| && path[k] == x;
      if k > 0 {
        assert end[x] == path[k - 1] && path[k - 1] in cycle;
        assert v[path[k - 1]] == x;
      }
    }
  }

  /** Turns round, in place, the links of the one cycle that runs through origPtr; the
      links off that cycle stay forward.  The loop comes back to origPtr because the
      vector is a permutation. */
  method ReverseCycle(st: LinkStore, origPtr: int, nblock: int, ghost l: seq<Byte>) returns (ghost cycle: set<int>)
    requires st.Valid() && 0 <= origPtr < nblock == |l| <= st.ll16.Length && nblock < 0x10_0000
    requires forall i :: 0 <= i < nblock ==> st.Get(i) == Rank(l, i)
    modifies st.ll16, st.ll4
    ensures st.Valid()
    ensures origPtr in cycle && CycleLinked(l, st.Links(nblock), cycle)
  {
    hide PathOf, Reversed, CycleLinked;
    ghost var v := Ranks(l);
    RanksPermutation(l);
    var i := origPtr;
    var j := st.Get(i);
    ghost var path := [origPtr];
    PathStarts(v, origPtr, st.Links(nblock));
    while true
      invariant st.Valid()
      invariant |path| > 0 && 0 <= i < nblock && i == path[|path| - 1] && j == v[i]
      invariant PathOf(v, path, origPtr) && Reversed(v, path, st.Links(nblock))
      decreases nblock - |path|
    {
      ghost var now := st.Links(nblock);
      ReversedStep(v, path, origPtr, now);
      PathShort(v, path, origPtr);
      var tmp := st.Get(j);
      st.Set(j, i);
      assert st.Links(nblock) == now[j := i];
      if j == origPtr {
        cycle := CycleClosed(l, path, origPtr, now);
      } else {
        path := path + [j];
        PathShort(v, path, origPtr);
      }
      i := j;
      j := tmp;
      if i == origPtr { break; }
    }
  }

  lemma PathStarts(v: seq<int>, o: int, now: seq<int>)
    requires 0 <= o < |v| && now == v
    ensures PathOf(v, [o], o) && Reversed(v, [o], now)
  {
  }

  // ---------- reading symbols ----------

  /** BZ2_indexIntoF: the symbol whose bucket holds the given row. */
  method IndexIntoF(indx: int, cftab: array<int>, ghost l: seq<Byte>) returns (nb: Byte)
    requires cftab.Length == 257 && 0 <= indx < |l|
    requires forall c :: 0 <= c <= 256 ==> cftab[c] == Cum(l, c)
    ensures Cum(l, nb) <= indx < Cum(l, nb as int + 1)
  {
    CumAll(l);
    assert Cum(l, 0) == 0;
    var lo, na := 0, 256;
    while true
      invariant 0 <= lo < na <= 256
      invariant Cum(l, lo) <= indx < Cum(l, na)
      decreases na - lo
    {
      var mid := (lo + na) / 2;
      if indx >= cftab[mid] { lo := mid; } else { na := mid; }
      if na - lo == 1 { break; }
    }
    nb := lo;
  }

  /** Inside the reversed cycle the stored links are those of the word-per-symbol form, and
      the symbol read there is the one whose bucket holds the position: a position is one
      link behind. */
  lemma SmallReads(l: seq<Byte>, now: seq<int>, cycle: set<int>, tl: seq<int>, t: int)
    requires Links(l, tl) && CycleLinked(l, now, cycle) && t in cycle
    ensures 0 <= t < |l| && now[t] == tl[t] && tl[t] in cycle && 0 <= tl[t] < |l|
    ensures forall c: Byte :: Cum(l, c) <= t < Cum(l, c as int + 1) ==> c == l[tl[t]]
  {
    hide Cum, Rank;
    assert tl[Rank(l, now[t])] == now[t];
    RankInBucket(l, now[t]);
    forall c: Byte | Cum(l, c) <= t < Cum(l, c as int + 1) ensures c == l[tl[t]] {
      BucketsDisjoint(l, t, c, l[now[t]]);
    }
  }

  lemma InverseLinks(l: seq<Byte>) returns (tl: seq<int>)
    ensures Links(l, tl)
  {
    RanksPermutation(l);
    tl := Undo(Ranks(l), |l|);
    forall i | 0 <= i < |l| ensures tl[Rank(l, i)] == i && 0 <= Rank(l, i) < |l| { assert Ranks(l)[i] == Rank(l, i); }
  }

  /** Every permutation can be undone. */
  lemma Undo(v: seq<int>, n: nat) returns (f: seq<int>)
    requires IsPermutation(v, n)
    ensures |f| == n && forall i :: 0 <= i < n ==> f[v[i]] == i
  {
    f := seq(n, _ => 0);
    var i := 0;
    while i < n
      invariant 0 <= i <= n == |f|
      invariant forall k :: 0 <= k < i ==> f[v[k]] == k
    {
      f := f[v[i] := i];
      i := i + 1;
    }
  }
}
