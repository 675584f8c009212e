/** How many entries the decoding tables of a code take: codes longer than the root that share
    their first root bits share a sub-table, which has as many index bits as the longest of
    them has left. */
module TableSize {
  import opened Common
  import opened CodeOrder
  import opened TableSpec

  /** The first root bits of the k-th code. */
  ghost function Prefix(lens: seq<Byte>, work: seq<int>, root: nat, k: nat): nat
    requires Sorted(lens, work) && k < |work| && root <= W
  {
    Shr(Start(lens, work, k), W - root)
  }

  /** Just past the codes that share the k-th code's prefix. */
  ghost function GroupEnd(lens: seq<Byte>, work: seq<int>, root: nat, k: nat): (e: nat)
    requires Sorted(lens, work) && k < |work| && root <= W
    ensures k < e <= |work|
    decreases |work| - k
  {
    if k + 1 < |work| && Prefix(lens, work, root, k + 1) == Prefix(lens, work, root, k) then
        GroupEnd(lens, work, root, k + 1) else k + 1
  }

  /** The entries of the sub-table for the group that starts at k. */
  ghost function SubSize(lens: seq<Byte>, work: seq<int>, root: nat, k: nat): nat
    requires Sorted(lens, work) && k < |work| && root <= W && root < LenAt(lens, work, k)
  {
    LengthsRise(lens, work, k, GroupEnd(lens, work, root, k) - 1);
    Pow2(LenAt(lens, work, GroupEnd(lens, work, root, k) - 1) - root)
  }

  /** The entries of the sub-tables for the codes from k on. */
  ghost function SubTables(lens: seq<Byte>, work: seq<int>, root: nat, k: nat): nat
    requires Sorted(lens, work) && k <= |work| && root <= W
    decreases |work| - k
  {
    if k == |work| then 0
    else if LenAt(lens, work, k) <= root then SubTables(lens, work, root, k + 1)
    else SubSize(lens, work, root, k) + SubTables(lens, work, root, GroupEnd(lens, work, root, k))
  }

  /** The entries of all tables. */
  ghost function AllEntries(lens: seq<Byte>, work: seq<int>, root: nat): nat
    requires Sorted(lens, work) && root <= W
  {
    Pow2(root) + SubTables(lens, work, root, 0)
  }

  // ---------- groups ----------

  lemma PrefixMonotone(lens: seq<Byte>, work: seq<int>, root: nat, j: nat, k: nat)
    requires Sorted(lens, work) && j <= k < |work| && root <= W
    ensures Prefix(lens, work, root, j) <= Prefix(lens, work, root, k)
  {
    hide Sorted, Pow2, Start, Shr;
    StartMonotone(lens, work, j, k);
    ShrMonotone(Start(lens, work, j), Start(lens, work, k), W - root);
  }

  lemma ShrMonotone(x: nat, y: nat, n: nat)
    requires x <= y
    ensures Shr(x, n) <= Shr(y, n)
  {
    hide Pow2, Low;
    Split(x, n);
    Split(y, n);
    LowBelow(y, n);
    var a, b := Shr(x, n), Shr(y, n);
    if a > b {
      MulMonotone(b + 1, a, Pow2(n));
      MulDistributes(Pow2(n), b, 1);
    }
  }

  /** The group is made of the codes with its prefix. */
  lemma {:induction false} GroupIs(lens: seq<Byte>, work: seq<int>, root: nat, k: nat, j: nat)
    requires Sorted(lens, work) && k <= j < |work| && root <= W
    ensures j < GroupEnd(lens, work, root, k) <==> Prefix(lens, work, root, j) == Prefix(lens, work, root, k)
    decreases |work| - k
  {
    hide Sorted, Prefix;
    if j > k {
      PrefixMonotone(lens, work, root, k, k + 1);
      PrefixMonotone(lens, work, root, k + 1, j);
      if Prefix(lens, work, root, k + 1) == Prefix(lens, work, root, k) { GroupIs(lens, work, root, k + 1, j); }
    }
  }

  // ---------- what is still to come ----------

  /** The entries of the sub-tables not yet begun when the k-th code is entered. */
  ghost function Ahead(lens: seq<Byte>, work: seq<int>, root: nat, k: nat): nat
    requires Sorted(lens, work) && k < |work| && root <= W
  {
    if LenAt(lens, work, k) <= root then SubTables(lens, work, root, k)
        else SubTables(lens, work, root, GroupEnd(lens, work, root, k))
  }

  lemma AheadFirst(lens: seq<Byte>, work: seq<int>, root: nat)
    requires Sorted(lens, work) && 0 < |work| && root <= W && LenAt(lens, work, 0) <= root
    ensures Ahead(lens, work, root, 0) == SubTables(lens, work, root, 0)
  {
  }

  lemma AheadLast(lens: seq<Byte>, work: seq<int>, root: nat)
    requires Sorted(lens, work) && 0 < |work| && root <= W
    ensures Ahead(lens, work, root, |work| - 1) == 0
  {
    hide Sorted, Prefix;
    assert SubTables(lens, work, root, |work|) == 0;
    var n := |work| - 1;
    if LenAt(lens, work, n) <= root { assert SubTables(lens, work, root, n) == SubTables(lens, work, root, n + 1); }
  }

  /** The next code goes into the same table. */
  lemma AheadSame(lens: seq<Byte>, work: seq<int>, root: nat, k: nat)
    requires Sorted(lens, work) && k + 1 < |work| && root <= W
    requires LenAt(lens, work, k + 1) <= root || (root < LenAt(lens, work, k) &&
                                                  Prefix(lens, work, root, k + 1) == Prefix(lens, work, root, k))
    ensures Ahead(lens, work, root, k + 1) == Ahead(lens, work, root, k)
  {
    hide Sorted, Prefix, LenAt;
    LengthsRise(lens, work, k, k + 1);
  }

  /** The next code begins a table. */
  lemma AheadNew(lens: seq<Byte>, work: seq<int>, root: nat, k: nat)
    requires Sorted(lens, work) && k + 1 < |work| && root <= W && root < LenAt(lens, work, k + 1)
    requires LenAt(lens, work, k) <= root || Prefix(lens, work, root, k + 1) != Prefix(lens, work, root, k)
    ensures Ahead(lens, work, root, k) == SubSize(lens, work, root, k + 1) + Ahead(lens, work, root, k + 1)
  {
    hide Sorted, Prefix, LenAt, SubSize;
    if LenAt(lens, work, k) <= root {
      assert SubTables(lens, work, root, k) == SubTables(lens, work, root, k + 1);
    } else {
      assert GroupEnd(lens, work, root, k) == k + 1;
    }
    assert SubTables(lens, work, root, k + 1) ==
           SubSize(lens, work, root, k + 1) + SubTables(lens, work, root, GroupEnd(lens, work, root, k + 1));
  }

  /** The group's longest code, found by any means. */
  lemma SubSizeIs(lens: seq<Byte>, work: seq<int>, root: nat, k: nat, curr: nat, top: nat)
    requires Sorted(lens, work) && k <= top < |work| && root <= W && root < LenAt(lens, work, k)
    requires Prefix(lens, work, root, top) == Prefix(lens, work, root, k) && LenAt(lens, work, top) == root + curr
    requires forall j :: k <= j < |work| && Prefix(lens, work, root, j) == Prefix(lens, work, root, k) ==>
               LenAt(lens, work, j) <= root + curr
    ensures SubSize(lens, work, root, k) == Pow2(curr)
  {
    hide Sorted, Prefix, LenAt, Pow2;
    var e := GroupEnd(lens, work, root, k);
    GroupIs(lens, work, root, k, top);
    GroupIs(lens, work, root, k, e - 1);
    LengthsRise(lens, work, top, e - 1);
  }
}
