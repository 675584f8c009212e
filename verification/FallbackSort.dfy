/** The fallback block sorter: all rotations of a block put in lexicographic order by
    repeatedly doubling the number of symbols that buckets of rotations agree on. */
module FallbackSort {
  import opened Common
  import opened Rotations
  import opened Counting
  import opened Rearrange
  import opened BucketSort

  /** The header bits live in the sorter's table of 65537 words of 32 bits. */
  const HEADER_BITS := 65537 * 32
  const MAX_BLOCK := 900000

  // ---------- the initial one-symbol sort ----------

  /** Counts the symbols of the block; ftab has an extra entry that stays zero. */
  method Histogram(block: array<Byte>, nblock: int) returns (ftab: array<int>)
    requires 0 <= nblock <= block.Length
    ensures fresh(ftab) && ftab.Length == 257 && ftab[256] == 0
    ensures forall c :: 0 <= c < 256 ==> ftab[c] == Count(block[..nblock], c, nblock)
  {
    ghost var s := block[..nblock];
    ftab := new int[257](_ => 0);
    for i := 0 to nblock
      invariant ftab[256] == 0
      invariant forall c :: 0 <= c < 256 ==> ftab[c] == Count(s, c, i)
    {
      ftab[block[i]] := ftab[block[i]] + 1;
      assert s[i] == block[i];
    }
  }

  /** Turns counts into bucket ends. */
  method Accumulate(ftab: array<int>, ghost s: seq<Byte>)
    requires ftab.Length == 257 && ftab[256] == 0
    requires forall c :: 0 <= c < 256 ==> ftab[c] == Count(s, c, |s|)
    modifies ftab
    ensures forall c :: 0 <= c < 256 ==> ftab[c] == Cum(s, c + 1)
    ensures ftab[256] == |s|
  {
    assert Cum(s, 0) == 0;
    for i := 1 to 257
      invariant forall c :: 0 <= c < i && c < 256 ==> ftab[c] == Cum(s, c + 1)
      invariant forall c :: i <= c < 256 ==> ftab[c] == Count(s, c, |s|)
      invariant ftab[256] == if i == 257 then Cum(s, 256) else 0
    {
      ftab[i] := ftab[i] + ftab[i - 1];
    }
    CumAll(s);
  }

  /** Drops every rotation into its bucket, each bucket filling from its end. */
  method Scatter(block: array<Byte>, fmap: array<int>, ftab: array<int>, nblock: int)
    requires 0 < nblock <= block.Length && nblock == fmap.Length && ftab.Length == 257
    requires fmap != ftab
    requires forall c :: 0 <= c < 256 ==> ftab[c] == Cum(block[..nblock], c + 1)
    modifies fmap, ftab
    ensures forall c :: 0 <= c < 256 ==> ftab[c] == Cum(block[..nblock], c)
    ensures forall i :: 0 <= i < nblock ==> 0 <= BackRank(block[..nblock], i) < nblock
    ensures forall i :: 0 <= i < nblock ==> fmap[BackRank(block[..nblock], i)] == i
  {
    ghost var s := block[..nblock];
    forall i | 0 <= i < nblock ensures 0 <= BackRank(s, i) < nblock { RankInBucket(s, i); }
    RanksPermutation(s);
    ghost var place := BackRanks(s);
    for i := 0 to nblock
      invariant forall c :: 0 <= c < 256 ==> ftab[c] == Cum(s, c + 1) - Count(s, c, i)
      invariant forall i' :: 0 <= i' < i ==> fmap[place[i']] == i'
    {
      var j := block[i];
      assert j == s[i];
      var k := ftab[j] - 1;
      assert k == place[i];
      assert forall i' :: 0 <= i' < i ==> place[i'] != place[i];
      ftab[j] := k;
      fmap[k] := i;
    }
    assert forall c :: 0 <= c < 256 ==> ftab[c] == Cum(s, c);
    assert forall i :: 0 <= i < nblock ==> place[i] == BackRank(s, i);
  }

  /** Row p lies in the bucket of symbol c. */
  ghost predicate InBucket(s: seq<Byte>, c: Byte, p: int) {
    Cum(s, c) <= p < Cum(s, c as int + 1)
  }

  /** Buckets follow the order of their symbols. */
  lemma BucketOrder(s: seq<Byte>, c: Byte, p: int, d: Byte, q: int)
    requires InBucket(s, c, p) && InBucket(s, d, q) && p <= q
    ensures c <= d
  {
    if c > d { CumMonotone(s, d as int + 1, c); }
  }

  /** Some symbol's bucket starts at row p. */
  ghost predicate StartsBucket(s: seq<Byte>, p: int) {
    exists c :: 0 <= c < 256 && p == Cum(s, c)
  }

  lemma FirstBucket(s: seq<Byte>)
    ensures StartsBucket(s, 0)
  {
    assert Cum(s, 0) == 0;
  }

  /** Row p starts the bucket of its symbol exactly when it is where some bucket starts. */
  lemma BucketStart(s: seq<Byte>, c: Byte, p: int, d: nat)
    requires InBucket(s, c, p) && p == Cum(s, d)
    ensures p == Cum(s, c)
  {
    if d <= c {
      CumMonotone(s, d, c);
    } else {
      CumMonotone(s, c as int + 1, d);
    }
  }

  /** Where the scattered rotations end up: each inside the bucket of its first symbol. */
  lemma ScatteredInBuckets(s: seq<Byte>, f: seq<int>)
    requires |f| == |s|
    requires forall i :: 0 <= i < |s| ==> 0 <= BackRank(s, i) < |s| && f[BackRank(s, i)] == i
    ensures IsPermutation(f, |s|)
    ensures forall p :: 0 <= p < |s| ==> InBucket(s, s[f[p]], p)
  {
    RanksPermutation(s);
    InversePermutation(f, BackRanks(s), |s|);
    forall p | 0 <= p < |s| ensures InBucket(s, s[f[p]], p) {
      assert BackRanks(s)[f[p]] == p;
      RankInBucket(s, f[p]);
    }
  }

  /** Inside their buckets, rotations are in order on one symbol. */
  lemma BucketsInOrder(s: seq<Byte>, f: seq<int>, p: int, q: int)
    requires |f| == |s| && 0 <= p <= q < |s| && 0 <= f[p] < |s| && 0 <= f[q] < |s|
    requires InBucket(s, s[f[p]], p) && InBucket(s, s[f[q]], q)
    ensures Cmp(s, f[p], f[q], 1) <= 0 && s[f[p]] <= s[f[q]]
  {
    hide InBucket, Cmp;
    BucketOrder(s, s[f[p]], p, s[f[q]], q);
    CmpOne(s, f[p], f[q]);
  }

  // ---------- bucket headers ----------

  /** bh marks exactly the first row of every run of rows that tie on h symbols. */
  ghost predicate Marks(s: seq<Byte>, f: seq<int>, bh: seq<bool>, h: nat)
    requires IsPermutation(f, |s|) && |s| <= |bh|
  {
    && (|s| > 0 ==> bh[0])
    && forall p :: 0 < p < |s| ==> (bh[p] <==> Cmp(s, f[p - 1], f[p], h) != 0)
  }

  /** Past the block, set and clear bits alternate, so that every scan stops. */
  ghost predicate Sentinels(bhtab: array<bool>, nblock: int)
    requires 0 <= nblock && nblock + 64 <= bhtab.Length
    reads bhtab
  {
    forall p :: nblock <= p < nblock + 64 ==> (bhtab[p] <==> (p - nblock) % 2 == 0)
  }

  /** Clears the table, marks the start of every symbol's bucket and sets the sentinels. */
  method InitialHeaders(bhtab: array<bool>, ftab: array<int>, nblock: int, ghost s: seq<Byte>)
    requires 0 < nblock == |s| <= MAX_BLOCK && bhtab.Length == HEADER_BITS && ftab.Length == 257
    requires forall c :: 0 <= c < 256 ==> ftab[c] == Cum(s, c)
    modifies bhtab
    ensures Sentinels(bhtab, nblock)
    ensures forall p :: 0 <= p < nblock ==> (bhtab[p] <==> StartsBucket(s, p))
  {
    var nBhtab := 2 + nblock / 32;
    for i := 0 to nBhtab * 32
      invariant forall p :: 0 <= p < i ==> !bhtab[p]
    {
      bhtab[i] := false;
    }
    for i := 0 to 256
      invariant forall p :: 0 <= p < nblock ==> (bhtab[p] <==> exists c :: 0 <= c < i && p == Cum(s, c))
    {
      CumMonotone(s, i, 256);
      CumAll(s);
      bhtab[ftab[i]] := true;
    }
    for i := 0 to 32
      invariant forall p :: 0 <= p < nblock ==> (bhtab[p] <==> exists c :: 0 <= c < 256 && p == Cum(s, c))
      invariant forall p :: nblock <= p < nblock + 2 * i ==> (bhtab[p] <==> (p - nblock) % 2 == 0)
    {
      bhtab[nblock + 2 * i] := true;
      bhtab[nblock + 2 * i + 1] := false;
    }
  }

  /** Where the bucket of symbol c meets the bucket of symbol d, a bucket starts exactly
      when the symbols differ. */
  lemma StartBetween(s: seq<Byte>, c: Byte, d: Byte, p: int)
    requires 0 < p && InBucket(s, c, p - 1) && InBucket(s, d, p)
    ensures c <= d
    ensures c != d <==> StartsBucket(s, p)
  {
    BucketOrder(s, c, p - 1, d, p);
    if c < d {
      CumMonotone(s, c as int + 1, d);
    } else if StartsBucket(s, p) {
      var e :| 0 <= e < 256 && p == Cum(s, e);
      BucketStart(s, d, p, e);
    }
  }

  /** Bucket starts are where the first symbol changes. */
  lemma InitialMarks(s: seq<Byte>, f: seq<int>, bh: seq<bool>)
    requires IsPermutation(f, |s|) && |s| <= |bh|
    requires forall p :: 0 <= p < |s| ==> InBucket(s, s[f[p]], p)
    requires forall p :: 0 <= p < |s| ==> (bh[p] <==> StartsBucket(s, p))
    ensures Marks(s, f, bh, 1)
  {
    hide InBucket, Cmp, StartsBucket;
    FirstBucket(s);
    forall p | 0 < p < |s| ensures bh[p] <==> Cmp(s, f[p - 1], f[p], 1) != 0 {
      assert InBucket(s, s[f[p - 1]], p - 1) && InBucket(s, s[f[p]], p);
      StartBetween(s, s[f[p - 1]], s[f[p]], p);
      CmpOne(s, f[p - 1], f[p]);
    }
  }

  // ---------- classes ----------

  /** The header of the bucket that row p lies in. */
  ghost function Head(bh: seq<bool>, p: int): (h: int)
    requires 0 <= p < |bh|
    ensures 0 <= h <= p
  {
    if p == 0 || bh[p] then p else Head(bh, p - 1)
  }

  /** Bucket headers order rows exactly as their first h symbols do. */
  lemma {:induction false} HeadOrder(s: seq<Byte>, f: seq<int>, bh: seq<bool>, h: nat, p: int, q: int)
    requires IsPermutation(f, |s|) && |s| <= |bh| && SortedTo(s, f, h) && Marks(s, f, bh, h)
    requires 0 <= p <= q < |s|
    ensures Sign(Head(bh, p) - Head(bh, q)) == Cmp(s, f[p], f[q], h)
    decreases q
  {
    if p == q {
      CmpRefl(s, f[p], h);
    } else {
      HeadOrder(s, f, bh, h, p, q - 1);
      assert Cmp(s, f[q - 1], f[q], h) <= 0;
      CmpTrans(s, f[p], f[q - 1], f[q], h);
    }
  }

  /** The position h steps before x. */
  function Back(n: nat, x: int, h: int): int {
    if x - h < 0 then x - h + n else x - h
  }

  /** ec orders rotations exactly as their symbols h .. 2h - 1 do. */
  ghost predicate Classes(s: seq<Byte>, ec: seq<int>, h: nat) {
    && |ec| == |s|
    && (forall x :: 0 <= x < |s| ==> 0 <= ec[x])
    && forall x, y :: 0 <= x < |s| && 0 <= y < |s| ==>
         Sign(ec[x] - ec[y]) == Cmp(s, Fwd(|s|, x, h), Fwd(|s|, y, h), h)
  }

  /** Every row of f is labelled, h positions back, with its bucket header. */
  ghost predicate Labelled(f: seq<int>, bh: seq<bool>, ec: seq<int>, h: nat, upto: int)
    requires IsPermutation(f, |ec|) && |ec| <= |bh| && 0 <= upto <= |ec| && 1 <= h <= |ec|
  {
    forall i :: 0 <= i < upto ==> ec[Back(|ec|, f[i], h)] == Head(bh, i)
  }

  lemma LabelOf(f: seq<int>, bh: seq<bool>, ec: seq<int>, h: nat, x: int) returns (p: int)
    requires IsPermutation(f, |ec|) && |ec| <= |bh| && 1 <= h <= |ec|
    requires Labelled(f, bh, ec, h, |ec|) && 0 <= x < |ec|
    ensures 0 <= p < |ec| && f[p] == Fwd(|ec|, x, h) && ec[x] == Head(bh, p)
  {
    FwdClosed(|ec|, x, h);
    p := PermutationHits(f, |ec|, Fwd(|ec|, x, h));
    assert Back(|ec|, f[p], h) == x;
  }

  lemma LabelsAreClasses(s: seq<Byte>, f: seq<int>, bh: seq<bool>, ec: seq<int>, h: nat)
    requires |ec| == |s| && IsPermutation(f, |s|) && |s| <= |bh| && SortedTo(s, f, h) && Marks(s, f, bh, h)
    requires 1 <= h <= |s| && Labelled(f, bh, ec, h, |s|)
    ensures Classes(s, ec, h)
  {
    hide Labelled, SortedTo, Marks, Cmp;
    forall x | 0 <= x < |s| ensures 0 <= ec[x] {
      var p := LabelOf(f, bh, ec, h, x);
    }
    forall x, y | 0 <= x < |s| && 0 <= y < |s|
      ensures Sign(ec[x] - ec[y]) == Cmp(s, Fwd(|s|, x, h), Fwd(|s|, y, h), h)
    {
      var p := LabelOf(f, bh, ec, h, x);
      var q := LabelOf(f, bh, ec, h, y);
      if p <= q {
        HeadOrder(s, f, bh, h, p, q);
      } else {
        HeadOrder(s, f, bh, h, q, p);
        CmpFlip(s, f[p], f[q], h);
      }
    }
  }

  lemma LabelNext(f: seq<int>, bh: seq<bool>, ec: seq<int>, h: nat, i: int)
    requires IsPermutation(f, |ec|) && |ec| <= |bh| && 1 <= h <= |ec|
    requires 0 <= i < |ec| && Labelled(f, bh, ec, h, i)
    ensures Labelled(f, bh, ec[Back(|ec|, f[i], h) := Head(bh, i)], h, i + 1)
  {
    assert forall i' :: 0 <= i' < i ==> f[i'] != f[i];
  }

  /** Gives every rotation the header of the bucket that its h-th successor lies in. */
  method Label(fmap: array<int>, eclass: array<int>, bhtab: array<bool>, h: int, ghost s: seq<Byte>)
    requires 1 <= h <= |s| == fmap.Length == eclass.Length <= bhtab.Length && fmap != eclass
    requires IsPermutation(fmap[..], |s|) && SortedTo(s, fmap[..], h) && Marks(s, fmap[..], bhtab[..], h)
    modifies eclass
    ensures Classes(s, eclass[..], h)
  {
    hide Labelled, SortedTo, Marks, Classes;
    ghost var f, bh := fmap[..], bhtab[..];
    var nblock := fmap.Length;
    var j := 0;
    LabelNone(f, bh, eclass[..], h);
    for i := 0 to nblock
      invariant fmap[..] == f && bhtab[..] == bh
      invariant j == if i == 0 then 0 else Head(bh, i - 1)
      invariant Labelled(f, bh, eclass[..], h, i)
    {
      assert bhtab[i] == bh[i];
      if bhtab[i] { j := i; }
      assert j == Head(bh, i);
      var k := fmap[i] - h;
      if k < 0 { k := k + nblock; }
      LabelNext(f, bh, eclass[..], h, i);
      assert k == Back(nblock, f[i], h);
      eclass[k] := j;
    }
    LabelsAreClasses(s, f, bh, eclass[..], h);
  }

  lemma LabelNone(f: seq<int>, bh: seq<bool>, ec: seq<int>, h: nat)
    requires IsPermutation(f, |ec|) && |ec| <= |bh| && 1 <= h <= |ec|
    ensures Labelled(f, bh, ec, h, 0)
  {
  }

  // ---------- finding the next bucket ----------

  /** The word at k has all 32 bits equal to v. */
  predicate Word(bhtab: array<bool>, k: int, v: bool)
    requires 0 <= k && k + 32 <= bhtab.Length
    reads bhtab
  {
    forall p :: k <= p < k + 32 ==> bhtab[p] == v
  }

  /** The first clear bit from k on. */
  method SkipSet(bhtab: array<bool>, start: int, nblock: int) returns (k: int)
    requires 0 <= start <= nblock <= MAX_BLOCK && bhtab.Length == HEADER_BITS && Sentinels(bhtab, nblock)
    ensures start <= k <= nblock + 1 && !bhtab[k]
    ensures forall p :: start <= p < k ==> bhtab[p]
  {
    k := start;
    assert bhtab[nblock] && !bhtab[nblock + 1];
    while bhtab[k] && k % 32 != 0
      invariant start <= k <= nblock + 1
      invariant forall p :: start <= p < k ==> bhtab[p]
      decreases nblock + 1 - k
    {
      k := k + 1;
    }
    if bhtab[k] {
      while Word(bhtab, k, true)
        invariant start <= k <= nblock + 1
        invariant forall p :: start <= p < k ==> bhtab[p]
        decreases nblock + 1 - k
      {
        k := k + 32;
      }
      while bhtab[k]
        invariant start <= k <= nblock + 1
        invariant forall p :: start <= p < k ==> bhtab[p]
        decreases nblock + 1 - k
      {
        k := k + 1;
      }
    }
  }

  /** The first set bit from k on. */
  method SkipClear(bhtab: array<bool>, start: int, nblock: int) returns (k: int)
    requires 0 <= start <= nblock <= MAX_BLOCK && bhtab.Length == HEADER_BITS && Sentinels(bhtab, nblock)
    ensures start <= k <= nblock && bhtab[k]
    ensures forall p :: start <= p < k ==> !bhtab[p]
  {
    k := start;
    assert bhtab[nblock];
    while !bhtab[k] && k % 32 != 0
      invariant start <= k <= nblock
      invariant forall p :: start <= p < k ==> !bhtab[p]
      decreases nblock - k
    {
      k := k + 1;
    }
    if !bhtab[k] {
      while Word(bhtab, k, false)
        invariant start <= k <= nblock
        invariant forall p :: start <= p < k ==> !bhtab[p]
        decreases nblock - k
      {
        k := k + 32;
      }
      while !bhtab[k]
        invariant start <= k <= nblock
        invariant forall p :: start <= p < k ==> !bhtab[p]
        decreases nblock - k
      {
        k := k + 1;
      }
    }
  }

  // ---------- one round: from h symbols to 2 h ----------

  /** The state of a round that has dealt with rows up to r: those are in order on 2 h
      symbols with their headers set, the others still as the round found them (f0, bh0),
      and no row has left its bucket. */
  ghost predicate Refining(s: seq<Byte>, f0: seq<int>, bh0: seq<bool>, f: seq<int>, bh: seq<bool>, h: nat, r: int)
    requires IsPermutation(f0, |s|) && |s| <= |bh0|
  {
    && IsPermutation(f, |s|) && |bh| == |bh0| && -1 <= r
    && (forall p :: 0 <= p < |s| ==> Cmp(s, f0[p], f[p], h) == 0)
    && (forall p :: r < p < |s| ==> f[p] == f0[p])
    && (forall p :: r < p < |bh| ==> bh[p] == bh0[p])
    && (|s| > 0 ==> bh[0])
    && (forall p :: 0 < p <= r && p < |s| ==>
          Cmp(s, f[p - 1], f[p], 2 * h) <= 0 && (bh[p] <==> Cmp(s, f[p - 1], f[p], 2 * h) != 0))
  }

  /** Rotations of the buckets on either side of a header are in strict order. */
  lemma HeaderSeparates(s: seq<Byte>, f0: seq<int>, bh0: seq<bool>, h: nat, p: int, x: int, y: int)
    requires IsPermutation(f0, |s|) && |s| <= |bh0| && SortedTo(s, f0, h) && Marks(s, f0, bh0, h)
    requires 0 < p < |s| && bh0[p] && 0 <= x < |s| && 0 <= y < |s|
    requires Cmp(s, f0[p - 1], x, h) == 0 && Cmp(s, f0[p], y, h) == 0
    ensures Cmp(s, x, y, 2 * h) < 0
  {
    assert Cmp(s, f0[p - 1], f0[p], h) < 0;
    CmpFlip(s, f0[p - 1], x, h);
    CmpTrans(s, x, f0[p - 1], f0[p], h);
    CmpTrans(s, x, f0[p], y, h);
    CmpResize(s, x, y, h, 2 * h);
  }

  /** Passing over rows that are buckets by themselves. */
  lemma SkipSingles(s: seq<Byte>, f0: seq<int>, bh0: seq<bool>, f: seq<int>, bh: seq<bool>, h: nat, r: int, l: int)
    requires IsPermutation(f0, |s|) && |s| <= |bh0| && SortedTo(s, f0, h) && Marks(s, f0, bh0, h)
    requires Refining(s, f0, bh0, f, bh, h, r) && -1 <= r <= l
    requires forall p :: r < p <= l && p < |s| ==> bh[p]
    ensures Refining(s, f0, bh0, f, bh, h, l)
  {
    forall p | 0 < p <= l && p < |s|
      ensures Cmp(s, f[p - 1], f[p], 2 * h) <= 0 && (bh[p] <==> Cmp(s, f[p - 1], f[p], 2 * h) != 0)
    {
      if r < p { HeaderSeparates(s, f0, bh0, h, p, f[p - 1], f[p]); }
    }
  }

  /** Rows of one bucket tie on h symbols. */
  lemma {:induction false} BucketTies(s: seq<Byte>, f: seq<int>, bh: seq<bool>, h: nat, p: int, q: int)
    requires IsPermutation(f, |s|) && |s| <= |bh| && Marks(s, f, bh, h)
    requires 0 <= p <= q < |s| && forall i :: p < i <= q ==> !bh[i]
    ensures Cmp(s, f[p], f[q], h) == 0 && Cmp(s, f[q], f[p], h) == 0
    decreases q - p
  {
    if p == q {
      CmpRefl(s, f[p], h);
    } else {
      BucketTies(s, f, bh, h, p, q - 1);
      CmpTrans(s, f[p], f[q - 1], f[q], h);
      CmpFlip(s, f[p], f[q], h);
    }
  }

  /** Rotations that tie on h symbols compare on 2 h as their classes do. */
  lemma ClassesDecide(s: seq<Byte>, ec: seq<int>, h: nat, x: int, y: int)
    requires Classes(s, ec, h) && 0 <= x < |s| && 0 <= y < |s| && Cmp(s, x, y, h) == 0
    ensures Cmp(s, x, y, 2 * h) == Sign(ec[x] - ec[y])
  {
    CmpSplit(s, x, y, h, h);
    assert h + h == 2 * h;
  }

  /** A row put into a bucket row from elsewhere in the bucket still ties with what was there. */
  lemma TieKept(s: seq<Byte>, f0: seq<int>, bh0: seq<bool>, f: seq<int>, g: seq<int>, h: nat, l: int, r: int, p: int)
    requires IsPermutation(f0, |s|) && |s| <= |bh0| && Marks(s, f0, bh0, h)
    requires 0 <= l <= p <= r < |s| == |f| == |g| && forall i :: l < i <= r ==> !bh0[i]
    requires forall i :: l <= i <= r ==> f[i] == f0[i]
    requires ViewOf(f, l, r + 1) == ViewOf(g, l, r + 1)
    ensures 0 <= g[p] < |s| && Cmp(s, f0[p], g[p], h) == 0
  {
    var q := ViewFrom(f, g, l, r + 1, p);
    if p <= q {
      BucketTies(s, f0, bh0, h, p, q);
    } else {
      BucketTies(s, f0, bh0, h, q, p);
    }
  }

  /** Rows that tie with the same bucket row, or with two of one bucket, tie. */
  lemma NeighboursTie(s: seq<Byte>, f0: seq<int>, bh0: seq<bool>, h: nat, p: int, x: int, y: int)
    requires IsPermutation(f0, |s|) && |s| <= |bh0| && Marks(s, f0, bh0, h)
    requires 0 < p < |s| && !bh0[p] && 0 <= x < |s| && 0 <= y < |s|
    requires Cmp(s, f0[p - 1], x, h) == 0 && Cmp(s, f0[p], y, h) == 0
    ensures Cmp(s, x, y, h) == 0
  {
    CmpFlip(s, f0[p - 1], x, h);
    CmpTrans(s, x, f0[p - 1], f0[p], h);
    CmpTrans(s, x, f0[p], y, h);
  }

  /** Sorting a bucket by class and marking where the class changes. */
  lemma BucketRefined(s: seq<Byte>, f0: seq<int>, bh0: seq<bool>, f: seq<int>, bh: seq<bool>,
                      g: seq<int>, bg: seq<bool>, ec: seq<int>, h: nat, l: int, r: int)
    requires IsPermutation(f0, |s|) && |s| <= |bh0| && SortedTo(s, f0, h) && Marks(s, f0, bh0, h)
    requires Classes(s, ec, h)
    requires Refining(s, f0, bh0, f, bh, h, l) && 0 <= l < r < |s| && f[l] == f0[l] && bh0[l] && bh[l]
    requires forall p :: l < p <= r ==> !bh[p]
    requires IsPermutation(g, |s|) && ViewOf(f, l, r + 1) == ViewOf(g, l, r + 1)
    requires forall p, q :: l <= p < q <= r ==> ec[g[p]] <= ec[g[q]]
    requires |bg| == |bh| && forall p :: 0 <= p <= l || r < p < |bh| ==> bg[p] == bh[p]
    requires forall p :: l < p <= r ==> (bg[p] <==> ec[g[p - 1]] != ec[g[p]])
    ensures Refining(s, f0, bh0, g, bg, h, r)
  {
    hide Classes, Cmp, ViewOf, Marks, SortedTo;
    ViewOutside(f, g, l, r + 1);
    forall p | 0 <= p < |s| ensures Cmp(s, f0[p], g[p], h) == 0 {
      if l <= p <= r {
        TieKept(s, f0, bh0, f, g, h, l, r, p);
      } else {
        assert g[p] == f[p];
      }
    }
    forall p | 0 < p <= r
      ensures Cmp(s, g[p - 1], g[p], 2 * h) <= 0 && (bg[p] <==> Cmp(s, g[p - 1], g[p], 2 * h) != 0)
    {
      if p < l {
        assert g[p] == f[p] && g[p - 1] == f[p - 1];
      } else if p == l {
        HeaderSeparates(s, f0, bh0, h, p, g[p - 1], g[p]);
      } else {
        NeighboursTie(s, f0, bh0, h, p, g[p - 1], g[p]);
        ClassesDecide(s, ec, h, g[p - 1], g[p]);
      }
    }
  }

  /** Sets a header wherever the class changes inside the sorted bucket [l, r]. */
  method MarkChanges(bhtab: array<bool>, f: seq<int>, ec: seq<int>, l: int, r: int)
    requires 0 <= l < r < |f| <= bhtab.Length
    requires forall p :: l <= p <= r ==> 0 <= f[p] < |ec| && 0 <= ec[f[p]]
    requires forall p :: l < p <= r ==> !bhtab[p]
    modifies bhtab
    ensures bhtab[l]
    ensures forall p :: 0 <= p < l || r < p < bhtab.Length ==> bhtab[p] == old(bhtab[p])
    ensures forall p :: l < p <= r ==> (bhtab[p] <==> ec[f[p - 1]] != ec[f[p]])
  {
    var cc := -1;
    for i := l to r + 1
      invariant cc == if i == l then -1 else ec[f[i - 1]]
      invariant i > l ==> bhtab[l]
      invariant forall p :: 0 <= p < l || i <= p < bhtab.Length ==> bhtab[p] == old(bhtab[p])
      invariant forall p :: l < p < i ==> (bhtab[p] <==> ec[f[p - 1]] != ec[f[p]])
    {
      var cc1 := ec[f[i]];
      if cc != cc1 {
        bhtab[i] := true;
        cc := cc1;
      }
    }
  }

  /** What the round knows about the bucket [l, r] it has just found. */
  lemma BucketFound(s: seq<Byte>, f0: seq<int>, bh0: seq<bool>, f: seq<int>, bh: seq<bool>, h: nat, last: int, l: int)
    requires IsPermutation(f0, |s|) && |s| <= |bh0|
    requires Refining(s, f0, bh0, f, bh, h, last) && last < l < |s| && bh[l]
    ensures f[l] == f0[l] && bh0[l]
  {
  }

  /** Deals with one bucket [l, r] of two rows or more. */
  method RefineBucket(fmap: array<int>, bhtab: array<bool>, ec: seq<int>, h: nat, l: int, r: int,
                      ghost s: seq<Byte>, ghost f0: seq<int>, ghost bh0: seq<bool>, ghost last: int)
    requires |s| == fmap.Length <= MAX_BLOCK && bhtab.Length == HEADER_BITS && Sentinels(bhtab, |s|)
    requires IsPermutation(f0, |s|) && |s| <= |bh0| && SortedTo(s, f0, h) && Marks(s, f0, bh0, h) && Classes(s, ec, h)
    requires Refining(s, f0, bh0, fmap[..], bhtab[..], h, last) && -1 <= last < l < r < |s|
    requires forall p :: last < p <= l ==> bhtab[p]
    requires forall p :: l < p <= r ==> !bhtab[p]
    modifies fmap, bhtab
    ensures Sentinels(bhtab, |s|)
    ensures IsPermutation(fmap[..], |s|)
    ensures Refining(s, f0, bh0, fmap[..], bhtab[..], h, r)
    ensures bhtab[r + 1] == old(bhtab[r + 1])
  {
    hide SortedTo, Marks, Cmp, ViewOf;
    ghost var f, bh := fmap[..], bhtab[..];
    BucketFound(s, f0, bh0, f, bh, h, last, l);
    SkipSingles(s, f0, bh0, f, bh, h, last, l);
    FallbackQSort3(fmap, ec, l, r);
    ViewWhole(f, fmap[..], l, r + 1);
    RearrangedDistinct(f, fmap[..]);
    MarkChanges(bhtab, fmap[..], ec, l, r);
    BucketRefined(s, f0, bh0, f, bh, fmap[..], bhtab[..], ec, h, l, r);
  }

  /** One round.  All buckets of rows tied on h symbols are sorted by their next h; a
      round that finds no bucket of two rows or more reports nNotDone == 0. */
  method Refine(fmap: array<int>, eclass: array<int>, bhtab: array<bool>, h: int, ghost s: seq<Byte>)
    returns (nNotDone: int)
    requires 1 <= h <= |s| == fmap.Length == eclass.Length && |s| <= MAX_BLOCK
    requires fmap != eclass && bhtab.Length == HEADER_BITS && Sentinels(bhtab, |s|)
    requires IsPermutation(fmap[..], |s|) && SortedTo(s, fmap[..], h) && Marks(s, fmap[..], bhtab[..], h)
    modifies fmap, eclass, bhtab
    ensures Sentinels(bhtab, |s|)
    ensures IsPermutation(fmap[..], |s|) && SortedTo(s, fmap[..], 2 * h) && Marks(s, fmap[..], bhtab[..], 2 * h)
    ensures 0 <= nNotDone
    ensures nNotDone == 0 ==> forall p :: 0 < p < |s| ==> Cmp(s, fmap[p - 1], fmap[p], 2 * h) != 0
  {
    hide SortedTo, Marks, Classes, Refining, ViewOf, Cmp;
    var nblock := fmap.Length;
    ghost var f0, bh0 := fmap[..], bhtab[..];
    Label(fmap, eclass, bhtab, h, s);
    var ec := eclass[..];
    nNotDone := 0;
    var r := -1;
    RefiningStart(s, f0, bh0, h);
    while true
      invariant -1 <= r < nblock && 0 <= nNotDone && (nNotDone == 0 ==> r == -1)
      invariant Sentinels(bhtab, nblock) && bhtab[r + 1]
      invariant IsPermutation(fmap[..], |s|)
      invariant Refining(s, f0, bh0, fmap[..], bhtab[..], h, r)
      decreases nblock - r
    {
      var k := SkipSet(bhtab, r + 1, nblock);
      var l := k - 1;
      if l >= nblock {
        SkipSingles(s, f0, bh0, fmap[..], bhtab[..], h, r, l);
        RefiningEnd(s, f0, bh0, fmap[..], bhtab[..], h, l);
        if nNotDone == 0 { AllMarked(s, fmap[..], bhtab[..], 2 * h); }
        break;
      }
      assert l < nblock - 1;
      k := SkipClear(bhtab, k, nblock);
      var r' := k - 1;
      if r' >= nblock { break; }
      if r' > l {
        nNotDone := nNotDone + (r' - l + 1);
        RefineBucket(fmap, bhtab, ec, h, l, r', s, f0, bh0, r);
      }
      r := r';
    }
  }

  lemma RefiningStart(s: seq<Byte>, f0: seq<int>, bh0: seq<bool>, h: nat)
    requires |s| > 0 && IsPermutation(f0, |s|) && |s| <= |bh0| && Marks(s, f0, bh0, h)
    ensures Refining(s, f0, bh0, f0, bh0, h, -1) && bh0[0]
  {
    forall p | 0 <= p < |s| ensures Cmp(s, f0[p], f0[p], h) == 0 { CmpRefl(s, f0[p], h); }
  }

  lemma RefiningEnd(s: seq<Byte>, f0: seq<int>, bh0: seq<bool>, f: seq<int>, bh: seq<bool>, h: nat, l: int)
    requires IsPermutation(f0, |s|) && |s| <= |bh0| && Refining(s, f0, bh0, f, bh, h, l) && l >= |s| - 1
    ensures SortedTo(s, f, 2 * h) && Marks(s, f, bh, 2 * h)
  {
    SortedFromAdjacent(s, f, 2 * h);
  }

  lemma AllMarked(s: seq<Byte>, f: seq<int>, bh: seq<bool>, h: nat)
    requires IsPermutation(f, |s|) && |s| <= |bh| && Marks(s, f, bh, h)
    requires forall p :: 0 <= p < |s| ==> bh[p]
    ensures forall p :: 0 < p < |s| ==> Cmp(s, f[p - 1], f[p], h) != 0
  {
  }

  // ---------- the whole sort ----------

  lemma SortedLongEnough(s: seq<Byte>, f: seq<int>, h: nat)
    requires IsPermutation(f, |s|) && SortedTo(s, f, h) && h >= |s|
    ensures SortedTo(s, f, |s|)
  {
    forall p, q | 0 <= p <= q < |f| ensures Cmp(s, f[p], f[q], |s|) <= 0 {
      assert Cmp(s, f[p], f[q], h) <= 0;
      if h > |s| { CmpResize(s, f[p], f[q], h, |s|); }
    }
  }

  lemma SortedApart(s: seq<Byte>, f: seq<int>, h: nat)
    requires IsPermutation(f, |s|) && SortedTo(s, f, h)
    requires forall p :: 0 < p < |s| ==> Cmp(s, f[p - 1], f[p], h) != 0
    ensures SortedTo(s, f, |s|)
  {
    forall p | 0 < p < |s| ensures Cmp(s, f[p - 1], f[p], |s|) <= 0 {
      assert Cmp(s, f[p - 1], f[p], h) <= 0;
      CmpResize(s, f[p - 1], f[p], h, |s|);
    }
    SortedFromAdjacent(s, f, |s|);
  }

  /** A full sort puts every rotation into the bucket of its first symbol. */
  lemma SortedInBuckets(s: seq<Byte>, f0: seq<int>, f: seq<int>, p: int)
    requires IsPermutation(f0, |s|) && forall p :: 0 <= p < |s| ==> InBucket(s, s[f0[p]], p)
    requires RotationSorted(s, f) && 0 <= p < |s|
    ensures InBucket(s, s[f[p]], p)
  {
    forall i, j | 0 <= i <= j < |s| ensures Cmp(s, f[i], f[j], 1) <= 0 && Cmp(s, f0[i], f0[j], 1) <= 0 {
      CmpResize(s, f[i], f[j], |s|, 1);
      assert InBucket(s, s[f0[i]], i) && InBucket(s, s[f0[j]], j);
      BucketsInOrder(s, f0, i, j);
    }
    SortedPermutationsAgree(s, f, f0, 1, p);
    CmpOne(s, f[p], f0[p]);
  }

  /** Writes the block again from the sorted rotations and the symbol counts alone. */
  method Rebuild(fmap: array<int>, ftabCopy: array<int>, block: array<Byte>, ghost s: seq<Byte>)
    requires fmap.Length == block.Length == |s| && ftabCopy.Length == 256 && fmap != ftabCopy
    requires IsPermutation(fmap[..], |s|)
    requires forall p :: 0 <= p < |s| ==> InBucket(s, s[fmap[p]], p)
    requires forall c :: 0 <= c < 256 ==> ftabCopy[c] == Count(s, c, |s|)
    modifies ftabCopy, block
    ensures block[..] == s
  {
    ghost var f := fmap[..];
    CumAll(s);
    var j := 0;
    for i := 0 to fmap.Length
      invariant fmap[..] == f
      invariant 0 <= j < 256 && Cum(s, j) <= i <= Cum(s, j + 1) && ftabCopy[j] == Cum(s, j + 1) - i
      invariant forall c :: j < c < 256 ==> ftabCopy[c] == Count(s, c, |s|)
      invariant forall p :: 0 <= p < i ==> block[f[p]] == s[f[p]]
    {
      while ftabCopy[j] == 0
        invariant 0 <= j < 256 && Cum(s, j) <= i <= Cum(s, j + 1) && ftabCopy[j] == Cum(s, j + 1) - i
        invariant forall c :: j < c < 256 ==> ftabCopy[c] == Count(s, c, |s|)
        decreases 256 - j
      {
        j := j + 1;
      }
      BucketOrder(s, j, i, s[f[i]], i);
      BucketOrder(s, s[f[i]], i, j, i);
      ftabCopy[j] := ftabCopy[j] - 1;
      block[fmap[i]] := j;
    }
    forall x | 0 <= x < |s| ensures block[x] == s[x] {
      var p := PermutationHits(f, |s|, x);
    }
  }

  /** Orders all rotations of the block.  The classes are kept in the storage of the
      block itself, whose bytes are written again at the end. */
  method Sort(block: array<Byte>, fmap: array<int>, eclass: array<int>, bhtab: array<bool>)
    requires 0 < block.Length == fmap.Length == eclass.Length <= MAX_BLOCK && bhtab.Length == HEADER_BITS
    requires fmap != eclass
    modifies block, fmap, eclass, bhtab
    ensures block[..] == old(block[..])
    ensures RotationSorted(block[..], fmap[..])
  {
    var nblock := block.Length;
    ghost var s := block[..];
    assert block[..nblock] == s;
    var ftab := Histogram(block, nblock);
    var ftabCopy := new int[256](i requires 0 <= i < 256 reads ftab requires ftab.Length == 257 => ftab[i]);
    Accumulate(ftab, s);
    Scatter(block, fmap, ftab, nblock);
    assert block[..nblock] == s;
    ghost var f0 := fmap[..];
    ScatteredInBuckets(s, f0);
    InitialHeaders(bhtab, ftab, nblock, s);
    forall i | 0 <= i < nblock { block[i] := 0; }
    assert fmap[..] == f0;
    StartOfRounds(s, f0, bhtab[..]);
    Rounds(fmap, eclass, bhtab, s);
    forall p | 0 <= p < nblock ensures InBucket(s, s[fmap[p]], p) { SortedInBuckets(s, f0, fmap[..], p); }
    Rebuild(fmap, ftabCopy, block, s);
  }

  lemma StartOfRounds(s: seq<Byte>, f: seq<int>, bh: seq<bool>)
    requires IsPermutation(f, |s|) && |s| <= |bh|
    requires forall p :: 0 <= p < |s| ==> InBucket(s, s[f[p]], p)
    requires forall p :: 0 <= p < |s| ==> (bh[p] <==> StartsBucket(s, p))
    ensures SortedTo(s, f, 1) && Marks(s, f, bh, 1)
  {
    InitialMarks(s, f, bh);
    forall p, q | 0 <= p <= q < |s| ensures Cmp(s, f[p], f[q], 1) <= 0 {
      assert InBucket(s, s[f[p]], p) && InBucket(s, s[f[q]], q);
      BucketsInOrder(s, f, p, q);
    }
  }

  /** The doubling loop. */
  method Rounds(fmap: array<int>, eclass: array<int>, bhtab: array<bool>, ghost s: seq<Byte>)
    requires 0 < |s| == fmap.Length == eclass.Length <= MAX_BLOCK
    requires fmap != eclass && bhtab.Length == HEADER_BITS && Sentinels(bhtab, |s|)
    requires IsPermutation(fmap[..], |s|) && SortedTo(s, fmap[..], 1) && Marks(s, fmap[..], bhtab[..], 1)
    modifies fmap, eclass, bhtab
    ensures RotationSorted(s, fmap[..])
  {
    hide SortedTo, Marks, Cmp;
    var nblock, h := fmap.Length, 1;
    while true
      invariant 1 <= h <= nblock && Sentinels(bhtab, nblock)
      invariant IsPermutation(fmap[..], |s|) && SortedTo(s, fmap[..], h) && Marks(s, fmap[..], bhtab[..], h)
      decreases nblock - h
    {
      var nNotDone := Refine(fmap, eclass, bhtab, h, s);
      h := h * 2;
      if h > nblock || nNotDone == 0 {
        if h > nblock {
          SortedLongEnough(s, fmap[..], h);
        } else {
          SortedApart(s, fmap[..], h);
        }
        break;
      }
    }
  }

  /** The row of the sorted rotations that holds the block itself. */
  method FindOrigPtr(ptr: array<int>, nblock: int) returns (origPtr: int)
    requires 0 < nblock <= ptr.Length && IsPermutation(ptr[..nblock], nblock)
    ensures 0 <= origPtr < nblock && ptr[origPtr] == 0
  {
    origPtr := -1;
    for i := 0 to nblock
      invariant forall p :: 0 <= p < i ==> ptr[p] != 0
    {
      if ptr[i] == 0 { return i; }
    }
    ghost var p := PermutationHits(ptr[..nblock], nblock, 0);
    assert false;
  }
}
