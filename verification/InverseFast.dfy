/** Undoing the transform with one 32-bit word per symbol: the low byte of a word is the
    symbol, the upper 24 bits are the link. */
module InverseFast {
  import opened Common
  import opened Rotations
  import opened Counting
  import opened BurrowsWheeler

  /** Turns symbol counts into bucket starts; the counts and the sums are range-checked,
      as they come from an untrusted stream. */
  method BuildCftab(unzftab: seq<int>, nblock: int) returns (r: Result<array<int>>)
    requires |unzftab| == 256 && 0 <= nblock
    ensures r.Ok? ==> fresh(r.value) && r.value.Length == 257
    ensures r.Ok? ==> forall c :: 0 <= c <= 256 ==> r.value[c] == Total(unzftab, c)
    ensures r.Ok? <==> forall c :: 0 <= c < 256 ==> 0 <= unzftab[c] <= nblock && Total(unzftab, c + 1) <= nblock
  {
    var i := 0;
    while i <= 255
      invariant 0 <= i <= 256
      invariant forall c :: 0 <= c < i ==> 0 <= unzftab[c] <= nblock
    {
      if unzftab[i] < 0 || unzftab[i] > nblock { return DataError; }
      i := i + 1;
    }
    var cftab := new int[257];
    cftab[0] := 0;
    for i := 1 to 257
      invariant cftab[0] == 0 && forall c :: 1 <= c < i ==> cftab[c] == unzftab[c - 1]
    {
      cftab[i] := unzftab[i - 1];
    }
    for i := 1 to 257
      invariant forall c :: 0 <= c < i ==> cftab[c] == Total(unzftab, c)
      invariant forall c :: i <= c < 257 ==> cftab[c] == unzftab[c - 1]
    {
      cftab[i] := cftab[i] + cftab[i - 1];
    }
    i := 0;
    while i <= 256
      invariant 0 <= i <= 257
      invariant forall c :: 0 <= c < i ==> 0 <= Total(unzftab, c) <= nblock
    {
      if cftab[i] < 0 || cftab[i] > nblock { return DataError; }
      i := i + 1;
    }
    i := 1;
    while i <= 256
      invariant 1 <= i <= 257
    {
      if cftab[i - 1] > cftab[i] { return DataError; }
      i := i + 1;
    }
    r := Ok(cftab);
  }

  /** The sum of the first c counts. */
  function Total(counts: seq<int>, c: nat): int
    requires c <= |counts|
  {
    if c == 0 then 0 else Total(counts, c - 1) + counts[c - 1]
  }

  /** The counts of an actual block pass the checks and give its bucket starts. */
  lemma TotalIsCum(counts: seq<int>, l: seq<Byte>)
    requires |counts| == 256 && forall c :: 0 <= c < 256 ==> counts[c] == Count(l, c, |l|)
    ensures forall c :: 0 <= c <= 256 ==> Total(counts, c) == Cum(l, c) <= |l|
  {
    CumAll(l);
    forall c | 0 <= c <= 256 ensures Total(counts, c) == Cum(l, c) <= |l| {
      TotalIsCumAt(counts, l, c);
      CumMonotone(l, c, 256);
    }
  }

  lemma {:induction false} TotalIsCumAt(counts: seq<int>, l: seq<Byte>, c: nat)
    requires |counts| == 256 && forall c :: 0 <= c < 256 ==> counts[c] == Count(l, c, |l|)
    requires c <= 256
    ensures Total(counts, c) == Cum(l, c)
  {
    if c > 0 { TotalIsCumAt(counts, l, c - 1); }
  }

  // ---------- the link vector ----------

  /** Every word holds its symbol and its link. */
  ghost predicate Packed(tt: seq<int>, l: seq<Byte>, tl: seq<int>) {
    |tt| == |l| == |tl| && forall k :: 0 <= k < |l| ==> tt[k] == l[k] + 256 * tl[k]
  }

  /** Adds to the word at each position's rank, above its symbol byte, the link to that
      position.  The words are read as they are being written. */
  method BuildLinks(tt: array<int>, cftab: array<int>, nblock: int, ghost l: seq<Byte>) returns (ghost tl: seq<int>)
    requires 0 <= nblock == |l| <= tt.Length && cftab.Length == 257 && tt != cftab
    requires forall i :: 0 <= i < nblock ==> tt[i] == l[i]
    requires forall c :: 0 <= c < 256 ==> cftab[c] == Cum(l, c)
    modifies tt, cftab
    ensures Links(l, tl) && Packed(tt[..nblock], l, tl)
  {
    hide Cum, Count, Rank, IsPermutation;
    ghost var place := Ranks(l);
    RanksPermutation(l);
    tl := seq(nblock, _ => 0);
    for i := 0 to nblock
      invariant |tl| == nblock && Placed(tl, place, i)
      invariant forall k :: 0 <= k < nblock ==> tt[k] == l[k] + 256 * tl[k]
      invariant forall c :: 0 <= c < 256 ==> cftab[c] == Cum(l, c) + Count(l, c, i)
    {
      var uc := tt[i] % 256;
      assert uc == l[i];
      var k := cftab[uc];
      PlaceAt(l, i);
      PlaceStep(tl, place, i);
      assert tt[k] < 256;            // so that the shifted link can be or-ed in
      tt[k] := tt[k] + i * 256;
      cftab[uc] := cftab[uc] + 1;
      tl := tl[k := i];
    }
    AllPlaced(l, tl);
  }

  /** The first i positions are linked from their places; the other places are still empty. */
  ghost predicate Placed(tl: seq<int>, place: seq<int>, i: int) {
    && |tl| == |place| && (forall j :: 0 <= j < |place| ==> 0 <= place[j] < |tl|)
    && (forall j {:trigger place[j]} :: 0 <= j < i && j < |place| ==> tl[place[j]] == j)
    && (forall j {:trigger place[j]} :: i <= j < |place| && 0 <= j ==> tl[place[j]] == 0)
  }

  lemma PlaceStep(tl: seq<int>, place: seq<int>, i: int)
    requires Placed(tl, place, i) && IsPermutation(place, |place|) && 0 <= i < |place|
    ensures 0 <= place[i] < |tl| && tl[place[i]] == 0 && Placed(tl[place[i] := i], place, i + 1)
  {
  }

  lemma PlaceAt(l: seq<Byte>, i: int)
    requires 0 <= i < |l|
    ensures Ranks(l)[i] == Cum(l, l[i]) + Count(l, l[i], i)
    ensures forall c :: 0 <= c < 256 ==> Count(l, c, i + 1) == Count(l, c, i) + if l[i] == c then 1 else 0
  {
  }

  lemma AllPlaced(l: seq<Byte>, tl: seq<int>)
    requires |tl| == |l| && Placed(tl, Ranks(l), |l|) && IsPermutation(Ranks(l), |l|)
    ensures Links(l, tl)
  {
    assert forall i :: 0 <= i < |l| ==> Rank(l, i) == Ranks(l)[i];
  }
}
