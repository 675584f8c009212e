/** The symbols of a canonical code in order of code, and where each code's interval of bit
    strings starts. */
module CodeOrder {
  import opened Common
  import opened Counting
  import opened CanonicalCode

  /** Code lengths go up to 15 bits; bit strings are seen as 15-bit numbers, first bit
      highest. */
  const W := 15

  ghost predicate Lengths(lens: seq<Byte>) {
    forall i :: 0 <= i < |lens| ==> lens[i] <= W
  }

  /** How many symbols have a code of length at most n. */
  ghost function Upto(lens: seq<Byte>, n: nat): int {
    Cum(lens, n + 1) - Count(lens, 0, |lens|)
  }

  lemma UptoNext(lens: seq<Byte>, n: nat)
    ensures Upto(lens, 0) == 0 && Upto(lens, n + 1) == Upto(lens, n) + Count(lens, n + 1, |lens|) && Upto(lens, n) >= 0
  {
    assert Cum(lens, 0) == 0 && Cum(lens, 1) == Count(lens, 0, |lens|);
    CumMonotone(lens, 1, n + 1);
  }

  lemma UptoMonotone(lens: seq<Byte>, a: nat, b: nat)
    requires a <= b
    ensures 0 <= Upto(lens, a) <= Upto(lens, b)
  {
    UptoNext(lens, a);
    CumMonotone(lens, a + 1, b + 1);
  }

  /** Where symbol i comes among the symbols that have a code. */
  ghost function Place(lens: seq<Byte>, i: int): int
    requires 0 <= i < |lens|
  {
    Rank(lens, i) - Count(lens, 0, |lens|)
  }

  /** work lists the symbols that have a code, by length and then by number. */
  ghost predicate Sorted(lens: seq<Byte>, work: seq<int>) {
    && Lengths(lens) && |work| == Upto(lens, W)
    && (forall k :: 0 <= k < |work| ==> 0 <= work[k] < |lens| && lens[work[k]] > 0 && Place(lens, work[k]) == k)
    && (forall i :: 0 <= i < |lens| && lens[i] > 0 ==> 0 <= Place(lens, i) < |work| && work[Place(lens, i)] == i)
  }

  lemma PlaceInRange(lens: seq<Byte>, i: int)
    requires 0 <= i < |lens| && 1 <= lens[i] <= W
    ensures Upto(lens, lens[i] as int - 1) <= Place(lens, i) < Upto(lens, lens[i]) <= Upto(lens, W)
    ensures Place(lens, i) == Upto(lens, lens[i] as int - 1) + Count(lens, lens[i], i)
  {
    RankInBucket(lens, i);
    UptoMonotone(lens, lens[i], W);
  }

  /** The length of the k-th code. */
  ghost function LenAt(lens: seq<Byte>, work: seq<int>, k: int): int
    requires Sorted(lens, work) && 0 <= k < |work|
  {
    lens[work[k]]
  }

  lemma LengthByPlace(lens: seq<Byte>, work: seq<int>, k: int, n: nat)
    requires Sorted(lens, work) && 0 <= k < |work|
    ensures LenAt(lens, work, k) <= n <==> k < Upto(lens, n)
  {
    hide Upto, Place;
    var i := work[k];
    PlaceInRange(lens, i);
    if lens[i] <= n { UptoMonotone(lens, lens[i], n); } else { UptoMonotone(lens, n, lens[i] as int - 1); }
  }

  lemma LengthsRise(lens: seq<Byte>, work: seq<int>, j: int, k: int)
    requires Sorted(lens, work) && 0 <= j <= k < |work|
    ensures 1 <= LenAt(lens, work, j) <= LenAt(lens, work, k) <= W
  {
    LengthByPlace(lens, work, j, LenAt(lens, work, k));
    LengthByPlace(lens, work, k, LenAt(lens, work, k));
  }

  // ---------- where codes start ----------

  /** The first 15-bit string that begins with the k-th code, or, for k = |work|, the first
      that begins with no code. */
  ghost function Start(lens: seq<Byte>, work: seq<int>, k: nat): nat
    requires Sorted(lens, work) && k <= |work|
  {
    if k == 0 then 0 else Start(lens, work, k - 1) + Pow2(W - LenAt(lens, work, k - 1))
  }

  lemma {:induction false} StartMonotone(lens: seq<Byte>, work: seq<int>, j: nat, k: nat)
    requires Sorted(lens, work) && j <= k <= |work|
    ensures Start(lens, work, j) <= Start(lens, work, k)
    ensures j < k ==> Start(lens, work, j) + Pow2(W - LenAt(lens, work, j)) <= Start(lens, work, k)
  {
    hide Sorted, Pow2, LenAt;
    if j < k - 1 { StartMonotone(lens, work, j, k - 1); }
  }

  /** Codes of one length are consecutive. */
  lemma {:induction false} StartRun(lens: seq<Byte>, work: seq<int>, j: nat, n: nat, l: nat)
    requires Sorted(lens, work) && j + n <= |work| && l <= W && forall i :: j <= i < j + n ==> LenAt(lens, work, i) == l
    ensures Start(lens, work, j + n) == Start(lens, work, j) + n * Pow2(W - l)
  {
    hide Sorted, Pow2, LenAt;
    if n > 0 {
      StartRun(lens, work, j, n - 1, l);
      assert LenAt(lens, work, j + n - 1) == l;
      assert Start(lens, work, j + n) == Start(lens, work, j + n - 1) + Pow2(W - l);
      MulDistributes(Pow2(W - l), n - 1, 1);
    }
  }

  /** From position k on to the end of length l. */
  lemma StartToEnd(lens: seq<Byte>, work: seq<int>, k: nat, l: nat)
    requires Sorted(lens, work) && 1 <= l <= W && Upto(lens, l - 1) <= k <= Upto(lens, l) <= |work|
    ensures Start(lens, work, Upto(lens, l)) == Start(lens, work, k) + (Upto(lens, l) - k) * Pow2(W - l)
  {
    hide Sorted, Pow2, LenAt, Start, Upto;
    forall i | k <= i < Upto(lens, l) ensures LenAt(lens, work, i) == l {
      LengthByPlace(lens, work, i, l);
      LengthByPlace(lens, work, i, l - 1);
    }
    StartRun(lens, work, k, Upto(lens, l) - k, l);
  }

  /** After all codes of length at most n, as many strings are taken as Used says. */
  lemma {:induction false} StartUpto(lens: seq<Byte>, work: seq<int>, n: nat)
    requires Sorted(lens, work) && n <= W
    ensures 0 <= Upto(lens, n) <= |work| && Start(lens, work, Upto(lens, n)) == Used(lens, n) * Pow2(W - n)
  {
    hide Start, Sorted, Upto;
    UptoWithin(lens, work, n);
    UptoNext(lens, n);
    if n == 0 {
      StartZero(lens, work);
    } else {
      StartUpto(lens, work, n - 1);
      UptoNext(lens, n - 1);
      StartToEnd(lens, work, Upto(lens, n - 1), n);
      StartTerm(Used(lens, n - 1), Count(lens, n, |lens|), Pow2(W - n));
    }
  }

  lemma UptoWithin(lens: seq<Byte>, work: seq<int>, n: nat)
    requires Sorted(lens, work) && n <= W
    ensures 0 <= Upto(lens, n) <= |work|
  {
    UptoMonotone(lens, n, W);
  }

  lemma StartZero(lens: seq<Byte>, work: seq<int>)
    requires Sorted(lens, work)
    ensures Start(lens, work, 0) == 0
  {
  }

  lemma StartTerm(u: int, c: int, p: int)
    ensures u * (2 * p) + c * p == (2 * u + c) * p
  {
  }

  /** The k-th code, left-aligned, is where its interval starts. */
  lemma StartIsCode(lens: seq<Byte>, work: seq<int>, k: nat)
    requires Sorted(lens, work) && k < |work|
    ensures Start(lens, work, k) == Code(lens, work[k]) * Pow2(W - LenAt(lens, work, k))
  {
    hide Sorted, Start, Upto, Place, Count, Used, Pow2;
    var i := work[k];
    WorkAt(lens, work, k);
    var l: nat := lens[i];
    PlaceInRange(lens, i);
    StartUpto(lens, work, l - 1);
    UptoWithin(lens, work, l);
    UptoMonotone(lens, l - 1, l);
    StartWithin(lens, work, l, Count(lens, l, i));
    DoublePower(l);
    StartTerm(Used(lens, l - 1), Count(lens, l, i), Pow2(W - l));
    assert Code(lens, i) == 2 * Used(lens, l - 1) + Count(lens, l, i);
  }

  lemma WorkAt(lens: seq<Byte>, work: seq<int>, k: int)
    requires Sorted(lens, work) && 0 <= k < |work|
    ensures 0 <= work[k] < |lens| && 1 <= lens[work[k]] <= W && Place(lens, work[k]) == k
    ensures LenAt(lens, work, k) == lens[work[k]]
  {
  }

  lemma DoublePower(l: nat)
    requires 1 <= l <= W
    ensures Pow2(W - (l - 1)) == 2 * Pow2(W - l)
  {
  }

  lemma StartWithin(lens: seq<Byte>, work: seq<int>, l: nat, n: nat)
    requires Sorted(lens, work) && 1 <= l <= W && 0 <= Upto(lens, l - 1) &&
             Upto(lens, l - 1) + n <= Upto(lens, l) <= |work|
    ensures Start(lens, work, Upto(lens, l - 1) + n) == Start(lens, work, Upto(lens, l - 1)) + n * Pow2(W - l)
  {
    hide Sorted, Pow2, LenAt, Start, Upto;
    var j := Upto(lens, l - 1);
    forall i | j <= i < j + n ensures LenAt(lens, work, i) == l {
      LengthByPlace(lens, work, i, l);
      LengthByPlace(lens, work, i, l - 1);
    }
    StartRun(lens, work, j, n, l);
  }
}
