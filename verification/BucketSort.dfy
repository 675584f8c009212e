/** The in-bucket sort of the fallback block sorter: a three-way quicksort with an
    explicit stack, and an insertion sort for short stretches.  Both order a
    stretch of fmap by the equivalence class of the rotation each entry names;
    the classes themselves are only read. */
module BucketSort {
  import opened Common
  import opened Rearrange

  const SMALL_THRESH := 10
  const STACK_SIZE := 100

  /** Every entry of fmap names a rotation that has a class. */
  ghost predicate InRange(fmap: array<int>, n: int)
    reads fmap
  {
    forall p :: 0 <= p < fmap.Length ==> 0 <= fmap[p] < n
  }

  /** The stretch [lo, hi) is in order of class. */
  ghost predicate SortedBy(fmap: array<int>, ec: seq<int>, lo: int, hi: int)
    requires 0 <= lo && hi <= fmap.Length && InRange(fmap, |ec|)
    reads fmap
  {
    forall p, q :: lo <= p < q < hi ==> ec[fmap[p]] <= ec[fmap[q]]
  }

  // ---------- insertion sort ----------

  /** Shifting the entry at b into the hole at a moves the hole to b; with the hole
      filled by the entry tmp in hand, that is an exchange. */
  lemma HoleMoves(f: seq<int>, tmp: int, a: int, b: int, lo: int, hi: int)
    requires 0 <= lo <= a < b < hi <= |f|
    ensures ViewOf(f[a := f[b]][b := tmp], lo, hi) == ViewOf(f[a := tmp], lo, hi)
  {
    var x := f[a := tmp];
    SwapKeepsView(x, a, b, lo, hi);
    assert f[a := f[b]][b := tmp] == x[a := x[b]][b := x[a]];
  }

  /** One step of the four-apart pass: the entry at i moves up four places at a time
      past the entries of smaller class. */
  method InsertFar(fmap: array<int>, ec: seq<int>, lo: int, i: int, hi: int)
    requires 0 <= lo <= i && i + 4 <= hi < fmap.Length && InRange(fmap, |ec|)
    modifies fmap
    ensures ViewOf(fmap[..], lo, hi + 1) == old(ViewOf(fmap[..], lo, hi + 1))
    ensures InRange(fmap, |ec|)
  {
    hide ViewOf;
    ghost var view := ViewOf(fmap[..], lo, hi + 1);
    var tmp := fmap[i];
    var ecTmp := ec[tmp];
    var j := i + 4;
    assert fmap[..][i := tmp] == fmap[..];
    while j <= hi && ecTmp > ec[fmap[j]]
      invariant i + 4 <= j <= hi + 4
      invariant InRange(fmap, |ec|)
      invariant ViewOf(fmap[..][j - 4 := tmp], lo, hi + 1) == view
    {
      HoleMoves(fmap[..], tmp, j - 4, j, lo, hi + 1);
      fmap[j - 4] := fmap[j];
      j := j + 4;
    }
    fmap[j - 4] := tmp;
  }

  /** One step of the final pass: the entry at i moves up to its place. */
  method InsertAt(fmap: array<int>, ec: seq<int>, lo: int, i: int, hi: int)
    requires 0 <= lo <= i < hi < fmap.Length && InRange(fmap, |ec|)
    requires SortedBy(fmap, ec, i + 1, hi + 1)
    modifies fmap
    ensures ViewOf(fmap[..], lo, hi + 1) == old(ViewOf(fmap[..], lo, hi + 1))
    ensures InRange(fmap, |ec|)
    ensures SortedBy(fmap, ec, i, hi + 1)
  {
    hide ViewOf;
    ghost var view := ViewOf(fmap[..], lo, hi + 1);
    var tmp := fmap[i];
    var ecTmp := ec[tmp];
    var j := i + 1;
    assert fmap[..][i := tmp] == fmap[..];
    while j <= hi && ecTmp > ec[fmap[j]]
      invariant i + 1 <= j <= hi + 1
      invariant InRange(fmap, |ec|)
      invariant ViewOf(fmap[..][j - 1 := tmp], lo, hi + 1) == view
      invariant forall p, q :: i <= p < q <= hi && p != j - 1 && q != j - 1 ==> ec[fmap[p]] <= ec[fmap[q]]
      invariant forall p :: i <= p < j - 1 ==> ec[fmap[p]] < ecTmp
    {
      HoleMoves(fmap[..], tmp, j - 1, j, lo, hi + 1);
      fmap[j - 1] := fmap[j];
      j := j + 1;
    }
    fmap[j - 1] := tmp;
  }

  method FallbackSimpleSort(fmap: array<int>, ec: seq<int>, lo: int, hi: int)
    requires 0 <= lo <= hi + 1 <= fmap.Length && InRange(fmap, |ec|)
    modifies fmap
    ensures ViewOf(fmap[..], lo, hi + 1) == old(ViewOf(fmap[..], lo, hi + 1))
    ensures InRange(fmap, |ec|)
    ensures SortedBy(fmap, ec, lo, hi + 1)
  {
    hide ViewOf;
    ghost var view := ViewOf(fmap[..], lo, hi + 1);
    if lo == hi { return; }
    if hi - lo > 3 {
      var i := hi - 4;
      while i >= lo
        invariant lo - 1 <= i <= hi - 4
        invariant ViewOf(fmap[..], lo, hi + 1) == view
        invariant InRange(fmap, |ec|)
      {
        InsertFar(fmap, ec, lo, i, hi);
        i := i - 1;
      }
    }
    var i := hi - 1;
    while i >= lo
      invariant Min(lo, hi) - 1 <= i < hi
      invariant ViewOf(fmap[..], lo, hi + 1) == view
      invariant InRange(fmap, |ec|)
      invariant SortedBy(fmap, ec, Max(lo, i + 1), hi + 1)
    {
      InsertAt(fmap, ec, lo, i, hi);
      i := i - 1;
    }
  }

  // ---------- three-way partition ----------

  /** Exchanges the entries at a and b. */
  method FSwap(fmap: array<int>, a: int, b: int, ghost lo: int, ghost hi: int)
    requires 0 <= lo <= a < hi <= fmap.Length && lo <= b < hi
    modifies fmap
    ensures fmap[a] == old(fmap[b]) && fmap[b] == old(fmap[a])
    ensures forall p :: 0 <= p < fmap.Length && p != a && p != b ==> fmap[p] == old(fmap[p])
    ensures ViewOf(fmap[..], lo, hi) == old(ViewOf(fmap[..], lo, hi))
  {
    hide ViewOf;
    ghost var f := fmap[..];
    SwapKeepsView(f, a, b, lo, hi);
    fmap[a], fmap[b] := fmap[b], fmap[a];
    assert fmap[..] == f[a := f[b]][b := f[a]];
  }

  /** Exchanges the two non-overlapping runs of n entries at a and b. */
  method FVSwap(fmap: array<int>, a: int, b: int, n: int, ghost lo: int, ghost hi: int)
    requires 0 <= n && 0 <= lo <= a && a + n <= b && b + n <= hi <= fmap.Length
    modifies fmap
    ensures forall p :: a <= p < a + n ==> fmap[p] == old(fmap[b - a + p])
    ensures forall p :: b <= p < b + n ==> fmap[p] == old(fmap[a - b + p])
    ensures forall p :: 0 <= p < fmap.Length && !(a <= p < a + n) && !(b <= p < b + n) ==> fmap[p] == old(fmap[p])
    ensures ViewOf(fmap[..], lo, hi) == old(ViewOf(fmap[..], lo, hi))
  {
    hide ViewOf;
    ghost var view := ViewOf(fmap[..], lo, hi);
    var yyp1, yyp2, yyn := a, b, n;
    while yyn > 0
      invariant 0 <= yyn <= n && yyp1 == a + n - yyn && yyp2 == b + n - yyn
      invariant forall p :: a <= p < yyp1 ==> fmap[p] == old(fmap[b - a + p])
      invariant forall p :: b <= p < yyp2 ==> fmap[p] == old(fmap[a - b + p])
      invariant forall p :: 0 <= p < fmap.Length && !(a <= p < yyp1) && !(b <= p < yyp2) ==> fmap[p] == old(fmap[p])
      invariant ViewOf(fmap[..], lo, hi) == view
    {
      FSwap(fmap, yyp1, yyp2, lo, hi);
      yyp1, yyp2, yyn := yyp1 + 1, yyp2 + 1, yyn - 1;
    }
  }

  /** Where the entries of class below, equal to and above med sit while the stretch
      [lo, hi] is being split: equals at both ends, then the smaller, then the larger. */
  ghost predicate Zones(fmap: array<int>, ec: seq<int>, med: int, lo: int, ltLo: int, unLo: int, unHi: int, gtHi: int,
                        hi: int)
    reads fmap
  {
    && 0 <= lo <= ltLo <= unLo <= unHi + 1 <= gtHi + 1 <= hi + 1 <= fmap.Length
    && InRange(fmap, |ec|)
    && (forall p :: lo <= p < ltLo ==> ec[fmap[p]] == med)
    && (forall p :: ltLo <= p < unLo ==> ec[fmap[p]] < med)
    && (forall p :: unHi < p <= gtHi ==> ec[fmap[p]] > med)
    && (forall p :: gtHi < p <= hi ==> ec[fmap[p]] == med)
  }

  /** The scan from below: stops at an entry above med or when nothing is left. */
  method ScanLow(fmap: array<int>, ec: seq<int>, med: int, lo: int, ltLo0: int, unLo0: int, unHi: int, gtHi: int,
                 hi: int)
    returns (ltLo: int, unLo: int)
    requires Zones(fmap, ec, med, lo, ltLo0, unLo0, unHi, gtHi, hi)
    modifies fmap
    ensures Zones(fmap, ec, med, lo, ltLo, unLo, unHi, gtHi, hi)
    ensures unLo0 <= unLo && (unLo > unHi || ec[fmap[unLo]] > med)
    ensures ViewOf(fmap[..], lo, hi + 1) == old(ViewOf(fmap[..], lo, hi + 1))
  {
    hide ViewOf;
    ghost var view := ViewOf(fmap[..], lo, hi + 1);
    ltLo, unLo := ltLo0, unLo0;
    while true
      invariant Zones(fmap, ec, med, lo, ltLo, unLo, unHi, gtHi, hi)
      invariant unLo0 <= unLo
      invariant ViewOf(fmap[..], lo, hi + 1) == view
      decreases unHi - unLo
    {
      if unLo > unHi { break; }
      var n := ec[fmap[unLo]] - med;
      if n == 0 {
        FSwap(fmap, unLo, ltLo, lo, hi + 1);
        ltLo := ltLo + 1; unLo := unLo + 1;
        continue;
      }
      if n > 0 { break; }
      unLo := unLo + 1;
    }
  }

  /** The scan from above: stops at an entry below med or when nothing is left. */
  method ScanHigh(fmap: array<int>, ec: seq<int>, med: int, lo: int, ltLo: int, unLo: int, unHi0: int, gtHi0: int,
                  hi: int)
    returns (unHi: int, gtHi: int)
    requires Zones(fmap, ec, med, lo, ltLo, unLo, unHi0, gtHi0, hi)
    requires unLo > unHi0 || ec[fmap[unLo]] > med
    modifies fmap
    ensures Zones(fmap, ec, med, lo, ltLo, unLo, unHi, gtHi, hi)
    ensures unHi <= unHi0 && (unLo > unHi || (unLo < unHi && ec[fmap[unLo]] > med && ec[fmap[unHi]] < med))
    ensures ViewOf(fmap[..], lo, hi + 1) == old(ViewOf(fmap[..], lo, hi + 1))
  {
    hide ViewOf;
    ghost var view := ViewOf(fmap[..], lo, hi + 1);
    unHi, gtHi := unHi0, gtHi0;
    while true
      invariant Zones(fmap, ec, med, lo, ltLo, unLo, unHi, gtHi, hi)
      invariant unHi <= unHi0 && (unLo > unHi || ec[fmap[unLo]] > med)
      invariant ViewOf(fmap[..], lo, hi + 1) == view
      decreases unHi - unLo
    {
      if unLo > unHi { break; }
      var n := ec[fmap[unHi]] - med;
      if n == 0 {
        FSwap(fmap, unHi, gtHi, lo, hi + 1);
        gtHi := gtHi - 1; unHi := unHi - 1;
        continue;
      }
      if n < 0 { break; }
      unHi := unHi - 1;
    }
  }

  /** Exchanges the neighbouring runs [a, mid) and [mid, b), up to the order within each,
      by one exchange as long as the shorter of them. */
  method SwapRuns(fmap: array<int>, a: int, mid: int, b: int, ghost lo: int, ghost hi: int)
    requires 0 <= lo <= a <= mid <= b <= hi <= fmap.Length
    modifies fmap
    ensures ViewOf(fmap[..], lo, hi) == old(ViewOf(fmap[..], lo, hi))
    ensures forall p :: 0 <= p < a || b <= p < fmap.Length ==> fmap[p] == old(fmap[p])
    ensures forall p :: a <= p < a + b - mid ==> fmap[p] in old(fmap[mid..b])
    ensures forall p :: a + b - mid <= p < b ==> fmap[p] in old(fmap[a..mid])
  {
    hide ViewOf;
    var n := Min(mid - a, b - mid);
    ghost var x, y := fmap[a..mid], fmap[mid..b];
    FVSwap(fmap, a, b - n, n, lo, hi);
    forall p | a <= p < a + b - mid ensures fmap[p] in y {
      assert fmap[p] == y[if p < a + n then b - n - a + p - mid else p - mid];
    }
    forall p | a + b - mid <= p < b ensures fmap[p] in x {
      assert fmap[p] == x[if b - n <= p then p - b + n else p - a];
    }
  }

  /** Moves the equals from both ends to the middle. */
  method MiddleEquals(fmap: array<int>, ec: seq<int>, med: int, lo: int, ltLo: int, unLo: int, gtHi: int, hi: int)
    requires Zones(fmap, ec, med, lo, ltLo, unLo, unLo - 1, gtHi, hi)
    modifies fmap
    ensures ViewOf(fmap[..], lo, hi + 1) == old(ViewOf(fmap[..], lo, hi + 1))
    ensures InRange(fmap, |ec|)
    ensures forall p :: lo <= p < lo + unLo - ltLo ==> ec[fmap[p]] < med
    ensures forall p :: lo + unLo - ltLo <= p < hi + unLo - gtHi ==> ec[fmap[p]] == med
    ensures forall p :: hi + unLo - gtHi <= p <= hi ==> ec[fmap[p]] > med
  {
    hide ViewOf, Zones;
    ZoneRuns(fmap, ec, med, lo, ltLo, unLo, gtHi, hi);
    ghost var f := fmap[..];
    SwapRuns(fmap, lo, ltLo, unLo, lo, hi + 1);
    assert fmap[unLo..gtHi + 1] == f[unLo..gtHi + 1] && fmap[gtHi + 1..hi + 1] == f[gtHi + 1..hi + 1];
    SwapRuns(fmap, unLo, gtHi + 1, hi + 1, lo, hi + 1);
  }

  lemma ZoneRuns(fmap: array<int>, ec: seq<int>, med: int, lo: int, ltLo: int, unLo: int, gtHi: int, hi: int)
    requires Zones(fmap, ec, med, lo, ltLo, unLo, unLo - 1, gtHi, hi)
    ensures 0 <= lo <= ltLo <= unLo <= gtHi + 1 <= hi + 1 <= fmap.Length && InRange(fmap, |ec|)
    ensures forall e :: e in fmap[lo..ltLo] ==> 0 <= e < |ec| && ec[e] == med
    ensures forall e :: e in fmap[ltLo..unLo] ==> 0 <= e < |ec| && ec[e] < med
    ensures forall e :: e in fmap[unLo..gtHi + 1] ==> 0 <= e < |ec| && ec[e] > med
    ensures forall e :: e in fmap[gtHi + 1..hi + 1] ==> 0 <= e < |ec| && ec[e] == med
  {
  }

  lemma ZonesStart(fmap: array<int>, ec: seq<int>, med: int, lo: int, hi: int)
    requires 0 <= lo <= hi < fmap.Length && InRange(fmap, |ec|)
    ensures Zones(fmap, ec, med, lo, lo, lo, hi, hi, hi)
  {
  }

  /** The two entries at which the scans have stopped change places. */
  method SwapEnds(fmap: array<int>, ec: seq<int>, med: int, lo: int, ltLo: int, unLo: int, unHi: int, gtHi: int,
                  hi: int)
    requires Zones(fmap, ec, med, lo, ltLo, unLo, unHi, gtHi, hi) && unLo < unHi && ec[fmap[unLo]] > med &&
             ec[fmap[unHi]] < med
    modifies fmap
    ensures Zones(fmap, ec, med, lo, ltLo, unLo + 1, unHi - 1, gtHi, hi)
    ensures ViewOf(fmap[..], lo, hi + 1) == old(ViewOf(fmap[..], lo, hi + 1))
  {
    hide ViewOf;
    FSwap(fmap, unLo, unHi, lo, hi + 1);
  }

  /** When nothing is left to scan, an entry equal to med lies at one of the ends. */
  lemma ZonesMet(fmap: array<int>, ec: seq<int>, med: int, lo: int, ltLo: int, unLo: int, unHi: int, gtHi: int, hi: int,
                 still: int)
    requires Zones(fmap, ec, med, lo, ltLo, unLo, unHi, gtHi, hi) && unLo > unHi && lo <= still <= hi
    requires 0 <= fmap[still] < |ec| && ec[fmap[still]] == med
    ensures unHi == unLo - 1 && lo <= ltLo <= unLo <= gtHi + 1 <= hi + 1 && InRange(fmap, |ec|) &&
            (lo < ltLo || gtHi < hi)
    ensures gtHi < ltLo ==> forall p :: lo <= p <= hi ==> ec[fmap[p]] == med
  {
  }

  /** Splits the stretch [lo, hi] around med, which occurs in it.  Unless every entry
      equals med, the entries below med end up in [lo, n], those above in [m, hi], and
      at least one equal entry in between. */
  method Partition(fmap: array<int>, ec: seq<int>, med: int, lo: int, hi: int, ghost at: int)
    returns (uniform: bool, n: int, m: int)
    requires 0 <= lo <= at <= hi < fmap.Length && InRange(fmap, |ec|)
    requires med == ec[fmap[at]]
    modifies fmap
    ensures ViewOf(fmap[..], lo, hi + 1) == old(ViewOf(fmap[..], lo, hi + 1))
    ensures InRange(fmap, |ec|)
    ensures uniform ==> n == lo - 1 && m == hi + 1
    ensures lo <= n + 1 < m <= hi + 1
    ensures forall p :: lo <= p <= n ==> ec[fmap[p]] < med
    ensures forall p :: n < p < m ==> ec[fmap[p]] == med
    ensures forall p :: m <= p <= hi ==> ec[fmap[p]] > med
  {
    hide ViewOf, Zones;
    ghost var was, view := fmap[..], ViewOf(fmap[..], lo, hi + 1);
    var unLo, ltLo, unHi, gtHi := lo, lo, hi, hi;
    ZonesStart(fmap, ec, med, lo, hi);
    while true
      invariant Zones(fmap, ec, med, lo, ltLo, unLo, unHi, gtHi, hi)
      invariant ViewOf(fmap[..], lo, hi + 1) == view
      decreases unHi - unLo
    {
      ltLo, unLo := ScanLow(fmap, ec, med, lo, ltLo, unLo, unHi, gtHi, hi);
      unHi, gtHi := ScanHigh(fmap, ec, med, lo, ltLo, unLo, unHi, gtHi, hi);
      if unLo > unHi { break; }
      SwapEnds(fmap, ec, med, lo, ltLo, unLo, unHi, gtHi, hi);
      unLo := unLo + 1; unHi := unHi - 1;
    }
    ghost var still := ViewFrom(fmap[..], was, lo, hi + 1, at);
    ZonesMet(fmap, ec, med, lo, ltLo, unLo, unHi, gtHi, hi, still);
    if gtHi < ltLo {
      return true, lo - 1, hi + 1;
    }
    uniform := false;
    MiddleEquals(fmap, ec, med, lo, ltLo, unLo, gtHi, hi);
    n := lo + unLo - ltLo - 1;
    m := hi - (gtHi - unHi) + 1;
  }

  // ---------- the stack of stretches still to be sorted ----------

  datatype Stretch = Stretch(lo: int, hi: int) {
    ghost predicate Has(p: int) { lo <= p <= hi }
    ghost function Size(): int { hi - lo + 1 }
  }

  /** Two positions wait for order only inside a common stretch. */
  ghost predicate Shared(st: seq<Stretch>, p: int, q: int) {
    exists k :: 0 <= k < |st| && st[k].Has(p) && st[k].Has(q)
  }

  ghost predicate Disjoint(st: seq<Stretch>) {
    forall k, l, p :: 0 <= k < l < |st| && st[k].Has(p) ==> !st[l].Has(p)
  }

  /** Keys at positions not waiting in a common stretch are in order. */
  ghost predicate SortedExcept(keys: seq<int>, st: seq<Stretch>, lo: int, hi: int)
    requires 0 <= lo && hi < |keys|
  {
    forall p, q :: lo <= p < q <= hi ==> keys[p] <= keys[q] || Shared(st, p, q)
  }

  /** after is before with the stretch r rearranged. */
  ghost predicate RearrangedIn(before: seq<int>, after: seq<int>, r: Stretch) {
    && 0 <= r.lo && r.hi < |before| == |after|
    && (forall p {:trigger after[p]} :: 0 <= p < |before| && !r.Has(p) ==> after[p] == before[p])
    && (forall p {:trigger after[p]} :: r.Has(p) ==> exists q :: r.Has(q) && after[p] == before[q])
  }

  /** Replacing the top stretch r by stretches inside it keeps stretches disjoint. */
  lemma TopReplacedDisjoint(rest: seq<Stretch>, r: Stretch, extra: seq<Stretch>)
    requires Disjoint(rest + [r]) && Disjoint(extra)
    requires forall k :: 0 <= k < |extra| ==> r.lo <= extra[k].lo && extra[k].hi <= r.hi
    ensures Disjoint(rest + extra)
  {
    var old', new' := rest + [r], rest + extra;
    forall k, l, p | 0 <= k < l < |new'| && new'[k].Has(p) ensures !new'[l].Has(p) {
      if l < |rest| {
        assert old'[k].Has(p) && !old'[l].Has(p);
      } else if k < |rest| {
        assert old'[k].Has(p) && !old'[|rest|].Has(p);
        assert !r.Has(p);
      } else {
        assert extra[k - |rest|].Has(p) && !extra[l - |rest|].Has(p);
      }
    }
  }

  /** ... and positions not both inside r keep their order. */
  lemma OutsideStaysInOrder(before: seq<int>, after: seq<int>, rest: seq<Stretch>, r: Stretch, lo: int, hi: int, p: int,
                            q: int)
    requires 0 <= lo <= p < q <= hi < |before| && lo <= r.lo && r.hi <= hi
    requires SortedExcept(before, rest + [r], lo, hi) && Disjoint(rest + [r])
    requires RearrangedIn(before, after, r)
    requires !(r.Has(p) && r.Has(q))
    ensures after[p] <= after[q] || Shared(rest, p, q)
  {
    var st := rest + [r];
    assert st[|rest|] == r;
    var p', q' := p, q;
    if r.Has(p) { p' :| r.Has(p') && after[p] == before[p']; }
    if r.Has(q) { q' :| r.Has(q') && after[q] == before[q']; }
    assert before[p'] <= before[q'] || Shared(st, p', q');
    if Shared(st, p', q') {
      var k :| 0 <= k < |st| && st[k].Has(p') && st[k].Has(q');
      assert !r.Has(p') && !r.Has(q');
      assert rest[k].Has(p) && rest[k].Has(q);
    }
  }

  lemma TopReplacedSorted(before: seq<int>, after: seq<int>, rest: seq<Stretch>, r: Stretch, extra: seq<Stretch>,
                          lo: int, hi: int)
    requires 0 <= lo <= r.lo && r.hi <= hi < |before|
    requires SortedExcept(before, rest + [r], lo, hi) && Disjoint(rest + [r])
    requires RearrangedIn(before, after, r)
    requires SortedExcept(after, extra, r.lo, r.hi)
    ensures SortedExcept(after, rest + extra, lo, hi)
  {
    var st := rest + extra;
    forall p, q | lo <= p < q <= hi ensures after[p] <= after[q] || Shared(st, p, q) {
      if r.Has(p) && r.Has(q) {
        if Shared(extra, p, q) {
          var k :| 0 <= k < |extra| && extra[k].Has(p) && extra[k].Has(q);
          assert st[|rest| + k].Has(p) && st[|rest| + k].Has(q);
        }
      } else {
        OutsideStaysInOrder(before, after, rest, r, lo, hi, p, q);
        if Shared(rest, p, q) {
          var k :| 0 <= k < |rest| && rest[k].Has(p) && rest[k].Has(q);
          assert st[k].Has(p) && st[k].Has(q);
        }
      }
    }
  }

  /** Repeated halving: what is left of a stretch of size s at stack depth k. */
  function Halved(s: nat, k: nat): (h: nat)
    ensures h <= s
  {
    if k == 0 then s else Halved(s, k - 1) / 2
  }

  lemma HalfTimesDouble(h: nat, p: nat)
    requires p > 0
    ensures (h / 2) * (2 * p) <= h * p
    ensures h > 0 ==> p <= h * p
  {
    assert (h / 2) * (2 * p) == (2 * (h / 2)) * p;
    assert 2 * (h / 2) <= h;
  }

  lemma {:induction false} HalvedBound(s: nat, k: nat)
    ensures Halved(s, k) * Pow2(k) <= s
  {
    if k > 0 {
      HalvedBound(s, k - 1);
      HalfTimesDouble(Halved(s, k - 1), Pow2(k - 1));
    }
  }

  lemma Pow2At31()
    ensures Pow2(31) == 0x8000_0000
  {
    assert Pow2(8) == 0x100;
    assert Pow2(16) == 0x1_0000;
    assert Pow2(24) == 0x100_0000;
  }

  /** No stretch of 32-bit size is still worth splitting 31 halvings down. */
  lemma DepthBound(s: nat, k: nat)
    requires s < 0x8000_0000 && Halved(s, k) > 0
    ensures k < 31
  {
    if k >= 31 {
      HalvedBound(s, k);
      HalfTimesDouble(Halved(s, k), Pow2(k));
      Pow2Monotone(31, k);
      Pow2At31();
    }
  }

  /** Work left: each waiting stretch counts for its size and one visit. */
  ghost function Work(st: seq<Stretch>): nat {
    if st == [] then 0 else Work(st[..|st| - 1]) + 1 + 2 * Max(0, st[|st| - 1].Size())
  }

  lemma WorkAppend(st: seq<Stretch>, x: Stretch)
    ensures Work(st + [x]) == Work(st) + 1 + 2 * Max(0, x.Size())
  {
    assert (st + [x])[..|st|] == st;
  }

  /** The classes along fmap. */
  ghost function Keys(f: seq<int>, ec: seq<int>): (k: seq<int>)
    requires forall p :: 0 <= p < |f| ==> 0 <= f[p] < |ec|
    ensures |k| == |f| && forall p :: 0 <= p < |f| ==> k[p] == ec[f[p]]
  {
    seq(|f|, p requires 0 <= p < |f| => ec[f[p]])
  }

  lemma ViewRearrangesKeys(f: seq<int>, g: seq<int>, ec: seq<int>, r: Stretch)
    requires 0 <= r.lo <= r.hi + 1 <= |f| && r.hi < |g|
    requires forall p :: 0 <= p < |f| ==> 0 <= f[p] < |ec|
    requires forall p :: 0 <= p < |g| ==> 0 <= g[p] < |ec|
    requires ViewOf(f, r.lo, r.hi + 1) == ViewOf(g, r.lo, r.hi + 1)
    ensures RearrangedIn(Keys(f, ec), Keys(g, ec), r)
  {
    ViewOutside(f, g, r.lo, r.hi + 1);
    var before, after := Keys(f, ec), Keys(g, ec);
    forall p | r.Has(p) ensures exists q :: r.Has(q) && after[p] == before[q] {
      var q := ViewFrom(f, g, r.lo, r.hi + 1, p);
      assert r.Has(q);
    }
  }

  /** What holds of the waiting stretches each time round the loop. */
  ghost predicate StackOk(keys: seq<int>, st: seq<Stretch>, lo: int, hi: int)
    requires 0 <= lo <= hi + 1 <= |keys|
  {
    && (forall k :: 0 <= k < |st| ==> lo <= st[k].lo <= st[k].hi + 1 <= hi + 1)
    && Disjoint(st)
    && SortedExcept(keys, st, lo, hi)
    && (forall k :: 0 <= k < |st| ==> st[k].Size() <= Halved(hi - lo + 1, k))
    && (|st| >= 2 ==> Halved(hi - lo + 1, |st| - 2) > 0)
  }

  /** A stretch that is now in order leaves the stack. */
  lemma StackPop(before: seq<int>, after: seq<int>, rest: seq<Stretch>, r: Stretch, lo: int, hi: int)
    requires 0 <= lo <= hi + 1 <= |before| && StackOk(before, rest + [r], lo, hi)
    requires RearrangedIn(before, after, r)
    requires forall p, q :: r.lo <= p < q <= r.hi ==> after[p] <= after[q]
    ensures StackOk(after, rest, lo, hi) && Work(rest) < Work(rest + [r])
  {
    var st := rest + [r];
    assert st[|rest|] == r;
    TopReplacedSorted(before, after, rest, r, [], lo, hi);
    TopReplacedDisjoint(rest, r, []);
    assert rest + [] == rest;
    forall k | 0 <= k < |rest|
      ensures lo <= rest[k].lo <= rest[k].hi + 1 <= hi + 1 && rest[k].Size() <= Halved(hi - lo + 1, k)
    {
      assert st[k] == rest[k];
    }
    WorkAppend(rest, r);
  }

  /** What is left when the stretch r is split: its two ends x and y, the longer one first,
      with something between them. */
  ghost predicate SplitInto(r: Stretch, x: Stretch, y: Stretch) {
    && r.Size() > 0 && x.lo <= x.hi + 1 && y.lo <= y.hi + 1 && y.Size() <= x.Size()
    && ((r.lo == x.lo && x.hi + 1 < y.lo && y.hi == r.hi) || (r.lo == y.lo && y.hi + 1 < x.lo && x.hi == r.hi))
  }

  /** The ends stay within bounds, and the shorter one is at most half. */
  lemma SplitSizes(rest: seq<Stretch>, r: Stretch, x: Stretch, y: Stretch, lo: int, hi: int)
    requires 0 <= lo <= hi + 1 && SplitInto(r, x, y) && (|rest| >= 1 ==> Halved(hi - lo + 1, |rest| - 1) > 0)
    requires forall k :: 0 <= k < |rest + [r]| ==> lo <= (rest + [r])[k].lo <= (rest + [r])[k].hi + 1 <= hi + 1
    requires forall k :: 0 <= k < |rest + [r]| ==> (rest + [r])[k].Size() <= Halved(hi - lo + 1, k)
    ensures var st := rest + [x, y];
            && (forall k :: 0 <= k < |st| ==>
                lo <= st[k].lo <= st[k].hi + 1 <= hi + 1 && st[k].Size() <= Halved(hi - lo + 1, k))
            && Halved(hi - lo + 1, |rest|) > 0
  {
    var old', st := rest + [r], rest + [x, y];
    assert old'[|rest|] == r;
    assert Halved(hi - lo + 1, |rest| + 1) == Halved(hi - lo + 1, |rest|) / 2;
    forall k | 0 <= k < |st|
      ensures lo <= st[k].lo <= st[k].hi + 1 <= hi + 1 && st[k].Size() <= Halved(hi - lo + 1, k)
    {
      if k < |rest| { assert old'[k] == st[k]; } else { assert st[k] == if k == |rest| then x else y; }
    }
  }

  /** Only positions in a common end are still out of order. */
  lemma SplitSorted(keys: seq<int>, r: Stretch, x: Stretch, y: Stretch)
    requires 0 <= r.lo && r.hi < |keys|
    requires forall p, q :: r.lo <= p < q <= r.hi && !(x.Has(p) && x.Has(q)) && !(y.Has(p) && y.Has(q)) ==>
               keys[p] <= keys[q]
    ensures SortedExcept(keys, [x, y], r.lo, r.hi)
  {
    var extra := [x, y];
    forall p, q | r.lo <= p < q <= r.hi ensures keys[p] <= keys[q] || Shared(extra, p, q) {
      assert extra[0].Has(p) && extra[0].Has(q) ==> Shared(extra, p, q);
      assert extra[1].Has(p) && extra[1].Has(q) ==> Shared(extra, p, q);
    }
  }

  lemma SplitDisjoint(r: Stretch, x: Stretch, y: Stretch)
    requires SplitInto(r, x, y)
    ensures Disjoint([x, y]) && forall k :: 0 <= k < |[x, y]| ==> r.lo <= [x, y][k].lo && [x, y][k].hi <= r.hi
  {
  }

  lemma SplitWork(rest: seq<Stretch>, r: Stretch, x: Stretch, y: Stretch)
    requires SplitInto(r, x, y)
    ensures Work(rest + [x, y]) < Work(rest + [r])
  {
    hide Work;
    WorkAppend(rest, r);
    WorkAppend(rest, x);
    WorkAppend(rest + [x], y);
    assert rest + [x, y] == rest + [x] + [y];
  }

  /** A stretch split around equals is replaced by its two ends. */
  lemma StackSplit(before: seq<int>, after: seq<int>, rest: seq<Stretch>, r: Stretch, x: Stretch, y: Stretch, lo: int,
                   hi: int)
    requires 0 <= lo <= hi + 1 <= |before| && StackOk(before, rest + [r], lo, hi)
    requires RearrangedIn(before, after, r) && SplitInto(r, x, y)
    requires forall p, q :: r.lo <= p < q <= r.hi && !(x.Has(p) && x.Has(q)) && !(y.Has(p) && y.Has(q)) ==>
               after[p] <= after[q]
    ensures StackOk(after, rest + [x, y], lo, hi) && Work(rest + [x, y]) < Work(rest + [r])
  {
    hide Halved, Work, SortedExcept, Disjoint, SplitInto;
    assert (rest + [r])[|rest|] == r;
    SplitSizes(rest, r, x, y, lo, hi);
    SplitSorted(after, r, x, y);
    SplitDisjoint(r, x, y);
    TopReplacedSorted(before, after, rest, r, [x, y], lo, hi);
    TopReplacedDisjoint(rest, r, [x, y]);
    SplitWork(rest, r, x, y);
  }

  lemma StackStart(keys: seq<int>, lo: int, hi: int)
    requires 0 <= lo <= hi < |keys|
    ensures StackOk(keys, [Stretch(lo, hi)], lo, hi)
  {
    var st := [Stretch(lo, hi)];
    forall p, q | lo <= p < q <= hi ensures Shared(st, p, q) {
      assert st[0].Has(p) && st[0].Has(q);
    }
  }

  /** The assertion sp < FALLBACK_QSORT_STACK_SIZE - 1 cannot fail. */
  lemma StackDepth(keys: seq<int>, st: seq<Stretch>, lo: int, hi: int)
    requires 0 <= lo <= hi < |keys| < 0x8000_0000 && StackOk(keys, st, lo, hi)
    ensures |st| <= 32
    ensures |st| > 0 ==> var top := st[|st| - 1]; lo <= top.lo <= top.hi + 1 <= hi + 1
  {
    if |st| >= 2 { DepthBound(hi - lo + 1, |st| - 2); }
  }

  lemma StackEmpty(keys: seq<int>, lo: int, hi: int)
    requires 0 <= lo <= hi < |keys| && StackOk(keys, [], lo, hi)
    ensures forall p, q :: lo <= p < q <= hi ==> keys[p] <= keys[q]
  {
  }

  /** Sorts a short stretch outright, or splits a longer one around the class at position
      at; in the latter case x and y are what remains to be sorted, the longer one first. */
  method SortOrSplit(fmap: array<int>, ec: seq<int>, lo: int, hi: int, at: int, ghost rest: seq<Stretch>,
                     ghost loSt: int, ghost hiSt: int)
    returns (split: bool, x: Stretch, y: Stretch)
    requires 0 <= loSt <= lo <= hi + 1 <= hiSt + 1 <= fmap.Length && InRange(fmap, |ec|)
    requires hi - lo >= SMALL_THRESH ==> lo <= at <= hi
    requires StackOk(Keys(fmap[..], ec), rest + [Stretch(lo, hi)], loSt, hiSt)
    modifies fmap
    ensures ViewOf(fmap[..], loSt, hiSt + 1) == old(ViewOf(fmap[..], loSt, hiSt + 1))
    ensures InRange(fmap, |ec|)
    ensures var left := if split then rest + [x, y] else rest;
            StackOk(Keys(fmap[..], ec), left, loSt, hiSt) && Work(left) < Work(rest + [Stretch(lo, hi)])
  {
    hide ViewOf, StackOk, RearrangedIn, Work;
    ghost var f := fmap[..];
    var top := Stretch(lo, hi);
    x, y := top, top;
    if hi - lo < SMALL_THRESH {
      FallbackSimpleSort(fmap, ec, lo, hi);
      split := false;
    } else {
      var med := ec[fmap[at]];
      var uniform, n, m := Partition(fmap, ec, med, lo, hi, at);
      split := !uniform;
      if n - lo > hi - m {
        x, y := Stretch(lo, n), Stretch(m, hi);
      } else {
        x, y := Stretch(m, hi), Stretch(lo, n);
      }
    }
    WidenView(f, fmap[..], lo, hi + 1, loSt, hiSt + 1);
    ViewRearrangesKeys(f, fmap[..], ec, top);
    if split {
      StackSplit(Keys(f, ec), Keys(fmap[..], ec), rest, top, x, y, loSt, hiSt);
    } else {
      StackPop(Keys(f, ec), Keys(fmap[..], ec), rest, top, loSt, hiSt);
    }
  }

  /** The two arrays hold the waiting stretches. */
  ghost predicate Stacked(stackLo: array<int>, stackHi: array<int>, sp: int, st: seq<Stretch>)
    reads stackLo, stackHi
  {
    && sp == |st| <= STACK_SIZE == stackLo.Length == stackHi.Length
    && forall k :: 0 <= k < |st| ==> st[k] == Stretch(stackLo[k], stackHi[k])
  }

  /** fpush. */
  method FPush(stackLo: array<int>, stackHi: array<int>, sp0: int, x: Stretch, ghost st: seq<Stretch>) returns (sp: int)
    requires Stacked(stackLo, stackHi, sp0, st) && sp0 < STACK_SIZE && stackLo != stackHi
    modifies stackLo, stackHi
    ensures Stacked(stackLo, stackHi, sp, st + [x])
  {
    stackLo[sp0], stackHi[sp0] := x.lo, x.hi;
    sp := sp0 + 1;
  }

  /** fpop. */
  method FPop(stackLo: array<int>, stackHi: array<int>, sp0: int, ghost st: seq<Stretch>)
    returns (sp: int, lo: int, hi: int)
    requires Stacked(stackLo, stackHi, sp0, st) && st != []
    ensures Stacked(stackLo, stackHi, sp, st[..|st| - 1]) && st == st[..|st| - 1] + [Stretch(lo, hi)]
  {
    sp := sp0 - 1;
    lo, hi := stackLo[sp], stackHi[sp];
  }

  lemma StackedSize(stackLo: array<int>, stackHi: array<int>, sp: int, st: seq<Stretch>)
    requires Stacked(stackLo, stackHi, sp, st)
    ensures sp == |st|
  {
  }

  /** Sorts the stretch [loSt, hiSt] of fmap by class.  The stack never overflows: a
      stretch k levels up is at most the k-th halving of the whole. */
  method FallbackQSort3(fmap: array<int>, ec: seq<int>, loSt: int, hiSt: int)
    requires 0 <= loSt <= hiSt < fmap.Length < 0x8000_0000 && InRange(fmap, |ec|)
    modifies fmap
    ensures ViewOf(fmap[..], loSt, hiSt + 1) == old(ViewOf(fmap[..], loSt, hiSt + 1))
    ensures InRange(fmap, |ec|)
    ensures SortedBy(fmap, ec, loSt, hiSt + 1)
  {
    hide ViewOf, StackOk, Work, Stacked;
    ghost var view := ViewOf(fmap[..], loSt, hiSt + 1);
    var stackLo, stackHi := new int[STACK_SIZE], new int[STACK_SIZE];
    NothingStacked(stackLo, stackHi);
    var r := 0;
    var sp := FPush(stackLo, stackHi, 0, Stretch(loSt, hiSt), []);
    ghost var st := [Stretch(loSt, hiSt)];
    assert [] + st == st;
    StackStart(Keys(fmap[..], ec), loSt, hiSt);
    StackedSize(stackLo, stackHi, sp, st);
    while sp > 0
      invariant 0 <= r < 32768 && sp == |st|
      invariant Stacked(stackLo, stackHi, sp, st)
      invariant InRange(fmap, |ec|)
      invariant ViewOf(fmap[..], loSt, hiSt + 1) == view
      invariant StackOk(Keys(fmap[..], ec), st, loSt, hiSt)
      decreases Work(st)
    {
      StackDepth(Keys(fmap[..], ec), st, loSt, hiSt);
      assert sp < STACK_SIZE - 1;
      var lo, hi;
      sp, lo, hi := FPop(stackLo, stackHi, sp, st);
      ghost var rest := st[..|st| - 1];
      var at := lo;
      if hi - lo >= SMALL_THRESH {
        r := (r * 7621 + 1) % 32768;
        var r3 := r % 3;
        at := if r3 == 0 then lo else if r3 == 1 then (lo + hi) / 2 else hi;
      }
      var split, x, y := SortOrSplit(fmap, ec, lo, hi, at, rest, loSt, hiSt);
      st := rest;
      if split {
        StackedSize(stackLo, stackHi, sp, rest);
        sp := FPush(stackLo, stackHi, sp, x, rest);
        StackedSize(stackLo, stackHi, sp, rest + [x]);
        sp := FPush(stackLo, stackHi, sp, y, rest + [x]);
        st := rest + [x, y];
        assert st == rest + [x] + [y];
      }
      StackedSize(stackLo, stackHi, sp, st);
    }
    StackEmpty(Keys(fmap[..], ec), loSt, hiSt);
  }

  lemma NothingStacked(stackLo: array<int>, stackHi: array<int>)
    requires stackLo.Length == stackHi.Length == STACK_SIZE
    ensures Stacked(stackLo, stackHi, 0, [])
  {
  }
}
