/** Rearrangements of a stretch of a sequence, the rest staying put. */
module Rearrange {

  /** A sequence seen with its stretch [lo, hi) unordered: two sequences with the same
      view differ only by a permutation of that stretch. */
  datatype View<T(==)> = View(before: seq<T>, stretch: multiset<T>, after: seq<T>)

  ghost function ViewOf<T>(f: seq<T>, lo: int, hi: int): View<T>
    requires 0 <= lo <= hi <= |f|
  {
    View(f[..lo], multiset(f[lo..hi]), f[hi..])
  }

  /** Exchanging two entries of the stretch keeps the view. */
  lemma SwapKeepsView<T>(f: seq<T>, a: int, b: int, lo: int, hi: int)
    requires 0 <= lo <= a < hi <= |f| && lo <= b < hi
    ensures ViewOf(f[a := f[b]][b := f[a]], lo, hi) == ViewOf(f, lo, hi)
  {
    var g := f[a := f[b]][b := f[a]];
    var x, y := f[lo..hi], g[lo..hi];
    assert y == x[a - lo := x[b - lo]][b - lo := x[a - lo]];
    assert f[..lo] == g[..lo] && f[hi..] == g[hi..];
  }

  /** A permuted stretch is a permuted part of every larger stretch. */
  lemma WidenView<T>(a: seq<T>, b: seq<T>, lo: int, hi: int, lo': int, hi': int)
    requires 0 <= lo' <= lo <= hi <= hi' <= |a| && hi' <= |b|
    requires ViewOf(a, lo, hi) == ViewOf(b, lo, hi)
    ensures ViewOf(a, lo', hi') == ViewOf(b, lo', hi')
  {
    assert |a[hi..]| == |b[hi..]|;
    assert a[..lo'] == a[..lo][..lo'] == b[..lo'];
    assert a[hi'..] == a[hi..][hi' - hi..] == b[hi'..];
    StretchParts(a, lo, hi, lo', hi');
    StretchParts(b, lo, hi, lo', hi');
  }

  lemma StretchParts<T>(a: seq<T>, lo: int, hi: int, lo': int, hi': int)
    requires 0 <= lo' <= lo <= hi <= hi' <= |a|
    ensures multiset(a[lo'..hi']) == multiset(a[..lo][lo'..]) + multiset(a[lo..hi]) + multiset(a[hi..][..hi' - hi])
  {
    assert a[lo'..hi'] == a[..lo][lo'..] + a[lo..hi] + a[hi..][..hi' - hi];
  }

  /** The entries as a whole are the same. */
  lemma ViewWhole<T>(a: seq<T>, b: seq<T>, lo: int, hi: int)
    requires 0 <= lo <= hi <= |a| && hi <= |b| && ViewOf(a, lo, hi) == ViewOf(b, lo, hi)
    ensures multiset(a) == multiset(b) && |a| == |b|
  {
    assert a == a[..lo] + a[lo..hi] + a[hi..];
    assert b == b[..lo] + b[lo..hi] + b[hi..];
    assert |a| == |multiset(a)| && |b| == |multiset(b)|;
  }

  /** An entry of the permuted stretch was in that stretch before. */
  lemma ViewFrom<T>(a: seq<T>, b: seq<T>, lo: int, hi: int, p: int) returns (q: int)
    requires 0 <= lo <= p < hi <= |a| && hi <= |b| && ViewOf(a, lo, hi) == ViewOf(b, lo, hi)
    ensures lo <= q < hi && b[p] == a[q]
  {
    assert b[p] == b[lo..hi][p - lo];
    assert b[p] in multiset(b[lo..hi]);
    assert b[p] in a[lo..hi];
    var k :| 0 <= k < hi - lo && a[lo..hi][k] == b[p];
    q := lo + k;
  }

  /** Entries outside the stretch are unchanged. */
  lemma ViewOutside<T>(a: seq<T>, b: seq<T>, lo: int, hi: int)
    requires 0 <= lo <= hi <= |a| && hi <= |b| && ViewOf(a, lo, hi) == ViewOf(b, lo, hi)
    ensures |a| == |b|
    ensures forall p :: 0 <= p < lo || hi <= p < |a| ==> b[p] == a[p]
  {
    assert |a[hi..]| == |b[hi..]|;
    forall p | 0 <= p < lo || hi <= p < |a| ensures b[p] == a[p] {
      if p < lo {
        assert a[p] == a[..lo][p] && b[p] == b[..lo][p];
      } else {
        assert a[p] == a[hi..][p - hi] && b[p] == b[hi..][p - hi];
      }
    }
  }

  /** A rearrangement of distinct values has distinct values. */
  lemma RearrangedDistinct<T>(a: seq<T>, b: seq<T>)
    requires multiset(a) == multiset(b)
    requires forall p, q :: 0 <= p < q < |a| ==> a[p] != a[q]
    ensures forall p, q :: 0 <= p < q < |b| ==> b[p] != b[q]
    ensures |a| == |b|
  {
    assert |a| == |multiset(a)| == |b|;
    forall p, q | 0 <= p < q < |b| ensures b[p] != b[q] {
      if b[p] == b[q] {
        assert b == b[..q] + [b[q]] + b[q + 1..];
        assert b[p] == b[..q][p];
        assert multiset(b)[b[q]] >= 2;
        AtMostOnce(a, b[q]);
      }
    }
  }

  lemma {:induction false} AtMostOnce<T>(a: seq<T>, x: T)
    requires forall p, q :: 0 <= p < q < |a| ==> a[p] != a[q]
    ensures multiset(a)[x] <= 1
  {
    if a != [] {
      var r := a[1..];
      assert a == [a[0]] + r;
      AtMostOnce(r, x);
      if a[0] == x {
        assert x !in r;
      }
    }
  }
}
