/** The priority queue of zlib's build_tree: a binary heap of nodes, least frequent first,
    ties broken by depth. */
module TreeHeap {
  import opened WeightHeap

  /** The macro smaller. */
  predicate Smaller(freq: seq<int>, depth: seq<int>, n: int, m: int)
    requires 0 <= n < |freq| == |depth| && 0 <= m < |freq|
  {
    freq[n] < freq[m] || (freq[n] == freq[m] && depth[n] <= depth[m])
  }

  /** Frequency and depth as one number to compare by. */
  ghost function Keys(freq: seq<int>, depth: seq<int>): (k: seq<int>)
    requires |freq| == |depth|
    ensures |k| == |freq| && forall n :: 0 <= n < |k| ==> k[n] == freq[n] * 256 + depth[n]
  {
    seq(|freq|, n requires 0 <= n < |freq| => freq[n] * 256 + depth[n])
  }

  lemma SmallerByKey(freq: seq<int>, depth: seq<int>, n: int, m: int)
    requires 0 <= n < |freq| == |depth| && 0 <= m < |freq|
    requires 0 <= depth[n] < 256 && 0 <= depth[m] < 256
    ensures Smaller(freq, depth, n, m) <==> Keys(freq, depth)[n] <= Keys(freq, depth)[m]
  {
  }

  /** Sub-heaps: order holds between nodes and their children from heap position lo on. */
  ghost predicate HeapFrom(f: seq<int>, wt: seq<int>, n: int, lo: int) {
    && 0 <= n < |f| && (forall j :: 1 <= j <= n ==> 0 <= f[j] < |wt|)
    && (forall j :: 2 <= j <= n && j / 2 >= lo ==> wt[f[j / 2]] <= wt[f[j]])
  }

  /** Sub-heaps, except that the entry at z may be larger than its children. */
  ghost predicate DownFrom(f: seq<int>, wt: seq<int>, n: int, lo: int, z: int) {
    && 1 <= lo <= z <= n < |f| && (forall j :: 1 <= j <= n ==> 0 <= f[j] < |wt|)
    && (forall j :: 2 <= j <= n && j / 2 >= lo && j / 2 != z ==> wt[f[j / 2]] <= wt[f[j]])
    && (z >= 2 && z / 2 >= lo ==> forall j :: 2 <= j <= n && j / 2 == z ==> wt[f[z / 2]] <= wt[f[j]])
  }

  lemma DownFromStep(g: seq<int>, v: int, wt: seq<int>, n: int, lo: int, z: int, y: int)
    requires 1 <= z < |g| && DownFrom(g[z := v], wt, n, lo, z)
    requires y / 2 == z && 2 <= y <= n && forall j :: 2 <= j <= n && j / 2 == z ==> wt[g[z := v][y]] <= wt[g[z := v][j]]
    requires 0 <= v < |wt| && wt[g[z := v][y]] <= wt[v]
    ensures DownFrom(g[z := g[y]][y := v], wt, n, lo, y)
  {
    var f, h := g[z := v], g[z := g[y]][y := v];
    assert z < y;
    assert forall j :: 0 <= j <= n ==> h[j] == if j == z then f[y] else if j == y then v else f[j];
    forall j | 2 <= j <= n && j / 2 >= lo && j / 2 != y ensures wt[h[j / 2]] <= wt[h[j]] {
      if j / 2 == z {
        assert h[j / 2] == g[y];
      } else if j == z {
        assert wt[f[z / 2]] <= wt[f[y]];
      } else {
        assert wt[f[j / 2]] <= wt[f[j]];
      }
    }
    forall j | 2 <= j <= n && j / 2 == y ensures wt[h[y / 2]] <= wt[h[j]] {
      assert wt[f[j / 2]] <= wt[f[j]];
    }
    assert forall j :: 1 <= j <= n ==> 0 <= h[j] < |wt|;
  }

  lemma DownFromDone(f: seq<int>, wt: seq<int>, n: int, lo: int, z: int)
    requires DownFrom(f, wt, n, lo, z) && forall j :: 2 <= j <= n && j / 2 == z ==> wt[f[z]] <= wt[f[j]]
    ensures HeapFrom(f, wt, n, lo)
  {
  }

  lemma DownFromRange(f: seq<int>, wt: seq<int>, n: int, lo: int, z: int)
    requires DownFrom(f, wt, n, lo, z)
    ensures 1 <= lo <= z <= n < |f| && forall j :: 1 <= j <= n ==> 0 <= f[j] < |wt|
  {
  }

  /** pqdownheap. */
  method PqDownHeap(heap: array<int>, freq: seq<int>, depth: seq<int>, n: int, k: int)
    requires |freq| == |depth| && (forall i :: 0 <= i < |depth| ==> 0 <= depth[i] < 256)
    requires 0 <= n < heap.Length && DownFrom(heap[..], Keys(freq, depth), n, k, k)
    modifies heap
    ensures HeapFrom(heap[..], Keys(freq, depth), n, k) && Content(heap[..], n) == old(Content(heap[..], n))
    ensures forall i :: n < i < heap.Length ==> heap[i] == old(heap[i])
  {
    hide Content, HeapFrom, DownFrom, Keys, Smaller;
    ghost var content, wt := Content(heap[..], n), Keys(freq, depth);
    DownFromRange(heap[..], wt, n, k, k);
    var z, v := k, heap[k];
    assert heap[..][z := v] == heap[..];
    while true
      invariant 1 <= k <= z <= n && 0 <= v < |freq|
      invariant DownFrom(heap[..][z := v], wt, n, k, z)
      invariant Content(heap[..][z := v], n) == content
      invariant forall i :: n < i < heap.Length ==> heap[i] == old(heap[i])
      decreases n - z
    {
      ghost var f := heap[..][z := v];
      DownFromRange(f, wt, n, k, z);
      var j := 2 * z;
      if j > n { break; }
      assert heap[j] == f[j] && (j < n ==> heap[j + 1] == f[j + 1]);
      if j < n { SmallerByKey(freq, depth, heap[j + 1], heap[j]); }
      if j < n && Smaller(freq, depth, heap[j + 1], heap[j]) { j := j + 1; }
      SmallerByKey(freq, depth, v, heap[j]);
      if Smaller(freq, depth, v, heap[j]) { break; }
      DownFromStep(heap[..], v, wt, n, k, z, j);
      HoleContent(heap[..], v, z, j, n);
      heap[z] := heap[j];
      z := j;
    }
    DownFromDone(heap[..][z := v], wt, n, k, z);
    heap[z] := v;
  }

  lemma {:induction false} RootLeast(f: seq<int>, wt: seq<int>, n: int, j: int)
    requires HeapFrom(f, wt, n, 1) && 1 <= j <= n
    ensures wt[f[1]] <= wt[f[j]]
    decreases j
  {
    if j > 1 { RootLeast(f, wt, n, j / 2); }
  }

  /** The node at the root is the least of the content. */
  lemma LeastOfContent(f: seq<int>, wt: seq<int>, n: int)
    requires HeapFrom(f, wt, n, 1) && 1 <= n
    ensures f[1] in Content(f, n) && forall x :: x in Content(f, n) ==> 0 <= x < |wt| && wt[f[1]] <= wt[x]
  {
    ContentHas(f, n, f[1]);
    forall x | x in Content(f, n) ensures 0 <= x < |wt| && wt[f[1]] <= wt[x] {
      ContentHas(f, n, x);
      var j :| 1 <= j <= n && f[j] == x;
      RootLeast(f, wt, n, j);
    }
  }

  /** Putting a new entry at the root disturbs only the root. */
  lemma NewRoot(f: seq<int>, wt: seq<int>, wt': seq<int>, n: int, x: int)
    requires HeapFrom(f, wt, n, 1) && 1 <= n && 0 <= x < |wt'| && |wt| <= |wt'|
    requires forall j :: 2 <= j <= n ==> wt'[f[j]] == wt[f[j]]
    ensures DownFrom(f[1 := x], wt', n, 1, 1)
  {
    var g := f[1 := x];
    forall j | 2 <= j <= n && j / 2 >= 1 && j / 2 != 1 ensures wt'[g[j / 2]] <= wt'[g[j]] {
      assert wt[f[j / 2]] <= wt[f[j]];
    }
  }

  lemma Shorter(f: seq<int>, wt: seq<int>, n: int)
    requires HeapFrom(f, wt, n, 1) && 1 <= n
    ensures HeapFrom(f, wt, n - 1, 1)
  {
  }

  /** Exchanging the root's content for x. */
  lemma RootContent(f: seq<int>, n: int, x: int)
    requires 1 <= n < |f|
    ensures Content(f[1 := x], n) == Content(f, n) - multiset{f[1]} + multiset{x}
  {
    assert f[1..n + 1] == [f[1]] + f[2..n + 1];
    assert f[1 := x][1..n + 1] == [x] + f[2..n + 1];
  }

  lemma LastContent(f: seq<int>, n: int)
    requires 1 <= n < |f|
    ensures Content(f, n) == Content(f, n - 1) + multiset{f[n]}
  {
    assert f[1..n + 1] == f[1..n] + [f[n]];
  }
}
