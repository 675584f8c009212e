/** The binary heap of nodes, lightest first, that BZ2_hbMakeCodeLengths keeps in an array
    whose entry 0 is a sentinel of weight zero. */
module WeightHeap {

  /** The nodes in the heap, in no order. */
  ghost function Content(f: seq<int>, n: int): multiset<int>
    requires 0 <= n < |f|
  {
    multiset(f[1..n + 1])
  }

  /** No node is lighter than its parent. */
  ghost predicate IsHeap(f: seq<int>, wt: seq<int>, n: int) {
    && 0 <= n < |f| && (forall j :: 0 <= j <= n ==> 0 <= f[j] < |wt|)
    && (forall j :: 2 <= j <= n ==> wt[f[j / 2]] <= wt[f[j]])
  }

  lemma {:induction false} HeapMin(f: seq<int>, wt: seq<int>, n: int, j: int)
    requires IsHeap(f, wt, n) && 1 <= j <= n
    ensures wt[f[1]] <= wt[f[j]]
    decreases j
  {
    if j > 1 { HeapMin(f, wt, n, j / 2); }
  }

  /** Exchanging two heap entries keeps the content. */
  lemma ContentSwap(f: seq<int>, a: int, b: int, n: int)
    requires 1 <= a <= n < |f| && 1 <= b <= n
    ensures Content(f[a := f[b]][b := f[a]], n) == Content(f, n)
  {
    var x, g := f[1..n + 1], f[a := f[b]][b := f[a]];
    assert g[1..n + 1] == x[a - 1 := x[b - 1]][b - 1 := x[a - 1]];
  }

  /** Moving the hole from z to y, the entry at y going to z. */
  lemma HoleContent(f: seq<int>, tmp: int, z: int, y: int, n: int)
    requires 1 <= z <= n < |f| && 1 <= y <= n && z != y
    ensures Content(f[z := f[y]][y := tmp], n) == Content(f[z := tmp], n)
  {
    var g := f[z := tmp];
    ContentSwap(g, z, y, n);
    assert g[z := g[y]][y := g[z]] == f[z := f[y]][y := tmp];
  }

  lemma ContentHas(f: seq<int>, n: int, x: int)
    requires 0 <= n < |f|
    ensures x in Content(f, n) <==> exists j :: 1 <= j <= n && f[j] == x
  {
    var s := f[1..n + 1];
    if x in s {
      var k :| 0 <= k < |s| && s[k] == x;
      assert f[k + 1] == x;
    }
    if exists j :: 1 <= j <= n && f[j] == x {
      var j :| 1 <= j <= n && f[j] == x;
      assert s[j - 1] == x;
    }
  }

  // ---------- sifting up ----------

  /** A heap, except that the entry at z may be lighter than its parent. */
  ghost predicate HeapUp(f: seq<int>, wt: seq<int>, n: int, z: int) {
    && 1 <= z <= n < |f| && (forall j :: 0 <= j <= n ==> 0 <= f[j] < |wt|)
    && (forall j :: 2 <= j <= n && j != z ==> wt[f[j / 2]] <= wt[f[j]])
    && (z >= 2 ==> forall j :: 2 <= j <= n && j / 2 == z ==> wt[f[z / 2]] <= wt[f[j]])
  }

  lemma UpStep(g: seq<int>, tmp: int, wt: seq<int>, n: int, z: int)
    requires 2 <= z < |g| && HeapUp(g[z := tmp], wt, n, z)
    requires 0 <= tmp < |wt| && 0 <= g[z / 2] < |wt| && wt[tmp] < wt[g[z / 2]]
    ensures HeapUp(g[z := g[z / 2]][z / 2 := tmp], wt, n, z / 2)
  {
    var f, h := g[z := tmp], g[z := g[z / 2]][z / 2 := tmp];
    assert forall j :: 0 <= j <= n ==> h[j] == if j == z then f[z / 2] else if j == z / 2 then tmp else f[j];
    forall j | 2 <= j <= n && j != z / 2 ensures wt[h[j / 2]] <= wt[h[j]] {
      if j != z { assert wt[f[j / 2]] <= wt[f[j]]; }
    }
    forall j | z / 2 >= 2 && 2 <= j <= n && j / 2 == z / 2 ensures wt[h[z / 2 / 2]] <= wt[h[j]] {
      assert wt[f[z / 2 / 2]] <= wt[f[z / 2]];
      if j != z { assert wt[f[j / 2]] <= wt[f[j]]; }
    }
  }

  lemma UpDone(f: seq<int>, wt: seq<int>, n: int, z: int)
    requires HeapUp(f, wt, n, z) && (z >= 2 ==> wt[f[z / 2]] <= wt[f[z]])
    ensures IsHeap(f, wt, n)
  {
  }

  /** UPHEAP. */
  method UpHeap(heap: array<int>, wt: seq<int>, n: int, z: int)
    requires 0 <= n < heap.Length && HeapUp(heap[..], wt, n, z)
    requires heap[0] == 0 && wt[0] == 0 && forall k :: 0 <= k < |wt| ==> 0 <= wt[k]
    modifies heap
    ensures IsHeap(heap[..], wt, n) && heap[0] == 0
    ensures Content(heap[..], n) == old(Content(heap[..], n))
  {
    hide Content, IsHeap, HeapUp;
    ghost var content := Content(heap[..], n);
    UpRange(heap[..], wt, n, z);
    var zz, tmp := z, heap[z];
    assert heap[..][zz := tmp] == heap[..];
    while wt[tmp] < wt[heap[zz / 2]]
      invariant 1 <= zz <= n && heap[0] == 0 && 0 <= tmp < |wt|
      invariant 0 <= heap[zz / 2] < |wt| && (zz == 1 ==> heap[zz / 2] == 0)
      invariant HeapUp(heap[..][zz := tmp], wt, n, zz)
      invariant Content(heap[..][zz := tmp], n) == content
      decreases zz
    {
      UpStep(heap[..], tmp, wt, n, zz);
      HoleContent(heap[..], tmp, zz, zz / 2, n);
      heap[zz] := heap[zz / 2];
      zz := zz / 2;
      UpRange(heap[..][zz := tmp], wt, n, zz);
      assert heap[zz / 2] == heap[..][zz := tmp][zz / 2];
    }
    UpDone(heap[..][zz := tmp], wt, n, zz);
    heap[zz] := tmp;
  }

  lemma UpRange(f: seq<int>, wt: seq<int>, n: int, z: int)
    requires HeapUp(f, wt, n, z)
    ensures 1 <= z <= n < |f| && 0 <= f[z] < |wt| && 0 <= f[z / 2] < |wt|
  {
  }

  // ---------- sifting down ----------

  /** A heap, except that the entry at z may be heavier than its children. */
  ghost predicate HeapDown(f: seq<int>, wt: seq<int>, n: int, z: int) {
    && 1 <= z < |f| && 0 <= n < |f| && (forall j :: 0 <= j <= n ==> 0 <= f[j] < |wt|) && 0 <= f[z] < |wt|
    && (forall j :: 2 <= j <= n && j / 2 != z ==> wt[f[j / 2]] <= wt[f[j]])
    && (z >= 2 ==> z <= n && forall j :: 2 <= j <= n && j / 2 == z ==> wt[f[z / 2]] <= wt[f[j]])
  }

  lemma DownStep(g: seq<int>, tmp: int, wt: seq<int>, n: int, z: int, y: int)
    requires 1 <= z < |g| && HeapDown(g[z := tmp], wt, n, z)
    requires y / 2 == z && 2 <= y <= n && forall j :: 2 <= j <= n && j / 2 == z ==>
               wt[g[z := tmp][y]] <= wt[g[z := tmp][j]]
    requires wt[g[z := tmp][y]] <= wt[tmp]
    ensures HeapDown(g[z := g[y]][y := tmp], wt, n, y)
  {
    var f, h := g[z := tmp], g[z := g[y]][y := tmp];
    assert z < y;
    assert forall j :: 0 <= j <= n ==> h[j] == if j == z then f[y] else if j == y then tmp else f[j];
    forall j | 2 <= j <= n && j / 2 != y ensures wt[h[j / 2]] <= wt[h[j]] {
      if j / 2 == z {
        assert h[j / 2] == g[y];
      } else if j == z {
        assert wt[f[z / 2]] <= wt[f[y]];
      } else {
        assert wt[f[j / 2]] <= wt[f[j]];
      }
    }
    forall j | 2 <= j <= n && j / 2 == y ensures wt[h[y / 2]] <= wt[h[j]] {
      assert wt[f[j / 2]] <= wt[f[j]];
    }
  }

  lemma DownDone(f: seq<int>, wt: seq<int>, n: int, z: int)
    requires HeapDown(f, wt, n, z) && forall j :: 2 <= j <= n && j / 2 == z ==> wt[f[z]] <= wt[f[j]]
    ensures IsHeap(f, wt, n)
  {
  }

  lemma DownRange(f: seq<int>, wt: seq<int>, n: int, z: int)
    requires HeapDown(f, wt, n, z)
    ensures 1 <= z < |f| && 0 <= f[z] < |wt| && (forall j :: 0 <= j <= n ==> 0 <= f[j] < |wt|)
  {
  }

  /** DOWNHEAP(1). */
  method DownHeap(heap: array<int>, wt: seq<int>, n: int)
    requires 0 <= n < heap.Length && HeapDown(heap[..], wt, n, 1)
    modifies heap
    ensures IsHeap(heap[..], wt, n) && heap[0] == old(heap[0])
    ensures Content(heap[..], n) == old(Content(heap[..], n))
  {
    hide Content, IsHeap, HeapDown;
    ghost var content := Content(heap[..], n);
    DownRange(heap[..], wt, n, 1);
    var zz, tmp := 1, heap[1];
    assert heap[..][zz := tmp] == heap[..];
    while true
      invariant 1 <= zz < heap.Length && (zz <= n || n == 0) && 0 <= tmp < |wt| && heap[0] == old(heap[0])
      invariant HeapDown(heap[..][zz := tmp], wt, n, zz)
      invariant Content(heap[..][zz := tmp], n) == content
      decreases n - zz
    {
      DownRange(heap[..][zz := tmp], wt, n, zz);
      ghost var f := heap[..][zz := tmp];
      var yy := zz * 2;
      if yy > n { break; }
      assert heap[yy] == f[yy];
      assert yy < n ==> heap[yy + 1] == f[yy + 1];
      if yy < n && wt[heap[yy + 1]] < wt[heap[yy]] { yy := yy + 1; }
      if wt[tmp] < wt[heap[yy]] { break; }
      DownStep(heap[..], tmp, wt, n, zz, yy);
      HoleContent(heap[..], tmp, zz, yy, n);
      heap[zz] := heap[yy];
      zz := yy;
    }
    DownDone(heap[..][zz := tmp], wt, n, zz);
    heap[zz] := tmp;
  }
}
