/** The decoder's move-to-front list, kept as 16 segments of 16 entries inside an array of
    4096 so that moving an entry to the front disturbs only a few of them. */
module MtfList {
  import opened Common
  import opened MoveToFront

  const MTFA_SIZE := 4096
  const MTFL_SIZE := 16
  const SEGMENTS := 16

  class SegmentedList {
    const mtfa: array<Byte>
    const mtfbase: array<int>

    /** The segments lie in order without overlapping. */
    ghost predicate Laid()
      reads this, mtfbase
    {
      && mtfa.Length == MTFA_SIZE && mtfbase.Length == SEGMENTS
      && (forall l :: 0 <= l < SEGMENTS ==> 0 <= mtfbase[l] && mtfbase[l] + (SEGMENTS - l) * MTFL_SIZE <= MTFA_SIZE)
      && (forall l :: 0 < l < SEGMENTS ==> mtfbase[l - 1] + MTFL_SIZE <= mtfbase[l])
    }

    /** Between accesses there is room below the first segment. */
    ghost predicate Valid()
      reads this, mtfbase
    {
      Laid() && 0 < mtfbase[0]
    }

    /** The array entry of list position k. */
    ghost function Slot(k: int): (p: int)
      requires Laid() && 0 <= k < 256
      reads this, mtfbase
      ensures 0 <= p < mtfa.Length
    {
      mtfbase[k / 16] + k % 16
    }

    /** The list the segments represent. */
    ghost function List(): (l: seq<int>)
      requires Laid()
      reads this, mtfa, mtfbase
      ensures |l| == 256 && forall k :: 0 <= k < 256 ==> l[k] == mtfa[Slot(k)]
    {
      seq(256, k requires 0 <= k < 256 reads this, mtfa, mtfbase requires Laid() => mtfa[Slot(k)] as int)
    }

    /** MTF init: the 256 byte values in order, at the top of the array. */
    constructor ()
      ensures Valid() && fresh(mtfa) && fresh(mtfbase)
      ensures forall k :: 0 <= k < 256 ==> List()[k] == k
    {
      mtfa := new Byte[MTFA_SIZE];
      mtfbase := new int[SEGMENTS];
      new;
      var kk := MTFA_SIZE - 1;
      var ii := 256 / MTFL_SIZE - 1;
      while ii >= 0
        invariant -1 <= ii < SEGMENTS && kk == MTFA_SIZE - 257 + 16 * (ii + 1)
        invariant forall l :: ii < l < SEGMENTS ==> mtfbase[l] == MTFA_SIZE - 256 + 16 * l
        invariant forall p :: kk < p < MTFA_SIZE ==> mtfa[p] == p - (MTFA_SIZE - 256)
      {
        var jj := MTFL_SIZE - 1;
        while jj >= 0
          invariant -1 <= jj < MTFL_SIZE && kk == MTFA_SIZE - 257 + 16 * ii + (jj + 1)
          invariant forall l :: ii < l < SEGMENTS ==> mtfbase[l] == MTFA_SIZE - 256 + 16 * l
          invariant forall p :: kk < p < MTFA_SIZE ==> mtfa[p] == p - (MTFA_SIZE - 256)
        {
          mtfa[kk] := ii * MTFL_SIZE + jj;
          kk := kk - 1;
          jj := jj - 1;
        }
        mtfbase[ii] := kk + 1;
        ii := ii - 1;
      }
    }

    /** The entry at the front. */
    method Front() returns (uc: Byte)
      requires Valid()
      ensures uc == List()[0]
    {
      uc := mtfa[mtfbase[0]];
      assert uc == mtfa[Slot(0)];
    }

    /** Every read and write of position nn: the entry there is returned and moved to the
        front of the list, the others keeping their order. */
    method Access(nn: int) returns (uc: Byte)
      requires Valid() && 0 <= nn < 256
      modifies mtfa, mtfbase
      ensures Valid()
      ensures uc == old(List())[nn] && List() == MoveFront(old(List()), nn)
    {
      if nn < MTFL_SIZE {
        uc := AccessFirst(nn);
      } else {
        uc := AccessGeneral(nn);
        if mtfbase[0] == 0 { Rebuild(); }
      }
    }

    /** The common case: the entry is in the first segment, which alone changes. */
    method AccessFirst(nn0: int) returns (uc: Byte)
      requires Valid() && 0 <= nn0 < MTFL_SIZE
      modifies mtfa
      ensures uc == old(List())[nn0] && List() == MoveFront(old(List()), nn0)
    {
      hide MoveFront, Slot;
      ghost var list := List();
      SlotPlace(nn0);
      forall k | 0 <= k < 256
        ensures if k < 16 then Slot(k) == mtfbase[0] + k else Slot(k) >= mtfbase[0] + 16
      {
        SlotPlace(k);
      }
      uc := mtfa[mtfbase[0] + nn0];
      ShiftFirst(nn0);
      mtfa[mtfbase[0]] := uc;
      forall k | 0 <= k < 256 ensures List()[k] == MoveFront(list, nn0)[k] {
        MoveFrontAt(list, nn0, k);
        SlotPlace(k);
        if 0 < k { SlotPlace(k - 1); }
      }
    }

    /** Moves the first nn0 entries up by one, four at a time while there are that many. */
    method ShiftFirst(nn0: int)
      requires Valid() && 0 <= nn0 < MTFL_SIZE
      modifies mtfa
      ensures Opened(old(mtfa[..]), mtfa[..], mtfbase[0], nn0)
    {
      ghost var was := mtfa[..];
      var nn := nn0;
      var pp := mtfbase[0];
      while nn > 3
        invariant 0 <= nn <= nn0
        invariant forall p {:trigger mtfa[p]} :: 0 <= p <= pp + nn || pp + nn0 < p < MTFA_SIZE ==> mtfa[p] == was[p]
        invariant forall p {:trigger mtfa[p]} :: pp + nn < p <= pp + nn0 ==> mtfa[p] == was[p - 1]
      {
        var z := pp + nn;
        assert mtfa[z - 1] == was[z - 1] && mtfa[z - 2] == was[z - 2] && mtfa[z - 3] == was[z - 3] &&
            mtfa[z - 4] == was[z - 4];
        mtfa[z] := mtfa[z - 1];
        mtfa[z - 1] := mtfa[z - 2];
        mtfa[z - 2] := mtfa[z - 3];
        mtfa[z - 3] := mtfa[z - 4];
        nn := nn - 4;
      }
      while nn > 0
        invariant 0 <= nn <= nn0
        invariant forall p {:trigger mtfa[p]} :: 0 <= p <= pp + nn || pp + nn0 < p < MTFA_SIZE ==> mtfa[p] == was[p]
        invariant forall p {:trigger mtfa[p]} :: pp + nn < p <= pp + nn0 ==> mtfa[p] == was[p - 1]
      {
        assert mtfa[pp + nn - 1] == was[pp + nn - 1];
        mtfa[pp + nn] := mtfa[pp + nn - 1];
        nn := nn - 1;
      }
    }

    /** Positions of the first segment are contiguous, later ones lie above them. */
    lemma SlotPlace(k: int)
      requires Laid() && 0 <= k < 256
      ensures if k < 16 then Slot(k) == mtfbase[0] + k else Slot(k) >= mtfbase[0] + 16
    {
      BasesApart(mtfbase[..], 0, k / 16);
    }

    /** Moves the first off entries of a segment up by one. */
    method OpenGap(lno: int, off: int)
      requires mtfa.Length == MTFA_SIZE && mtfbase.Length == SEGMENTS
      requires 0 <= lno < SEGMENTS && 0 <= off < MTFL_SIZE && 0 <= mtfbase[lno] && mtfbase[lno] + MTFL_SIZE <= MTFA_SIZE
      modifies mtfa
      ensures Opened(old(mtfa[..]), mtfa[..], mtfbase[lno], off)
    {
      ghost var was := mtfa[..];
      var first := mtfbase[lno];
      var pp := first + off;
      while pp > first
        invariant first <= pp <= first + off
        invariant forall p {:trigger mtfa[p]} :: 0 <= p <= pp || first + off < p < MTFA_SIZE ==> mtfa[p] == was[p]
        invariant forall p {:trigger mtfa[p]} :: pp < p <= first + off ==> mtfa[p] == was[p - 1]
      {
        assert mtfa[pp - 1] == was[pp - 1];
        mtfa[pp] := mtfa[pp - 1];
        pp := pp - 1;
      }
    }

    /** Every segment before top passes its last entry on to the next. */
    method HandOn(top: int, ghost nn: int, ghost list: seq<int>, ghost moved: seq<int>, ghost base: seq<int>)
      requires mtfa.Length == MTFA_SIZE && mtfbase.Length == SEGMENTS && 0 < top == nn / 16
      requires Fronted(list, moved, nn, top) && Handing(list, moved, base, mtfa[..], top, top)
      requires forall l :: 0 <= l < SEGMENTS ==> mtfbase[l] == if l == top then base[l] + 1 else base[l]
      modifies mtfa, mtfbase
      ensures Handing(list, moved, base, mtfa[..], 0, top)
      ensures forall l :: 0 <= l < SEGMENTS ==> mtfbase[l] == if 0 < l < top then base[l] - 1 else base[l]
    {
      hide Fronted;
      var lno := top;
      while lno > 0
        invariant 0 <= lno <= top
        invariant forall l :: 0 <= l < SEGMENTS ==>
                    mtfbase[l] == if l == lno == top then base[l] + 1
                    else if lno < l < top then base[l] - 1 else base[l]
        invariant Handing(list, moved, base, mtfa[..], lno, top)
      {
        BasesApart(base, 0, lno);
        mtfbase[lno] := mtfbase[lno] - 1;
        HandedOn(list, moved, base, mtfa[..], lno, nn);
        mtfa[mtfbase[lno]] := mtfa[mtfbase[lno - 1] + MTFL_SIZE - 1];
        lno := lno - 1;
      }
    }

    /** The general case: the entry leaves its segment, every earlier segment passes its last
        entry on to the next, and the entry goes in front of the first. */
    method AccessGeneral(nn: int) returns (uc: Byte)
      requires Valid() && MTFL_SIZE <= nn < 256
      modifies mtfa, mtfbase
      ensures Laid()
      ensures uc == old(List())[nn] && List() == MoveFront(old(List()), nn)
    {
      hide Handing, MoveFront, Opened;
      ghost var list, base, was := List(), mtfbase[..], mtfa[..];
      ghost var moved := MoveFront(list, nn);
      var lno, off := nn / MTFL_SIZE, nn % MTFL_SIZE;
      uc := mtfa[mtfbase[lno] + off];
      OpenGap(lno, off);
      GapOpened(list, base, was, mtfa[..], nn);
      mtfbase[lno] := mtfbase[lno] + 1;
      HandOn(lno, nn, list, moved, base);
      AllHanded(list, moved, base, mtfa[..], nn, uc);
      BasesMoved(base, lno);
      mtfbase[0] := mtfbase[0] - 1;
      mtfa[mtfbase[0]] := uc;
      assert forall l :: 0 <= l < SEGMENTS ==> mtfbase[l] == NewBase(base, lno, l);
      forall k | 0 <= k < 256 ensures List()[k] == moved[k] {
        assert Slot(k) == NewBase(base, lno, k / 16) + k % 16;
      }
    }

    /** Lays the 256 entries out again at the top of the array, last one first, so that no
        entry is overwritten before it has been copied.  The list is unchanged. */
    method Rebuild()
      requires Laid()
      modifies mtfa, mtfbase
      ensures Valid() && List() == old(List())
    {
      ghost var list, base := List(), mtfbase[..];
      var kk := MTFA_SIZE - 1;
      var ii := 256 / MTFL_SIZE - 1;
      while ii >= 0
        invariant -1 <= ii < SEGMENTS && kk == MTFA_SIZE - 257 + 16 * (ii + 1)
        invariant forall l :: 0 <= l < SEGMENTS ==> mtfbase[l] == if l <= ii then base[l] else MTFA_SIZE - 256 + 16 * l
        invariant forall k :: 0 <= k < 16 * (ii + 1) ==> mtfa[base[k / 16] + k % 16] == list[k]
        invariant forall k :: 16 * (ii + 1) <= k < 256 ==> mtfa[MTFA_SIZE - 256 + k] == list[k]
      {
        var jj := MTFL_SIZE - 1;
        while jj >= 0
          modifies mtfa
          invariant -1 <= jj < MTFL_SIZE && kk == MTFA_SIZE - 257 + 16 * ii + (jj + 1)
          invariant forall k :: 0 <= k <= 16 * ii + jj ==> mtfa[base[k / 16] + k % 16] == list[k]
          invariant forall k :: 16 * ii + jj < k < 256 ==> mtfa[MTFA_SIZE - 256 + k] == list[k]
        {
          forall k | 0 <= k < 16 * ii + jj ensures base[k / 16] + k % 16 < kk { EntriesBelow(base, k, 16 * ii + jj); }
          mtfa[kk] := mtfa[mtfbase[ii] + jj];
          kk := kk - 1;
          jj := jj - 1;
        }
        mtfbase[ii] := kk + 1;
        ii := ii - 1;
      }
    }
  }

  /** a is was with the off entries from first on moved up by one. */
  ghost predicate Opened(was: seq<Byte>, a: seq<Byte>, first: int, off: int) {
    && |a| == |was| && 0 <= first && 0 <= off && first + off < |a|
    && (forall p {:trigger a[p]} :: 0 <= p <= first || first + off < p < |a| ==> a[p] == was[p])
    && (forall p {:trigger a[p]} :: first < p <= first + off ==> a[p] == was[p - 1])
  }

  /** The bases of segments that lie in order without overlapping. */
  ghost predicate Bases(base: seq<int>) {
    && |base| == SEGMENTS
    && (forall l :: 0 <= l < SEGMENTS ==> 0 <= base[l] && base[l] + MTFL_SIZE <= MTFA_SIZE)
    && (forall l :: 0 < l < SEGMENTS ==> base[l - 1] + MTFL_SIZE <= base[l])
  }

  lemma {:induction false} BasesApart(base: seq<int>, l: int, m: int)
    requires Bases(base) && 0 <= l <= m < SEGMENTS
    ensures base[l] + (m - l) * MTFL_SIZE <= base[m]
    decreases m
  {
    if l < m { BasesApart(base, l, m - 1); }
  }

  /** Where segment l ends up: one lower, except from the accessed segment top upward. */
  ghost function NewBase(base: seq<int>, top: int, l: int): int
    requires |base| == SEGMENTS && 0 <= l < SEGMENTS
  {
    if l < top then base[l] - 1 else base[l]
  }

  /** While entries are handed on: segments above lno hold their new entries; the others
      still hold the old ones, but for the gap at the start of segment top. */
  ghost predicate Handing(list: seq<int>, moved: seq<int>, base: seq<int>, a: seq<Byte>, lno: int, top: int) {
    && |list| == |moved| == 256 && Bases(base) && |a| == MTFA_SIZE && 0 < base[0] && 0 <= lno <= top < SEGMENTS
    && (forall k :: 16 * (lno + 1) <= k < 256 ==>
        0 <= NewBase(base, top, k / 16) + k % 16 < |a| && a[NewBase(base, top, k / 16) + k % 16] == moved[k])
    && (forall k :: 0 <= k < 16 * (lno + 1) && k < 16 * top ==> a[base[k / 16] + k % 16] == list[k])
    && (lno == top ==> forall k :: 16 * top < k < 16 * (top + 1) ==> a[base[top] + k % 16] == moved[k])
  }

  /** moved is list with the entry at nn, in segment top, brought to the front. */
  ghost predicate Fronted(list: seq<int>, moved: seq<int>, nn: int, top: int) {
    && |list| == 256 && 16 <= nn < 256 && top == nn / 16 && moved == MoveFront(list, nn)
  }

  lemma MoveFrontAt(list: seq<int>, nn: int, k: int)
    requires 0 <= nn < |list| && 0 <= k < |list|
    ensures MoveFront(list, nn)[k] == if k == 0 then list[nn] else if k <= nn then list[k - 1] else list[k]
  {
  }

  lemma FrontedAt(list: seq<int>, moved: seq<int>, nn: int, top: int, k: int)
    requires Fronted(list, moved, nn, top) && 0 <= k < 256
    ensures moved[k] == if k == 0 then list[nn] else if k <= nn then list[k - 1] else list[k]
  {
    MoveFrontAt(list, nn, k);
  }

  lemma GapOpened(list: seq<int>, base: seq<int>, was: seq<Byte>, a: seq<Byte>, nn: int)
    requires |list| == 256 && 16 <= nn < 256 && Bases(base) && 0 < base[0] && |was| == |a| == MTFA_SIZE
    requires forall k :: 0 <= k < 256 ==> was[base[k / 16] + k % 16] == list[k]
    requires Opened(was, a, base[nn / 16], nn % 16)
    ensures Handing(list, MoveFront(list, nn), base, a, nn / 16, nn / 16)
  {
    var moved, top := MoveFront(list, nn), nn / 16;
    hide MoveFront;
    forall k | 16 * (top + 1) <= k < 256
      ensures 0 <= NewBase(base, top, k / 16) + k % 16 < |a| && a[NewBase(base, top, k / 16) + k % 16] == moved[k]
    {
      GapElsewhere(list, base, was, a, nn, k);
      MoveFrontAt(list, nn, k);
    }
    forall k | 0 <= k < 16 * top ensures a[base[k / 16] + k % 16] == list[k] {
      GapElsewhere(list, base, was, a, nn, k);
    }
    forall k | 16 * top < k < 16 * (top + 1) ensures a[base[top] + k % 16] == moved[k] {
      GapEntry(list, base, was, a, nn, k);
    }
  }

  lemma GapElsewhere(list: seq<int>, base: seq<int>, was: seq<Byte>, a: seq<Byte>, nn: int, k: int)
    requires |list| == 256 && 16 <= nn < 256 && Bases(base) && 0 < base[0] && |was| == |a| == MTFA_SIZE
    requires forall k :: 0 <= k < 256 ==> was[base[k / 16] + k % 16] == list[k]
    requires Opened(was, a, base[nn / 16], nn % 16)
    requires 0 <= k < 256 && k / 16 != nn / 16
    ensures a[base[k / 16] + k % 16] == list[k]
  {
    if k / 16 < nn / 16 { BasesApart(base, k / 16, nn / 16); } else { BasesApart(base, nn / 16, k / 16); }
    var p := base[k / 16] + k % 16;
    assert was[p] == list[k];
    assert a[p] == was[p];
  }

  lemma GapEntry(list: seq<int>, base: seq<int>, was: seq<Byte>, a: seq<Byte>, nn: int, k: int)
    requires |list| == 256 && 16 <= nn < 256 && Bases(base) && 0 < base[0] && |was| == |a| == MTFA_SIZE
    requires forall k :: 0 <= k < 256 ==> was[base[k / 16] + k % 16] == list[k]
    requires Opened(was, a, base[nn / 16], nn % 16)
    requires nn / 16 * 16 < k < nn / 16 * 16 + 16
    ensures a[base[nn / 16] + k % 16] == MoveFront(list, nn)[k]
  {
    var top := nn / 16;
    MoveFrontAt(list, nn, k);
    assert k / 16 == top && (k - 1) / 16 == top && (k - 1) % 16 == k % 16 - 1;
    assert was[base[k / 16] + k % 16] == list[k];
    assert was[base[(k - 1) / 16] + (k - 1) % 16] == list[k - 1];
    var p := base[top] + k % 16;
    assert k <= nn <==> k % 16 <= nn % 16;
    assert p - 1 == base[(k - 1) / 16] + (k - 1) % 16;
    assert a[p] == if k <= nn then was[p - 1] else was[p];
  }

  lemma HandedOn(list: seq<int>, moved: seq<int>, base: seq<int>, a: seq<Byte>, lno: int, nn: int)
    requires Fronted(list, moved, nn, nn / 16) && 0 < lno <= nn / 16 && Handing(list, moved, base, a, lno, nn / 16)
    requires 0 <= NewBase(base, nn / 16, lno)
    ensures Handing(list, moved, base, a[NewBase(base, nn / 16, lno) := a[base[lno - 1] + 15]], lno - 1, nn / 16)
  {
    var top := nn / 16;
    var d, g := NewBase(base, top, lno), a[NewBase(base, top, lno) := a[base[lno - 1] + 15]];
    assert a[base[(16 * lno - 1) / 16] + (16 * lno - 1) % 16] == list[16 * lno - 1];
    forall k | 16 * lno <= k < 256
      ensures 0 <= NewBase(base, top, k / 16) + k % 16 < |g| && g[NewBase(base, top, k / 16) + k % 16] == moved[k]
    {
      HandedEntry(list, moved, base, a, lno, nn, k);
    }
    forall k | 0 <= k < 16 * lno && k < 16 * top ensures g[base[k / 16] + k % 16] == list[k] {
      KeptEntry(list, moved, base, a, lno, nn, k);
    }
  }

  lemma KeptEntry(list: seq<int>, moved: seq<int>, base: seq<int>, a: seq<Byte>, lno: int, nn: int, k: int)
    requires Fronted(list, moved, nn, nn / 16) && 0 < lno <= nn / 16 && Handing(list, moved, base, a, lno, nn / 16)
    requires 0 <= NewBase(base, nn / 16, lno) && 0 <= k < 16 * lno
    ensures a[NewBase(base, nn / 16, lno) := a[base[lno - 1] + 15]][base[k / 16] + k % 16] == list[k]
  {
    BasesApart(base, k / 16, lno - 1);
    BasesApart(base, lno - 1, lno);
    assert a[base[k / 16] + k % 16] == list[k];
    if base[k / 16] + k % 16 == NewBase(base, nn / 16, lno) {
      assert k / 16 == lno - 1 && k % 16 == 15;
    }
  }

  lemma HandedEntry(list: seq<int>, moved: seq<int>, base: seq<int>, a: seq<Byte>, lno: int, nn: int, k: int)
    requires Fronted(list, moved, nn, nn / 16) && 0 < lno <= nn / 16 && Handing(list, moved, base, a, lno, nn / 16)
    requires 0 <= NewBase(base, nn / 16, lno)
    requires 16 * lno <= k < 256
    ensures var top := nn / 16;
            var p, g := NewBase(base, top, k / 16) + k % 16, a[NewBase(base, top, lno) := a[base[lno - 1] + 15]];
            0 <= p < |g| && g[p] == moved[k]
  {
    var top := nn / 16;
    FrontedAt(list, moved, nn, top, k);
    BasesApart(base, lno, k / 16);
    if k >= 16 * (lno + 1) {
      assert 0 <= NewBase(base, top, k / 16) + k % 16 < |a| && a[NewBase(base, top, k / 16) + k % 16] == moved[k];
    } else {
      assert k / 16 == lno;
      if k == 16 * lno {
        assert a[base[(k - 1) / 16] + (k - 1) % 16] == list[k - 1];
        assert (k - 1) / 16 == lno - 1 && (k - 1) % 16 == 15;
      } else if lno < top {
        assert (k - 1) / 16 == lno && (k - 1) % 16 == k % 16 - 1;
        assert a[base[(k - 1) / 16] + (k - 1) % 16] == list[k - 1];
      }
    }
  }

  lemma AllHanded(list: seq<int>, moved: seq<int>, base: seq<int>, a: seq<Byte>, nn: int, uc: Byte)
    requires Fronted(list, moved, nn, nn / 16) && Handing(list, moved, base, a, 0, nn / 16) && uc == list[nn]
    ensures forall k :: 0 <= k < 256 ==>
              var p := NewBase(base, nn / 16, k / 16) + k % 16; 0 <= p < |a| && a[base[0] - 1 := uc][p] == moved[k]
  {
    var top, g := nn / 16, a[base[0] - 1 := uc];
    forall k | 0 <= k < 256
      ensures var p := NewBase(base, top, k / 16) + k % 16; 0 <= p < |a| && g[p] == moved[k]
    {
      FrontedAt(list, moved, nn, top, k);
      BasesApart(base, 0, k / 16);
      if 0 < k < 16 {
        assert (k - 1) / 16 == 0 && (k - 1) % 16 == k % 16 - 1;
        assert a[base[(k - 1) / 16] + (k - 1) % 16] == list[k - 1];
      }
    }
  }

  lemma BasesMoved(base: seq<int>, top: int)
    requires Bases(base) && 0 < base[0] && 0 < top < SEGMENTS
    ensures forall l :: 0 <= l < SEGMENTS ==> 0 <= NewBase(base, top, l)
    ensures forall l :: 0 < l < SEGMENTS ==> NewBase(base, top, l - 1) + MTFL_SIZE <= NewBase(base, top, l)
  {
    forall l | 0 <= l < SEGMENTS ensures 0 <= NewBase(base, top, l) { BasesApart(base, 0, l); }
  }

  /** An earlier list position lies below the place a later one is copied to. */
  lemma EntriesBelow(base: seq<int>, k: int, m: int)
    requires Bases(base) && 0 <= k < m < 256
    ensures base[k / 16] + k % 16 < MTFA_SIZE - 256 + m
  {
    BasesApart(base, k / 16, m / 16);
    BasesApart(base, m / 16, 15);
  }
}
