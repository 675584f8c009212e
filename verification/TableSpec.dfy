/** What zlib's two-level decoding tables mean, and how filling them code by code keeps
    that meaning.  A code's place in a table is its bits reversed. */
module TableSpec {
  import opened Common
  import opened BitReversal
  import opened CanonicalCode
  import opened CodeOrder

  datatype Entry = Entry(op: int, bits: int, val: int)

  // ---------- dropping bits ----------

  /** A number without its n low bits. */
  function Shr(x: nat, n: nat): (r: nat)
    ensures r == x / Pow2(n)
  {
    QuotientSign(x, Pow2(n));
    x / Pow2(n)
  }

  /** Its n low bits. */
  function Low(x: nat, n: nat): (r: nat)
    ensures r == x % Pow2(n) && r < Pow2(n)
  {
    QuotientSign(x, Pow2(n));
    x % Pow2(n)
  }

  lemma Split(x: nat, n: nat)
    ensures x == Shr(x, n) * Pow2(n) + Low(x, n)
  {
    QuotientSign(x, Pow2(n));
  }

  lemma Unsplit(a: nat, n: nat, j: nat)
    requires j < Pow2(n)
    ensures Shr(a * Pow2(n) + j, n) == a && Low(a * Pow2(n) + j, n) == j
  {
    QuotientUnique(a * Pow2(n) + j, Pow2(n), a, j);
  }

  lemma ShrShr(x: nat, a: nat, b: nat)
    ensures Shr(Shr(x, a), b) == Shr(x, a + b)
  {
    hide Shr, Low, Pow2;
    Split(x, a);
    Split(Shr(x, a), b);
    Pow2Add(a, b);
    var v, s, r := Shr(Shr(x, a), b), Low(Shr(x, a), b), Low(x, a);
    Rebase(v, Pow2(b), s, Pow2(a), r);
    MulMonotone(s + 1, Pow2(b), Pow2(a));
    Unsplit(v, a + b, s * Pow2(a) + r);
  }

  lemma Rebase(v: int, q: int, s: int, p: int, r: int)
    ensures (v * q + s) * p + r == v * (p * q) + (s * p + r) && (s + 1) * p == s * p + p && p * q == q * p
  {
    MulAssociative(v, q, p);
  }

  /** The middle bits, taken in either order. */
  lemma LowShr(y: nat, a: nat, b: nat)
    ensures Shr(Low(y, a + b), a) == Low(Shr(y, a), b)
    ensures Low(Low(y, a + b), a) == Low(y, a)
  {
    hide Shr, Low, Pow2;
    Pow2Add(a, b);
    var v, m, r := Shr(Shr(y, a), b), Low(Shr(y, a), b), Low(y, a);
    Split(y, a);
    Split(Shr(y, a), b);
    Rebase(v, Pow2(b), m, Pow2(a), r);
    MulMonotone(m + 1, Pow2(b), Pow2(a));
    var low := m * Pow2(a) + r;
    assert y == v * Pow2(a + b) + low && 0 <= low < Pow2(a + b);
    Unsplit(v, a + b, low);
    Unsplit(m, a, r);
  }

  /** An interval of strings that begin alike. */
  lemma InInterval(x: nat, c: nat, n: nat)
    ensures Shr(x, n) == c <==> c * Pow2(n) <= x < c * Pow2(n) + Pow2(n)
  {
    Split(x, n);
    if c * Pow2(n) <= x < c * Pow2(n) + Pow2(n) { Unsplit(c, n, x - c * Pow2(n)); }
  }

  /** The first l of n bits make a number of l bits. */
  lemma ShrFits(x: nat, n: nat, l: nat)
    requires l <= n && x < Pow2(n)
    ensures Shr(x, n - l) < Pow2(l)
  {
    LowFits(x, n, l);
  }

  // ---------- places in the tables ----------

  function RootIndex(root: nat, x: nat): (i: nat)
    requires root <= W
    ensures i < Pow2(root)
  {
    Rev(Shr(x, W - root), root)
  }

  function SubIndex(root: nat, op: nat, x: nat): (i: nat)
    requires root + op <= W
    ensures i < Pow2(op)
  {
    Rev(Low(Shr(x, W - root - op), op), op)
  }

  /** Reversed, the first l of l + m bits come lowest. */
  lemma RevFirst(t: nat, l: nat, m: nat)
    ensures Low(Rev(t, l + m), l) == Rev(Shr(t, m), l) && Shr(Rev(t, l + m), l) == Rev(Low(t, m), m)
  {
    hide Shr, Low, Pow2, Rev;
    Split(t, m);
    RevLow(Shr(t, m), l, Low(t, m), m);
    LowIs(Rev(t, l + m), l);
  }

  lemma LowIs(v: nat, n: nat)
    ensures Low(v, n) == v % Pow2(n) && Shr(v, n) == v / Pow2(n)
  {
  }

  lemma RootFirst(root: nat, x: nat, l: nat)
    requires l <= root <= W
    ensures Low(RootIndex(root, x), l) == Rev(Shr(x, W - l), l)
  {
    hide Shr, Low, Pow2, Rev;
    RevFirst(Shr(x, W - root), l, root - l);
    ShrShr(x, W - root, root - l);
  }

  lemma SubFirst(root: nat, op: nat, x: nat, w: nat)
    requires root + op <= W && w <= op
    ensures Low(SubIndex(root, op, x), w) == Rev(Low(Shr(x, W - root - w), w), w)
  {
    hide Shr, Low, Pow2, Rev;
    var y := Shr(x, W - root - op);
    RevFirst(Low(y, op), w, op - w);
    LowShr(y, op - w, w);
    ShrShr(x, W - root - op, op - w);
  }

  /** Equal places mean equal beginnings. */
  lemma SameRoot(root: nat, x: nat, c: nat, l: nat)
    requires l <= root <= W && x < Pow2(W) && c < Pow2(l)
    ensures Low(RootIndex(root, x), l) == Rev(c, l) <==> Shr(x, W - l) == c
  {
    hide Shr, Low, Pow2, Rev, RootIndex;
    RootFirst(root, x, l);
    ShrFits(x, W, l);
    if Low(RootIndex(root, x), l) == Rev(c, l) { RevInjective(Shr(x, W - l), c, l); }
  }

  lemma SameSub(root: nat, op: nat, x: nat, c: nat, w: nat)
    requires root + op <= W && w <= op && Shr(x, W - root) == Shr(c, w)
    ensures Low(SubIndex(root, op, x), w) == Rev(Low(c, w), w) <==> Shr(x, W - root - w) == c
  {
    hide Shr, Low, Pow2, Rev, SubIndex;
    var y := Shr(x, W - root - w);
    SubFirst(root, op, x, w);
    ShrShr(x, W - root - w, w);
    SameParts(y, c, w);
    LowBelow(y, w);
    LowBelow(c, w);
    var a, b := Low(y, w), Low(c, w);
    assert Low(SubIndex(root, op, x), w) == Rev(a, w);
    if Rev(a, w) == Rev(b, w) { RevInjective(a, b, w); }
  }

  lemma SameParts(y: nat, c: nat, w: nat)
    requires Shr(y, w) == Shr(c, w)
    ensures Low(y, w) == Low(c, w) <==> y == c
  {
    hide Shr, Low, Pow2;
    Split(y, w);
    Split(c, w);
  }

  lemma LowBelow(y: nat, w: nat)
    ensures Low(y, w) < Pow2(w)
  {
  }

  // ---------- the meaning of the tables ----------

  /** The tables lead every string that begins with a code of length l and entry (op, val)
      there: through the root table alone, or through a sub-table.  Sub-tables lie below
      next, except the one being filled at next for root prefix p. */
  ghost predicate Solved(tb: seq<Entry>, root: nat, x: nat, l: nat, op: int, val: int, next: int, curr: int, p: int) {
    && root <= W && x < Pow2(W) && Pow2(root) <= |tb|
    && var e := tb[RootIndex(root, x)];
       if l <= root then e == Entry(op, l, val)
       else
         && e.bits == root && 1 <= e.op <= W - root && l <= root + e.op && Pow2(root) <= e.val
         && (e.val + Pow2(e.op) <= next || (Shr(x, W - root) == p && e.val == next && e.op == curr))
         && e.val + Pow2(e.op) <= |tb|
         && tb[e.val + SubIndex(root, e.op, x)] == Entry(op, l - root, val)
  }

  /** The places from next on whose low w bits are h now hold here. */
  ghost predicate Filled(tb: seq<Entry>, tb': seq<Entry>, next: nat, curr: nat, w: nat, h: int, here: Entry) {
    && |tb'| == |tb| && next + Pow2(curr) <= |tb|
    && (forall i {:trigger tb'[i]} :: 0 <= i < next || next + Pow2(curr) <= i < |tb| ==> tb'[i] == tb[i])
    && forall i {:trigger Low(i, w)} :: 0 <= i < Pow2(curr) ==>
         tb'[next + i] == if Low(i, w) == h then here else tb[next + i]
  }

  /** Filling the root table for a code of length l: strings that begin with it are solved, ... */
  lemma FillRoot(tb: seq<Entry>, tb': seq<Entry>, root: nat, c: nat, l: nat, op: int, val: int, x: nat, next: int,
                 curr: int, p: int)
    requires 1 <= l <= root <= W && c < Pow2(l) && x < Pow2(W) && Shr(x, W - l) == c
    requires Filled(tb, tb', 0, root, l, Rev(c, l), Entry(op, l, val))
    ensures Solved(tb', root, x, l, op, val, next, curr, p)
  {
    hide Shr, Low, Pow2, Rev, RootIndex, SubIndex;
    SameRoot(root, x, c, l);
    IndexBelow(root, x);
    var i := RootIndex(root, x);
    assert tb'[0 + i] == Entry(op, l, val);
  }

  lemma IndexBelow(root: nat, x: nat)
    requires root <= W
    ensures RootIndex(root, x) < Pow2(root)
  {
  }

  /** ... and those that begin with an earlier code stay so. */
  lemma FillRootOther(tb: seq<Entry>, tb': seq<Entry>, root: nat, c: nat, l: nat, here: Entry, x: nat, l': nat, op: int,
                      val: int,
                      next: int, curr: int, p: int)
    requires 1 <= l <= root && c < Pow2(l) && root <= W && Shr(x, W - l) != c && l' <= root
    requires Solved(tb, root, x, l', op, val, next, curr, p)
    requires Filled(tb, tb', 0, root, l, Rev(c, l), here)
    ensures Solved(tb', root, x, l', op, val, next, curr, p)
  {
    hide Shr, Low, Pow2, Rev, RootIndex, SubIndex;
    SameRoot(root, x, c, l);
    IndexBelow(root, x);
    var i := RootIndex(root, x);
    assert tb'[0 + i] == if Low(i, l) == Rev(c, l) then here else tb[0 + i];
  }

  /** Filling a sub-table. */
  lemma FillSub(tb: seq<Entry>, tb': seq<Entry>, root: nat, c: nat, w: nat, op: int, val: int, x: nat, next: nat,
                curr: nat, p: nat)
    requires 1 <= w <= curr && root + curr <= W && x < Pow2(W) && Shr(x, W - root - w) == c
    requires Pow2(root) <= next && p == Shr(c, w) && Rev(p, root) < |tb|
    requires tb[Rev(p, root)] == Entry(curr, root, next)
    requires Filled(tb, tb', next, curr, w, Rev(Low(c, w), w), Entry(op, w, val))
    ensures Solved(tb', root, x, root + w, op, val, next, curr, p)
  {
    hide Shr, Low, Pow2, Rev, SubIndex;
    ShrShr(x, W - root - w, w);
    SameSub(root, curr, x, c, w);
    IndexBelow(root, x);
    SubBelow(root, curr, x);
    var i := SubIndex(root, curr, x);
    assert tb'[next + i] == Entry(op, w, val);
    assert tb'[RootIndex(root, x)] == tb[RootIndex(root, x)];
  }

  lemma SubBelow(root: nat, op: nat, x: nat)
    requires root + op <= W
    ensures SubIndex(root, op, x) < Pow2(op)
  {
  }

  lemma FillSubOther(tb: seq<Entry>, tb': seq<Entry>, root: nat, c: nat, w: nat, here: Entry, x: nat, l': nat, op: int,
                     val: int,
                     next: nat, curr: nat, p: nat)
    requires 1 <= w <= curr && root + curr <= W && Shr(x, W - root - w) != c && p == Shr(c, w) && Pow2(root) <= next
    requires Solved(tb, root, x, l', op, val, next, curr, p)
    requires Filled(tb, tb', next, curr, w, Rev(Low(c, w), w), here)
    ensures Solved(tb', root, x, l', op, val, next, curr, p)
  {
    hide Shr, Low, Pow2, Rev, RootIndex, SubIndex;
    IndexBelow(root, x);
    var e := tb[RootIndex(root, x)];
    assert tb'[RootIndex(root, x)] == e;
    if l' > root {
      SubBelow(root, e.op, x);
      var i := SubIndex(root, e.op, x);
      if e.val + Pow2(e.op) > next {
        SameSub(root, curr, x, c, w);
        assert tb'[next + i] == if Low(i, w) == Rev(Low(c, w), w) then here else tb[next + i];
      } else {
        assert tb'[e.val + i] == tb[e.val + i];
      }
    }
  }

  /** Opening a new sub-table after the last one. */
  lemma NewSub(tb: seq<Entry>, root: nat, x: nat, l: nat, op: int, val: int, next: int, curr: nat, p: int, next': int,
               curr': nat, p': nat)
    requires Solved(tb, root, x, l, op, val, next, curr, p) && Shr(x, W - root) != p' && p' < Pow2(root) && root <= W
    requires next' == next + Pow2(curr) && Rev(p', root) < |tb|
    ensures Solved(tb[Rev(p', root) := Entry(curr', root, next')], root, x, l, op, val, next', curr', p')
  {
    hide Shr, Low, Pow2, Rev, RootIndex, SubIndex;
    RootDiffers(root, x, p');
    RevBelow(p', root);
    IndexBelow(root, x);
  }

  lemma RevBelow(p: nat, n: nat)
    ensures Rev(p, n) < Pow2(n)
  {
  }

  lemma RootDiffers(root: nat, x: nat, p: nat)
    requires root <= W && x < Pow2(W) && p < Pow2(root) && Shr(x, W - root) != p
    ensures RootIndex(root, x) != Rev(p, root)
  {
    ShrFits(x, W, root);
    if RootIndex(root, x) == Rev(p, root) { RevInjective(Shr(x, W - root), p, root); }
  }

  // ---------- looking up ----------

  /** One or two steps through the tables from the bits held, lowest first: the entry and
      the number of bits it uses. */
  function Lookup(tb: seq<Entry>, root: nat, hold: nat): (Entry, int)
    requires Pow2(root) <= |tb|
  {
    var e := tb[Low(hold, root)];
    if 0 < e.op < 16 && 0 <= e.bits && 0 <= e.val && e.val + Low(Shr(hold, e.bits), e.op) < |tb| then
      var e2 := tb[e.val + Low(Shr(hold, e.bits), e.op)];
      (e2, e.bits + e2.bits)
    else (e, e.bits)
  }

  /** The first 15 bits held, as a string. */
  function Held(hold: nat): nat { Rev(Low(hold, W), W) }

  /** Solved strings are decoded: the lookup gives the code's entry and length. */
  lemma LookupSolved(tb: seq<Entry>, root: nat, hold: nat, l: nat, op: int, val: int, next: int, curr: int, p: int)
    requires Solved(tb, root, Held(hold), l, op, val, next, curr, p) && (op == 0 || 16 <= op)
    ensures var r := Lookup(tb, root, hold); r.0.op == op && r.0.val == val && r.1 == l
  {
    hide Shr, Low, Pow2, Rev, RootIndex, SubIndex, Held;
    RootPlace(hold, root);
    IndexBelow(root, Held(hold));
    var e := tb[RootIndex(root, Held(hold))];
    if l > root {
      SubPlace(hold, root, e.op);
      SubBelow(root, e.op, Held(hold));
    }
  }

  lemma RootPlace(hold: nat, root: nat)
    requires root <= W
    ensures RootIndex(root, Held(hold)) == Low(hold, root)
  {
    hide Shr, Low, Pow2, Rev;
    var h := Low(hold, W);
    LowBelow(hold, W);
    RevTwice(h, W);
    RevFirst(Rev(h, W), root, W - root);
    LowShr(hold, root, W - root);
  }

  /** The sub-table index, from the bits held. */
  lemma SubPlace(hold: nat, root: nat, op: nat)
    requires root + op <= W
    ensures Low(Shr(hold, root), op) == SubIndex(root, op, Held(hold))
  {
    hide Shr, Low, Pow2, Rev;
    RootPlace(hold, root + op);
    var y := Shr(Held(hold), W - root - op);
    RevFirst(y, root, op);
    LowShr(hold, root, op);
  }
}
