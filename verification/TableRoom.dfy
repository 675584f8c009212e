/** The space for decoding tables is enough: 852 entries for a literal and length code of up
    to 286 symbols with a nine-bit root, 592 for a distance code of up to 30 with a six-bit
    root. */
module TableRoom {
  import opened Common
  import opened Counting
  import opened CanonicalCode
  import opened CodeOrder
  import opened TableSpec
  import opened TableSize
  import opened InflateTable

  /** A complete code in order. */
  ghost predicate Complete(ty: CodeType, lens: seq<Byte>, work: seq<int>) {
    Ready(ty, lens, work) && Start(lens, work, |work|) == Pow2(W)
  }

  /** The k-th code is the first with its prefix, and longer than the root. */
  ghost predicate Begins(lens: seq<Byte>, work: seq<int>, root: nat, k: nat)
    requires Sorted(lens, work)
  {
    && k < |work| && 1 <= root < W && root < LenAt(lens, work, k)
    && Start(lens, work, k) == Prefix(lens, work, root, k) * Pow2(W - root)
  }

  // ---------- one group ----------

  /** Numbers of whole units: what starts before the end leaves room for one unit. */
  lemma OneUnit(c: int, m: int, e: int)
    requires m > 0 && c * m < e * m
    ensures c + 1 <= e && c * m + m <= e * m
  {
    if e <= c { MulMonotone(e, c, m); }
    MulDistributes(m, c, 1);
    MulMonotone(c + 1, e, m);
  }

  lemma UnitsOf(root: nat, l: nat, p: nat)
    requires root <= l <= W
    ensures p * Pow2(W - root) == (p * Pow2(l - root)) * Pow2(W - l)
  {
    Pow2Add(l - root, W - l);
    MulAssociative(p, Pow2(l - root), Pow2(W - l));
  }

  /** Where a code that is longer than the root stands within its prefix. */
  lemma WithinPrefix(ty: CodeType, lens: seq<Byte>, work: seq<int>, root: nat, k: nat) returns (f: nat)
    requires Complete(ty, lens, work) && k < |work| && root <= W && root < LenAt(lens, work, k)
    ensures f >= 1 && root < LenAt(lens, work, k) <= W
    ensures f * Pow2(W - LenAt(lens, work, k)) ==
            (Prefix(lens, work, root, k) + 1) * Pow2(W - root) - Start(lens, work, k)
  {
    hide Sorted, Kraft, Pow2, LenAt, CodeAt, Start, Shr;
    var l, p, c := LenAt(lens, work, k), Prefix(lens, work, root, k), CodeAt(lens, work, k);
    CodeFacts(ty, lens, work, k);
    InInterval(Start(lens, work, k), p, W - root);
    UnitsOf(root, l, p + 1);
    f := UnitsToEnd(p, c, Pow2(W - root), Pow2(l - root), Pow2(W - l));
  }

  lemma UnitsToEnd(p: int, c: int, r: int, q: int, m: int) returns (f: nat)
    requires m > 0 && (p + 1) * r == ((p + 1) * q) * m && p * r <= c * m < p * r + r
    ensures f >= 1 && f * m == (p + 1) * r - c * m
  {
    MulDistributes(r, p, 1);
    var e := (p + 1) * q;
    OneUnit(c, m, e);
    f := e - c;
    MulDistributes(m, e, -c);
  }

  /** A group ends where its prefix ends, and the next begins there. */
  lemma GroupFills(ty: CodeType, lens: seq<Byte>, work: seq<int>, root: nat, b: nat)
    requires Complete(ty, lens, work) && Begins(lens, work, root, b)
    ensures var e := GroupEnd(lens, work, root, b);
            && Start(lens, work, e) == (Prefix(lens, work, root, b) + 1) * Pow2(W - root)
            && (e < |work| ==> Begins(lens, work, root, e))
  {
    hide Sorted, Kraft, Pow2, LenAt, CodeAt, Start, Shr, Prefix;
    var e, p, r := GroupEnd(lens, work, root, b), Prefix(lens, work, root, b), Pow2(W - root);
    GroupIs(lens, work, root, b, e - 1);
    LengthsRise(lens, work, b, e - 1);
    var f := WithinPrefix(ty, lens, work, root, e - 1);
    StartNext(lens, work, e - 1);
    PowerPositive(W - LenAt(lens, work, e - 1));
    MulMonotone(1, f, Pow2(W - LenAt(lens, work, e - 1)));
    PowerPositive(W - root);
    if e < |work| {
      GroupIs(lens, work, root, b, e);
      PrefixMonotone(lens, work, root, b, e);
      LengthsRise(lens, work, e - 1, e);
      NextAligned(ty, lens, work, root, e);
      MulMonotone(p + 1, Prefix(lens, work, root, e), r);
    } else {
      PrefixBelow(lens, work, root, e - 1);
      Pow2Add(root, W - root);
      MulMonotone(p + 1, Pow2(root), r);
    }
  }

  lemma NextAligned(ty: CodeType, lens: seq<Byte>, work: seq<int>, root: nat, e: nat)
    requires Complete(ty, lens, work) && 0 < e < |work| && 1 <= root < W && root < LenAt(lens, work, e)
    requires LenAt(lens, work, e - 1) <= root || Prefix(lens, work, root, e - 1) != Prefix(lens, work, root, e)
    ensures Begins(lens, work, root, e)
  {
    hide Sorted, Kraft, Pow2, LenAt, CodeAt, Start, Shr;
    PrefixOfStart(ty, lens, work, e, root);
    if root < LenAt(lens, work, e - 1) { PrefixOfStart(ty, lens, work, e - 1, root); }
    Aligned(ty, lens, work, e - 1, root, Prefix(lens, work, root, e));
  }

  lemma PrefixBelow(lens: seq<Byte>, work: seq<int>, root: nat, k: nat)
    requires Sorted(lens, work) && k < |work| && root <= W && Start(lens, work, |work|) == Pow2(W)
    ensures Prefix(lens, work, root, k) < Pow2(root)
  {
    hide Sorted, Pow2, LenAt, Start, Shr;
    LengthsRise(lens, work, k, k);
    StartMonotone(lens, work, k, |work|);
    PowerPositive(W - LenAt(lens, work, k));
    ShrFits(Start(lens, work, k), W, root);
  }

  lemma {:induction false} Outgrows(x: nat, d: nat)
    requires x >= 1
    ensures x * Pow2(d) >= x + d
  {
    if d > 0 {
      Outgrows(x, d - 1);
      MulDouble(x, Pow2(d - 1));
    }
  }

  /** From code j on a group has at least as many codes as there are places left at j's
      length, and one more for every bit by which the longest is longer. */
  lemma {:induction false} Leaves(ty: CodeType, lens: seq<Byte>, work: seq<int>, root: nat, b: nat, j: nat)
    returns (f: nat)
    requires Complete(ty, lens, work) && Begins(lens, work, root, b) && b <= j < GroupEnd(lens, work, root, b)
    ensures root < LenAt(lens, work, j) <= W && f >= 1
    ensures f * Pow2(W - LenAt(lens, work, j)) ==
            (Prefix(lens, work, root, b) + 1) * Pow2(W - root) - Start(lens, work, j)
    ensures var e := GroupEnd(lens, work, root, b); e - j >= f + LenAt(lens, work, e - 1) - LenAt(lens, work, j)
    decreases |work| - j
  {
    hide Sorted, Kraft, Pow2, LenAt, Start, Shr, Prefix;
    var e := GroupEnd(lens, work, root, b);
    LengthsRise(lens, work, b, j);
    GroupIs(lens, work, root, b, j);
    f := WithinPrefix(ty, lens, work, root, j);
    StartNext(lens, work, j);
    var l := LenAt(lens, work, j);
    PowerPositive(W - l);
    if j == e - 1 {
      GroupFills(ty, lens, work, root, b);
      OnlyUnit(f, Pow2(W - l));
    } else {
      var f1 := Leaves(ty, lens, work, root, b, j + 1);
      LengthsRise(lens, work, j, j + 1);
      var d := LenAt(lens, work, j + 1) - l;
      Pow2Add(d, W - l - d);
      PowerPositive(W - l - d);
      UnitsLeft(f, f1, Pow2(d), Pow2(W - l - d), Pow2(W - l));
      Outgrows(f - 1, d);
    }
  }

  lemma OnlyUnit(f: int, m: int)
    requires f * m == m && m > 0
    ensures f == 1
  {
    if f > 1 { MulMonotone(2, f, m); } else if f < 1 { MulMonotone(f, 0, m); }
  }

  lemma UnitsLeft(f: int, f1: int, q: int, m1: int, m: int)
    requires m == q * m1 && m1 > 0 && q > 0 && f1 >= 1 && f * m - m == f1 * m1
    ensures f1 == (f - 1) * q && f - 1 >= 1
  {
    MulDistributes(m, f, -1);
    MulAssociative(f - 1, q, m1);
    if (f - 1) * q < f1 { MulStrict((f - 1) * q, f1, m1); } else if (f - 1) * q > f1 { MulStrict(f1, (f - 1) * q, m1); }
    if f - 1 <= 0 { MulMonotone(f - 1, 0, q); }
  }

  // ---------- all groups ----------

  /** How much larger a table of that depth is than its depth. */
  function Gain(x: nat): int { Pow2(x) - x }

  lemma {:induction false} GainMonotone(x: nat, y: nat)
    requires x <= y
    ensures Gain(x) <= Gain(y)
  {
    if x < y {
      GainMonotone(x, y - 1);
      PowerPositive(y - 1);
    }
  }

  ghost function Groups(lens: seq<Byte>, work: seq<int>, root: nat, k: nat): nat
    requires Sorted(lens, work) && k <= |work| && root <= W
    decreases |work| - k
  {
    if k == |work| then 0
    else if LenAt(lens, work, k) <= root then Groups(lens, work, root, k + 1)
    else 1 + Groups(lens, work, root, GroupEnd(lens, work, root, k))
  }

  /** The index bits that the k-th code has left. */
  ghost function Depth(lens: seq<Byte>, work: seq<int>, root: nat, k: nat): (d: nat)
    requires Sorted(lens, work) && k < |work|
  {
    Max(LenAt(lens, work, k) - root, 0)
  }

  lemma DepthIs(lens: seq<Byte>, work: seq<int>, root: nat, j: nat, k: nat)
    requires Sorted(lens, work) && j <= k < |work| && root < LenAt(lens, work, j)
    ensures 1 <= LenAt(lens, work, j) - root == Depth(lens, work, root, j) <= Depth(lens, work, root, k) ==
            LenAt(lens, work, k) - root
    ensures LenAt(lens, work, k) <= W
  {
    hide Sorted, LenAt;
    LengthsRise(lens, work, j, k);
  }

  /** A group has at least so many codes. */
  lemma GroupLeaves(ty: CodeType, lens: seq<Byte>, work: seq<int>, root: nat, b: nat)
    requires Complete(ty, lens, work) && Begins(lens, work, root, b)
    ensures var e := GroupEnd(lens, work, root, b);
            e - b >= Pow2(Depth(lens, work, root, b)) + Depth(lens, work, root, e - 1) - Depth(lens, work, root, b)
  {
    hide Sorted, Kraft, LenAt, Start, Shr, Prefix, Pow2, Depth;
    var e, l := GroupEnd(lens, work, root, b), LenAt(lens, work, b);
    DepthIs(lens, work, root, b, e - 1);
    var f := Leaves(ty, lens, work, root, b, b);
    Pow2Add(l - root, W - l);
    PowerPositive(W - l);
    WholeUnits(f, Prefix(lens, work, root, b), Pow2(W - root), Pow2(l - root), Pow2(W - l));
  }

  lemma WholeUnits(f: int, p: int, r: int, q: int, m: int)
    requires f * m == (p + 1) * r - p * r && r == q * m && m > 0
    ensures f == q
  {
    MulDistributes(r, p, 1);
    SameUnits(f, q, m);
  }

  /** The size of one sub-table against the number of its codes. */
  lemma OneTable(ty: CodeType, lens: seq<Byte>, work: seq<int>, root: nat, b: nat)
    requires Complete(ty, lens, work) && Begins(lens, work, root, b)
    ensures var e := GroupEnd(lens, work, root, b);
            && SubSize(lens, work, root, b) <= (e - b) +
               Gain(Depth(lens, work, root, e - 1)) - Gain(Depth(lens, work, root, b))
            && e - b >= 2 && SubSize(lens, work, root, b) % 2 == 0
  {
    hide Sorted, Kraft, LenAt, Start, Shr, Prefix, Depth, Pow2;
    var e := GroupEnd(lens, work, root, b);
    GroupLeaves(ty, lens, work, root, b);
    DepthIs(lens, work, root, b, e - 1);
    EvenPower(Depth(lens, work, root, e - 1));
    EvenPower(Depth(lens, work, root, b));
  }

  lemma SameUnits(f: int, g: int, m: int)
    requires f * m == g * m && m > 0
    ensures f == g
  {
    if f < g { MulStrict(f, g, m); } else if g < f { MulStrict(g, f, m); }
  }

  lemma EvenPower(x: nat)
    requires x >= 1
    ensures Pow2(x) % 2 == 0 && Pow2(x) >= 2
  {
    PowerPositive(x - 1);
  }

  /** All sub-tables against the number of all codes in them; their total is even, and they
      cover what the shorter codes leave. */
  lemma {:induction false} AllTables(ty: CodeType, lens: seq<Byte>, work: seq<int>, root: nat, b: nat)
    requires Complete(ty, lens, work) && Begins(lens, work, root, b)
    ensures SubTables(lens, work, root, b) <= (|work| - b) +
            Gain(Depth(lens, work, root, |work| - 1)) - Gain(Depth(lens, work, root, b))
    ensures SubTables(lens, work, root, b) % 2 == 0 && |work| - b >= 2 * Groups(lens, work, root, b)
    ensures Groups(lens, work, root, b) * Pow2(W - root) == Pow2(W) - Start(lens, work, b)
    decreases |work| - b
  {
    hide Sorted, Kraft, LenAt, Start, Shr, Prefix, Gain, SubSize, Pow2, Depth, SubTables, Groups;
    var e := GroupEnd(lens, work, root, b);
    OneTable(ty, lens, work, root, b);
    GroupFills(ty, lens, work, root, b);
    FirstTable(lens, work, root, b);
    OneMoreGroup(Prefix(lens, work, root, b), Groups(lens, work, root, e), Pow2(W - root));
    if e < |work| {
      AllTables(ty, lens, work, root, e);
      DepthIs(lens, work, root, b, e - 1);
      LengthsRise(lens, work, e - 1, e);
      DepthIs(lens, work, root, e - 1, e);
      GainMonotone(Depth(lens, work, root, e - 1), Depth(lens, work, root, e));
    } else {
      NoneLeft(lens, work, root);
    }
  }

  lemma OneMoreGroup(p: int, g: int, r: int)
    ensures (p + 1) * r == p * r + r && (1 + g) * r == r + g * r && 1 * r == r && 0 * r == 0
  {
    MulDistributes(r, p, 1);
    MulDistributes(r, 1, g);
  }

  lemma FirstTable(lens: seq<Byte>, work: seq<int>, root: nat, b: nat)
    requires Sorted(lens, work) && b < |work| && root <= W && root < LenAt(lens, work, b)
    ensures SubTables(lens, work, root, b) == SubSize(lens, work, root, b) +
            SubTables(lens, work, root, GroupEnd(lens, work, root, b))
    ensures Groups(lens, work, root, b) == 1 + Groups(lens, work, root, GroupEnd(lens, work, root, b))
  {
  }

  lemma NoneLeft(lens: seq<Byte>, work: seq<int>, root: nat)
    requires Sorted(lens, work) && root <= W
    ensures SubTables(lens, work, root, |work|) == 0 && Groups(lens, work, root, |work|) == 0
  {
  }

  // ---------- the root ----------

  /** The first code longer than the root. */
  lemma {:induction false} FirstLong(lens: seq<Byte>, work: seq<int>, root: nat, k: nat) returns (r: nat)
    requires Sorted(lens, work) && k <= |work| && root <= W && forall j :: 0 <= j < k ==> LenAt(lens, work, j) <= root
    ensures k <= r <= |work| && (forall j :: 0 <= j < r ==> LenAt(lens, work, j) <= root) &&
            (r < |work| ==> root < LenAt(lens, work, r))
    ensures SubTables(lens, work, root, k) == SubTables(lens, work, root, r)
    decreases |work| - k
  {
    hide Sorted, LenAt;
    if k == |work| || root < LenAt(lens, work, k) { r := k; } else { r := FirstLong(lens, work, root, k + 1); }
  }

  lemma LongBegins(ty: CodeType, lens: seq<Byte>, work: seq<int>, root: nat, r: nat)
    requires Complete(ty, lens, work) && r < |work| && 1 <= root < W && root < LenAt(lens, work, r)
    requires forall j :: 0 <= j < r ==> LenAt(lens, work, j) <= root
    ensures Begins(lens, work, root, r)
  {
    hide Sorted, Kraft, LenAt, Start, Shr, Pow2;
    if r == 0 {
      StartZero(lens, work);
      InInterval(0, 0, W - root);
      PowerPositive(W - root);
    } else {
      NextAligned(ty, lens, work, root, r);
    }
  }

  lemma Fifteen()
    ensures Pow2(W) == 0x8000 && Pow2(14) == 0x4000 && Pow2(13) == 0x2000 && Pow2(9) == 512 && Pow2(8) == 256 &&
            Pow2(6) == 64 && Pow2(5) == 32
  {
    assert Pow2(6) == 64;
    Pow2Add(6, 2);
    Pow2Add(6, 3);
    Pow2Add(6, 6);
    Pow2Add(12, 1);
    Pow2Add(12, 2);
    Pow2Add(12, 3);
  }

  /** What one or two short codes can take. */
  lemma FewShort(ty: CodeType, lens: seq<Byte>, work: seq<int>, r: nat)
    requires Complete(ty, lens, work) && r < |work|
    ensures r == 0 ==> Start(lens, work, r) == 0
    ensures r == 1 ==> Start(lens, work, r) <= 0x4000
    ensures r == 2 ==> Start(lens, work, r) <= 0x6000
  {
    hide Sorted, Kraft, LenAt, Start, Pow2;
    Fifteen();
    StartZero(lens, work);
    if r == 1 || r == 2 {
      LengthsRise(lens, work, 0, r - 1);
      StartNext(lens, work, 0);
      Pow2Monotone(W - LenAt(lens, work, 0), 14);
    }
    if r == 2 {
      StartNext(lens, work, 1);
      SecondLonger(ty, lens, work);
      Pow2Monotone(W - LenAt(lens, work, 1), 13);
    }
  }

  /** Of three codes or more only one has a single bit. */
  lemma SecondLonger(ty: CodeType, lens: seq<Byte>, work: seq<int>)
    requires Complete(ty, lens, work) && 2 < |work|
    ensures 2 <= LenAt(lens, work, 1) <= W
  {
    hide Sorted, Kraft, LenAt, Start, Pow2;
    Fifteen();
    LengthsRise(lens, work, 0, 1);
    LengthsRise(lens, work, 1, 2);
    StartZero(lens, work);
    StartNext(lens, work, 0);
    StartNext(lens, work, 1);
    StartMonotone(lens, work, 2, |work|);
    PowerPositive(W - LenAt(lens, work, 2));
  }

  /** A code has no more symbols than there are lengths. */
  lemma WorkCount(lens: seq<Byte>, work: seq<int>)
    requires Sorted(lens, work)
    ensures |work| <= |lens|
  {
    CumAll(lens);
    CumMonotone(lens, W + 1, 256);
  }

  lemma Deepest(lens: seq<Byte>, work: seq<int>, root: nat, k: nat)
    requires Sorted(lens, work) && k < |work| && root < LenAt(lens, work, k) && root < W
    ensures Gain(Depth(lens, work, root, |work| - 1)) <= Gain(W - root) && Gain(Depth(lens, work, root, k)) >= 1
  {
    hide Sorted, LenAt, Gain, Depth;
    DepthIs(lens, work, root, k, |work| - 1);
    LengthsRise(lens, work, k, |work| - 1);
    GainMonotone(Depth(lens, work, root, |work| - 1), W - root);
    GainMonotone(1, Depth(lens, work, root, k));
    GainOne();
  }

  lemma GainOne()
    ensures Gain(1) == 1
  {
  }

  /** The sub-tables of a code of n symbols, r of them short. */
  lemma SubTableRoom(ty: CodeType, lens: seq<Byte>, work: seq<int>, root: nat) returns (r: nat)
    requires Complete(ty, lens, work) && 1 <= root < W
    ensures r <= |work| <= |lens|
    ensures r == |work| ==> SubTables(lens, work, root, 0) == 0
    ensures r < |work| ==> SubTables(lens, work, root, 0) <= |work| - r + Gain(W - root) - 1
    ensures SubTables(lens, work, root, 0) % 2 == 0
    ensures r < |work| && r == 0 ==> |work| >= 2 * Pow2(root)
    ensures r < |work| && r == 1 ==> |work| - 1 >= Pow2(root)
    ensures r < |work| && r == 2 ==> 2 * (|work| - 2) >= Pow2(root)
  {
    hide Sorted, Kraft, LenAt, Start, Shr, Prefix, Gain, Pow2, Depth, SubTables, Groups;
    r := FirstLong(lens, work, root, 0);
    WorkCount(lens, work);
    NoneLeft(lens, work, root);
    if r < |work| {
      LongBegins(ty, lens, work, root, r);
      AllTables(ty, lens, work, root, r);
      Deepest(lens, work, root, r);
      FewShort(ty, lens, work, r);
      Fifteen();
      Pow2Add(root, W - root);
      Covered(Groups(lens, work, root, r), Pow2(root), Pow2(W - root), Start(lens, work, r));
    }
  }

  /** So many groups are needed to cover what is left. */
  lemma Covered(g: int, n: int, m: int, s: int)
    requires g * m == 0x8000 - s && n * m == 0x8000 && m > 0 && n > 0
    ensures s == 0 ==> g >= n
    ensures s <= 0x4000 ==> 2 * g >= n
    ensures s <= 0x6000 ==> 4 * g >= n
  {
    if g < n { MulStrict(g, n, m); }
    MulAssociative(2, g, m);
    MulAssociative(4, g, m);
    if 2 * g < n { MulStrict(2 * g, n, m); }
    if 4 * g < n { MulStrict(4 * g, n, m); }
  }

  lemma Gains()
    ensures Gain(6) == 58 && Gain(9) == 503
  {
    Fifteen();
  }

  /** A literal and length code of up to 286 symbols with a nine-bit root. */
  lemma EnoughLens(lens: seq<Byte>, work: seq<int>)
    requires Complete(Lens, lens, work) && |lens| <= 286
    ensures AllEntries(lens, work, 9) <= ENOUGH_LENS
  {
    hide Sorted, Kraft, Start, Gain, Pow2, SubTables;
    Fifteen();
    Gains();
    var r := SubTableRoom(Lens, lens, work, 9);
  }

  /** A distance code of up to 30 symbols with a six-bit root. */
  lemma EnoughDists(lens: seq<Byte>, work: seq<int>)
    requires Complete(Dists, lens, work) && |lens| <= 30
    ensures AllEntries(lens, work, 6) <= ENOUGH_DISTS
  {
    hide Sorted, Kraft, Start, Gain, Pow2, SubTables;
    Fifteen();
    Gains();
    var r := SubTableRoom(Dists, lens, work, 6);
  }

  // ---------- as inflate() builds them ----------

  /** The limits that inflate() keeps to: what it asks for, and how many lengths it accepts. */
  ghost predicate AsInflated(ty: CodeType, lens: seq<Byte>, bits: nat) {
    Request(ty, lens, bits) && ((ty == Lens && bits == 9 && |lens| <= 286) ||
                                (ty == Dists && bits == 6 && |lens| <= 30))
  }

  lemma {:induction false} StartAtMost(lens: seq<Byte>, work: seq<int>, m: nat, k: nat)
    requires Sorted(lens, work) && k <= |work| && m <= W && forall j :: 0 <= j < |work| ==> m <= LenAt(lens, work, j)
    ensures Start(lens, work, k) <= k * Pow2(W - m)
  {
    hide Sorted, LenAt, Pow2;
    if k > 0 {
      StartAtMost(lens, work, m, k - 1);
      LengthsRise(lens, work, k - 1, k - 1);
      Pow2Monotone(W - LenAt(lens, work, k - 1), W - m);
      MulDistributes(Pow2(W - m), k - 1, 1);
    }
  }

  /** So few symbols do not take all strings if all their codes are long. */
  lemma TooFew(ty: CodeType, lens: seq<Byte>, work: seq<int>, bits: nat)
    requires AsInflated(ty, lens, bits) && Sorted(lens, work) && forall j :: 0 <= j < |work| ==>
               bits < LenAt(lens, work, j)
    ensures Start(lens, work, |work|) < Pow2(W)
  {
    hide Sorted, Pow2, Start, LenAt;
    StartAtMost(lens, work, bits + 1, |work|);
    WorkCount(lens, work);
    Fifteen();
    var p := Pow2(W - (bits + 1));
    assert p == if ty == Lens then 32 else 256;
    MulMonotone(|work|, |lens|, p);
  }

  lemma SomeShort(ty: CodeType, lens: seq<Byte>, work: seq<int>, bits: nat, root: nat)
    requires AsInflated(ty, lens, bits) && Complete(ty, lens, work) && Shortest(lens, root)
    ensures root <= bits
  {
    hide Sorted, Kraft, Pow2, Start, LenAt;
    forall j | 0 <= j < |work| ensures root <= LenAt(lens, work, j) { WorkAt(lens, work, j); }
    if root > bits { TooFew(ty, lens, work, bits); }
  }

  lemma LongestInOrder(lens: seq<Byte>, work: seq<int>, l: int)
    requires Sorted(lens, work) && forall i :: 0 <= i < |lens| ==> lens[i] <= l
    ensures forall j :: 0 <= j < |work| ==> LenAt(lens, work, j) <= l
  {
  }

  /** Whatever lengths inflate() reads, the space it provides for their tables is enough. */
  lemma Enough(ty: CodeType, lens: seq<Byte>, work: seq<int>, bits: nat, root: nat)
    requires AsInflated(ty, lens, bits) && NonEmpty(lens) && !Refused(ty, lens) && Sorted(lens, work) && root <= W &&
             RootFor(lens, bits, root)
    ensures AllEntries(lens, work, root) <= Room(ty)
  {
    hide Sorted, Pow2, Start, LenAt, KraftSum, SubTables;
    Fifteen();
    if LongestOf(lens, root) {
      LongestInOrder(lens, work, root);
      NoSubTables(lens, work, root, 0);
      if root <= bits { Pow2Monotone(root, bits); }
    }
    if KraftSum(lens, W, |lens|) == Pow2(W) {
      CompleteStart(lens, work);
      if Shortest(lens, root) { SomeShort(ty, lens, work, bits, root); }
      if root == bits {
        if ty == Lens { EnoughLens(lens, work); } else { EnoughDists(lens, work); }
      }
    }
  }

  /** inflate_table as inflate() calls it never runs out of space. */
  method BuildInRoom(ty: CodeType, lens: seq<Byte>, table: array<Entry>, bits: nat)
    returns (ret: int, root: nat, used: nat)
    requires AsInflated(ty, lens, bits) && table.Length == Room(ty)
    modifies table
    ensures ret == if Refused(ty, lens) then -1 else 0
    ensures ret == 0 && NonEmpty(lens) ==> Pow2(root) <= used <= table.Length && Decodes(table[..], ty, lens, root)
  {
    hide Sorted, Pow2, KraftSum, NonEmpty, Decodes, RootFor, AllEntries;
    ghost var order;
    ret, root, used, order := Build(ty, lens, table, bits);
    if NonEmpty(lens) && ret != -1 { Enough(ty, lens, order, bits, root); }
  }
}
