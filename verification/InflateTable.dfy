/** inflate_table: decoding tables for a canonical code given by its lengths. */
module InflateTable {
  import opened Common
  import opened Rotations
  import opened Counting
  import opened CanonicalCode
  import opened BitReversal
  import opened CodeOrder
  import opened TableSpec
  import opened TableSize

  datatype CodeType = Codes | Lens | Dists

  const ENOUGH_LENS := 852
  const ENOUGH_DISTS := 592

  const LBASE := [3, 4, 5, 6, 7, 8, 9, 10, 11, 13, 15, 17, 19, 23, 27, 31, 35, 43, 51, 59, 67, 83, 99, 115, 131, 163,
                  195, 227, 258, 0, 0]
  const LEXT := [16, 16, 16, 16, 16, 16, 16, 16, 17, 17, 17, 17, 18, 18, 18, 18, 19, 19, 19, 19, 20, 20, 20, 20, 21, 21,
                 21, 21, 16, 72, 78]
  const DBASE := [1, 2, 3, 4, 5, 7, 9, 13, 17, 25, 33, 49, 65, 97, 129, 193, 257, 385, 513, 769, 1025, 1537, 2049, 3073,
                  4097, 6145,
                  8193, 12289, 16385, 24577, 0, 0]
  const DEXT := [16, 16, 16, 16, 17, 17, 18, 18, 19, 19, 20, 20, 21, 21, 22, 22, 23, 23, 24, 24, 25, 25, 26, 26, 27, 27,
                 28, 28, 29, 29, 64, 64]

  /** How many symbols a code of each kind may have. */
  function MaxSymbols(ty: CodeType): int {
    match ty
    case Codes => 19
    case Lens => 288
    case Dists => 32
  }

  /** The entry for a symbol, apart from its number of bits: a literal, a base with extra
      bits, or the end of block. */
  function SymbolOp(ty: CodeType, sym: int): (op: int)
    requires 0 <= sym < MaxSymbols(ty)
    ensures op == 0 || 16 <= op
  {
    match ty
    case Codes => 0
    case Lens => if sym < 256 then 0 else if sym == 256 then 96 else LEXT[sym - 257]
    case Dists => DEXT[sym]
  }

  function SymbolVal(ty: CodeType, sym: int): int
    requires 0 <= sym < MaxSymbols(ty)
  {
    match ty
    case Codes => sym
    case Lens => if sym < 256 then sym else if sym == 256 then 0 else LBASE[sym - 257]
    case Dists => DBASE[sym]
  }

  /** How many entries the caller provides. */
  function Room(ty: CodeType): int {
    match ty
    case Codes => 128
    case Lens => ENOUGH_LENS
    case Dists => ENOUGH_DISTS
  }

  /** What inflate() asks for: up to 15 bits a code, and for the code length code up to 7. */
  ghost predicate Request(ty: CodeType, lens: seq<Byte>, bits: nat) {
    && |lens| <= MaxSymbols(ty) && Lengths(lens) && 1 <= bits <= W
    && (ty == Codes ==> bits == 7 && forall i :: 0 <= i < |lens| ==> lens[i] <= 7)
  }

  // ---------- counting and sorting ----------

  method CountLengths(lens: seq<Byte>) returns (count: array<int>)
    requires Lengths(lens)
    ensures fresh(count) && count.Length == W + 1
    ensures forall l :: 0 <= l <= W ==> count[l] == Count(lens, l, |lens|)
  {
    count := new int[W + 1](_ => 0);
    for sym := 0 to |lens|
      invariant forall l :: 0 <= l <= W ==> count[l] == Count(lens, l, sym)
    {
      count[lens[sym]] := count[lens[sym]] + 1;
    }
  }

  /** The longest and shortest code lengths in use; max is 0 if there are none. */
  method BoundLengths(count: seq<int>, ghost lens: seq<Byte>) returns (max: nat, min: nat)
    requires Lengths(lens) && |count| == W + 1 && forall l :: 0 <= l <= W ==> count[l] == Count(lens, l, |lens|)
    ensures max <= W && (max > 0 ==> count[max] != 0) && (forall l :: max < l <= W ==> count[l] == 0)
    ensures max > 0 ==> 1 <= min <= max <= W && count[min] != 0 && forall l :: 1 <= l < min ==> count[l] == 0
  {
    max := W;
    while max >= 1
      invariant max <= W && forall l :: max < l <= W ==> count[l] == 0
    {
      if count[max] != 0 { break; }
      max := max - 1;
    }
    min := 1;
    while min < max
      invariant 1 <= min <= W && (max > 0 ==> min <= max) && forall l :: 1 <= l < min ==> count[l] == 0
    {
      if count[min] != 0 { break; }
      min := min + 1;
    }
  }

  /** The running check: left is how many strings of each length are unused. */
  method CheckLeft(count: seq<int>, ghost lens: seq<Byte>) returns (left: int)
    requires Lengths(lens) && |count| == W + 1 && forall l :: 0 <= l <= W ==> count[l] == Count(lens, l, |lens|)
    ensures left < 0 <==> !Kraft(lens, W)
    ensures left >= 0 ==> left == Pow2(W) - KraftSum(lens, W, |lens|)
  {
    hide Count, Pow2, KraftSum, Kraft;
    left := 1;
    UsedStart(lens);
    for len := 1 to W + 1
      invariant 0 <= left == Pow2(len - 1) - Used(lens, len - 1)
    {
      UsedStep(lens, len);
      left := left * 2;
      left := left - count[len];
      if left < 0 {
        Oversubscribed(lens, len);
        return;
      }
    }
    UsedIsKraftSum(lens, W);
    KraftIs(lens);
  }

  lemma UsedStart(lens: seq<Byte>)
    ensures Pow2(0) == 1 && Used(lens, 0) == 0
  {
  }

  lemma UsedStep(lens: seq<Byte>, len: nat)
    requires len > 0
    ensures Used(lens, len) == 2 * Used(lens, len - 1) + Count(lens, len, |lens|) && Pow2(len) == 2 * Pow2(len - 1)
  {
  }

  lemma KraftIs(lens: seq<Byte>)
    ensures Kraft(lens, W) <==> KraftSum(lens, W, |lens|) <= Pow2(W)
  {
  }

  lemma Oversubscribed(lens: seq<Byte>, len: nat)
    requires len <= W && Used(lens, len) > Pow2(len)
    ensures !Kraft(lens, W)
  {
    if Kraft(lens, W) { UsedFits(lens, len, W); }
  }

  /** Sorts the symbols by length. */
  method SortSymbols(lens: seq<Byte>, count: seq<int>) returns (sorted: seq<int>)
    requires Lengths(lens) && |count| == W + 1 && forall l :: 0 <= l <= W ==> count[l] == Count(lens, l, |lens|)
    ensures Sorted(lens, sorted)
  {
    hide Upto, Count, Place;
    ghost var m := Upto(lens, W);
    UptoMonotone(lens, 0, W);
    PlacesAll(lens);
    var work := new int[|lens|];
    var offs := new int[W + 1];
    UptoNext(lens, 0);
    offs[1] := 0;
    for len := 1 to W
      modifies offs
      invariant forall l :: 1 <= l <= len ==> offs[l] == Upto(lens, l - 1)
    {
      UptoNext(lens, len - 1);
      offs[len + 1] := offs[len] + count[len];
    }
    UptoNext(lens, W - 1);
    var total := offs[W] + count[W];
    NoneBefore(lens);
    for sym := 0 to |lens|
      modifies offs, work
      invariant forall l :: 1 <= l <= W ==> offs[l] == Upto(lens, l - 1) + Count(lens, l, sym)
      invariant forall i :: 0 <= i < sym && lens[i] > 0 ==> 0 <= Place(lens, i) < m && work[Place(lens, i)] == i
    {
      OneMore(lens, sym);
      if lens[sym] != 0 {
        PlaceInRange(lens, sym);
        UptoMonotone(lens, 0, lens[sym] as int - 1);
        forall i | 0 <= i < sym && lens[i] > 0 ensures Place(lens, i) != Place(lens, sym) {
          PlacesDiffer(lens, i, sym);
        }
        work[offs[lens[sym]]] := sym;
        offs[lens[sym]] := offs[lens[sym]] + 1;
      }
    }
    sorted := work[..total];
    SortedAll(lens, sorted);
  }

  lemma NoneBefore(lens: seq<Byte>)
    ensures forall l :: Count(lens, l, 0) == 0
  {
  }

  lemma OneMore(lens: seq<Byte>, sym: nat)
    requires sym < |lens|
    ensures forall l :: Count(lens, l, sym + 1) == Count(lens, l, sym) + if lens[sym] == l then 1 else 0
  {
  }

  lemma PlacesDiffer(lens: seq<Byte>, i: int, j: int)
    requires 0 <= i < j < |lens|
    ensures Place(lens, i) != Place(lens, j)
  {
    RanksPermutation(lens);
    assert Ranks(lens)[i] != Ranks(lens)[j];
  }

  /** No more symbols have codes than there are symbols. */
  lemma PlacesAll(lens: seq<Byte>)
    requires Lengths(lens)
    ensures 0 <= Upto(lens, W) <= |lens|
  {
    UptoMonotone(lens, 0, W);
    CumMonotone(lens, W + 1, 256);
    CumAll(lens);
  }

  /** Every place is some symbol's. */
  lemma SortedAll(lens: seq<Byte>, work: seq<int>)
    requires Lengths(lens) && |work| == Upto(lens, W)
    requires forall i :: 0 <= i < |lens| && lens[i] > 0 ==> 0 <= Place(lens, i) < |work| && work[Place(lens, i)] == i
    ensures Sorted(lens, work)
  {
    hide Upto, Place;
    forall k | 0 <= k < |work| ensures 0 <= work[k] < |lens| && lens[work[k]] > 0 && Place(lens, work[k]) == k {
      var i := SymbolAt(lens, k);
      assert work[Place(lens, i)] == i;
    }
  }

  lemma SymbolAt(lens: seq<Byte>, k: int) returns (i: int)
    requires Lengths(lens) && 0 <= k < Upto(lens, W)
    ensures 0 <= i < |lens| && lens[i] > 0 && Place(lens, i) == k
  {
    var z := Count(lens, 0, |lens|);
    RanksPermutation(lens);
    PlacesAll(lens);
    CumMonotone(lens, W + 1, 256);
    CumAll(lens);
    i := PermutationHits(Ranks(lens), |lens|, k + z);
    RankInBucket(lens, i);
    assert Cum(lens, 0) == 0 && Cum(lens, 1) == z;
  }

  // ---------- one code after the other ----------

  /** The k-th code. */
  ghost function CodeAt(lens: seq<Byte>, work: seq<int>, k: nat): nat
    requires Sorted(lens, work) && k < |work|
  {
    Code(lens, work[k])
  }

  ghost predicate Ready(ty: CodeType, lens: seq<Byte>, work: seq<int>) {
    Sorted(lens, work) && Kraft(lens, W) && |lens| <= MaxSymbols(ty)
  }

  /** String x begins with the j-th code. */
  ghost predicate Begins(lens: seq<Byte>, work: seq<int>, j: nat, x: nat)
    requires Sorted(lens, work) && j < |work|
  {
    Shr(x, W - LenAt(lens, work, j)) == CodeAt(lens, work, j) && x < Pow2(W)
  }

  ghost predicate SolvedFor(tb: seq<Entry>, ty: CodeType, lens: seq<Byte>, work: seq<int>, root: nat, j: nat, x: nat,
                            next: int, curr: int, p: int)
    requires Ready(ty, lens, work) && j < |work|
  {
    Solved(tb, root, x, LenAt(lens, work, j), SymbolOp(ty, work[j]), SymbolVal(ty, work[j]), next, curr, p)
  }

  /** All strings that begin with one of the first k codes are solved. */
  ghost predicate SolvedTo(tb: seq<Entry>, ty: CodeType, lens: seq<Byte>, work: seq<int>, root: nat, k: nat, next: int,
                           curr: int, p: int)
    requires Ready(ty, lens, work) && k <= |work|
  {
    forall j: nat, x: nat {:trigger SolvedFor(tb, ty, lens, work, root, j, x, next, curr, p)} ::
      j < k && Begins(lens, work, j, x) ==> SolvedFor(tb, ty, lens, work, root, j, x, next, curr, p)
  }

  lemma SolvedToAt(tb: seq<Entry>, ty: CodeType, lens: seq<Byte>, work: seq<int>, root: nat, k: nat, next: int,
                   curr: int, p: int, j: nat, x: nat)
    requires Ready(ty, lens, work) && k <= |work| && SolvedTo(tb, ty, lens, work, root, k, next, curr, p)
    requires j < k && Begins(lens, work, j, x)
    ensures SolvedFor(tb, ty, lens, work, root, j, x, next, curr, p)
  {
  }

  /** Codes fit their lengths, and no string begins with two of them. */
  lemma CodeFacts(ty: CodeType, lens: seq<Byte>, work: seq<int>, k: nat)
    requires Ready(ty, lens, work) && k < |work|
    ensures 1 <= LenAt(lens, work, k) <= W && CodeAt(lens, work, k) < Pow2(LenAt(lens, work, k))
    ensures Start(lens, work, k) == CodeAt(lens, work, k) * Pow2(W - LenAt(lens, work, k))
  {
    WorkAt(lens, work, k);
    CodeFits(lens, work[k], W);
    StartIsCode(lens, work, k);
  }

  lemma EarlierDiffers(ty: CodeType, lens: seq<Byte>, work: seq<int>, j: nat, k: nat, x: nat)
    requires Ready(ty, lens, work) && j < k < |work| && Begins(lens, work, j, x)
    ensures Shr(x, W - LenAt(lens, work, k)) != CodeAt(lens, work, k) && x < Start(lens, work, k)
    ensures 1 <= LenAt(lens, work, j) <= LenAt(lens, work, k)
  {
    hide Shr, Pow2, Start, Sorted, Kraft, CodeAt;
    LengthsRise(lens, work, j, k);
    CodeFacts(ty, lens, work, j);
    CodeFacts(ty, lens, work, k);
    StartMonotone(lens, work, j, k);
    InInterval(x, CodeAt(lens, work, j), W - LenAt(lens, work, j));
    InInterval(x, CodeAt(lens, work, k), W - LenAt(lens, work, k));
  }

  /** Where the loop stands before the k-th code: huff is the code reversed; p is the root
      prefix whose sub-table is being filled, or -1. */
  ghost predicate Standing(tb: seq<Entry>, ty: CodeType, lens: seq<Byte>, work: seq<int>, root: nat, k: nat, len: nat,
                           huff: nat,
                           drop: nat, curr: nat, next: nat, low: int, p: int)
    requires Ready(ty, lens, work) && k < |work|
  {
    && 1 <= root <= W && len == LenAt(lens, work, k) <= W && huff == Rev(CodeAt(lens, work, k), len)
    && next + Pow2(curr) <= |tb| && Pow2(root) <= |tb|
    && (if drop == 0 then len <= root && curr == root && next == 0 && low == -1 && p == -1
        else
          && drop == root < len <= root + curr <= W && Pow2(root) <= next
          && p == Shr(CodeAt(lens, work, k), len - root) < Pow2(root)
          && low == Rev(p, root) < |tb| && tb[low] == Entry(curr, root, next))
    && SolvedTo(tb, ty, lens, work, root, k, next, curr, p)
  }

  /** After the k-th code has been entered. */
  lemma Entered(tb: seq<Entry>, tb': seq<Entry>, ty: CodeType, lens: seq<Byte>, work: seq<int>, root: nat, k: nat,
                len: nat, huff: nat,
                drop: nat, curr: nat, next: nat, low: int, p: int)
    requires Ready(ty, lens, work) && k < |work| &&
             Standing(tb, ty, lens, work, root, k, len, huff, drop, curr, next, low, p)
    requires Filled(tb, tb', next, curr, len - drop, Shr(huff, drop),
                    Entry(SymbolOp(ty, work[k]), len - drop, SymbolVal(ty, work[k])))
    ensures SolvedTo(tb', ty, lens, work, root, k + 1, next, curr, p)
    ensures drop != 0 ==> 0 <= low < |tb| == |tb'| && tb'[low] == tb[low]
  {
    hide Solved, Filled, Shr, Low, Pow2, Rev, Sorted, Kraft, SymbolOp, SymbolVal, SolvedTo, LenAt, CodeAt, Begins,
         SolvedFor;
    WorkAt(lens, work, k);
    forall j: nat, x: nat | j < k + 1 && Begins(lens, work, j, x)
      ensures SolvedFor(tb', ty, lens, work, root, j, x, next, curr, p)
    {
      if drop == 0 {
        ShrNone(huff);
        EnteredRoot(tb, tb', ty, lens, work, root, k, len, huff, next, p, j, x);
      } else {
        RevFirst(CodeAt(lens, work, k), root, len - root);
        EnteredSub(tb, tb', ty, lens, work, root, k, len, curr, next, p, j, x);
      }
    }
    SolvedToMake(tb', ty, lens, work, root, k + 1, next, curr, p);
    if drop != 0 {
      RevBelow(p, root);
      FilledBelow(tb, tb', next, curr, len - drop, Shr(huff, drop),
                  Entry(SymbolOp(ty, work[k]), len - drop, SymbolVal(ty, work[k])), low);
    }
  }

  lemma FilledBelow(tb: seq<Entry>, tb': seq<Entry>, next: nat, curr: nat, w: nat, h: int, here: Entry, i: int)
    requires Filled(tb, tb', next, curr, w, h, here) && 0 <= i < next && i < |tb|
    ensures |tb'| == |tb| && tb'[i] == tb[i]
  {
  }

  lemma SolvedToMake(tb: seq<Entry>, ty: CodeType, lens: seq<Byte>, work: seq<int>, root: nat, k: nat, next: int,
                     curr: int, p: int)
    requires Ready(ty, lens, work) && k <= |work|
    requires forall j: nat, x: nat {:trigger SolvedFor(tb, ty, lens, work, root, j, x, next, curr, p)} ::
               j < k && Begins(lens, work, j, x) ==> SolvedFor(tb, ty, lens, work, root, j, x, next, curr, p)
    ensures SolvedTo(tb, ty, lens, work, root, k, next, curr, p)
  {
  }

  lemma EnteredRoot(tb: seq<Entry>, tb': seq<Entry>, ty: CodeType, lens: seq<Byte>, work: seq<int>, root: nat, k: nat,
                    len: nat, huff: nat,
                    next: nat, p: int, j: nat, x: nat)
    requires Ready(ty, lens, work) && k < |work| && 0 <= work[k] < MaxSymbols(ty) &&
             len == LenAt(lens, work, k) <= root <= W
    requires SolvedTo(tb, ty, lens, work, root, k, next, root, p) && huff == Rev(CodeAt(lens, work, k), len)
    requires Filled(tb, tb', 0, root, len, huff, Entry(SymbolOp(ty, work[k]), len, SymbolVal(ty, work[k])))
    requires j <= k && Begins(lens, work, j, x)
    ensures SolvedFor(tb', ty, lens, work, root, j, x, next, root, p)
  {
    hide Solved, Filled, Shr, Low, Pow2, Rev, Sorted, Kraft, SymbolOp, SymbolVal, SolvedTo, RootIndex, SubIndex, LenAt;
    var c := CodeAt(lens, work, k);
    CodeFacts(ty, lens, work, k);
    if j == k {
      FillRoot(tb, tb', root, c, len, SymbolOp(ty, work[k]), SymbolVal(ty, work[k]), x, next, root, p);
    } else {
      WorkAt(lens, work, j);
      EarlierDiffers(ty, lens, work, j, k, x);
      SolvedToAt(tb, ty, lens, work, root, k, next, root, p, j, x);
      FillRootOther(tb, tb', root, c, len, Entry(SymbolOp(ty, work[k]), len, SymbolVal(ty, work[k])), x,
                    LenAt(lens, work, j), SymbolOp(ty, work[j]), SymbolVal(ty, work[j]), next, root, p);
    }
  }

  lemma ShrNone(v: nat)
    ensures Shr(v, 0) == v
  {
    assert v / 1 == v;
  }

  lemma EnteredSub(tb: seq<Entry>, tb': seq<Entry>, ty: CodeType, lens: seq<Byte>, work: seq<int>, root: nat, k: nat,
                   len: nat,
                   curr: nat, next: nat, p: nat, j: nat, x: nat)
    requires Ready(ty, lens, work) && k < |work| && 0 <= work[k] < MaxSymbols(ty) && len == LenAt(lens, work, k)
    requires 1 <= root < len <= root + curr <= W && Pow2(root) <= next && p == Shr(CodeAt(lens, work, k), len - root)
    requires Rev(p, root) < |tb| && tb[Rev(p, root)] == Entry(curr, root, next) &&
             SolvedTo(tb, ty, lens, work, root, k, next, curr, p)
    requires Filled(tb, tb', next, curr, len - root, Rev(Low(CodeAt(lens, work, k), len - root), len - root),
                    Entry(SymbolOp(ty, work[k]), len - root, SymbolVal(ty, work[k])))
    requires j <= k && Begins(lens, work, j, x)
    ensures SolvedFor(tb', ty, lens, work, root, j, x, next, curr, p)
  {
    hide Solved, Filled, Shr, Low, Pow2, Rev, Sorted, Kraft, SymbolOp, SymbolVal, SolvedTo, RootIndex, SubIndex, LenAt;
    var c, w := CodeAt(lens, work, k), len - root;
    if j == k {
      FillSub(tb, tb', root, c, w, SymbolOp(ty, work[k]), SymbolVal(ty, work[k]), x, next, curr, p);
    } else {
      WorkAt(lens, work, j);
      EarlierDiffers(ty, lens, work, j, k, x);
      SolvedToAt(tb, ty, lens, work, root, k, next, curr, p, j, x);
      FillSubOther(tb, tb', root, c, w, Entry(SymbolOp(ty, work[k]), w, SymbolVal(ty, work[k])), x,
                   LenAt(lens, work, j), SymbolOp(ty, work[j]), SymbolVal(ty, work[j]), next, curr, p);
    }
  }

  /** Filled from the top down to fill. */
  ghost predicate FilledFrom(tb: seq<Entry>, now: seq<Entry>, next: nat, curr: nat, w: nat, h: nat, fill: nat,
                             here: Entry)
  {
    && |now| == |tb| && next + Pow2(curr) <= |tb|
    && (forall i {:trigger now[i]} :: 0 <= i < next || next + Pow2(curr) <= i < |tb| ==> now[i] == tb[i])
    && (forall i {:trigger Low(i, w)} :: 0 <= i < Pow2(curr) ==>
          now[next + i] == if Low(i, w) == h && fill <= i then here else tb[next + i])
  }

  lemma FilledFromStep(tb: seq<Entry>, now: seq<Entry>, next: nat, curr: nat, w: nat, h: nat, q: nat, fill: nat,
                       here: Entry)
    requires w <= curr && h < Pow2(w) && fill == q * Pow2(w) && fill + h < Pow2(curr)
    requires FilledFrom(tb, now, next, curr, w, h, (q + 1) * Pow2(w), here)
    ensures FilledFrom(tb, now[next + h + fill := here], next, curr, w, h, fill, here)
  {
    hide Low, Pow2;
    var after := now[next + h + fill := here];
    forall i {:trigger Low(i, w)} | 0 <= i < Pow2(curr)
      ensures after[next + i] == if Low(i, w) == h && fill <= i then here else tb[next + i]
    {
      FilledFromAt(tb, now, next, curr, w, h, (q + 1) * Pow2(w), here, i);
      SamePlace(i, q, h, w);
    }
  }

  lemma FilledFromAt(tb: seq<Entry>, now: seq<Entry>, next: nat, curr: nat, w: nat, h: nat, fill: nat, here: Entry,
                     i: nat)
    requires FilledFrom(tb, now, next, curr, w, h, fill, here) && i < Pow2(curr)
    ensures next + i < |now| == |tb| && now[next + i] == if Low(i, w) == h && fill <= i then here else tb[next + i]
  {
    hide Low, Pow2;
    var low := Low(i, w);
  }

  /** Replicates an entry for all indices that end in the code's bits: do-while from the top. */
  method Replicate(table: array<Entry>, next: nat, curr: nat, w: nat, h: nat, here: Entry)
    requires w <= curr && h < Pow2(w) && next + Pow2(curr) <= table.Length
    modifies table
    ensures Filled(old(table[..]), table[..], next, curr, w, h, here)
  {
    hide Low, Pow2, FilledFrom, Filled;
    ghost var tb := table[..];
    Pow2Add(w, curr - w);
    NothingFilled(tb, next, curr, w, h, here);
    var incr, fill := PowerOfTwo(w), PowerOfTwo(curr);
    ghost var q := Pow2(curr - w);
    while true
      invariant 0 < q <= Pow2(curr - w) && fill == q * incr && incr == Pow2(w)
      invariant FilledFrom(tb, table[..], next, curr, w, h, fill, here)
      decreases q
    {
      PlacesApart(q - 1, incr, h, w, curr);
      FilledFromStep(tb, table[..], next, curr, w, h, q - 1, fill - incr, here);
      q := q - 1;
      fill := fill - incr;
      ghost var before := table[..];
      table[next + h + fill] := here;
      assert table[..] == before[next + h + fill := here];
      if fill == 0 { break; }
    }
    AllFilled(tb, table[..], next, curr, w, h, here);
  }

  lemma NothingFilled(tb: seq<Entry>, next: nat, curr: nat, w: nat, h: nat, here: Entry)
    requires next + Pow2(curr) <= |tb|
    ensures FilledFrom(tb, tb, next, curr, w, h, Pow2(curr), here)
  {
    hide Low, Pow2;
  }

  lemma AllFilled(tb: seq<Entry>, now: seq<Entry>, next: nat, curr: nat, w: nat, h: nat, here: Entry)
    requires FilledFrom(tb, now, next, curr, w, h, 0, here)
    ensures Filled(tb, now, next, curr, w, h, here)
  {
    hide Low, Pow2;
  }

  lemma PlacesApart(q: nat, incr: nat, h: nat, w: nat, curr: nat)
    requires incr == Pow2(w) && h < incr && w <= curr && q < Pow2(curr - w)
    ensures (q + 1) * incr == q * incr + incr && q * incr + h < Pow2(curr) && 0 <= q * incr
    ensures q == 0 <==> q * incr == 0
  {
    hide Pow2;
    Pow2Add(w, curr - w);
    MulDistributes(incr, q, 1);
    MulMonotone(q + 1, Pow2(curr - w), incr);
    if q > 0 { MulMonotone(1, q, incr); }
  }

  /** Of the numbers that end in h, the one with quotient q. */
  lemma SamePlace(i: nat, q: nat, h: nat, w: nat)
    requires h < Pow2(w)
    ensures Low(i, w) == h && q * Pow2(w) <= i < (q + 1) * Pow2(w) <==> i == q * Pow2(w) + h
    ensures Low(i, w) == h && i >= q * Pow2(w) && i != q * Pow2(w) + h ==> i >= (q + 1) * Pow2(w)
  {
    hide Low, Pow2;
    Split(i, w);
    Unsplit(q, w, h);
    MulDistributes(Pow2(w), q, 1);
    var s := Shr(i, w);
    if s < q { MulMonotone(s + 1, q, Pow2(w)); MulDistributes(Pow2(w), s, 1); }
    if s > q { MulMonotone(q + 1, s, Pow2(w)); }
    LowBelow(i, w);
  }

  // ---------- on to the next code ----------

  /** Adding one to a code and appending zeros gives the next code. */
  lemma NextCode(ty: CodeType, lens: seq<Byte>, work: seq<int>, k: nat)
    requires Ready(ty, lens, work) && k + 1 < |work|
    ensures LenAt(lens, work, k) <= LenAt(lens, work, k + 1) <= W
    ensures var l, l1, c := LenAt(lens, work, k), LenAt(lens, work, k + 1), CodeAt(lens, work, k);
            CodeAt(lens, work, k + 1) == (c + 1) * Pow2(l1 - l) && c + 1 < Pow2(l)
  {
    hide Sorted, Kraft, Pow2, LenAt, CodeAt, Start;
    CodeFacts(ty, lens, work, k);
    CodeFacts(ty, lens, work, k + 1);
    LengthsRise(lens, work, k, k + 1);
    StartNext(lens, work, k);
    var l, l1, c, d := LenAt(lens, work, k), LenAt(lens, work, k + 1), CodeAt(lens, work, k), CodeAt(lens, work, k + 1);
    Pow2Add(l1 - l, W - l1);
    Pow2Add(l, l1 - l);
    OnePastScaled(c, d, Pow2(l1 - l), Pow2(W - l1));
    CancelLess(c + 1, Pow2(l), Pow2(l1 - l));
  }

  lemma StartNext(lens: seq<Byte>, work: seq<int>, k: nat)
    requires Sorted(lens, work) && k < |work|
    ensures Start(lens, work, k + 1) == Start(lens, work, k) + Pow2(W - LenAt(lens, work, k))
  {
  }

  lemma OnePastScaled(c: int, d: int, q: int, r: int)
    requires r > 0 && d * r == c * (q * r) + q * r
    ensures d == (c + 1) * q
  {
    MulDistributes(q * r, c, 1);
    MulAssociative(c + 1, q, r);
    Cancel(d, (c + 1) * q, r);
  }

  lemma Cancel(a: int, b: int, p: int)
    requires p > 0 && a * p == b * p
    ensures a == b
  {
    if a < b { MulStrict(a, b, p); } else if b < a { MulStrict(b, a, p); }
  }

  lemma CancelLess(a: int, b: int, p: int)
    requires p > 0 && a * p < b * p
    ensures a < b
  {
    if b <= a { MulMonotone(b, a, p); }
  }

  /** The backwards increment yields the next code reversed, at whatever length it has. */
  lemma NextReversed(ty: CodeType, lens: seq<Byte>, work: seq<int>, k: nat)
    requires Ready(ty, lens, work) && k + 1 < |work|
    ensures var l, l1 := LenAt(lens, work, k), LenAt(lens, work, k + 1);
            NextReverse(Rev(CodeAt(lens, work, k), l), l) == Rev(CodeAt(lens, work, k + 1), l1)
  {
    hide Sorted, Kraft, Pow2, LenAt, CodeAt, NextReverse, Rev;
    NextCode(ty, lens, work, k);
    CodeFacts(ty, lens, work, k);
    var l, l1, c := LenAt(lens, work, k), LenAt(lens, work, k + 1), CodeAt(lens, work, k);
    NextIs(c, l);
    RevPad(c + 1, l, l1 - l);
  }

  /** The strings that begin like the k-th code, as far as the root table reaches. */
  lemma PrefixOfStart(ty: CodeType, lens: seq<Byte>, work: seq<int>, k: nat, root: nat)
    requires Ready(ty, lens, work) && k < |work| && root <= LenAt(lens, work, k)
    ensures Shr(Start(lens, work, k), W - root) == Shr(CodeAt(lens, work, k), LenAt(lens, work, k) - root)
  {
    hide Sorted, Kraft, Pow2, LenAt, CodeAt, Shr, Start;
    CodeFacts(ty, lens, work, k);
    var n := W - LenAt(lens, work, k);
    Unsplit(CodeAt(lens, work, k), n, 0);
    ShrShr(Start(lens, work, k), n, LenAt(lens, work, k) - root);
  }

  /** A sub-table is started exactly at the beginning of its root prefix. */
  lemma Aligned(ty: CodeType, lens: seq<Byte>, work: seq<int>, k: nat, root: nat, p: nat)
    requires Ready(ty, lens, work) && k + 1 < |work| && root < LenAt(lens, work, k + 1) && root <= W
    requires p == Shr(CodeAt(lens, work, k + 1), LenAt(lens, work, k + 1) - root)
    requires root < LenAt(lens, work, k) ==> Shr(CodeAt(lens, work, k), LenAt(lens, work, k) - root) != p
    ensures Start(lens, work, k + 1) == p * Pow2(W - root)
  {
    hide Sorted, Kraft, Pow2, LenAt, CodeAt, Shr, Start;
    var l, l1, c, d := LenAt(lens, work, k), LenAt(lens, work, k + 1), CodeAt(lens, work, k), CodeAt(lens, work, k + 1);
    NextCode(ty, lens, work, k);
    CodeFacts(ty, lens, work, k);
    CodeFacts(ty, lens, work, k + 1);
    AlignedCode(c, d, l, l1, root, p);
    Pow2Add(l1 - root, W - l1);
    MulAssociative(p, Pow2(l1 - root), Pow2(W - l1));
  }

  lemma AlignedCode(c: nat, d: nat, l: nat, l1: nat, root: nat, p: nat)
    requires l <= l1 && root < l1 && d == (c + 1) * Pow2(l1 - l) && p == Shr(d, l1 - root)
    requires root < l ==> Shr(c, l - root) != p
    ensures d == p * Pow2(l1 - root)
  {
    hide Pow2, Shr;
    if l <= root {
      Pow2Add(root - l, l1 - root);
      MulAssociative(c + 1, Pow2(root - l), Pow2(l1 - root));
      Unsplit((c + 1) * Pow2(root - l), l1 - root, 0);
    } else {
      var w := l - root;
      Unsplit(c + 1, l1 - l, 0);
      ShrShr(d, l1 - l, w);
      NextPrefix(c, w, p);
      Pow2Add(w, l1 - l);
      MulAssociative(p, Pow2(w), Pow2(l1 - l));
    }
  }

  /** Where the prefix changes, the rest is zero. */
  lemma NextPrefix(c: nat, w: nat, p: nat)
    requires Shr(c + 1, w) == p && Shr(c, w) != p
    ensures c + 1 == p * Pow2(w)
  {
    hide Shr, Low, Pow2;
    Split(c, w);
    LowBelow(c, w);
    CarryOne(c, Shr(c, w), Low(c, w), Pow2(w));
    if Low(c, w) + 1 < Pow2(w) {
      Unsplit(Shr(c, w), w, Low(c, w) + 1);
    } else {
      Unsplit(Shr(c, w) + 1, w, 0);
    }
  }

  lemma CarryOne(c: nat, q: nat, r: nat, b: nat)
    requires c == q * b + r && r < b
    ensures if r + 1 < b then c + 1 == q * b + (r + 1) else c + 1 == (q + 1) * b + 0
  {
    MulDistributes(b, q, 1);
  }

  // ---------- how large a sub-table must be ----------

  /** What is left of the counts: the codes from the k-th on, by length. */
  ghost predicate Remaining(count: seq<int>, lens: seq<Byte>, work: seq<int>, k: nat)
    requires Sorted(lens, work) && k < |work|
  {
    && |count| == W + 1 && count[LenAt(lens, work, k)] == Upto(lens, LenAt(lens, work, k)) - k
    && forall l :: LenAt(lens, work, k) < l <= W ==> count[l] == Count(lens, l, |lens|)
  }

  /** All further codes with root prefix p fit a sub-table of curr bits. */
  ghost predicate Fits(lens: seq<Byte>, work: seq<int>, k: nat, root: nat, curr: nat, p: int)
    requires Sorted(lens, work) && root <= W
  {
    forall j: nat :: k <= j < |work| && Shr(Start(lens, work, j), W - root) == p ==> LenAt(lens, work, j) <= root + curr
  }

  /** The first code not counted yet when codes up to length l - 1 have been. */
  ghost function From(lens: seq<Byte>, work: seq<int>, k: nat, l: nat): int
    requires Sorted(lens, work) && k < |work| && 0 < l
  {
    if l == LenAt(lens, work, k) then k else Upto(lens, l - 1)
  }

  /** left, in strings of the current length: what codes of the lengths looked at leave of
      the prefix. */
  ghost predicate LeftIs(left: int, lens: seq<Byte>, work: seq<int>, n: nat, root: nat, l: nat, p: nat)
    requires Sorted(lens, work) && n <= |work| && root <= l <= W
  {
    left * Pow2(W - l) == (p + 1) * Pow2(W - root) - Start(lens, work, n)
  }

  lemma FromRange(lens: seq<Byte>, work: seq<int>, k: nat, l: nat)
    requires Sorted(lens, work) && k < |work| && LenAt(lens, work, k) <= l <= W
    ensures 0 < l && Upto(lens, l - 1) <= From(lens, work, k, l) <= Upto(lens, l) <= |work| &&
            0 <= From(lens, work, k, l)
  {
    hide Sorted, Upto, LenAt;
    WorkAt(lens, work, k);
    LengthByPlace(lens, work, k, LenAt(lens, work, k));
    LengthByPlace(lens, work, k, LenAt(lens, work, k) - 1);
    UptoMonotone(lens, l - 1, l);
    UptoMonotone(lens, 0, l - 1);
    UptoWithin(lens, work, l);
  }

  lemma LeftStart(lens: seq<Byte>, work: seq<int>, k: nat, root: nat, p: nat)
    requires Sorted(lens, work) && k < |work| && root < LenAt(lens, work, k) <= W &&
             Start(lens, work, k) == p * Pow2(W - root)
    ensures LeftIs(Pow2(LenAt(lens, work, k) - root), lens, work, k, root, LenAt(lens, work, k), p)
  {
    hide Sorted, Pow2, LenAt, Start;
    Pow2Add(LenAt(lens, work, k) - root, W - LenAt(lens, work, k));
    MulDistributes(Pow2(W - root), p, 1);
  }

  lemma LeftStep(left: int, count: seq<int>, lens: seq<Byte>, work: seq<int>, k: nat, root: nat, l: nat, p: nat)
    requires Sorted(lens, work) && k < |work| && root < LenAt(lens, work, k) <= l <= W &&
             Remaining(count, lens, work, k)
    requires From(lens, work, k, l) <= |work| && 0 <= From(lens, work, k, l) &&
             LeftIs(left, lens, work, From(lens, work, k, l), root, l, p)
    ensures 0 <= Upto(lens, l) <= |work| && LeftIs(left - count[l], lens, work, Upto(lens, l), root, l, p)
    ensures l < W ==> LeftIs(2 * (left - count[l]), lens, work, Upto(lens, l), root, l + 1, p)
  {
    hide Sorted, Pow2, LenAt, Start, Upto, Remaining, From;
    var n := From(lens, work, k, l);
    FromRange(lens, work, k, l);
    StartToEnd(lens, work, n, l);
    CountIs(count, lens, work, k, l);
    LeftLess(left, count[l], Pow2(W - l), (p + 1) * Pow2(W - root), Start(lens, work, n),
             Start(lens, work, Upto(lens, l)));
    if l < W {
      DoubleDown(l);
      LeftDoubled(left - count[l], Pow2(W - (l + 1)));
    }
  }

  lemma LeftLess(left: int, n: int, p: int, e: int, s: int, t: int)
    requires left * p == e - s && t == s + n * p
    ensures (left - n) * p == e - t
  {
  }

  lemma LeftDoubled(left: int, p: int)
    ensures (2 * left) * p == left * (2 * p)
  {
  }

  lemma CountIs(count: seq<int>, lens: seq<Byte>, work: seq<int>, k: nat, l: nat)
    requires Sorted(lens, work) && k < |work| && LenAt(lens, work, k) <= l <= W && Remaining(count, lens, work, k)
    ensures |count| == W + 1 && count[l] == Upto(lens, l) - From(lens, work, k, l)
  {
    hide Sorted, LenAt, Upto;
    FromFirst(lens, work, k);
    UptoNext(lens, l - 1);
  }

  lemma DoubleDown(l: nat)
    requires l < W
    ensures Pow2(W - l) == 2 * Pow2(W - (l + 1))
  {
  }

  /** When nothing of the prefix is left, or no longer codes exist, the table is large enough. */
  lemma FitsNow(left: int, lens: seq<Byte>, work: seq<int>, k: nat, root: nat, l: nat, p: nat)
    requires Sorted(lens, work) && k < |work| && root <= l <= W && 0 <= Upto(lens, l) <= |work|
    requires left <= 0 && LeftIs(left, lens, work, Upto(lens, l), root, l, p)
    ensures Fits(lens, work, k, root, l - root, p)
  {
    hide Sorted, Pow2, LenAt, Start, Upto, Shr;
    MulMonotone(left, 0, Pow2(W - l));
    forall j: nat | k <= j < |work| && Shr(Start(lens, work, j), W - root) == p ensures LenAt(lens, work, j) <= l {
      LengthByPlace(lens, work, j, l);
      InInterval(Start(lens, work, j), p, W - root);
      MulDistributes(Pow2(W - root), p, 1);
      if j >= Upto(lens, l) { StartMonotone(lens, work, Upto(lens, l), j); }
    }
  }

  lemma FitsLongest(lens: seq<Byte>, work: seq<int>, k: nat, root: nat, max: nat, p: int)
    requires Sorted(lens, work) && root <= max && root <= W && forall j :: 0 <= j < |work| ==>
               LenAt(lens, work, j) <= max
    ensures Fits(lens, work, k, root, max - root, p)
  {
  }

  /** While some of the prefix is left, the next code still lies under it, and is as long as
      the table is deep. */
  lemma StillUnder(left: int, lens: seq<Byte>, work: seq<int>, k: nat, root: nat, l: nat, p: nat, n: nat)
    requires Sorted(lens, work) && k <= n <= |work| && root <= l <= W && left > 0 &&
             LeftIs(left, lens, work, n, root, l, p)
    requires Start(lens, work, k) == p * Pow2(W - root) && Start(lens, work, |work|) == Pow2(W) && p < Pow2(root)
    ensures n < |work| && Prefix(lens, work, root, n) == p
  {
    hide Sorted, Pow2, LenAt, Start, Shr;
    MulStrict(0, left, Pow2(W - l));
    MulMonotone(p + 1, Pow2(root), Pow2(W - root));
    MulDistributes(Pow2(W - root), p, 1);
    Pow2Add(root, W - root);
    StartMonotone(lens, work, k, n);
    if n < |work| { InInterval(Start(lens, work, n), p, W - root); }
  }

  /** Where the sub-table's longest code stands. */
  lemma TopCode(lens: seq<Byte>, work: seq<int>, k: nat, root: nat, curr: nat, p: nat, n: nat)
    requires Sorted(lens, work) && k <= n < |work| && root <= W && Prefix(lens, work, root, n) == p &&
             Fits(lens, work, k, root, curr, p)
    requires 0 < root + curr && Upto(lens, root + curr - 1) <= n
    ensures LenAt(lens, work, n) == root + curr
  {
    hide Sorted, Pow2, LenAt, Start, Shr, Upto;
    LengthByPlace(lens, work, n, root + curr - 1);
  }

  /** Determines the length of the next table: exactly what the longest code under the prefix
      needs. */
  method SizeSubTable(count: seq<int>, root: nat, len: nat, max: nat, ghost lens: seq<Byte>, ghost work: seq<int>,
                      ghost k: nat, ghost p: nat)
    returns (curr: nat, ghost top: nat)
    requires Sorted(lens, work) && k < |work| && len == LenAt(lens, work, k) && root < len <= max <= W &&
             Remaining(count, lens, work, k)
    requires forall j :: 0 <= j < |work| ==> LenAt(lens, work, j) <= max
    requires Start(lens, work, k) == p * Pow2(W - root) && Start(lens, work, |work|) == Pow2(W) && p < Pow2(root)
    ensures len <= root + curr <= max && Fits(lens, work, k, root, curr, p)
    ensures k <= top < |work| && Prefix(lens, work, root, top) == p && LenAt(lens, work, top) == root + curr
  {
    hide Sorted, Pow2, LenAt, Start, Upto, Fits, Remaining, LeftIs, From, Prefix;
    FitsLongest(lens, work, k, root, max, p);
    CountLength(count, lens, work, k);
    curr := len - root;
    var left: int := PowerOfTwo(curr);
    LeftStart(lens, work, k, root, p);
    FromFirst(lens, work, k);
    FromRange(lens, work, k, len);
    PowerPositive(curr);
    while curr + root < max
      invariant len <= root + curr <= max && left > 0
      invariant k <= From(lens, work, k, root + curr) <= |work|
      invariant LeftIs(left, lens, work, From(lens, work, k, root + curr), root, root + curr, p)
    {
      ghost var l := root + curr;
      top := From(lens, work, k, l);
      StillUnder(left, lens, work, k, root, l, p, top);
      LeftStep(left, count, lens, work, k, root, l, p);
      FromNext(lens, work, k, l);
      FromRange(lens, work, k, l);
      left := left - count[curr + root];
      if left <= 0 {
        FitsNow(left, lens, work, k, root, l, p);
        TopCode(lens, work, k, root, curr, p, top);
        return;
      }
      UptoAfter(lens, work, k, l);
      curr := curr + 1;
      left := left * 2;
    }
    top := From(lens, work, k, root + curr);
    StillUnder(left, lens, work, k, root, root + curr, p, top);
    FromRange(lens, work, k, root + curr);
    TopCode(lens, work, k, root, curr, p, top);
  }

  lemma PowerPositive(n: nat)
    ensures Pow2(n) > 0
  {
  }

  lemma UptoAfter(lens: seq<Byte>, work: seq<int>, k: nat, l: nat)
    requires Sorted(lens, work) && k < |work| && LenAt(lens, work, k) <= l
    ensures k < Upto(lens, l)
  {
    hide Sorted, LenAt, Upto;
    LengthByPlace(lens, work, k, l);
  }

  lemma CountLength(count: seq<int>, lens: seq<Byte>, work: seq<int>, k: nat)
    requires Sorted(lens, work) && k < |work| && Remaining(count, lens, work, k)
    ensures |count| == W + 1
  {
  }

  lemma FromFirst(lens: seq<Byte>, work: seq<int>, k: nat)
    requires Sorted(lens, work) && k < |work|
    ensures LenAt(lens, work, k) > 0 && From(lens, work, k, LenAt(lens, work, k)) == k
  {
    WorkAt(lens, work, k);
  }

  lemma FromNext(lens: seq<Byte>, work: seq<int>, k: nat, l: nat)
    requires Sorted(lens, work) && k < |work| && LenAt(lens, work, k) <= l
    ensures From(lens, work, k, l + 1) == Upto(lens, l)
  {
  }

  /** A code lies under its own prefix, so it fits the table made for that prefix. */
  lemma FitsSelf(ty: CodeType, lens: seq<Byte>, work: seq<int>, k: nat, k': nat, root: nat, curr: nat, p: int)
    requires Ready(ty, lens, work) && k' <= k < |work| && root <= W && Fits(lens, work, k', root, curr, p)
    requires root <= LenAt(lens, work, k) && p == Shr(CodeAt(lens, work, k), LenAt(lens, work, k) - root)
    ensures LenAt(lens, work, k) <= root + curr
  {
    hide Sorted, Pow2, LenAt, Start, Shr, CodeAt;
    PrefixOfStart(ty, lens, work, k, root);
  }

  // ---------- opening a sub-table ----------

  /** The new sub-table's link solves nothing yet and disturbs nothing. */
  lemma Opened(tb: seq<Entry>, ty: CodeType, lens: seq<Byte>, work: seq<int>, root: nat, k: nat, next: int, curr: nat,
               p: int,
               next': int, curr': nat, p': nat)
    requires Ready(ty, lens, work) && k < |work| && SolvedTo(tb, ty, lens, work, root, k, next, curr, p)
    requires next' == next + Pow2(curr) && root <= W && p' < Pow2(root) && Rev(p', root) < |tb|
    requires Start(lens, work, k) == p' * Pow2(W - root)
    ensures SolvedTo(tb[Rev(p', root) := Entry(curr', root, next')], ty, lens, work, root, k, next', curr', p')
  {
    hide Solved, Shr, Pow2, Rev, Sorted, Kraft, SolvedTo, Start, LenAt, SymbolOp, SymbolVal;
    var tb' := tb[Rev(p', root) := Entry(curr', root, next')];
    forall j: nat, x: nat {:trigger SolvedFor(tb', ty, lens, work, root, j, x, next', curr', p')} | j < k &&
    Begins(lens, work, j, x)
      ensures SolvedFor(tb', ty, lens, work, root, j, x, next', curr', p')
    {
      WorkAt(lens, work, j);
      SolvedToAt(tb, ty, lens, work, root, k, next, curr, p, j, x);
      EarlierDiffers(ty, lens, work, j, k, x);
      InInterval(x, p', W - root);
      NewSub(tb, root, x, LenAt(lens, work, j), SymbolOp(ty, work[j]), SymbolVal(ty, work[j]), next, curr, p, next',
             curr', p');
    }
    SolvedToMake(tb', ty, lens, work, root, k, next', curr', p');
  }

  // ---------- the main loop ----------

  /** max is the length of the last code. */
  ghost predicate Longest(lens: seq<Byte>, work: seq<int>, max: nat)
    requires Sorted(lens, work)
  {
    && max <= W && (forall j :: 0 <= j < |work| ==> LenAt(lens, work, j) <= max) && |work| > 0 &&
       LenAt(lens, work, |work| - 1) == max
  }

  /** One code less. */
  lemma CountDown(count: seq<int>, lens: seq<Byte>, work: seq<int>, k: nat, max: nat)
    requires Sorted(lens, work) && k < |work| && Remaining(count, lens, work, k) && Longest(lens, work, max)
    ensures |count| == W + 1 && 1 <= LenAt(lens, work, k) <= max && count[LenAt(lens, work, k)] > 0
    ensures var len := LenAt(lens, work, k); var rest := count[len := count[len] - 1];
            && (rest[len] == 0 && len == max ==> k + 1 == |work|)
            && (rest[len] == 0 && len != max ==> k + 1 < |work| && Remaining(rest, lens, work, k + 1))
            && (rest[len] != 0 ==> k + 1 < |work| && LenAt(lens, work, k + 1) == len && Remaining(rest, lens, work,
                                                                                                  k + 1))
  {
    hide Sorted, Upto, LenAt, Count;
    WorkAt(lens, work, k);
    CountLength(count, lens, work, k);
    var len := LenAt(lens, work, k);
    var rest := count[len := count[len] - 1];
    LengthByPlace(lens, work, k, len);
    UptoWithin(lens, work, len);
    LengthByPlace(lens, work, |work| - 1, len);
    if k + 1 < |work| {
      LengthsRise(lens, work, k, k + 1);
      LengthByPlace(lens, work, k + 1, len);
      var len1 := LenAt(lens, work, k + 1);
      if rest[len] == 0 {
        LengthByPlace(lens, work, k + 1, len1 - 1);
        UptoMonotone(lens, len, len1 - 1);
        UptoNext(lens, len1 - 1);
      }
    }
  }

  /** Standing before the next code, in the same table. */
  lemma FitsLater(lens: seq<Byte>, work: seq<int>, k: nat, k': nat, root: nat, curr: nat, p: int)
    requires Sorted(lens, work) && root <= W && k <= k'
    ensures Fits(lens, work, k, root, curr, p) ==> Fits(lens, work, k', root, curr, p)
  {
    hide Sorted, Pow2, LenAt, Start, Shr;
  }

  lemma StandingSame(tb: seq<Entry>, tb': seq<Entry>, ty: CodeType, lens: seq<Byte>, work: seq<int>, root: nat, k: nat,
                     len: nat, huff: nat,
                     drop: nat, curr: nat, next: nat, low: int, p: int, len1: nat, huff1: nat)
    requires Ready(ty, lens, work) && k + 1 < |work| &&
             Standing(tb, ty, lens, work, root, k, len, huff, drop, curr, next, low, p)
    requires SolvedTo(tb', ty, lens, work, root, k + 1, next, curr, p) && |tb'| == |tb| &&
             (drop != 0 ==> tb'[low] == tb[low])
    requires len1 == LenAt(lens, work, k + 1) && huff1 == Rev(CodeAt(lens, work, k + 1), len1)
    requires (drop != 0 ==> Fits(lens, work, k, root, curr, p)) && root <= W
    requires len1 <= root || Low(huff1, root) == low
    ensures Standing(tb', ty, lens, work, root, k + 1, len1, huff1, drop, curr, next, low, p)
    ensures drop != 0 ==> Fits(lens, work, k + 1, root, curr, p)
  {
    hide Sorted, Kraft, SolvedTo, Rev, Shr, Low, Pow2, LenAt, CodeAt, Fits;
    CodeFacts(ty, lens, work, k + 1);
    FitsLater(lens, work, k, k + 1, root, curr, p);
    LengthsRise(lens, work, k, k + 1);
    if len1 > root {
      RevFirst(CodeAt(lens, work, k + 1), root, len1 - root);
      ShrFits(CodeAt(lens, work, k + 1), len1, root);
      RevInjective(Shr(CodeAt(lens, work, k + 1), len1 - root), p, root);
      FitsSelf(ty, lens, work, k + 1, k, root, curr, p);
    }
  }

  /** Standing before the next code, with a new sub-table. */
  lemma StandingNew(tb: seq<Entry>, tb': seq<Entry>, ty: CodeType, lens: seq<Byte>, work: seq<int>, root: nat, k: nat,
                    len: nat, huff: nat,
                    drop: nat, curr: nat, next: nat, low: int, p: int, len1: nat, huff1: nat)
    returns (p1: nat)
    requires Ready(ty, lens, work) && k + 1 < |work| &&
             Standing(tb, ty, lens, work, root, k, len, huff, drop, curr, next, low, p)
    requires SolvedTo(tb', ty, lens, work, root, k + 1, next, curr, p) && |tb'| == |tb|
    requires len1 == LenAt(lens, work, k + 1) && huff1 == Rev(CodeAt(lens, work, k + 1), len1)
    requires len1 > root && Low(huff1, root) != low
    ensures p1 == Shr(CodeAt(lens, work, k + 1), len1 - root) && p1 < Pow2(root) && Low(huff1, root) == Rev(p1, root)
    ensures Start(lens, work, k + 1) == p1 * Pow2(W - root)
  {
    hide Sorted, Kraft, SolvedTo, Rev, Shr, Low, Pow2, LenAt, CodeAt, Start;
    p1 := Shr(CodeAt(lens, work, k + 1), len1 - root);
    CodeFacts(ty, lens, work, k + 1);
    RevFirst(CodeAt(lens, work, k + 1), root, len1 - root);
    ShrFits(CodeAt(lens, work, k + 1), len1, root);
    Aligned(ty, lens, work, k, root, p1);
  }

  lemma FirstStanding(tb: seq<Entry>, ty: CodeType, lens: seq<Byte>, work: seq<int>, root: nat)
    requires Ready(ty, lens, work) && 0 < |work| && 1 <= root <= W && LenAt(lens, work, 0) <= root && Pow2(root) <= |tb|
    ensures Standing(tb, ty, lens, work, root, 0, LenAt(lens, work, 0), 0, 0, root, 0, -1, -1)
  {
    hide Kraft, SolvedTo, Pow2, Sorted, LenAt, CodeAt;
    CodeFacts(ty, lens, work, 0);
    StartZero(lens, work);
    if CodeAt(lens, work, 0) > 0 { MulMonotone(1, CodeAt(lens, work, 0), Pow2(W - LenAt(lens, work, 0))); }
    RevZero(LenAt(lens, work, 0));
    SolvedToMake(tb, ty, lens, work, root, 0, 0, root, -1);
  }

  lemma StandingFacts(tb: seq<Entry>, ty: CodeType, lens: seq<Byte>, work: seq<int>, root: nat, k: nat, len: nat,
                      huff: nat,
                      drop: nat, curr: nat, next: nat, low: int, p: int)
    requires Ready(ty, lens, work) && k < |work| &&
             Standing(tb, ty, lens, work, root, k, len, huff, drop, curr, next, low, p)
    ensures 1 <= root <= W && len == LenAt(lens, work, k) && 1 <= len <= W && drop < len <= drop + curr &&
            next + Pow2(curr) <= |tb|
    ensures huff < Pow2(len) && Shr(huff, drop) < Pow2(len - drop) && (drop == 0 || drop == root < len)
    ensures drop == 0 ==> next == 0 && curr == root && low == -1 && len <= root
    ensures drop != 0 ==> Pow2(root) <= next
    ensures huff == Rev(CodeAt(lens, work, k), len) && Pow2(root) <= |tb|
  {
    hide Kraft, SolvedTo, Pow2, Sorted, LenAt, CodeAt, Shr, Rev;
    WorkAt(lens, work, k);
    RevBelow(CodeAt(lens, work, k), len);
    ShrFits(huff, len, len - drop);
  }

  /** Begins the sub-table for the next code, if there is room. */
  method OpenTable(ty: CodeType, lens: seq<Byte>, work: seq<int>, count: seq<int>, table: array<Entry>, root: nat,
                   max: nat, used0: nat,
                   len: nat, huff: nat, drop0: nat, nxt0: nat, cur0: nat, ghost low0: int, ghost p0: int,
                   ghost tb: seq<Entry>, ghost k: nat, ghost len0: nat, ghost huff0: nat)
    returns (ok: bool, used: nat, nxt: nat, cur: nat, low: int, ghost p: int)
    requires Ready(ty, lens, work) && k + 1 < |work| && 1 <= root <= W && Longest(lens, work, max) &&
             table.Length >= Room(ty) && ty != Codes
    requires Standing(tb, ty, lens, work, root, k, len0, huff0, drop0, cur0, nxt0, low0, p0) && |tb| == table.Length
    requires SolvedTo(table[..], ty, lens, work, root, k + 1, nxt0, cur0, p0)
    requires len == LenAt(lens, work, k + 1) && huff == Rev(CodeAt(lens, work, k + 1), len) && root < len <= max &&
             Low(huff, root) != low0
    requires Remaining(count, lens, work, k + 1) && Start(lens, work, |work|) == Pow2(W)
    requires used0 == nxt0 + Pow2(cur0) <= Room(ty) && used0 >= Pow2(root)
    modifies table
    ensures used + Ahead(lens, work, root, k + 1) == used0 + Ahead(lens, work, root, k) && (ok <==> used <= Room(ty))
    ensures ok ==> used == nxt + Pow2(cur) && used >= Pow2(root) && p >= 0
    ensures ok ==> Standing(table[..], ty, lens, work, root, k + 1, len, huff, root, cur, nxt, low,
                            p) && Fits(lens, work, k + 1, root, cur, p)
  {
    hide Kraft, SolvedTo, Pow2, Sorted, LenAt, CodeAt, Shr, Low, Rev, Standing, Remaining, Fits, SymbolOp, SymbolVal,
         Longest, Start, Ahead, Prefix;
    ghost var tb' := table[..];
    ghost var p1 := StandingNew(tb, tb', ty, lens, work, root, k, len0, huff0, drop0, cur0, nxt0, low0, p0, len, huff);
    LongestIs(lens, work, max);
    ghost var top;
    cur, top := SizeSubTable(count, root, len, max, lens, work, k + 1, p1);
    NewTable(tb, ty, lens, work, root, k, len0, huff0, drop0, cur0, nxt0, low0, p0, len, huff, cur, p1, top);
    low, p := Low(huff, root), p1;
    nxt := nxt0 + PowerOfTwo(cur0);
    used := used0 + PowerOfTwo(cur);
    ok := !((ty == Lens && used > ENOUGH_LENS) || (ty == Dists && used > ENOUGH_DISTS));
    if !ok { return; }
    Opened(tb', ty, lens, work, root, k + 1, nxt0, cur0, p0, nxt, cur, p1);
    RevBelow(p1, root);
    table[low] := Entry(cur, root, nxt);
    assert table[..] == tb'[low := Entry(cur, root, nxt)];
    FitsSelf(ty, lens, work, k + 1, k + 1, root, cur, p1);
    StandingMake(table[..], ty, lens, work, root, k + 1, len, huff, cur, nxt, low, p1);
  }

  /** Enters all codes.  ok is false exactly if the space provided does not suffice. */
  method FillTables(ty: CodeType, lens: seq<Byte>, work: seq<int>, count: array<int>, table: array<Entry>, root: nat,
                    min: nat, max: nat)
    returns (ok: bool, used: nat, huff: nat, len: nat, drop: nat, next: nat, ghost curr: nat, ghost p: int)
    requires Ready(ty, lens, work) && 0 < |work| && 1 <= root <= W && Longest(lens, work, max) &&
             table.Length >= Room(ty)
    requires min == LenAt(lens, work, 0) <= root <= max && (ty == Codes ==> root == max <= 7)
    requires Remaining(count[..], lens, work, 0) && (max <= root || Start(lens, work, |work|) == Pow2(W))
    modifies table, count
    ensures ok <==> AllEntries(lens, work, root) <= Room(ty)
    ensures ok ==> Pow2(root) <= used == AllEntries(lens, work, root)
    ensures ok ==> SolvedTo(table[..], ty, lens, work, root, |work|, next, curr, p)
    ensures ok ==> len == max && huff == NextReverse(Rev(CodeAt(lens, work, |work| - 1), max), max)
    ensures ok && max <= root ==> drop == 0 && next == 0
  {
    hide Kraft, SolvedTo, Pow2, Sorted, LenAt, CodeAt, Shr, Low, Rev, Filled, Standing, Remaining, Fits, SymbolOp,
         SymbolVal, NextReverse, Longest, Start,
         Ahead;
    var sym: nat := 0;
    var nxt: nat, cur: nat, low: int := 0, root, -1;
    huff, len, used, ok, drop := 0, min, PowerOfTwo(root), true, 0;
    next, curr, p := 0, root, -1;
    CodesRoom(root);
    AheadFirst(lens, work, root);
    if (ty == Lens && used > ENOUGH_LENS) || (ty == Dists && used > ENOUGH_DISTS) { ok := false; return; }
    FirstStanding(table[..], ty, lens, work, root);
    while true
      invariant sym < |work| && used == nxt + Pow2(cur) <= Room(ty) && used >= Pow2(root) && ok && p >= -1
      invariant used + Ahead(lens, work, root, sym) == AllEntries(lens, work, root)
      invariant Standing(table[..], ty, lens, work, root, sym, len, huff, drop, cur, nxt, low, p)
      invariant Remaining(count[..], lens, work, sym) && (drop != 0 ==> Fits(lens, work, sym, root, cur, p))
      decreases |work| - sym
    {
      ghost var tb, k, len0, huff0 := table[..], sym, len, huff;
      StandingFacts(tb, ty, lens, work, root, k, len, huff, drop, cur, nxt, low, p);
      EnterCode(ty, lens, work, table, root, sym, len, huff, drop, cur, nxt, low, p);
      ghost var tb' := table[..];
      huff := Increment(huff, len);
      CountDown(count[..], lens, work, k, max);
      ghost var rest := count[..][len := count[len] - 1];
      sym := sym + 1;
      count[len] := count[len] - 1;
      assert count[..] == rest;
      if count[len] == 0 {
        if len == max {
          AheadLast(lens, work, root);
          break;
        }
        WorkAt(lens, work, sym);
        len := lens[work[sym]];
      }
      NextReversed(ty, lens, work, k);
      if len > root && Low(huff, root) != low {
        LongestIs(lens, work, max);
        ok, used, nxt, cur, low, p :=
          OpenTable(ty, lens, work, count[..], table, root, max, used, len, huff, drop, nxt, cur, low, p, tb, k, len0,
                    huff0);
        if !ok { return; }
        drop := root;
      } else {
        StandingSame(tb, tb', ty, lens, work, root, k, len0, huff0, drop, cur, nxt, low, p, len, huff);
        SameTable(tb, table[..], ty, lens, work, root, k, len0, huff0, drop, cur, nxt, low, p, len, huff);
      }
    }
    next, curr := nxt, cur;
  }

  /** The entry of one code, in all its places. */
  method EnterCode(ty: CodeType, lens: seq<Byte>, work: seq<int>, table: array<Entry>, root: nat, sym: nat, len: nat,
                   huff: nat, drop: nat,
                   cur: nat, nxt: nat, ghost low: int, ghost p: int)
    requires Ready(ty, lens, work) && sym < |work| &&
             Standing(table[..], ty, lens, work, root, sym, len, huff, drop, cur, nxt, low, p)
    modifies table
    ensures SolvedTo(table[..], ty, lens, work, root, sym + 1, nxt, cur, p) &&
            (drop != 0 ==> 0 <= low < table.Length && table[low] == old(table[..])[low])
  {
    hide Kraft, SolvedTo, Pow2, Sorted, LenAt, CodeAt, Shr, Low, Rev, Filled, Standing, SymbolOp, SymbolVal;
    ghost var tb := table[..];
    StandingFacts(tb, ty, lens, work, root, sym, len, huff, drop, cur, nxt, low, p);
    WorkAt(lens, work, sym);
    var here := Entry(SymbolOp(ty, work[sym]), len - drop, SymbolVal(ty, work[sym]));
    Replicate(table, nxt, cur, len - drop, Shr(huff, drop), here);
    Entered(tb, table[..], ty, lens, work, root, sym, len, huff, drop, cur, nxt, low, p);
  }

  /** A new sub-table is counted when it is begun. */
  lemma NewTable(tb: seq<Entry>, ty: CodeType, lens: seq<Byte>, work: seq<int>, root: nat, k: nat, len: nat, huff: nat,
                 drop: nat, curr: nat,
                 next: nat, low: int, p: int, len1: nat, huff1: nat, curr1: nat, p1: nat, top: nat)
    requires Ready(ty, lens, work) && k + 1 < |work| &&
             Standing(tb, ty, lens, work, root, k, len, huff, drop, curr, next, low, p)
    requires len1 == LenAt(lens, work, k + 1) && root < len1 && Low(huff1, root) != low &&
             Low(huff1, root) == Rev(p1, root) && p1 < Pow2(root)
    requires Start(lens, work, k + 1) == p1 * Pow2(W - root) && Fits(lens, work, k + 1, root, curr1, p1)
    requires k + 1 <= top < |work| && Prefix(lens, work, root, top) == p1 && LenAt(lens, work, top) == root + curr1
    ensures Ahead(lens, work, root, k) == Pow2(curr1) + Ahead(lens, work, root, k + 1)
  {
    hide Sorted, Kraft, SolvedTo, Rev, Shr, Low, Pow2, LenAt, CodeAt, Start, Ahead, SubSize;
    StartPrefix(lens, work, root, k + 1, p1);
    if root < LenAt(lens, work, k) { PrefixOfStart(ty, lens, work, k, root); }
    AheadNew(lens, work, root, k);
    SubSizeIs(lens, work, root, k + 1, curr1, top);
  }

  lemma StartPrefix(lens: seq<Byte>, work: seq<int>, root: nat, k: nat, p: nat)
    requires Sorted(lens, work) && k < |work| && root <= W && Start(lens, work, k) == p * Pow2(W - root)
    ensures Prefix(lens, work, root, k) == p
  {
    hide Sorted, Pow2, Start, Shr;
    InInterval(Start(lens, work, k), p, W - root);
  }

  lemma SameTable(tb: seq<Entry>, tb': seq<Entry>, ty: CodeType, lens: seq<Byte>, work: seq<int>, root: nat, k: nat,
                  len: nat, huff: nat,
                  drop: nat, curr: nat, next: nat, low: int, p: int, len1: nat, huff1: nat)
    requires Ready(ty, lens, work) && k + 1 < |work| &&
             Standing(tb, ty, lens, work, root, k, len, huff, drop, curr, next, low, p)
    requires Standing(tb', ty, lens, work, root, k + 1, len1, huff1, drop, curr, next, low, p)
    requires len1 <= root || Low(huff1, root) == low
    ensures Ahead(lens, work, root, k + 1) == Ahead(lens, work, root, k)
  {
    hide Sorted, Kraft, SolvedTo, Rev, Shr, Low, Pow2, LenAt, CodeAt, Start, Ahead;
    if drop != 0 {
      PrefixOfStart(ty, lens, work, k, root);
      PrefixOfStart(ty, lens, work, k + 1, root);
    }
    AheadSame(lens, work, root, k);
  }

  lemma CodesRoom(root: nat)
    ensures root <= 7 ==> Pow2(root) <= 128
  {
    if root <= 7 {
      Pow2Monotone(root, 7);
      assert Pow2(7) == 128;
    }
  }

  lemma LongestIs(lens: seq<Byte>, work: seq<int>, max: nat)
    requires Sorted(lens, work) && Longest(lens, work, max)
    ensures max <= W && forall j :: 0 <= j < |work| ==> LenAt(lens, work, j) <= max
  {
  }

  lemma StandingMake(tb: seq<Entry>, ty: CodeType, lens: seq<Byte>, work: seq<int>, root: nat, k: nat, len: nat,
                     huff: nat,
                     curr: nat, next: nat, low: int, p: nat)
    requires Ready(ty, lens, work) && k < |work| && 1 <= root <= W && len == LenAt(lens, work, k) &&
             huff == Rev(CodeAt(lens, work, k), len)
    requires root < len <= root + curr <= W && Pow2(root) <= next && next + Pow2(curr) <= |tb| &&
             p == Shr(CodeAt(lens, work, k), len - root) < Pow2(root)
    requires low == Rev(p, root) < |tb| && tb[low] == Entry(curr, root, next) &&
             SolvedTo(tb, ty, lens, work, root, k, next, curr, p)
    ensures Standing(tb, ty, lens, work, root, k, len, huff, root, curr, next, low, p)
  {
  }

  // ---------- the whole construction ----------

  ghost predicate NonEmpty(lens: seq<Byte>) {
    exists i :: 0 <= i < |lens| && lens[i] > 0
  }

  /** All codes have at most one bit. */
  ghost predicate OneBit(lens: seq<Byte>) {
    forall i :: 0 <= i < |lens| ==> lens[i] <= 1
  }

  /** The sets of lengths that are refused: over-subscribed ones, and incomplete ones other
      than the empty set and a single one-bit length or distance code. */
  ghost predicate Refused(ty: CodeType, lens: seq<Byte>) {
    || KraftSum(lens, W, |lens|) > Pow2(W)
    || (NonEmpty(lens) && KraftSum(lens, W, |lens|) < Pow2(W) && (ty == Codes || !OneBit(lens)))
  }

  /** Whatever bits are held, if the lowest are a symbol's code, its first bit lowest, the
      lookup gives that symbol's entry and the length of its code. */
  ghost predicate Decodes(tb: seq<Entry>, ty: CodeType, lens: seq<Byte>, root: nat)
    requires |lens| <= MaxSymbols(ty)
  {
    && Pow2(root) <= |tb|
    && forall i: nat, hold: nat {:trigger Lookup(tb, root, hold), Code(lens, i)} ::
         i < |lens| && lens[i] > 0 && Low(hold, lens[i]) == Rev(Code(lens, i), lens[i]) ==>
           var r := Lookup(tb, root, hold);
           r.0.op == SymbolOp(ty, i) && r.0.val == SymbolVal(ty, i) && r.1 == lens[i]
  }

  lemma MaxIsLongest(lens: seq<Byte>, count: seq<int>, max: nat)
    requires Lengths(lens) && |count| == W + 1 && forall l :: 0 <= l <= W ==> count[l] == Count(lens, l, |lens|)
    requires max <= W && (max > 0 ==> count[max] != 0) && forall l :: max < l <= W ==> count[l] == 0
    ensures forall i :: 0 <= i < |lens| ==> lens[i] <= max
    ensures NonEmpty(lens) <==> max > 0
    ensures max > 0 ==> exists i :: 0 <= i < |lens| && lens[i] == max
    ensures max == 1 <==> NonEmpty(lens) && OneBit(lens)
  {
    forall i | 0 <= i < |lens| ensures lens[i] <= max { CountStep(lens, i, |lens|); }
    if max > 0 {
      var i := Occurs(lens, max, |lens|);
    }
  }

  lemma {:induction false} Occurs(lens: seq<Byte>, l: int, n: nat) returns (i: nat)
    requires n <= |lens| && Count(lens, l, n) > 0
    ensures i < n && lens[i] == l
  {
    if lens[n - 1] == l { i := n - 1; } else { i := Occurs(lens, l, n - 1); }
  }

  lemma {:induction false} EmptyKraft(lens: seq<Byte>, n: nat)
    requires n <= |lens| && !NonEmpty(lens)
    ensures KraftSum(lens, W, n) == 0
  {
    if n > 0 { EmptyKraft(lens, n - 1); }
  }

  /** What the sorted list says about the first and last code. */
  lemma ListEnds(lens: seq<Byte>, work: seq<int>, count: seq<int>, max: nat, min: nat)
    requires Sorted(lens, work) && |count| == W + 1 && forall l :: 0 <= l <= W ==> count[l] == Count(lens, l, |lens|)
    requires 1 <= min <= max <= W && count[max] != 0 && (forall i :: 0 <= i < |lens| ==> lens[i] <= max)
    requires forall l :: 1 <= l < min ==> count[l] == 0
    requires count[min] != 0
    ensures 0 < |work| && Longest(lens, work, max) && LenAt(lens, work, 0) == min && Remaining(count, lens, work, 0)
  {
    var i := Occurs(lens, max, |lens|);
    PlaceInRange(lens, i);
    LengthsRise(lens, work, Place(lens, i), |work| - 1);
    forall j | 0 <= j < |work| ensures LenAt(lens, work, j) <= max { WorkAt(lens, work, j); }
    FirstIsShortest(lens, work, count, min);
    LengthByPlace(lens, work, 0, min - 1);
    UptoMonotone(lens, 0, min - 1);
    UptoNext(lens, min - 1);
  }

  lemma FirstIsShortest(lens: seq<Byte>, work: seq<int>, count: seq<int>, min: nat)
    requires Sorted(lens, work) && 0 < |work| && |count| == W + 1 && forall l :: 0 <= l <= W ==>
               count[l] == Count(lens, l, |lens|)
    requires 1 <= min <= W && count[min] != 0 && forall l :: 1 <= l < min ==> count[l] == 0
    ensures LenAt(lens, work, 0) == min && Upto(lens, min - 1) == 0
  {
    hide Sorted, Upto, Place, LenAt;
    NoneUpto(lens, count, min - 1);
    var i := Occurs(lens, min, |lens|);
    PlaceWithin(lens, work, i);
    PlaceInRange(lens, i);
    LengthsRise(lens, work, 0, Place(lens, i));
    LengthByPlace(lens, work, 0, min - 1);
  }

  lemma PlaceWithin(lens: seq<Byte>, work: seq<int>, i: int)
    requires Sorted(lens, work) && 0 <= i < |lens| && lens[i] > 0
    ensures 0 <= Place(lens, i) < |work| && LenAt(lens, work, Place(lens, i)) == lens[i] <= W
  {
  }

  lemma {:induction false} NoneUpto(lens: seq<Byte>, count: seq<int>, n: nat)
    requires n <= W && |count| == W + 1 && (forall l :: 0 <= l <= W ==> count[l] == Count(lens, l, |lens|)) &&
             forall l :: 1 <= l <= n ==> count[l] == 0
    ensures Upto(lens, n) == 0
  {
    if n == 0 {
      UptoNext(lens, 0);
    } else {
      NoneUpto(lens, count, n - 1);
      UptoNext(lens, n - 1);
    }
  }

  /** The last code is followed by nothing exactly if the set is complete. */
  lemma LastCode(ty: CodeType, lens: seq<Byte>, work: seq<int>, max: nat)
    requires Ready(ty, lens, work) && Longest(lens, work, max)
    ensures var c := CodeAt(lens, work, |work| - 1);
            && c < Pow2(max) && (c + 1) * Pow2(W - max) == KraftSum(lens, W, |lens|)
            && (c + 1 < Pow2(max) <==> KraftSum(lens, W, |lens|) < Pow2(W))
  {
    hide Sorted, Kraft, Pow2, LenAt, CodeAt, KraftSum, Upto, Used, Start;
    var n, c := |work| - 1, CodeAt(lens, work, |work| - 1);
    CodeFacts(ty, lens, work, n);
    LastStart(lens, work, max);
    StartUpto(lens, work, W);
    WorkLength(lens, work);
    UsedIsKraftSum(lens, W);
    PowZero(Used(lens, W));
    Pow2Add(max, W - max);
    OnePast(c, Pow2(max), Pow2(W - max));
  }

  lemma LastStart(lens: seq<Byte>, work: seq<int>, max: nat)
    requires Sorted(lens, work) && Longest(lens, work, max)
    ensures Start(lens, work, |work|) == Start(lens, work, |work| - 1) + Pow2(W - max)
  {
  }

  lemma OnePast(c: int, m: int, p: int)
    requires p > 0
    ensures c * p + p == (c + 1) * p && (c + 1 < m <==> (c + 1) * p < m * p)
  {
    MulDistributes(p, c, 1);
    if c + 1 < m { MulStrict(c + 1, m, p); } else { MulMonotone(m, c + 1, p); }
  }

  lemma WorkLength(lens: seq<Byte>, work: seq<int>)
    requires Sorted(lens, work)
    ensures |work| == Upto(lens, W)
  {
  }

  lemma PowZero(u: int)
    ensures u * Pow2(W - W) == u
  {
  }

  /** Tables that solve all codes decode them. */
  lemma SolvedDecodes(tb: seq<Entry>, ty: CodeType, lens: seq<Byte>, work: seq<int>, root: nat, next: int, curr: int,
                      p: int)
    requires Ready(ty, lens, work) && SolvedTo(tb, ty, lens, work, root, |work|, next, curr, p) && Pow2(root) <= |tb|
    ensures Decodes(tb, ty, lens, root)
  {
    hide Solved, Pow2, Rev, Low, Kraft, SolvedTo, SymbolOp, SymbolVal, Lookup, Place, Upto, Shr, Held, Code;
    forall i: nat, hold: nat {:trigger Lookup(tb, root, hold), Code(lens, i)} |
      i < |lens| && lens[i] > 0 && Low(hold, lens[i]) == Rev(Code(lens, i), lens[i])
      ensures var r := Lookup(tb, root, hold); r.0.op == SymbolOp(ty, i) && r.0.val == SymbolVal(ty,
                                                                                                 i) && r.1 == lens[i]
    {
      var k := Place(lens, i);
      HeldBegins(lens, i, hold);
      SolvedToAt(tb, ty, lens, work, root, |work|, next, curr, p, k, Held(hold));
      LookupSolved(tb, root, hold, lens[i], SymbolOp(ty, i), SymbolVal(ty, i), next, curr, p);
    }
  }

  /** Bits held that end in a code reversed are a string that begins with the code. */
  lemma HeldBegins(lens: seq<Byte>, i: nat, hold: nat)
    requires i < |lens| && 1 <= lens[i] <= W && Kraft(lens, W) && Low(hold, lens[i]) == Rev(Code(lens, i), lens[i])
    ensures Shr(Held(hold), W - lens[i] as int) == Code(lens, i) && Held(hold) < Pow2(W)
  {
    hide Shr, Low, Pow2, Rev, Kraft, Code;
    var l: nat, h := lens[i], Low(hold, W);
    CodeFits(lens, i, W);
    RevFirst(h, W - l, l);
    LowShr(hold, l, W - l);
    RevTwice(Code(lens, i), l);
    RevBelow(h, W);
  }

  /** The single one-bit code allowed leaves one place of the table to be marked invalid. */
  lemma MarkInvalid(tb: seq<Entry>, ty: CodeType, lens: seq<Byte>, work: seq<int>, curr: int, p: int)
    requires Ready(ty, lens, work) && 0 < |work| && Longest(lens, work, 1) &&
             SolvedTo(tb, ty, lens, work, 1, |work|, 0, curr, p)
    requires CodeAt(lens, work, |work| - 1) == 0 && |tb| >= 2
    ensures SolvedTo(tb[1 := Entry(64, 1, 0)], ty, lens, work, 1, |work|, 0, curr, p)
  {
    hide Solved, Shr, Rev, Sorted, Kraft, SolvedTo, SymbolOp, SymbolVal, CodeAt, LenAt;
    var tb' := tb[1 := Entry(64, 1, 0)];
    var n := |work| - 1;
    MarkFilled(tb);
    forall j: nat, x: nat {:trigger SolvedFor(tb', ty, lens, work, 1, j, x, 0, curr, p)} | j < |work| &&
    Begins(lens, work, j, x)
      ensures SolvedFor(tb', ty, lens, work, 1, j, x, 0, curr, p)
    {
      WorkAt(lens, work, j);
      OnlyOne(ty, lens, work, j);
      SolvedToAt(tb, ty, lens, work, 1, |work|, 0, curr, p, j, x);
      FillRootOther(tb, tb', 1, 1, 1, Entry(64, 1, 0), x, 1, SymbolOp(ty, work[j]), SymbolVal(ty, work[j]), 0, curr, p);
    }
    SolvedToMake(tb', ty, lens, work, 1, |work|, 0, curr, p);
  }

  lemma OnlyOne(ty: CodeType, lens: seq<Byte>, work: seq<int>, j: nat)
    requires Ready(ty, lens, work) && j < |work| && Longest(lens, work, 1) && CodeAt(lens, work, |work| - 1) == 0
    ensures LenAt(lens, work, j) == 1 && CodeAt(lens, work, j) == 0
  {
    hide Kraft, Pow2, CodeAt, LenAt, Sorted;
    CodeFacts(ty, lens, work, j);
    CodeFacts(ty, lens, work, |work| - 1);
    LengthsRise(lens, work, j, |work| - 1);
    StartMonotone(lens, work, j, |work| - 1);
  }

  lemma MarkFilled(tb: seq<Entry>)
    requires |tb| >= 2
    ensures Filled(tb, tb[1 := Entry(64, 1, 0)], 0, 1, 1, Rev(1, 1), Entry(64, 1, 0)) && Pow2(1) == 2
  {
    RevBit(1);
    assert Low(0, 1) == 0 && Low(1, 1) == 1;
  }

  /** The steps from a sorted list of codes to the finished tables. */
  method FillAndMark(ty: CodeType, lens: seq<Byte>, work: seq<int>, count: array<int>, table: array<Entry>, root: nat,
                     min: nat, max: nat)
    returns (ok: bool, used: nat)
    requires Ready(ty, lens, work) && 0 < |work| && 1 <= root <= W && Longest(lens, work, max) &&
             table.Length >= Room(ty)
    requires min == LenAt(lens, work, 0) <= root <= max && (ty == Codes ==> root == max <= 7)
    requires Remaining(count[..], lens, work, 0) && (KraftSum(lens, W, |lens|) == Pow2(W) || max == 1)
    modifies table, count
    ensures ok <==> AllEntries(lens, work, root) <= Room(ty)
    ensures ok ==> Pow2(root) <= used == AllEntries(lens, work, root) && Decodes(table[..], ty, lens, root)
    ensures ok && KraftSum(lens, W, |lens|) < Pow2(W) ==> root == 1 && table[1] == Entry(64, 1, 0)
  {
    hide Kraft, Pow2, KraftSum, Sorted, LenAt, CodeAt, Remaining, Longest, SolvedTo, Rev, Decodes, NextReverse, Start,
         AllEntries;
    if KraftSum(lens, W, |lens|) == Pow2(W) { CompleteStart(lens, work); }
    var huff, len, drop, next;
    ghost var curr, p;
    ok, used, huff, len, drop, next, curr, p := FillTables(ty, lens, work, count, table, root, min, max);
    if !ok { return; }
    ghost var c := CodeAt(lens, work, |work| - 1);
    LastCode(ty, lens, work, max);
    NextIs(c, max);
    LeftOver(c, max, huff);
    if huff != 0 {
      MarkInvalid(table[..], ty, lens, work, curr, p);
      ghost var tb := table[..];
      table[next + huff] := Entry(64, len - drop, 0);
      assert table[..] == tb[1 := Entry(64, 1, 0)];
    }
    SolvedDecodes(table[..], ty, lens, work, root, next, curr, p);
  }

  /** The codes of a complete set take all strings. */
  lemma CompleteStart(lens: seq<Byte>, work: seq<int>)
    requires Sorted(lens, work) && KraftSum(lens, W, |lens|) == Pow2(W)
    ensures Start(lens, work, |work|) == Pow2(W)
  {
    hide Sorted, Pow2, Start, KraftSum, Upto, Used;
    StartUpto(lens, work, W);
    WorkLength(lens, work);
    UsedIsKraftSum(lens, W);
    PowZero(Used(lens, W));
  }

  /** A reversed code remains only if a single one-bit code was entered. */
  lemma LeftOver(c: nat, max: nat, huff: nat)
    requires huff == (if c + 1 < Pow2(max) then Rev(c + 1, max) else 0) && c < Pow2(max) &&
             (c + 1 < Pow2(max) ==> max == 1)
    ensures huff != 0 <==> c + 1 < Pow2(max)
    ensures huff != 0 ==> c == 0 && huff == 1 && max == 1
  {
    if c + 1 < Pow2(max) {
      assert Pow2(1) == 2;
      RevBit(1);
    }
  }

  /** A length that some symbol has, and none has a smaller one. */
  ghost predicate Shortest(lens: seq<Byte>, l: int) {
    (exists i :: 0 <= i < |lens| && lens[i] == l) && l > 0 && forall i :: 0 <= i < |lens| && lens[i] > 0 ==>
    l <= lens[i]
  }

  ghost predicate LongestOf(lens: seq<Byte>, l: int) {
    (exists i :: 0 <= i < |lens| && lens[i] == l) && forall i :: 0 <= i < |lens| ==> lens[i] <= l
  }

  /** The root bits asked for, forced to lie within the code lengths. */
  ghost predicate RootFor(lens: seq<Byte>, bits: nat, root: nat) {
    || (root == bits && (exists i :: 0 <= i < |lens| && 0 < lens[i] <= bits) &&
        exists i :: 0 <= i < |lens| && bits <= lens[i])
    || (root < bits && LongestOf(lens, root)) || (root > bits && Shortest(lens, root))
  }

  lemma RootForced(lens: seq<Byte>, count: seq<int>, bits: nat, min: nat, max: nat, root: nat)
    requires Lengths(lens) && |count| == W + 1 && forall l :: 0 <= l <= W ==> count[l] == Count(lens, l, |lens|)
    requires 1 <= min <= max <= W && count[min] != 0 && count[max] != 0 && (forall l :: 1 <= l < min ==> count[l] == 0)
    requires forall i :: 0 <= i < |lens| ==> lens[i] <= max
    requires root == Max(Min(bits, max), min)
    ensures RootFor(lens, bits, root)
  {
    hide Count;
    var a := Occurs(lens, min, |lens|);
    var b := Occurs(lens, max, |lens|);
    forall i | 0 <= i < |lens| && lens[i] > 0 ensures min <= lens[i] { SomeCount(lens, i); }
  }

  lemma SomeCount(lens: seq<Byte>, i: int)
    requires 0 <= i < |lens|
    ensures Count(lens, lens[i], |lens|) > 0
  {
    CountStep(lens, i, |lens|);
  }

  /** inflate_table.  It refuses exactly the sets that are over-subscribed or wrongly
      incomplete; it returns 1 exactly if the tables need more entries than are provided, and
      otherwise uses just as many as they need. */
  method Build(ty: CodeType, lens: seq<Byte>, table: array<Entry>, bits: nat)
    returns (ret: int, root: nat, used: nat, ghost order: seq<int>)
    requires Request(ty, lens, bits) && table.Length >= Room(ty)
    modifies table
    ensures ret == -1 <==> Refused(ty, lens)
    ensures ret == -1 || ret == 0 || ret == 1
    ensures NonEmpty(lens) && ret != -1 ==> RootFor(lens, bits, root) && root <= W && Sorted(lens, order)
    ensures NonEmpty(lens) && ret != -1 ==> (ret == 1 <==> AllEntries(lens, order, root) > Room(ty))
    ensures ty == Codes ==> ret != 1
    ensures ret == 0 && NonEmpty(lens) ==>
              Pow2(root) <= used == AllEntries(lens, order, root) && Decodes(table[..], ty, lens, root)
    ensures ret == 0 && NonEmpty(lens) && KraftSum(lens, W, |lens|) < Pow2(W) ==>
              root == 1 && table[1] == Entry(64, 1, 0)
    ensures !NonEmpty(lens) ==> ret == 0 && root == 1 && used == 2 && table[0] == table[1] == Entry(64, 1, 0)
  {
    hide Kraft, Pow2, KraftSum, Sorted, LenAt, CodeAt, Remaining, Longest, Decodes, Count, Upto, NonEmpty, OneBit,
         AllEntries, RootFor;
    var count := CountLengths(lens);
    ghost var counts := count[..];
    root, used, order := bits, 0, [];
    var max, min := BoundLengths(count[..], lens);
    MaxIsLongest(lens, counts, max);
    if root > max { root := max; }
    if max == 0 {
      EmptyKraft(lens, |lens|);
      table[0] := Entry(64, 1, 0);
      table[1] := Entry(64, 1, 0);
      return 0, 1, 2, [];
    }
    if root < min { root := min; }
    RootForced(lens, counts, bits, min, max, root);
    var left := CheckLeft(count[..], lens);
    KraftIs(lens);
    if left < 0 { return -1, root, 0, []; }
    if left > 0 && (ty == Codes || max != 1) { return -1, root, 0, []; }
    var work := SortSymbols(lens, count[..]);
    ListEnds(lens, work, counts, max, min);
    var ok;
    ok, used := FillAndMark(ty, lens, work, count, table, root, min, max);
    ret := if ok then 0 else 1;
    order := work;
    if ty == Codes { CodesFit(lens, work, root, max); }
  }

  /** Without codes longer than the root there are no sub-tables. */
  lemma {:induction false} NoSubTables(lens: seq<Byte>, work: seq<int>, root: nat, k: nat)
    requires Sorted(lens, work) && k <= |work| && root <= W && forall j :: 0 <= j < |work| ==>
               LenAt(lens, work, j) <= root
    ensures SubTables(lens, work, root, k) == 0
    decreases |work| - k
  {
    hide Sorted, LenAt;
    if k < |work| { NoSubTables(lens, work, root, k + 1); }
  }

  lemma CodesFit(lens: seq<Byte>, work: seq<int>, root: nat, max: nat)
    requires Sorted(lens, work) && Longest(lens, work, max) && root == max <= 7
    ensures AllEntries(lens, work, root) <= 128
  {
    hide Sorted, LenAt;
    CodesRoom(root);
    NoSubTables(lens, work, root, 0);
  }
}
