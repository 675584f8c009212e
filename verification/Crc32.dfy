/** CRC-32 as zlib computes it (reflected: least significant bit first), the four-byte
    table form, and the combination of two checksums by powers of a GF(2) matrix. */
module Crc32 {
  import opened Common

  const POLY: bv32 := 0xedb8_8320
  const ONES: bv32 := 0xffff_ffff

  // ---------- exclusive or, as an operation with laws ----------

  function Xor(a: bv32, b: bv32): bv32 { a ^ b }

  lemma XorAssociative(a: bv32, b: bv32, c: bv32)
    ensures Xor(Xor(a, b), c) == Xor(a, Xor(b, c))
  {
    RawAssociative(a, b, c);
  }

  lemma RawAssociative(a: bv32, b: bv32, c: bv32)
    ensures (a ^ b) ^ c == a ^ (b ^ c)
  {
  }

  lemma XorCommutes(a: bv32, b: bv32)
    ensures Xor(a, b) == Xor(b, a)
  {
  }

  lemma XorZero(a: bv32)
    ensures Xor(a, 0) == a && Xor(0, a) == a
  {
  }

  lemma XorCancel(a: bv32, b: bv32)
    ensures Xor(Xor(a, b), b) == a
  {
  }

  lemma XorSwap(a: bv32, b: bv32, c: bv32, d: bv32)
    ensures Xor(Xor(a, b), Xor(c, d)) == Xor(Xor(a, c), Xor(b, d))
  {
    hide Xor;
    XorAssociative(a, b, Xor(c, d));
    XorAssociative(b, c, d);
    XorCommutes(b, c);
    XorAssociative(c, b, d);
    XorAssociative(a, c, Xor(b, d));
  }

  // ---------- the shift register ----------

  function Half(c: bv32): bv32 { c >> 1 }

  function Carry(c: bv32): bv32 { if c & 1 == 1 then POLY else 0 }

  /** The register after one zero bit. */
  function ZeroBit(c: bv32): bv32 { Xor(Carry(c), Half(c)) }

  /** The register after k zero bits. */
  function Zeros(c: bv32, k: nat): bv32 {
    if k == 0 then c else ZeroBit(Zeros(c, k - 1))
  }

  /** A byte as a register value. */
  function Wide(b: bv8): bv32 { b as bv32 }

  /** The register after one byte, bit by bit. */
  function Feed(c: bv32, b: bv8): bv32 { Zeros(Xor(c, Wide(b)), 8) }

  function FeedAll(c: bv32, s: seq<bv8>): bv32 {
    if s == [] then c else Feed(FeedAll(c, s[..|s| - 1]), s[|s| - 1])
  }

  /** The checksum of section 8 of RFC 1952, carried on from crc. */
  function Crc(crc: bv32, s: seq<bv8>): bv32 {
    Xor(FeedAll(Xor(crc, ONES), s), ONES)
  }

  // ---------- linearity ----------

  lemma HalfLinear(a: bv32, b: bv32)
    ensures Half(Xor(a, b)) == Xor(Half(a), Half(b))
  {
    RawHalf(a, b);
  }

  lemma RawHalf(a: bv32, b: bv32)
    ensures (a ^ b) >> 1 == (a >> 1) ^ (b >> 1)
  {
  }

  lemma LowBit(a: bv32, b: bv32)
    ensures (a ^ b) & 1 == (a & 1) ^ (b & 1) && (a & 1 == 0 || a & 1 == 1) && (b & 1 == 0 || b & 1 == 1)
  {
  }

  lemma CarryLinear(a: bv32, b: bv32)
    ensures Carry(Xor(a, b)) == Xor(Carry(a), Carry(b))
  {
    LowBit(a, b);
  }

  lemma ZeroBitLinear(a: bv32, b: bv32)
    ensures ZeroBit(Xor(a, b)) == Xor(ZeroBit(a), ZeroBit(b))
  {
    hide Xor, Carry, Half;
    HalfLinear(a, b);
    CarryLinear(a, b);
    XorSwap(Carry(a), Carry(b), Half(a), Half(b));
  }

  lemma {:induction false} ZerosLinear(a: bv32, b: bv32, k: nat)
    ensures Zeros(Xor(a, b), k) == Xor(Zeros(a, k), Zeros(b, k))
  {
    hide ZeroBit, Xor;
    if k > 0 {
      ZerosLinear(a, b, k - 1);
      ZeroBitLinear(Zeros(a, k - 1), Zeros(b, k - 1));
    }
  }

  lemma {:induction false} ZerosAdd(c: bv32, j: nat, k: nat)
    ensures Zeros(Zeros(c, j), k) == Zeros(c, j + k)
  {
    hide ZeroBit;
    if k > 0 { ZerosAdd(c, j, k - 1); }
  }

  /** Feeding is affine: a difference in the register passes through as zeros. */
  lemma {:induction false} FeedAllLinear(c: bv32, d: bv32, s: seq<bv8>)
    ensures FeedAll(Xor(c, d), s) == Xor(Zeros(c, 8 * |s|), FeedAll(d, s))
  {
    hide ZeroBit, Xor, Zeros, Wide;
    if s == [] {
      assert Zeros(c, 0) == c by { NoZeros(c); }
    } else {
      var t, b := s[..|s| - 1], Wide(s[|s| - 1]);
      FeedAllLinear(c, d, t);
      var z, f := Zeros(c, 8 * |t|), FeedAll(d, t);
      XorAssociative(z, f, b);
      ZerosLinear(z, Xor(f, b), 8);
      ZerosAdd(c, 8 * |t|, 8);
    }
  }

  lemma NoZeros(c: bv32)
    ensures Zeros(c, 0) == c
  {
  }

  lemma {:induction false} FeedAllConcat(c: bv32, a: seq<bv8>, b: seq<bv8>)
    ensures FeedAll(c, a + b) == FeedAll(FeedAll(c, a), b)
  {
    hide Feed;
    if b == [] {
      assert a + b == a;
    } else {
      FeedAllConcat(c, a, b[..|b| - 1]);
      assert (a + b)[..|a + b| - 1] == a + b[..|b| - 1];
    }
  }

  /** What combining two checksums must yield. */
  lemma CrcConcat(a: seq<bv8>, b: seq<bv8>)
    ensures Crc(0, a + b) == Xor(Zeros(Crc(0, a), 8 * |b|), Crc(0, b))
  {
    hide Zeros, FeedAll, Xor;
    var start := Xor(0, ONES);
    var ra := FeedAll(start, a);
    FeedAllConcat(start, a, b);
    XorZero(ONES);
    XorCancel(ra, ONES);
    FeedAllLinear(Crc(0, a), start, b);
    XorAssociative(Zeros(Crc(0, a), 8 * |b|), FeedAll(start, b), ONES);
  }

  // ---------- bit positions ----------

  const DIM := 32

  function Double(c: bv32): bv32 { c << 1 }

  function ShiftUp(c: bv32, i: nat): bv32 {
    if i == 0 then c else Double(ShiftUp(c, i - 1))
  }

  function ShiftDown(c: bv32, i: nat): bv32 {
    if i == 0 then c else Half(ShiftDown(c, i - 1))
  }

  /** The vector with only bit i set. */
  function Unit(i: nat): bv32 { ShiftUp(1, i) }

  function Bit(c: bv32): bv32 { if c & 1 == 1 then 1 else 0 }

  lemma DoubleLinear(a: bv32, b: bv32)
    ensures Double(Xor(a, b)) == Xor(Double(a), Double(b))
  {
    RawDouble(a, b);
  }

  lemma RawDouble(a: bv32, b: bv32)
    ensures (a ^ b) << 1 == (a << 1) ^ (b << 1)
  {
  }

  lemma {:induction false} ShiftUpLinear(a: bv32, b: bv32, i: nat)
    ensures ShiftUp(Xor(a, b), i) == Xor(ShiftUp(a, i), ShiftUp(b, i))
  {
    hide Xor, Double;
    if i > 0 {
      ShiftUpLinear(a, b, i - 1);
      DoubleLinear(ShiftUp(a, i - 1), ShiftUp(b, i - 1));
    }
  }

  lemma {:induction false} ShiftUpInner(c: bv32, i: nat)
    ensures ShiftUp(Double(c), i) == ShiftUp(c, i + 1)
  {
    hide Double;
    if i > 0 { ShiftUpInner(c, i - 1); }
  }

  lemma {:induction false} ShiftUpZero(i: nat)
    ensures ShiftUp(0, i) == 0
  {
    if i > 0 { ShiftUpZero(i - 1); }
  }

  lemma {:induction false} ShiftUpAdd(c: bv32, i: nat, j: nat)
    ensures ShiftUp(ShiftUp(c, i), j) == ShiftUp(c, i + j)
  {
    hide Double;
    if j > 0 { ShiftUpAdd(c, i, j - 1); }
  }

  lemma {:induction false} ShiftDownAdd(c: bv32, i: nat, j: nat)
    ensures ShiftDown(ShiftDown(c, i), j) == ShiftDown(c, i + j)
  {
    hide Half;
    if j > 0 { ShiftDownAdd(c, i, j - 1); }
  }

  // the powers of two of a shift, each from the one before

  lemma RawUp2(c: bv32)
    ensures (c << 1) << 1 == c << 2
  {
  }

  lemma RawUp4(c: bv32)
    ensures (c << 2) << 2 == c << 4
  {
  }

  lemma RawUp8(c: bv32)
    ensures (c << 4) << 4 == c << 8
  {
  }

  lemma RawUp16(c: bv32)
    ensures (c << 8) << 8 == c << 16
  {
  }

  lemma RawUp32(c: bv32)
    ensures (c << 16) << 16 == 0
  {
  }

  lemma Up2(c: bv32)
    ensures Double(Double(c)) == c << 2
  {
    RawUp2(c);
  }

  lemma Up4(c: bv32)
    ensures ShiftUp(c, 4) == c << 4
  {
    hide Double;
    assert ShiftUp(c, 1) == Double(c);
    assert ShiftUp(c, 2) == Double(Double(c));
    Up2(c);
    Up2(c << 2);
    RawUp4(c);
  }

  lemma Up8(c: bv32)
    ensures ShiftUp(c, 8) == c << 8
  {
    hide ShiftUp;
    Up4(c);
    Up4(c << 4);
    ShiftUpAdd(c, 4, 4);
    RawUp8(c);
  }

  lemma Up16(c: bv32)
    ensures ShiftUp(c, 16) == c << 16
  {
    hide ShiftUp;
    Up8(c);
    Up8(c << 8);
    ShiftUpAdd(c, 8, 8);
    RawUp16(c);
  }

  lemma UpOut(c: bv32)
    ensures ShiftUp(c, 32) == 0
  {
    hide ShiftUp;
    Up16(c);
    Up16(c << 16);
    ShiftUpAdd(c, 16, 16);
    RawUp32(c);
  }

  lemma RawDown2(c: bv32)
    ensures (c >> 1) >> 1 == c >> 2
  {
  }

  lemma RawDown4(c: bv32)
    ensures (c >> 2) >> 2 == c >> 4
  {
  }

  lemma RawDown8(c: bv32)
    ensures (c >> 4) >> 4 == c >> 8
  {
  }

  lemma RawDown16(c: bv32)
    ensures (c >> 8) >> 8 == c >> 16
  {
  }

  lemma RawDown32(c: bv32)
    ensures (c >> 16) >> 16 == 0
  {
  }

  lemma Down2(c: bv32)
    ensures Half(Half(c)) == c >> 2
  {
    RawDown2(c);
  }

  lemma Down4(c: bv32)
    ensures ShiftDown(c, 4) == c >> 4
  {
    hide Half;
    assert ShiftDown(c, 1) == Half(c);
    assert ShiftDown(c, 2) == Half(Half(c));
    Down2(c);
    Down2(c >> 2);
    RawDown4(c);
  }

  lemma Down8(c: bv32)
    ensures ShiftDown(c, 8) == c >> 8
  {
    hide ShiftDown;
    Down4(c);
    Down4(c >> 4);
    ShiftDownAdd(c, 4, 4);
    RawDown8(c);
  }

  lemma Down16(c: bv32)
    ensures ShiftDown(c, 16) == c >> 16
  {
    hide ShiftDown;
    Down8(c);
    Down8(c >> 8);
    ShiftDownAdd(c, 8, 8);
    RawDown16(c);
  }

  lemma DownOut(c: bv32)
    ensures ShiftDown(c, 32) == 0
  {
    hide ShiftDown;
    Down16(c);
    Down16(c >> 16);
    ShiftDownAdd(c, 16, 16);
    RawDown32(c);
  }

  // ---------- matrices ----------

  /** The columns of mat, from column i on, picked out by the bits of vec. */
  function Picked(mat: seq<bv32>, vec: bv32, i: nat): bv32
    requires |mat| == DIM && i <= DIM
    decreases DIM - i
  {
    if i == DIM then 0 else Xor(if Bit(vec) == 1 then mat[i] else 0, Picked(mat, Half(vec), i + 1))
  }

  lemma {:induction false} PickedNone(mat: seq<bv32>, i: nat)
    requires |mat| == DIM && i <= DIM
    ensures Picked(mat, 0, i) == 0
    decreases DIM - i
  {
    if i < DIM {
      PickedNone(mat, i + 1);
      XorZero(0);
    }
  }

  /** mat is the operator that feeds k zero bits: column i is what it makes of bit i. */
  ghost predicate Operator(mat: seq<bv32>, k: nat) {
    |mat| == DIM && forall i :: 0 <= i < DIM ==> mat[i] == Zeros(Unit(i), k)
  }

  lemma SplitBit(c: bv32)
    ensures Xor(Bit(c), Double(Half(c))) == c
  {
    RawSplit(c);
  }

  lemma RawSplit(c: bv32)
    ensures (c & 1) ^ ((c >> 1) << 1) == c && (c & 1 == 0 || c & 1 == 1)
  {
  }

  lemma {:induction false} ZerosOfZero(k: nat)
    ensures Zeros(0, k) == 0
  {
    if k > 0 { ZerosOfZero(k - 1); }
  }

  /** A vector is the sum of its bits, so a linear operator is known by its columns. */
  lemma {:induction false} PickedIsZeros(mat: seq<bv32>, k: nat, vec: bv32, i: nat)
    requires Operator(mat, k) && i <= DIM
    ensures Picked(mat, vec, i) == Zeros(ShiftUp(vec, i), k)
    decreases DIM - i
  {
    hide Xor, Half, Double, Bit, ShiftUp, Zeros;
    if i == DIM {
      UpOut(vec);
      ZerosOfZero(k);
    } else {
      PickedIsZeros(mat, k, Half(vec), i + 1);
      SplitBit(vec);
      ShiftUpLinear(Bit(vec), Double(Half(vec)), i);
      ShiftUpInner(Half(vec), i);
      ZerosLinear(ShiftUp(Bit(vec), i), ShiftUp(Half(vec), i + 1), k);
      BitColumn(mat, k, vec, i);
    }
  }

  lemma BitColumn(mat: seq<bv32>, k: nat, vec: bv32, i: nat)
    requires Operator(mat, k) && i < DIM
    ensures (if Bit(vec) == 1 then mat[i] else 0) == Zeros(ShiftUp(Bit(vec), i), k)
  {
    hide ShiftUp, Zeros;
    ShiftUpZero(i);
    ZerosOfZero(k);
  }

  lemma TimesIsZeros(mat: seq<bv32>, k: nat, vec: bv32)
    requires Operator(mat, k)
    ensures Picked(mat, vec, 0) == Zeros(vec, k)
  {
    PickedIsZeros(mat, k, vec, 0);
  }

  /** gf2_matrix_times. */
  method MatrixTimes(mat: seq<bv32>, vec0: bv32) returns (sum: bv32)
    requires |mat| == DIM
    ensures sum == Picked(mat, vec0, 0)
  {
    hide Xor, Half, Bit;
    var vec, i := vec0, 0;
    sum := 0;
    XorZero(Picked(mat, vec0, 0));
    while vec != 0
      invariant 0 <= i <= DIM && vec == ShiftDown(vec0, i)
      invariant Xor(sum, Picked(mat, vec, i)) == Picked(mat, vec0, 0)
      decreases DIM - i
    {
      DownOut(vec0);
      ghost var rest := Picked(mat, Half(vec), i + 1);
      XorAssociative(sum, mat[i], rest);
      XorZero(rest);
      if Bit(vec) == 1 { sum := Xor(sum, mat[i]); }
      vec := Half(vec);
      i := i + 1;
    }
    PickedNone(mat, i);
    XorZero(sum);
  }

  /** gf2_matrix_square: feeding twice as many zeros. */
  method MatrixSquare(square: array<bv32>, mat: seq<bv32>, ghost k: nat)
    requires square.Length == DIM && Operator(mat, k)
    modifies square
    ensures Operator(square[..], 2 * k)
  {
    hide Zeros, Unit;
    for n := 0 to DIM
      invariant forall i :: 0 <= i < n ==> square[i] == Zeros(Unit(i), 2 * k)
    {
      square[n] := MatrixTimes(mat, mat[n]);
      TimesIsZeros(mat, k, mat[n]);
      ZerosAdd(Unit(n), k, k);
    }
  }

  // ---------- the operator for one zero bit ----------

  lemma RawOneBit(x: bv32)
    requires x & (x - 1) == 0
    ensures (x << 1) & ((x << 1) - 1) == 0
  {
  }

  lemma RawTopBit(x: bv32)
    requires x & (x - 1) == 0 && x & 0x8000_0000 != 0
    ensures x == 0x8000_0000
  {
  }

  lemma RawUpDown(x: bv32)
    requires x & 0x8000_0000 == 0
    ensures (x << 1) >> 1 == x
  {
  }

  lemma RawEven(x: bv32)
    ensures (x << 1) & 1 == 0
  {
  }

  lemma {:induction false} UnitOneBit(j: nat)
    ensures Unit(j) & (Unit(j) - 1) == 0
  {
    if j > 0 {
      UnitOneBit(j - 1);
      RawOneBit(Unit(j - 1));
    }
  }

  lemma UnitLast()
    ensures Unit(31) == 0x8000_0000
  {
    Up16(1);
    Up8(0x1_0000);
    ShiftUpAdd(1, 16, 8);
    ShiftUpAdd(1, 24, 7);
    LastSeven();
  }

  lemma LastSeven()
    ensures ShiftUp(0x100_0000, 7) == 0x8000_0000
  {
  }

  /** No unit below the last touches the top bit. */
  lemma UnitNotTop(j: nat)
    requires j <= 30
    ensures Unit(j) & 0x8000_0000 == 0
  {
    if Unit(j) & 0x8000_0000 != 0 {
      UnitOneBit(j);
      RawTopBit(Unit(j));
      ShiftUpAdd(1, j + 1, 30 - j);
      ShiftUpZero(30 - j);
      UnitLast();
      assert false;
    }
  }

  lemma UnitStep(n: nat)
    requires 1 <= n <= 31
    ensures ZeroBit(Unit(n)) == Unit(n - 1) && Unit(n) == Double(Unit(n - 1))
  {
    UnitNotTop(n - 1);
    RawUpDown(Unit(n - 1));
    RawEven(Unit(n - 1));
    XorZero(Unit(n - 1));
  }

  lemma UnitFirst()
    ensures ZeroBit(Unit(0)) == POLY
  {
  }

  /** The matrix that crc32_combine_ starts from. */
  method OneZeroBit(odd: array<bv32>)
    requires odd.Length == DIM
    modifies odd
    ensures Operator(odd[..], 1)
  {
    hide Unit, ZeroBit, Double;
    UnitFirst();
    odd[0] := POLY;
    var row: bv32 := 1;
    assert row == Unit(0) by { FirstUnit(); }
    for n := 1 to DIM
      invariant row == Unit(n - 1)
      invariant forall i :: 0 <= i < n ==> odd[i] == ZeroBit(Unit(i))
    {
      UnitStep(n);
      odd[n] := row;
      row := Double(row);
    }
    forall i | 0 <= i < DIM ensures odd[i] == Zeros(Unit(i), 1) { OneZero(Unit(i)); }
  }

  lemma FirstUnit()
    ensures Unit(0) == 1
  {
  }

  lemma OneZero(c: bv32)
    ensures Zeros(c, 1) == ZeroBit(c)
  {
    assert Zeros(c, 0) == c;
  }

  // ---------- combination ----------

  /** The checksum crc1 carried over n more bytes whose own checksum is crc2. */
  function Combined(crc1: bv32, crc2: bv32, n: int): bv32 {
    if n <= 0 then crc1 else Xor(Zeros(crc1, 8 * n), crc2)
  }

  /** The main promise: the checksums of two strings give that of their concatenation. */
  lemma CombinedIsConcat(a: seq<bv8>, b: seq<bv8>)
    ensures Combined(Crc(0, a), Crc(0, b), |b|) == Crc(0, a + b)
  {
    hide Xor, Zeros, Crc;
    if b == [] { assert a + b == a; } else { CrcConcat(a, b); }
  }

  /** One binary digit of the length: the operator for as many bytes, if the digit is one. */
  lemma DigitStep(crc: bv32, q: nat, len: nat)
    requires len > 0
    ensures var c := if len % 2 == 1 then Zeros(crc, 8 * q) else crc;
            Zeros(c, 16 * q * (len / 2)) == Zeros(crc, 8 * q * len)
  {
    hide Zeros;
    var h := len / 2;
    assert 8 * q * len == 16 * q * h + 8 * q * (len % 2) by {
      MulDistributes(8 * q, 2 * h, len % 2);
      MulDouble(8 * q, h);
      MulAssociative(2, 8 * q, h);
    }
    if len % 2 == 1 { ZerosAdd(crc, 8 * q, 16 * q * h); }
  }

  /** crc32_combine_. */
  method Crc32Combine(crc1: bv32, crc2: bv32, len: int) returns (crc: bv32)
    ensures crc == Combined(crc1, crc2, len)
  {
    hide Xor, Zeros, Unit, Picked;
    if len <= 0 { return crc1; }
    var even, odd := new bv32[DIM], new bv32[DIM];
    OneZeroBit(odd);
    MatrixSquare(even, odd[..], 1);
    MatrixSquare(odd, even[..], 2);
    crc := crc1;
    var len2 := len;
    ghost var q := 1;
    while true
      invariant 0 < len2 && 0 < q && Operator(odd[..], 4 * q)
      invariant Zeros(crc, 8 * q * len2) == Zeros(crc1, 8 * len)
      decreases len2
    {
      // the operator for q bytes, in even
      MatrixSquare(even, odd[..], 4 * q);
      DigitStep(crc, q, len2);
      if len2 % 2 == 1 {
        TimesIsZeros(even[..], 8 * q, crc);
        crc := MatrixTimes(even[..], crc);
      }
      len2 := len2 / 2;
      if len2 == 0 { break; }
      // the operator for twice as many, in odd
      MatrixSquare(odd, even[..], 8 * q);
      DigitStep(crc, 2 * q, len2);
      if len2 % 2 == 1 {
        TimesIsZeros(odd[..], 16 * q, crc);
        crc := MatrixTimes(odd[..], crc);
      }
      len2 := len2 / 2;
      q := 4 * q;
      if len2 == 0 { break; }
    }
    NoZeros(crc);
    crc := Xor(crc, crc2);
  }
}
