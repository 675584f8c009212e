/** Adler-32 with the modulo deferred over thousands of bytes, the division-free modulo, and
    the combination of two sums. */
module Adler32 {
  import opened Common

  const BASE := 65521
  const NMAX := 5552

  /** The two running sums of section 8.2 of RFC 1950. */
  datatype Sums = Sums(a: int, b: int) {
    ghost predicate Reduced() { 0 <= a < BASE && 0 <= b < BASE }

    /** What sixteen bits each can hold. */
    ghost predicate Fits() { 0 <= a < 0x1_0000 && 0 <= b < 0x1_0000 }
  }

  /** One byte, by the definition: both sums are reduced at once. */
  function Step(s: Sums, c: Byte): Sums {
    var a := (s.a + c as int) % BASE;
    Sums(a, (s.b + a) % BASE)
  }

  function Adler(s: Sums, bytes: seq<Byte>): Sums {
    if bytes == [] then s else Step(Adler(s, bytes[..|bytes| - 1]), bytes[|bytes| - 1])
  }

  /** The sums of no bytes. */
  const START := Sums(1, 0)

  function Pack(s: Sums): int { s.a + 0x1_0000 * s.b }

  lemma PackInjective(s: Sums, t: Sums)
    requires s.Fits() && t.Fits()
    ensures Pack(s) == Pack(t) <==> s == t
  {
  }

  // ---------- modulo without division ----------

  /** CHOP: 2^16 is 15 modulo BASE. */
  function Chop(a: int): (r: int)
    requires 0 <= a
    ensures 0 <= r && r % BASE == a % BASE && r <= 65535 + 15 * (a / 0x1_0000)
  {
    var r := a % 0x1_0000 + 15 * (a / 0x1_0000);
    SameRemainder(r, a, a / 0x1_0000);
    r
  }

  lemma SameRemainder(x: int, y: int, k: int)
    requires y == x + BASE * k
    ensures x % BASE == y % BASE
  {
    var q := x / BASE;
    assert x == q * BASE + x % BASE;
    MulDistributes(BASE, q, k);
    QuotientUnique(y, BASE, q + k, x % BASE);
  }

  /** MOD28, right for every value of 28 bits. */
  method Mod28(a0: int) returns (a: int)
    requires 0 <= a0 < 0x1000_0000
    ensures a == a0 % BASE
  {
    a := Chop(a0);
    if a >= BASE { a := a - BASE; }
  }

  /** MOD, right for every value of 32 bits. */
  method Mod32(a0: int) returns (a: int)
    requires 0 <= a0 < 0x1_0000_0000
    ensures a == a0 % BASE
  {
    a := Chop(a0);
    a := Mod28(a);
  }

  /** MOD63, right for every non-negative value of 63 bits: 2^32 is 225 modulo BASE. */
  method Mod63(a0: int) returns (a: int)
    requires 0 <= a0 < 0x8000_0000_0000_0000
    ensures a == a0 % BASE
  {
    var tmp := a0 / 0x1_0000_0000;
    a := a0 % 0x1_0000_0000 + 225 * tmp;
    SameRemainder(a, a0, 65551 * tmp);
    a := Chop(a);
    a := Chop(a);
    if a >= BASE { a := a - BASE; }
  }

  // ---------- the deferred modulo ----------

  lemma ModAdd(x: int, y: int)
    ensures (x % BASE + y) % BASE == (x + y) % BASE
  {
    SameRemainder(x % BASE + y, x + y, x / BASE);
  }

  /** Sums that may be left unreduced for now. */
  ghost predicate Congruent(adler: int, sum2: int, s: Sums) {
    adler % BASE == s.a % BASE && sum2 % BASE == s.b % BASE
  }

  lemma StepCongruent(adler: int, sum2: int, s: Sums, c: Byte)
    requires Congruent(adler, sum2, s)
    ensures Congruent(adler + c as int, sum2 + (adler + c as int), Step(s, c))
  {
    var x := adler + c as int;
    ModAdd(adler, c as int);
    ModAdd(s.a, c as int);
    var a := (s.a + c as int) % BASE;
    assert x % BASE == a;
    ModAdd(x, sum2);
    ModAdd(sum2, a);
    ModAdd(s.b, a);
  }

  /** 1 + 2 + ... + n. */
  ghost function Triangle(n: nat): nat {
    if n == 0 then 0 else Triangle(n - 1) + n
  }

  lemma {:induction false} TriangleIs(n: nat)
    ensures 2 * Triangle(n) == n * (n + 1)
  {
    if n > 0 { TriangleIs(n - 1); }
  }

  lemma {:induction false} TriangleMonotone(m: nat, n: nat)
    requires m <= n
    ensures Triangle(m) <= Triangle(n)
  {
    if m < n { TriangleMonotone(m, n - 1); }
  }

  /** After n bytes without a modulo the sums are at most this. */
  ghost predicate Bounded(adler: int, sum2: int, n: nat) {
    0 <= adler <= 65535 + 255 * n && 0 <= sum2 <= 65535 + 65535 * n + 255 * Triangle(n)
  }

  /** NMAX bytes never overflow 32 bits, even from sums that were not reduced. */
  lemma NoOverflow(adler: int, sum2: int, n: nat)
    requires Bounded(adler, sum2, n) && n <= NMAX
    ensures adler < 0x1_0000_0000 && sum2 < 0x1_0000_0000
  {
    TriangleMonotone(n, NMAX);
    TriangleIs(NMAX);
  }

  lemma AdlerStep(s: Sums, bytes: seq<Byte>, i: nat)
    requires i < |bytes|
    ensures Adler(s, bytes[..i + 1]) == Step(Adler(s, bytes[..i]), bytes[i])
  {
    assert bytes[..i + 1][..i] == bytes[..i];
  }

  lemma {:induction false} AdlerReduced(s: Sums, bytes: seq<Byte>)
    requires bytes != []
    ensures Adler(s, bytes).Reduced()
  {
  }

  lemma AdlerFits(s: Sums, bytes: seq<Byte>)
    requires s.Fits()
    ensures Adler(s, bytes).Fits()
  {
    if bytes != [] { AdlerReduced(s, bytes); }
  }

  /** Adds up count bytes from position i on, leaving the sums unreduced; n bytes have been
      added since the sums last fitted sixteen bits. */
  method SumBytes(adler0: int, sum0: int, buf: seq<Byte>, i: nat, count: nat, ghost n: nat, ghost s: Sums)
    returns (adler: int, sum2: int)
    requires i + count <= |buf| && n + count <= NMAX
    requires Bounded(adler0, sum0, n) && Congruent(adler0, sum0, Adler(s, buf[..i]))
    ensures Bounded(adler, sum2, n + count) && Congruent(adler, sum2, Adler(s, buf[..i + count]))
  {
    hide Adler, Step, Congruent;
    adler, sum2 := adler0, sum0;
    for k := 0 to count
      invariant Bounded(adler, sum2, n + k) && Congruent(adler, sum2, Adler(s, buf[..i + k]))
    {
      AdlerStep(s, buf, i + k);
      StepCongruent(adler, sum2, Adler(s, buf[..i + k]), buf[i + k]);
      adler := adler + buf[i + k] as int;
      sum2 := sum2 + adler;
      NoOverflow(adler, sum2, n + k + 1);
    }
  }

  /** Reducing keeps the sums' meaning. */
  lemma Reduce(adler: int, sum2: int, s: Sums)
    requires Congruent(adler, sum2, s)
    ensures Congruent(adler % BASE, sum2 % BASE, s) && Bounded(adler % BASE, sum2 % BASE, 0)
    ensures s.Reduced() ==> Sums(adler % BASE, sum2 % BASE) == s
  {
  }

  /** When adler32 gives the sums by definition: always for reduced sums.  From sums that
      merely fit sixteen bits, the shortcut for a single byte subtracts BASE once where twice
      is needed, and an empty string is returned reduced. */
  ghost predicate Exact(s: Sums, buf: seq<Byte>) {
    if buf == [] then s.Reduced()
    else |buf| == 1 ==> s.b + (s.a + buf[0] as int) % BASE < 2 * BASE
  }

  lemma ReducedExact(s: Sums, buf: seq<Byte>)
    requires s.Reduced()
    ensures Exact(s, buf)
  {
  }

  /** An input on which the shortcut for one byte misses the definition. */
  lemma NotAlwaysExact()
    ensures var s := Sums(65520, 65535); s.Fits() && !Exact(s, [0])
  {
  }

  /** One byte. */
  method AdlerOne(s: Sums, c: Byte) returns (r: Sums)
    requires s.Fits()
    ensures r.Fits() && (r == Adler(s, [c]) <==> Exact(s, [c]))
  {
    assert [c][..0] == [];
    var adler, sum2 := s.a + c as int, s.b;
    if adler >= BASE { adler := adler - BASE; }
    sum2 := sum2 + adler;
    if sum2 >= BASE { sum2 := sum2 - BASE; }
    r := Sums(adler, sum2);
    assert Adler(s, [c]) == Step(s, c);
  }

  /** Fewer than sixteen bytes, but not one. */
  method AdlerShort(s: Sums, buf: seq<Byte>) returns (r: Sums)
    requires s.Fits() && |buf| < 16 && |buf| != 1
    ensures r.Fits() && (r == Adler(s, buf) <==> Exact(s, buf))
  {
    hide Step, Congruent;
    assert buf[..0] == [] && buf[..|buf|] == buf;
    CongruentStart(s);
    var adler, sum2 := SumBytes(s.a, s.b, buf, 0, |buf|, 0, s);
    Reduce(adler, sum2, Adler(s, buf));
    if buf != [] { AdlerReduced(s, buf); }
    TriangleMonotone(|buf|, 15);
    TriangleIs(15);
    ShortMod(adler);
    if adler >= BASE { adler := adler - BASE; }
    sum2 := Mod28(sum2);
    r := Sums(adler, sum2);
  }

  lemma CongruentStart(s: Sums)
    ensures Congruent(s.a, s.b, s)
  {
  }

  lemma ShortMod(x: int)
    requires 0 <= x < 2 * BASE
    ensures x % BASE == if x >= BASE then x - BASE else x
  {
  }

  /** Sixteen bytes or more: the modulo every NMAX bytes and once at the end. */
  method AdlerLong(s: Sums, buf: seq<Byte>) returns (r: Sums)
    requires s.Fits() && |buf| >= 16
    ensures r.Fits() && r == Adler(s, buf)
  {
    hide Adler, Step, Congruent;
    var adler, sum2, i := s.a, s.b, 0;
    assert buf[..0] == [] && Adler(s, []) == s by { AdlerNone(s); }
    CongruentStart(s);
    while |buf| - i >= NMAX
      invariant 0 <= i <= |buf| && Bounded(adler, sum2, 0) && Congruent(adler, sum2, Adler(s, buf[..i]))
      invariant i > 0 ==> Sums(adler, sum2) == Adler(s, buf[..i])
    {
      ghost var from := i;
      for n := 0 to NMAX / 16
        invariant i == from + 16 * n <= |buf|
        invariant Bounded(adler, sum2, 16 * n) && Congruent(adler, sum2, Adler(s, buf[..i]))
      {
        adler, sum2 := SumBytes(adler, sum2, buf, i, 16, 16 * n, s);
        i := i + 16;
      }
      NoOverflow(adler, sum2, NMAX);
      Reduce(adler, sum2, Adler(s, buf[..i]));
      AdlerReduced(s, buf[..i]);
      adler := Mod32(adler);
      sum2 := Mod32(sum2);
    }
    if i < |buf| {
      ghost var from := i;
      while |buf| - i >= 16
        invariant from <= i <= |buf| && |buf| - from < NMAX
        invariant Bounded(adler, sum2, i - from) && Congruent(adler, sum2, Adler(s, buf[..i]))
      {
        adler, sum2 := SumBytes(adler, sum2, buf, i, 16, i - from, s);
        i := i + 16;
      }
      adler, sum2 := SumBytes(adler, sum2, buf, i, |buf| - i, i - from, s);
      i := |buf|;
      NoOverflow(adler, sum2, i - from);
      Reduce(adler, sum2, Adler(s, buf[..i]));
      AdlerReduced(s, buf[..i]);
      adler := Mod32(adler);
      sum2 := Mod32(sum2);
    }
    assert buf[..i] == buf;
    r := Sums(adler, sum2);
  }

  lemma AdlerNone(s: Sums)
    ensures Adler(s, []) == s
  {
  }

  /** adler32 on the two halves of a 32-bit sum. */
  method Adler32(adler: int, buf: seq<Byte>) returns (r: int)
    requires 0 <= adler < 0x1_0000_0000
    ensures var s := Sums(adler % 0x1_0000, adler / 0x1_0000);
            (r == Pack(Adler(s, buf)) <==> Exact(s, buf)) && (s.Reduced() ==> r == Pack(Adler(s, buf)))
  {
    var s := Sums(adler % 0x1_0000, adler / 0x1_0000);
    var t;
    if |buf| == 1 {
      t := AdlerOne(s, buf[0]);
      assert buf == [buf[0]];
    } else if |buf| < 16 {
      t := AdlerShort(s, buf);
    } else {
      t := AdlerLong(s, buf);
    }
    AdlerFits(s, buf);
    PackInjective(t, Adler(s, buf));
    r := Pack(t);
  }

  // ---------- combination ----------

  /** The sums of the bytes alone and of each byte times the number of bytes from it on. */
  ghost function Plain(bytes: seq<Byte>): nat {
    if bytes == [] then 0 else Plain(bytes[..|bytes| - 1]) + bytes[|bytes| - 1] as int
  }

  ghost function Weighted(bytes: seq<Byte>): nat {
    if bytes == [] then 0 else Weighted(bytes[..|bytes| - 1]) + Plain(bytes)
  }

  function Remainders(x: int, y: int): Sums { Sums(x % BASE, y % BASE) }

  /** The closed form of section 8.2 of RFC 1950. */
  lemma {:induction false} ClosedForm(s: Sums, bytes: seq<Byte>)
    requires s.Reduced()
    ensures Adler(s, bytes) == Remainders(s.a + Plain(bytes), s.b + |bytes| * s.a + Weighted(bytes))
  {
    if bytes == [] {
      AdlerNone(s);
      assert Remainders(s.a, s.b) == s;
    } else {
      ClosedForm(s, bytes[..|bytes| - 1]);
      ClosedLast(s, bytes);
    }
  }

  lemma ClosedLast(s: Sums, bytes: seq<Byte>)
    requires bytes != []
    requires var t := bytes[..|bytes| - 1];
             Adler(s, t) == Remainders(s.a + Plain(t), s.b + |t| * s.a + Weighted(t))
    ensures Adler(s, bytes) == Remainders(s.a + Plain(bytes), s.b + |bytes| * s.a + Weighted(bytes))
  {
    hide Step, Remainders;
    var t, c := bytes[..|bytes| - 1], bytes[|bytes| - 1];
    ClosedStep(s.a + Plain(t), s.b + |t| * s.a + Weighted(t), c);
    MulDistributes(s.a, |t|, 1);
    assert |bytes| * s.a == |t| * s.a + s.a;
  }

  lemma ClosedStep(x: int, y: int, c: Byte)
    ensures Step(Remainders(x, y), c) == Remainders(x + c as int, y + (x + c as int))
  {
    ModAdd(x, c as int);
    ModAdd(y, (x + c as int) % BASE);
    ModAdd(x + c as int, y);
  }

  lemma {:induction false} AdlerConcat(s: Sums, a: seq<Byte>, b: seq<Byte>)
    ensures Adler(s, a + b) == Adler(Adler(s, a), b)
  {
    hide Step;
    if b == [] {
      assert a + b == a;
    } else {
      AdlerConcat(s, a, b[..|b| - 1]);
      assert (a + b)[..|a + b| - 1] == a + b[..|b| - 1];
    }
  }

  /** The combination, in terms of the sums of the parts. */
  ghost function Combined(s: Sums, t: Sums, n: nat): Sums {
    Sums((s.a + t.a + BASE - 1) % BASE, (n * s.a + s.b + t.b - n) % BASE)
  }

  /** The main promise: the sums of two strings give those of their concatenation. */
  lemma CombinedIsConcat(a: seq<Byte>, b: seq<Byte>)
    ensures Combined(Adler(START, a), Adler(START, b), |b|) == Adler(START, a + b)
  {
    hide Adler;
    AdlerConcat(START, a, b);
    var s, n := Adler(START, a), |b|;
    AdlerStartReduced(a);
    ClosedForm(s, b);
    ClosedForm(START, b);
    ModAdd(1 + Plain(b), s.a + BASE - 1);
    SameRemainder(s.a + Plain(b), 1 + Plain(b) + (s.a + BASE - 1), 1);
    ModAdd(n * 1 + Weighted(b), n * s.a + s.b - n);
    assert n * 1 + Weighted(b) + (n * s.a + s.b - n) == s.b + n * s.a + Weighted(b);
  }

  lemma AdlerStartReduced(bytes: seq<Byte>)
    ensures Adler(START, bytes).Reduced()
  {
    if bytes != [] { AdlerReduced(START, bytes); }
  }

  lemma CombinedRemainder(s: Sums, t: Sums, len2: nat, rem: int, product: int)
    requires rem == len2 % BASE && product == (rem * s.a) % BASE
    ensures (product + s.b + t.b + BASE - rem) % BASE == Combined(s, t, len2).b
  {
    var q := len2 / BASE;
    var low := rem * s.a;
    ModAdd(low, s.b + t.b + BASE - rem);
    assert len2 == BASE * q + rem;
    MulDistributes(s.a, BASE * q, rem);
    MulAssociative(BASE, q, s.a);
    MulDistributes(BASE, q * s.a, -q);
    MulDistributes(BASE, q * s.a - q, -1);
    SameRemainder(low + s.b + t.b + BASE - rem, len2 * s.a + s.b + t.b - len2, q * s.a - q - 1);
  }

  /** adler32_combine_ on the halves of two reduced sums.  The product stays in 32 bits. */
  method Adler32Combine(adler1: Sums, adler2: Sums, len: int) returns (r: Sums)
    requires adler1.Reduced() && adler2.Reduced() && len < 0x8000_0000_0000_0000
    ensures len < 0 ==> Pack(r) == 0xffff_ffff
    ensures len >= 0 ==> r == Combined(adler1, adler2, len)
  {
    if len < 0 { return Sums(0xffff, 0xffff); }
    var rem := Mod63(len);
    var sum1 := adler1.a;
    var sum2 := rem * sum1;
    ProductFits(rem, sum1);
    var product := Mod32(sum2);
    CombinedRemainder(adler1, adler2, len, rem, product);
    sum1 := sum1 + adler2.a + BASE - 1;
    sum2 := product + adler1.b + adler2.b + BASE - rem;
    FewSubtractions(sum1);
    FewSubtractions(sum2);
    if sum1 >= BASE { sum1 := sum1 - BASE; }
    if sum1 >= BASE { sum1 := sum1 - BASE; }
    if sum2 >= 2 * BASE { sum2 := sum2 - 2 * BASE; }
    if sum2 >= BASE { sum2 := sum2 - BASE; }
    r := Sums(sum1, sum2);
  }

  lemma FewSubtractions(x: int)
    requires 0 <= x < 4 * BASE
    ensures x % BASE == if x < BASE then x
            else if x < 2 * BASE then x - BASE else if x < 3 * BASE then x - 2 * BASE else x - 3 * BASE
  {
  }

  lemma ProductFits(a: int, b: int)
    requires 0 <= a < BASE && 0 <= b < BASE
    ensures 0 <= a * b < 0x1_0000_0000
  {
    MulMonotone(a, BASE, b);
    MulMonotone(b, BASE, BASE);
  }
}
