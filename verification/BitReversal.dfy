/** Reversing the bits of a number, as Huffman codes sent first bit lowest need it. */
module BitReversal {
  import opened Common

  /** The n low bits of v in the opposite order. */
  function Rev(v: nat, n: nat): (r: nat)
    ensures r < Pow2(n)
  {
    if n == 0 then 0 else (v % 2) * Pow2(n - 1) + Rev(v / 2, n - 1)
  }

  lemma {:induction false} RevZero(n: nat)
    ensures Rev(0, n) == 0
  {
    if n > 0 { RevZero(n - 1); }
  }

  lemma HalfOf(a: nat, p: nat, j: nat)
    requires p > 0
    ensures (a * (2 * p) + j) % 2 == j % 2 && (a * (2 * p) + j) / 2 == a * p + j / 2
  {
    MulDouble(a, p);
  }

  /** Bits that come first end up lowest. */
  lemma {:induction false} RevConcat(a: nat, l: nat, j: nat, m: nat)
    requires j < Pow2(m)
    ensures Rev(a * Pow2(m) + j, l + m) == Rev(a, l) + Pow2(l) * Rev(j, m)
    decreases m
  {
    if m == 0 {
      assert a * 1 == a;
    } else {
      HalfOf(a, Pow2(m - 1), j);
      RevConcat(a, l, j / 2, m - 1);
      Pow2Add(l, m - 1);
      RevSum(Rev(a, l), Pow2(l), Rev(j / 2, m - 1), j % 2, Pow2(m - 1));
    }
  }

  lemma RevSum(r: int, p: int, s: int, b: int, q: int)
    ensures b * (p * q) + (r + p * s) == r + p * (b * q + s)
  {
    MulDistributes(p, b * q, s);
    MulAssociative(p, b, q);
    MulAssociative(b, p, q);
  }

  /** The first l of l + m bits. */
  lemma RevLow(a: nat, l: nat, j: nat, m: nat)
    requires j < Pow2(m)
    ensures Rev(a * Pow2(m) + j, l + m) % Pow2(l) == Rev(a, l)
    ensures Rev(a * Pow2(m) + j, l + m) / Pow2(l) == Rev(j, m)
  {
    RevConcat(a, l, j, m);
    QuotientUnique(Rev(a, l) + Pow2(l) * Rev(j, m), Pow2(l), Rev(j, m), Rev(a, l));
  }

  /** Zeros appended to a code change nothing. */
  lemma RevPad(a: nat, l: nat, m: nat)
    ensures Rev(a * Pow2(m), l + m) == Rev(a, l)
  {
    RevConcat(a, l, 0, m);
    RevZero(m);
  }

  lemma {:induction false} RevInjective(a: nat, b: nat, n: nat)
    requires a < Pow2(n) && b < Pow2(n) && Rev(a, n) == Rev(b, n)
    ensures a == b
  {
    if n > 0 {
      var p := Pow2(n - 1);
      QuotientUnique(Rev(a, n), p, a % 2, Rev(a / 2, n - 1));
      QuotientUnique(Rev(b, n), p, b % 2, Rev(b / 2, n - 1));
      RevInjective(a / 2, b / 2, n - 1);
    }
  }

  lemma {:induction false} RevTwice(a: nat, n: nat)
    requires a < Pow2(n)
    ensures Rev(Rev(a, n), n) == a
  {
    hide Rev, Pow2;
    RevUnfold(a, n);
    if n > 0 {
      RevTwice(a / 2, n - 1);
      // a's low bit is the top bit of the reverse, so it comes first in the reverse of that
      RevConcat(a % 2, 1, Rev(a / 2, n - 1), n - 1);
      RevBit(a % 2);
    }
  }

  lemma RevUnfold(a: nat, n: nat)
    requires a < Pow2(n)
    ensures n == 0 ==> a == 0 && Rev(a, n) == 0 && Rev(0, 0) == 0
    ensures n > 0 ==> Rev(a, n) == (a % 2) * Pow2(n - 1) + Rev(a / 2, n - 1) && a / 2 < Pow2(n - 1)
  {
  }

  lemma RevBit(b: nat)
    requires b < 2
    ensures Rev(b, 1) == b && Pow2(1) == 2
  {
  }

  // ---------- incrementing a reversed code ----------

  /** The reverse of the next number of l bits, from the reverse; zero after the last. */
  function NextReverse(huff: nat, l: nat): nat {
    if l == 0 then 0
    else if huff / Pow2(l - 1) % 2 == 1 then NextReverse(huff % Pow2(l - 1), l - 1)
    else huff % Pow2(l - 1) + Pow2(l - 1)
  }

  lemma {:induction false} NextIs(c: nat, l: nat)
    requires c < Pow2(l)
    ensures NextReverse(Rev(c, l), l) == if c + 1 < Pow2(l) then Rev(c + 1, l) else 0
  {
    if l > 0 {
      var p := Pow2(l - 1);
      QuotientUnique(Rev(c, l), p, c % 2, Rev(c / 2, l - 1));
      if c % 2 == 1 {
        NextIs(c / 2, l - 1);
        assert (c + 1) / 2 == c / 2 + 1 && (c + 1) % 2 == 0;
      } else {
        assert (c + 1) / 2 == c / 2 && (c + 1) % 2 == 1;
      }
    }
  }

  /** The backwards increment: find the highest zero bit, set it, clear those above. */
  method Increment(huff0: nat, len: nat) returns (huff: nat)
    requires 1 <= len && huff0 < Pow2(len)
    ensures huff == NextReverse(huff0, len)
  {
    hide Pow2, NextReverse;
    ghost var j: nat := len;
    var incr := PowerOfTwo(len - 1);
    NextStep(huff0, len);
    assert huff0 % Pow2(len) == huff0 by { Small(huff0, Pow2(len)); }
    while incr != 0 && huff0 / incr % 2 == 1
      invariant 0 <= j <= len && incr == (if j == 0 then 0 else Pow2(j - 1))
      invariant NextReverse(huff0, len) == NextReverse(huff0 % Pow2(j), j)
      decreases j
    {
      NextStep(huff0 % Pow2(j), j);
      ModTwice(huff0, j);
      HalfPower(j - 1);
      j := j - 1;
      incr := incr / 2;
    }
    NextStep(huff0 % Pow2(j), j);
    if incr != 0 {
      ModTwice(huff0, j);
      huff := huff0 % incr + incr;
    } else {
      huff := 0;
    }
  }

  lemma Small(v: nat, p: nat)
    requires v < p
    ensures v % p == v
  {
  }

  lemma HalfPower(j: nat)
    ensures Pow2(j) / 2 == if j == 0 then 0 else Pow2(j - 1)
  {
  }

  lemma NextStep(huff: nat, l: nat)
    ensures l == 0 ==> NextReverse(huff, l) == 0
    ensures l > 0 && huff / Pow2(l - 1) % 2 == 1 ==> NextReverse(huff, l) == NextReverse(huff % Pow2(l - 1), l - 1)
    ensures l > 0 && huff / Pow2(l - 1) % 2 != 1 ==> NextReverse(huff, l) == huff % Pow2(l - 1) + Pow2(l - 1)
  {
  }

  /** Looking at bit j - 1 of a number cut off at j bits. */
  lemma ModTwice(v: nat, j: nat)
    requires j > 0
    ensures (v % Pow2(j)) / Pow2(j - 1) % 2 == v / Pow2(j - 1) % 2
    ensures (v % Pow2(j)) % Pow2(j - 1) == v % Pow2(j - 1)
  {
    ModInMod(v, Pow2(j - 1));
  }

  lemma ModInMod(v: nat, p: nat)
    requires p > 0
    ensures (v % (2 * p)) / p % 2 == v / p % 2 && (v % (2 * p)) % p == v % p
  {
    var q, r := v / (2 * p), v % (2 * p);
    var b, s := r / p, r % p;
    Regroup(q, p, b, s);
    QuotientUnique(v, p, 2 * q + b, s);
  }

  lemma Regroup(q: int, p: int, b: int, s: int)
    ensures q * (2 * p) + (b * p + s) == (2 * q + b) * p + s
  {
  }

  function PowerOfTwo(k: nat): (p: nat)
    ensures p == Pow2(k)
  {
    if k == 0 then 1 else 2 * PowerOfTwo(k - 1)
  }
}
