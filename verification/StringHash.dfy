/** The rolling hash of three bytes by which deflate finds earlier strings. */
module StringHash {
  import opened Common

  const MIN_MATCH := 3
  const MAX_MATCH := 258

  /** hash_bits and hash_shift. */
  datatype Params = Params(bits: nat, shift: nat)

  /** A byte fits the key, and after three updates the oldest byte no longer takes part. */
  predicate Sized(k: Params) { k.bits >= 8 && MIN_MATCH * k.shift >= k.bits }

  type Hasher = k: Params | Sized(k) witness Params(8, 3)

  /** The parameters for a memory level. */
  function HasherOf(memLevel: nat): Hasher
    requires 1 <= memLevel <= 9
  {
    var bits := memLevel + 7;
    Params(bits, (bits + MIN_MATCH - 1) / MIN_MATCH)
  }

  // ---------- exclusive or of binary numbers ----------

  function Xor(a: nat, b: nat): nat
    decreases a + b
  {
    if a == 0 && b == 0 then 0 else 2 * Xor(a / 2, b / 2) + (a + b) % 2
  }

  /** The low n digits are the same. */
  ghost predicate Same(a: nat, b: nat, n: nat) {
    n == 0 || (a % 2 == b % 2 && Same(a / 2, b / 2, n - 1))
  }

  lemma XorDigits(a: nat, b: nat)
    ensures Xor(a, b) % 2 == (a + b) % 2 && Xor(a, b) / 2 == Xor(a / 2, b / 2)
  {
    hide Xor;
    XorOpen(a, b);
    Digits(Xor(a / 2, b / 2), (a + b) % 2);
  }

  lemma XorOpen(a: nat, b: nat)
    ensures Xor(a, b) == 2 * Xor(a / 2, b / 2) + (a + b) % 2
  {
  }

  lemma Digits(q: nat, d: nat)
    requires d < 2
    ensures (2 * q + d) % 2 == d && (2 * q + d) / 2 == q
  {
  }

  lemma SumParity(a: nat, b: nat, c: nat)
    ensures (a + c) % 2 == (b + c) % 2 <==> a % 2 == b % 2
    ensures (c + a) % 2 == (c + b) % 2 <==> a % 2 == b % 2
  {
  }

  lemma SameOpen(a: nat, b: nat, n: nat)
    requires n > 0
    ensures Same(a, b, n) <==> a % 2 == b % 2 && Same(a / 2, b / 2, n - 1)
  {
  }

  lemma {:induction false} SameXor(a: nat, b: nat, c: nat, n: nat)
    requires Same(a, b, n)
    ensures Same(Xor(a, c), Xor(b, c), n)
  {
    if n == 0 {
      SameNone(Xor(a, c), Xor(b, c));
    } else {
      hide Xor, Same;
      SameOpen(a, b, n);
      SameOpen(Xor(a, c), Xor(b, c), n);
      XorDigits(a, c);
      XorDigits(b, c);
      SumParity(a, b, c);
      SameXor(a / 2, b / 2, c / 2, n - 1);
    }
  }

  lemma {:induction false} XorSame(a: nat, b: nat, c: nat, n: nat)
    requires Same(Xor(c, a), Xor(c, b), n)
    ensures Same(a, b, n)
  {
    if n == 0 {
      SameNone(a, b);
    } else {
      hide Xor, Same;
      SameOpen(a, b, n);
      SameOpen(Xor(c, a), Xor(c, b), n);
      XorDigits(c, a);
      XorDigits(c, b);
      SumParity(a, b, c);
      XorSame(a / 2, b / 2, c / 2, n - 1);
    }
  }

  lemma SameNone(a: nat, b: nat)
    ensures Same(a, b, 0)
  {
  }

  lemma {:induction false} SameLess(a: nat, b: nat, n: nat, m: nat)
    requires m <= n && Same(a, b, n)
    ensures Same(a, b, m)
  {
    if m > 0 { SameLess(a / 2, b / 2, n - 1, m - 1); }
  }

  lemma {:induction false} SameSymmetric(a: nat, b: nat, n: nat)
    requires Same(a, b, n)
    ensures Same(b, a, n)
  {
    if n > 0 { SameSymmetric(a / 2, b / 2, n - 1); }
  }

  lemma {:induction false} SameTransitive(a: nat, b: nat, c: nat, n: nat)
    requires Same(a, b, n) && Same(b, c, n)
    ensures Same(a, c, n)
  {
    if n > 0 { SameTransitive(a / 2, b / 2, c / 2, n - 1); }
  }

  lemma {:induction false} SameShifted(a: nat, b: nat, n: nat, s: nat)
    requires Same(a, b, n)
    ensures Same(a * Pow2(s), b * Pow2(s), n + s)
  {
    if s > 0 {
      SameShifted(a, b, n, s - 1);
      MulDouble(a, Pow2(s - 1));
      MulDouble(b, Pow2(s - 1));
    }
  }

  lemma {:induction false} SameMasked(a: nat, n: nat)
    ensures Same(a % Pow2(n), a, n)
  {
    if n > 0 {
      var p, q, r := Pow2(n - 1), a / Pow2(n), a % Pow2(n);
      MulDouble(q, p);
      QuotientUnique(a / 2, p, q, r / 2);
      SameMasked(a / 2, n - 1);
    }
  }

  lemma {:induction false} SameSmall(a: nat, b: nat, n: nat)
    requires Same(a, b, n) && a < Pow2(n) && b < Pow2(n)
    ensures a == b
  {
    if n > 0 { SameSmall(a / 2, b / 2, n - 1); }
  }

  // ---------- the hash ----------

  /** UPDATE_HASH; masking keeps the low bits. */
  function Update(k: Hasher, h: nat, c: Byte): nat { Xor(h * Pow2(k.shift), c) % Pow2(k.bits) }

  function Hash(k: Hasher, a: Byte, b: Byte, c: Byte): nat { Update(k, Update(k, Update(k, 0, a), b), c) }

  /** The next update will yield the hash of a, b and the byte it is given. */
  ghost predicate Primed(k: Hasher, h: nat, a: Byte, b: Byte) {
    forall c: Byte {:trigger Update(k, h, c)} :: Update(k, h, c) == Hash(k, a, b, c)
  }

  /** Keys that share their low n digits share the shift more after an update. */
  lemma SameUpdate(k: Hasher, g: nat, h: nat, c: Byte, n: nat)
    requires Same(g, h, n)
    ensures Same(Update(k, g, c), Update(k, h, c), Min(n + k.shift, k.bits))
  {
    hide Same, Xor;
    var m := Min(n + k.shift, k.bits);
    var x, y := Xor(g * Pow2(k.shift), c), Xor(h * Pow2(k.shift), c);
    SameShifted(g, h, n, k.shift);
    SameXor(g * Pow2(k.shift), h * Pow2(k.shift), c, n + k.shift);
    SameMasked(x, k.bits);
    SameMasked(y, k.bits);
    SameSymmetric(y % Pow2(k.bits), y, k.bits);
    SameLess(x, y, n + k.shift, m);
    SameLess(x % Pow2(k.bits), x, k.bits, m);
    SameLess(y, y % Pow2(k.bits), k.bits, m);
    SameTransitive(x % Pow2(k.bits), x, y, m);
    SameTransitive(x % Pow2(k.bits), y, y % Pow2(k.bits), m);
  }

  /** Three updates shift everything older out. */
  lemma OldestDrops(k: Hasher, g: nat, b: Byte, c: Byte, d: Byte)
    ensures Update(k, Update(k, Update(k, g, b), c), d) == Hash(k, b, c, d)
  {
    hide Same, Update, Pow2;
    SameNone(g, 0);
    SameUpdate(k, g, 0, b, 0);
    var m1 := Min(k.shift, k.bits);
    SameUpdate(k, Update(k, g, b), Update(k, 0, b), c, m1);
    var m2 := Min(m1 + k.shift, k.bits);
    SameUpdate(k, Update(k, Update(k, g, b), c), Update(k, Update(k, 0, b), c), d, m2);
    UpdateFits(k, Update(k, Update(k, g, b), c), d);
    UpdateFits(k, Update(k, Update(k, 0, b), c), d);
    SameSmall(Update(k, Update(k, Update(k, g, b), c), d), Hash(k, b, c, d), k.bits);
  }

  /** A hash is an index into the hash table. */
  lemma UpdateFits(k: Hasher, h: nat, c: Byte)
    ensures Update(k, h, c) < Pow2(k.bits)
  {
  }

  lemma PrimedByHash(k: Hasher, a: Byte, b: Byte, c: Byte)
    ensures Primed(k, Hash(k, a, b, c), b, c)
  {
    hide Update;
    forall d: Byte ensures Update(k, Hash(k, a, b, c), d) == Hash(k, b, c, d) {
      OldestDrops(k, Update(k, 0, a), b, c, d);
    }
  }

  /** Two bytes prime the hash, though the first is not masked. */
  lemma PrimedByStart(k: Hasher, a: Byte, b: Byte)
    ensures Primed(k, Update(k, a, b), a, b)
  {
    hide Update;
    UpdateZero(k, a);
  }

  lemma UpdateZero(k: Hasher, a: Byte)
    ensures Update(k, 0, a) == a
  {
    hide Pow2, Xor;
    Pow2Monotone(8, k.bits);
    PowerEight();
    XorZero(a);
    assert 0 * Pow2(k.shift) == 0;
    QuotientUnique(a, Pow2(k.bits), 0, a);
  }

  lemma PowerEight()
    ensures Pow2(8) == 256
  {
    assert Pow2(4) == 16;
    Pow2Add(4, 4);
  }

  lemma {:induction false} XorZero(a: nat)
    ensures Xor(0, a) == a
  {
    if a > 0 { XorZero(a / 2); }
  }

  /** Strings with equal hashes and equal first two bytes have equal third bytes. */
  lemma ThirdByte(k: Hasher, a: Byte, b: Byte, c: Byte, d: Byte)
    requires Hash(k, a, b, c) == Hash(k, a, b, d)
    ensures c == d
  {
    hide Pow2, Same, Xor;
    var h := Update(k, Update(k, 0, a), b) * Pow2(k.shift);
    var x, y := Xor(h, c), Xor(h, d);
    SameMasked(x, k.bits);
    SameMasked(y, k.bits);
    SameSymmetric(x % Pow2(k.bits), x, k.bits);
    SameTransitive(x, x % Pow2(k.bits), y, k.bits);
    XorSame(c, d, h, k.bits);
    SameLess(c, d, k.bits, 8);
    PowerEight();
    SameSmall(c, d, 8);
  }
}
