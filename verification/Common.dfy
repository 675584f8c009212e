/** Vocabulary shared by all components of the model. */
module Common {

  /** An unsigned eight-bit value (UChar in bzip2, Bytef in zlib). */
  type Byte = b: int | 0 <= b < 256

  datatype Option<+T> = None | Some(value: T)

  /** The outcome of a step that the source ends with an error return. */
  datatype Result<+T> = Ok(value: T) | DataError

  function Min(a: int, b: int): int { if a < b then a else b }

  function Max(a: int, b: int): int { if a > b then a else b }

  /** 2 to the power k. */
  function Pow2(k: nat): (p: nat)
    ensures p > 0
  {
    if k == 0 then 1 else 2 * Pow2(k - 1)
  }

  lemma {:induction false} Pow2Add(a: nat, b: nat)
    ensures Pow2(a + b) == Pow2(a) * Pow2(b)
    decreases a
  {
    if a > 0 {
      Pow2Add(a - 1, b);
      assert Pow2(a + b) == 2 * (Pow2(a - 1) * Pow2(b)) == Pow2(a) * Pow2(b);
    }
  }

  lemma {:induction false} Pow2Monotone(a: nat, b: nat)
    requires a <= b
    ensures Pow2(a) <= Pow2(b)
  {
    if a < b { Pow2Monotone(a, b - 1); }
  }

  // ---------- sequences ----------

  function Repeat<T>(c: T, k: nat): (r: seq<T>)
    ensures |r| == k && forall i :: 0 <= i < k ==> r[i] == c
  {
    seq(k, _ => c)
  }

  lemma RepeatAdd<T>(c: T, a: nat, b: nat)
    ensures Repeat(c, a) + Repeat(c, b) == Repeat(c, a + b)
  {
  }

  lemma Associate<T>(a: seq<T>, b: seq<T>, c: seq<T>)
    ensures a + b + c == a + (b + c)
  {
  }

  /** Pieces, one after the other. */
  ghost function Joined<T>(pieces: seq<seq<T>>): seq<T> {
    if pieces == [] then [] else Joined(pieces[..|pieces| - 1]) + pieces[|pieces| - 1]
  }

  /** The pieces before the i-th, that one, and the others. */
  lemma {:induction false} JoinedPast<T>(pieces: seq<seq<T>>, i: nat) returns (later: seq<T>)
    requires i < |pieces|
    ensures Joined(pieces[..i + 1]) == Joined(pieces[..i]) + pieces[i] &&
            Joined(pieces) == Joined(pieces[..i + 1]) + later
    decreases |pieces|
  {
    assert pieces[..i + 1][..i] == pieces[..i];
    if i + 1 == |pieces| {
      later := [];
      assert pieces[..i + 1] == pieces && Joined(pieces) + [] == Joined(pieces);
    } else {
      var front := pieces[..|pieces| - 1];
      later := JoinedPast(front, i);
      assert front[..i + 1] == pieces[..i + 1] && front[..i] == pieces[..i];
      later := later + pieces[|pieces| - 1];
    }
  }

  lemma AssociateFour<T>(a: seq<T>, b: seq<T>, c: seq<T>, d: seq<T>)
    ensures a + (b + c + d) == a + b + c + d
  {
  }

  // ---------- products and quotients of unknowns ----------

  lemma MulMonotone(a: int, b: int, c: int)
    requires a <= b && 0 <= c
    ensures a * c <= b * c
  {
  }

  lemma MulStrict(a: int, b: int, c: int)
    requires a < b && 0 < c
    ensures a * c < b * c
  {
  }

  lemma MulAssociative(a: int, b: int, c: int)
    ensures (a * b) * c == a * (b * c)
  {
  }

  lemma MulDistributes(a: int, b: int, c: int)
    ensures a * (b + c) == a * b + a * c
  {
  }

  lemma MulDouble(u: int, p: int)
    ensures u * (2 * p) == 2 * (u * p)
  {
  }

  /** Quotient and remainder are determined by their defining equation. */
  lemma QuotientUnique(v: int, p: int, q: int, r: int)
    requires p > 0 && v == q * p + r && 0 <= r < p
    ensures v / p == q && v % p == r
  {
    var q', r' := v / p, v % p;
    assert v == q' * p + r';
    assert (q' - q) * p == r - r';
    if q' < q {
      MulMonotone(q' - q, -1, p);
    } else if q < q' {
      MulMonotone(1, q' - q, p);
    }
  }

  lemma QuotientSign(x: nat, p: nat)
    requires p > 0
    ensures 0 <= x / p && x == (x / p) * p + x % p && 0 <= x % p < p
  {
  }

  lemma TwoDivisions(v: nat, p: int, q: int)
    requires p > 0 && q > 0
    ensures (v / p) / q == v / (p * q)
  {
    var x, r := v / p, v % p;
    var y, s := x / q, x % q;
    MulAssociative(y, q, p);
    MulDistributes(p, y * q, s);
    MulMonotone(s + 1, q, p);
    MulDistributes(p, s, 1);
    MulMonotone(0, s, p);
    MulStrict(0, q, p);
    QuotientUnique(v, p * q, y, s * p + r);
  }

  /** Comparing a quotient with u is comparing the dividend with the multiple. */
  lemma QuotientBounds(c: int, p: int, u: int)
    requires p > 0
    ensures u * p <= c <==> u <= c / p
    ensures c < u * p <==> c / p < u
  {
    var q := c / p;
    assert c == q * p + c % p;
    if u <= q {
      MulMonotone(u, q, p);
    } else {
      MulMonotone(q + 1, u, p);
    }
  }
}
