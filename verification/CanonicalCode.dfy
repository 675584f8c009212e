/** Canonical prefix codes: given code lengths, codes of one length are consecutive, in
    order of symbol, and start at twice the first value unused one length shorter.  Both
    compression libraries use this code (section 3.2.2 of RFC 1951 for the one in zlib). */
module CanonicalCode {
  import opened Common
  import opened Counting

  // ---------- bit strings ----------

  /** The n low bits of v, most significant first. */
  function Bits(v: nat, n: nat): (b: seq<int>)
    ensures |b| == n
  {
    if n == 0 then [] else Bits(v / 2, n - 1) + [v % 2]
  }

  /** The number a bit string spells. */
  function Value(b: seq<int>): int {
    if b == [] then 0 else 2 * Value(b[..|b| - 1]) + b[|b| - 1]
  }

  ghost predicate IsBits(b: seq<int>) {
    forall k :: 0 <= k < |b| ==> b[k] == 0 || b[k] == 1
  }

  lemma {:induction false} BitsValue(v: nat, n: nat)
    requires v < Pow2(n)
    ensures Value(Bits(v, n)) == v && IsBits(Bits(v, n))
  {
    if n > 0 {
      BitsValue(v / 2, n - 1);
      assert Bits(v, n)[..n - 1] == Bits(v / 2, n - 1);
    }
  }

  lemma {:induction false} ValueBits(b: seq<int>)
    requires IsBits(b)
    ensures 0 <= Value(b) < Pow2(|b|) && Bits(Value(b), |b|) == b
  {
    if b != [] {
      var c := b[..|b| - 1];
      ValueBits(c);
      assert b == c + [b[|b| - 1]];
    }
  }

  /** The first m of n bits spell the number with the others dropped. */
  lemma {:induction false} BitsPrefix(v: nat, n: nat, m: nat)
    requires m <= n
    ensures Bits(v, n)[..m] == Bits(v / Pow2(n - m), m)
    decreases n
  {
    if m == n {
      assert Bits(v, n)[..m] == Bits(v, n);
      assert v / 1 == v;
    } else {
      BitsPrefix(v / 2, n - 1, m);
      assert Bits(v, n)[..m] == Bits(v / 2, n - 1)[..m];
      TwoDivisions(v, 2, Pow2(n - 1 - m));
    }
  }

  // ---------- the code ----------

  /** How many n-bit strings start with a code of length n or less. */
  function Used(lens: seq<Byte>, n: nat): nat {
    if n == 0 then 0 else 2 * Used(lens, n - 1) + Count(lens, n, |lens|)
  }

  /** The first code of length n. */
  function First(lens: seq<Byte>, n: nat): nat {
    if n == 0 then 0 else 2 * Used(lens, n - 1)
  }

  /** The code of symbol i.  Length 0 stands for a symbol without a code. */
  function Code(lens: seq<Byte>, i: int): nat
    requires 0 <= i < |lens|
  {
    First(lens, lens[i]) + Count(lens, lens[i], i)
  }

  function CodeBits(lens: seq<Byte>, i: int): (b: seq<int>)
    requires 0 <= i < |lens|
    ensures |b| == lens[i]
  {
    Bits(Code(lens, i), lens[i])
  }

  /** The Kraft sum, scaled by 2^n, over the first k symbols with codes no longer than n. */
  function KraftSum(lens: seq<Byte>, n: nat, k: nat): nat
    requires k <= |lens|
  {
    if k == 0 then 0
    else KraftSum(lens, n, k - 1) + if 1 <= lens[k - 1] <= n then Pow2(n - lens[k - 1]) else 0
  }

  lemma {:induction false} KraftStep(lens: seq<Byte>, n: nat, k: nat)
    requires 0 < n && k <= |lens|
    ensures KraftSum(lens, n, k) == 2 * KraftSum(lens, n - 1, k) + Count(lens, n, k)
  {
    if k > 0 { KraftStep(lens, n, k - 1); }
  }

  lemma {:induction false} KraftNone(lens: seq<Byte>, k: nat)
    requires k <= |lens|
    ensures KraftSum(lens, 0, k) == 0
  {
    if k > 0 { KraftNone(lens, k - 1); }
  }

  /** Counting used strings length by length computes the Kraft sum. */
  lemma {:induction false} UsedIsKraftSum(lens: seq<Byte>, n: nat)
    ensures Used(lens, n) == KraftSum(lens, n, |lens|)
  {
    if n == 0 {
      KraftNone(lens, |lens|);
    } else {
      UsedIsKraftSum(lens, n - 1);
      KraftStep(lens, n, |lens|);
    }
  }

  /** The Kraft inequality for codes of length up to n. */
  ghost predicate Kraft(lens: seq<Byte>, n: nat) {
    KraftSum(lens, n, |lens|) <= Pow2(n)
  }

  /** Strings used at length m stay used at length n. */
  lemma {:induction false} UsedGrows(lens: seq<Byte>, m: nat, n: nat)
    requires m <= n
    ensures Used(lens, m) * Pow2(n - m) <= Used(lens, n)
    ensures m < n ==> Used(lens, m) * Pow2(n - m) <= First(lens, n)
    decreases n
  {
    if m < n {
      UsedGrows(lens, m, n - 1);
      MulDouble(Used(lens, m), Pow2(n - 1 - m));
    }
  }

  /** Under the Kraft inequality no length is oversubscribed. */
  lemma UsedFits(lens: seq<Byte>, m: nat, n: nat)
    requires m <= n && Kraft(lens, n)
    ensures Used(lens, m) <= Pow2(m)
  {
    UsedIsKraftSum(lens, n);
    UsedGrows(lens, m, n);
    Pow2Add(m, n - m);
    if Used(lens, m) > Pow2(m) {
      MulStrict(Pow2(m), Used(lens, m), Pow2(n - m));
    }
  }

  /** A code fits its length. */
  lemma CodeFits(lens: seq<Byte>, i: int, n: nat)
    requires 0 <= i < |lens| && 1 <= lens[i] <= n && Kraft(lens, n)
    ensures First(lens, lens[i]) <= Code(lens, i) < Used(lens, lens[i]) <= Pow2(lens[i])
  {
    CountStep(lens, i, |lens|);
    UsedFits(lens, lens[i], n);
  }

  /** A shorter beginning of a code lies above all codes of that shorter length. */
  lemma CodeBeginning(lens: seq<Byte>, i: int, m: nat)
    requires 0 <= i < |lens| && m < lens[i]
    ensures Used(lens, m) <= Code(lens, i) / Pow2(lens[i] - m)
  {
    UsedGrows(lens, m, lens[i]);
    QuotientBounds(Code(lens, i), Pow2(lens[i] - m), Used(lens, m));
  }

  /** What the first m bits of a longer code spell is no code of length m. */
  lemma BeginningValue(lens: seq<Byte>, j: int, m: nat, n: nat)
    requires 0 <= j < |lens| && m < lens[j] <= n && Kraft(lens, n)
    ensures Used(lens, m) <= Value(CodeBits(lens, j)[..m])
  {
    hide Pow2, Bits, Used, Value, Code, Kraft;
    CodeFits(lens, j, n);
    CodeBeginning(lens, j, m);
    BitsPrefix(Code(lens, j), lens[j], m);
    LowFits(Code(lens, j), lens[j], m);
    BitsValue(Code(lens, j) / Pow2(lens[j] - m), m);
  }

  /** A code spells its value. */
  lemma CodeValue(lens: seq<Byte>, i: int, n: nat)
    requires 0 <= i < |lens| && 1 <= lens[i] <= n && Kraft(lens, n)
    ensures First(lens, lens[i]) <= Value(CodeBits(lens, i)) == Code(lens, i) < Used(lens, lens[i])
  {
    CodeFits(lens, i, n);
    BitsValue(Code(lens, i), lens[i]);
  }

  /** No code is the beginning of another. */
  lemma PrefixFree(lens: seq<Byte>, i: int, j: int, n: nat)
    requires 0 <= i < |lens| && 0 <= j < |lens| && 1 <= lens[i] <= lens[j] <= n && Kraft(lens, n)
    requires CodeBits(lens, i) == CodeBits(lens, j)[..lens[i]]
    ensures i == j
  {
    CodeValue(lens, i, n);
    if lens[i] < lens[j] {
      BeginningValue(lens, j, lens[i], n);
    } else {
      CodeValue(lens, j, n);
      assert CodeBits(lens, j)[..lens[i]] == CodeBits(lens, j);
      if i < j { CountStep(lens, i, j); } else if j < i { CountStep(lens, j, i); }
    }
  }

  /** Dropping the last n - m of n bits leaves a number of m bits. */
  lemma LowFits(v: nat, n: nat, m: nat)
    requires m <= n && v < Pow2(n)
    ensures v / Pow2(n - m) < Pow2(m)
  {
    hide Pow2;
    Pow2Add(m, n - m);
    QuotientBounds(v, Pow2(n - m), Pow2(m));
  }
}
