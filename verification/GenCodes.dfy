/** gen_codes and bi_reverse of zlib: the canonical code, each code stored with its bits
    reversed so that its first bit is sent first. */
module GenCodes {
  import opened Common
  import opened Counting
  import opened CanonicalCode
  import opened BitLengths

  function Reversed(b: seq<int>): (r: seq<int>)
    ensures |r| == |b| && forall i :: 0 <= i < |b| ==> r[i] == b[|b| - 1 - i]
  {
    seq(|b|, i requires 0 <= i < |b| => b[|b| - 1 - i])
  }

  /** Bit k of a number, counted from the lowest. */
  lemma {:induction false} BitAt(v: nat, n: nat, k: nat)
    requires k < n
    ensures Bits(v, n)[n - 1 - k] == (v / Pow2(k)) % 2
    decreases n
  {
    if k == 0 {
      assert v / 1 == v;
    } else {
      BitAt(v / 2, n - 1, k - 1);
      TwoDivisions(v, 2, Pow2(k - 1));
    }
  }

  lemma BitsNext(r: nat, k: nat, b: int)
    requires b == 0 || b == 1
    ensures Bits(2 * r + b, k + 1) == Bits(r, k) + [b]
  {
    assert (2 * r + b) / 2 == r && (2 * r + b) % 2 == b;
  }

  lemma QuotientStep(v: nat, k: nat)
    ensures (v / Pow2(k)) / 2 == v / Pow2(k + 1)
  {
    TwoDivisions(v, 2, Pow2(k));
    TwoDivisions(v, Pow2(k), 2);
  }

  /** bi_reverse. */
  method BiReverse(code0: nat, len0: nat) returns (res: nat)
    requires 1 <= len0
    ensures Bits(res, len0) == Reversed(Bits(code0, len0)) && res < Pow2(len0)
  {
    hide Bits, Pow2, Reversed;
    ghost var rev := Reversed(Bits(code0, len0));
    ghost var half: nat := 0;
    var code, len := code0, len0;
    res := 0;
    Start(code0, rev);
    while true
      invariant 1 <= len <= len0 && res == 2 * half && code == code0 / Pow2(len0 - len)
      invariant Bits(half, len0 - len) == rev[..len0 - len] && half < Pow2(len0 - len)
      decreases len
    {
      ghost var k := len0 - len;
      BitAt(code0, len0, k);
      BitsNext(half, k, code % 2);
      QuotientStep(code0, k);
      PowerNext(k);
      res := res + code % 2;
      half := res;
      code := code / 2;
      res := res * 2;
      len := len - 1;
      assert rev[..k + 1] == rev[..k] + [rev[k]];
      if len == 0 { break; }
    }
    assert rev[..len0] == rev;
    res := res / 2;
  }

  lemma Start(code: nat, rev: seq<int>)
    ensures Bits(0, 0) == rev[..0] && 0 < Pow2(0) && code / Pow2(0) == code
  {
    assert code / 1 == code;
  }

  lemma PowerNext(k: nat)
    ensures Pow2(k + 1) == 2 * Pow2(k)
  {
  }

  // ---------- gen_codes ----------

  /** What the counts of a complete set of lengths look like to gen_codes. */
  ghost predicate Counted(lens: seq<Byte>, blCount: seq<int>) {
    && |blCount| == MAX_BITS + 1 && blCount[0] == 0 && (forall i :: 0 <= i < |lens| ==> lens[i] <= MAX_BITS)
    && forall d :: 1 <= d <= MAX_BITS ==> blCount[d] == Count(lens, d, |lens|)
  }

  lemma UsedRange(lens: seq<Byte>, d: nat)
    requires d <= MAX_BITS && Kraft(lens, MAX_BITS)
    ensures Used(lens, d) <= Pow2(d) <= 0x8000
  {
    UsedFits(lens, d, MAX_BITS);
    Pow2Monotone(d, MAX_BITS);
    assert Pow2(5) == 32 && Pow2(10) == 0x400 && Pow2(15) == 0x8000;
  }

  /** The codes: each symbol's canonical code, reversed, in as many bits as its length.  No
      16-bit code counter overflows. */
  method AssignCodes(lens: seq<Byte>, blCount: seq<int>) returns (codes: array<int>)
    requires Counted(lens, blCount) && Kraft(lens, MAX_BITS)
    ensures fresh(codes) && codes.Length == |lens|
    ensures forall i :: 0 <= i < |lens| && lens[i] > 0 ==>
              0 <= codes[i] < Pow2(lens[i]) && Bits(codes[i], lens[i]) == Reversed(CodeBits(lens, i))
  {
    hide Kraft, Pow2, Bits, Reversed, Count;
    var nextCode := new int[MAX_BITS + 1];
    var code := 0;
    for bits := 1 to MAX_BITS + 1
      modifies nextCode
      invariant code == First(lens, bits - 1)
      invariant forall d :: 1 <= d < bits ==> nextCode[d] == First(lens, d)
    {
      UsedRange(lens, bits);
      FirstNext(lens, bits, blCount);
      code := (code + blCount[bits - 1]) * 2;
      assert code <= 0xffff;
      nextCode[bits] := code;
    }
    codes := new int[|lens|];
    NoneCounted(lens);
    for n := 0 to |lens|
      modifies codes, nextCode
      invariant forall d :: 1 <= d <= MAX_BITS ==> nextCode[d] == First(lens, d) + Count(lens, d, n)
      invariant forall i :: 0 <= i < n && lens[i] > 0 ==>
                  0 <= codes[i] < Pow2(lens[i]) && Bits(codes[i], lens[i]) == Reversed(CodeBits(lens, i))
    {
      var len := lens[n];
      CountNext(lens, n);
      if len == 0 { continue; }
      var c := nextCode[len];
      CodeIs(lens, n);
      CodeFits(lens, n, MAX_BITS);
      UsedRange(lens, len);
      assert c == Code(lens, n) && c + 1 <= 0xffff;
      nextCode[len] := c + 1;
      codes[n] := BiReverse(c, len);
    }
  }

  lemma FirstNext(lens: seq<Byte>, bits: nat, blCount: seq<int>)
    requires Counted(lens, blCount) && 1 <= bits <= MAX_BITS
    ensures First(lens, bits) == (First(lens, bits - 1) + blCount[bits - 1]) * 2 ==
            2 * Used(lens, bits - 1) <= Used(lens, bits)
  {
  }

  lemma NoneCounted(lens: seq<Byte>)
    ensures forall d :: Count(lens, d, 0) == 0
  {
  }

  lemma CountNext(lens: seq<Byte>, n: nat)
    requires n < |lens|
    ensures forall d :: Count(lens, d, n + 1) == Count(lens, d, n) + if lens[n] == d then 1 else 0
  {
  }

  lemma CodeIs(lens: seq<Byte>, n: nat)
    requires n < |lens|
    ensures Code(lens, n) == First(lens, lens[n]) + Count(lens, lens[n], n)
    ensures CodeBits(lens, n) == Bits(Code(lens, n), lens[n])
  {
  }

  /** A complete code uses every string of the greatest length, so that its last code is all
      ones: the consistency check in gen_codes cannot fail. */
  lemma LastCodeAllOnes(lens: seq<Byte>)
    requires KraftSum(lens, MAX_BITS, |lens|) == Pow2(MAX_BITS)
    ensures First(lens, MAX_BITS) + Count(lens, MAX_BITS, |lens|) - 1 == Pow2(MAX_BITS) - 1
  {
    UsedIsKraftSum(lens, MAX_BITS);
  }

  // ---------- from tree nodes to symbols ----------

  /** The lengths of the symbols from 0 to maxCode, read off the node array. */
  ghost predicate SymbolLengths(lens: seq<Byte>, dl: seq<int>, order: seq<int>, maxCode: int) {
    && |lens| == maxCode + 1 <= |dl| && Distinct(order) && (forall i :: 0 <= i < |order| ==> 0 <= order[i] < |dl|)
    && (forall i :: 0 <= i <= maxCode ==> lens[i] == dl[i])
    && forall i :: 0 <= i <= maxCode && i !in order ==> lens[i] == 0
  }

  ghost function SymbolsOf(lens: seq<Byte>, d: int, n: nat): (r: set<int>)
    requires n <= |lens|
    ensures forall i :: i in r <==> 0 <= i < n && lens[i] == d
  {
    set i | 0 <= i < n && lens[i] == d
  }

  lemma {:induction false} CountIsSize(lens: seq<Byte>, d: int, n: nat)
    requires n <= |lens|
    ensures Count(lens, d, n) == |SymbolsOf(lens, d, n)|
  {
    if n == 0 {
      assert SymbolsOf(lens, d, 0) == {};
    } else {
      CountIsSize(lens, d, n - 1);
      if lens[n - 1] == d {
        assert SymbolsOf(lens, d, n) == SymbolsOf(lens, d, n - 1) + {n - 1};
      } else {
        assert SymbolsOf(lens, d, n) == SymbolsOf(lens, d, n - 1);
      }
    }
  }

  ghost function LeavesOf(dl: seq<int>, order: seq<int>, maxCode: int, d: int, n: nat): (r: set<int>)
    requires n <= |order|
  {
    set x | x in order[..n] && x <= maxCode && 0 <= x < |dl| && dl[x] == d
  }

  lemma LeavesOfNext(dl: seq<int>, order: seq<int>, maxCode: int, d: int, n: nat)
    requires 0 < n <= |order| && Distinct(order) && 0 <= order[n - 1] < |dl|
    ensures var x := order[n - 1];
            && x !in LeavesOf(dl, order, maxCode, d, n - 1)
            && LeavesOf(dl, order, maxCode, d, n) ==
               LeavesOf(dl, order, maxCode, d, n - 1) + if x <= maxCode && dl[x] == d then {x} else {}
  {
    assert order[..n] == order[..n - 1] + [order[n - 1]];
    assert forall k :: 0 <= k < n - 1 ==> order[..n - 1][k] == order[k] != order[n - 1];
  }

  lemma {:induction false} LenInIsSize(dl: seq<int>, order: seq<int>, maxCode: int, d: int, n: nat)
    requires n <= |order| && Distinct(order) && forall i :: 0 <= i < |order| ==> 0 <= order[i] < |dl|
    ensures LenIn(dl, order, maxCode, 0, n, d) == |LeavesOf(dl, order, maxCode, d, n)|
  {
    if n == 0 {
      assert LeavesOf(dl, order, maxCode, d, 0) == {};
    } else {
      hide LeavesOf;
      LenInIsSize(dl, order, maxCode, d, n - 1);
      LeavesOfNext(dl, order, maxCode, d, n);
    }
  }

  /** Counting a length over the tree's leaves or over the symbols is the same. */
  lemma CountsAgree(lens: seq<Byte>, dl: seq<int>, order: seq<int>, maxCode: int, d: nat)
    requires SymbolLengths(lens, dl, order, maxCode) && d > 0
    ensures Count(lens, d, |lens|) == LenIn(dl, order, maxCode, 0, |order|, d)
  {
    CountIsSize(lens, d, |lens|);
    LenInIsSize(dl, order, maxCode, d, |order|);
    assert order[..|order|] == order;
    assert SymbolsOf(lens, d, |lens|) == LeavesOf(dl, order, maxCode, d, |order|);
  }

  /** The Kraft sum by symbols is the one by counts. */
  lemma {:induction false} UsedIsCounted(lens: seq<Byte>, s: seq<int>, l: nat, b: nat)
    requires b <= l < |s| && forall d :: 1 <= d <= b ==> s[d] == Count(lens, d, |lens|)
    ensures Used(lens, b) * Pow2(l - b) == CountedKraft(s, l, b)
  {
    if b > 0 {
      UsedIsCounted(lens, s, l, b - 1);
      PowerNext(l - b);
      UsedTerm(Used(lens, b - 1), s[b], Pow2(l - b));
    }
  }

  lemma UsedTerm(u: int, c: int, p: int)
    ensures (2 * u + c) * p == u * (2 * p) + c * p
  {
  }
}
