/** Code assignment and decoding in bzip2. */
module Huffman {
  import opened Common
  import opened Rotations
  import opened Counting
  import opened CanonicalCode
  import opened BitStream

  const MAX_CODE_LEN := 23
  const MAX_ALPHA_SIZE := 258
  const LONGEST := 20

  /** Code lengths as the stream format allows them. */
  ghost predicate Lengths(lens: seq<Byte>, minLen: int, maxLen: int) {
    && 0 < |lens| <= MAX_ALPHA_SIZE && 1 <= minLen <= maxLen <= LONGEST
    && forall i :: 0 <= i < |lens| ==> minLen <= lens[i] <= maxLen
  }

  lemma {:induction false} NoneShorter(lens: seq<Byte>, minLen: int, maxLen: int, n: nat)
    requires Lengths(lens, minLen, maxLen) && n < minLen
    ensures Used(lens, n) == 0 && Cum(lens, n + 1) == 0
  {
    NoneAt(lens, minLen, maxLen, n, |lens|);
    if n > 0 { NoneShorter(lens, minLen, maxLen, n - 1); }
  }

  lemma {:induction false} NoneAt(lens: seq<Byte>, minLen: int, maxLen: int, n: int, k: nat)
    requires Lengths(lens, minLen, maxLen) && (n < minLen || n > maxLen) && k <= |lens|
    ensures Count(lens, n, k) == 0
  {
    if k > 0 { NoneAt(lens, minLen, maxLen, n, k - 1); }
  }

  // ---------- assigning codes ----------

  /** BZ2_hbAssignCodes. */
  method AssignCodes(length: seq<Byte>, minLen: int, maxLen: int) returns (code: array<int>)
    requires Lengths(length, minLen, maxLen)
    ensures fresh(code) && code.Length == |length|
    ensures forall i :: 0 <= i < |length| ==> code[i] == Code(length, i)
  {
    hide Count, Used;
    var alphaSize := |length|;
    code := new int[alphaSize];
    var vec := 0;
    NoneShorter(length, minLen, maxLen, minLen - 1);
    for n := minLen to maxLen + 1
      invariant vec == First(length, n)
      invariant forall i :: 0 <= i < alphaSize && length[i] < n ==> code[i] == Code(length, i)
    {
      CountStart(length, n);
      for i := 0 to alphaSize
        invariant vec == First(length, n) + Count(length, n, i)
        invariant forall k :: 0 <= k < alphaSize && (length[k] < n || (length[k] == n && k < i)) ==>
                    code[k] == Code(length, k)
      {
        CountNext(length, n, i);
        if length[i] == n {
          code[i] := vec;
          vec := vec + 1;
        }
      }
      vec := vec * 2;
      UsedNext(length, n);
    }
  }

  lemma CountStart(lens: seq<Byte>, c: int)
    ensures Count(lens, c, 0) == 0
  {
  }

  lemma UsedNext(lens: seq<Byte>, n: nat)
    requires n > 0
    ensures Used(lens, n) == First(lens, n) + Count(lens, n, |lens|) && First(lens, n + 1) == 2 * Used(lens, n)
  {
  }

  // ---------- decoding tables ----------

  /** What the tables hold: limit[n] the last value used at length n, base[n] the first
      code of length n less the number of shorter codes, perm the symbols in code order. */
  ghost predicate Tables(lens: seq<Byte>, minLen: int, maxLen: int, limit: array<int>, base: array<int>,
                         perm: array<int>)
    reads limit, base, perm
  {
    && Lengths(lens, minLen, maxLen)
    && limit.Length == MAX_CODE_LEN && base.Length == MAX_CODE_LEN && perm.Length == MAX_ALPHA_SIZE
    && (forall n :: minLen <= n <= maxLen ==> limit[n] == Used(lens, n) - 1)
    && (forall n :: maxLen < n < MAX_CODE_LEN ==> limit[n] == 0)
    && (forall n :: minLen <= n <= maxLen ==> base[n] == First(lens, n) - Cum(lens, n))
    && (forall i :: 0 <= i < |lens| ==> 0 <= Rank(lens, i) < |lens| && perm[Rank(lens, i)] == i)
  }

  /** Lists the symbols by length, equal lengths in order of symbol.  The entries past the
      alphabet are left as they are. */
  method FillPerm(length: seq<Byte>, minLen: int, maxLen: int) returns (perm: array<int>)
    requires Lengths(length, minLen, maxLen)
    ensures fresh(perm) && perm.Length == MAX_ALPHA_SIZE
    ensures forall i :: 0 <= i < |length| ==> 0 <= Rank(length, i) < |length| && perm[Rank(length, i)] == i
  {
    perm := new int[MAX_ALPHA_SIZE];
    RanksPermutation(length);
    ghost var place := Ranks(length);
    var pp := 0;
    NoneShorter(length, minLen, maxLen, minLen - 1);
    for n := minLen to maxLen + 1
      invariant pp == Cum(length, n)
      invariant forall k :: 0 <= k < |length| && place[k] < pp ==> perm[place[k]] == k
    {
      for j := 0 to |length|
        invariant pp == Cum(length, n) + Count(length, n, j)
        invariant forall k :: 0 <= k < |length| && place[k] < pp ==> perm[place[k]] == k
      {
        if length[j] == n {
          assert pp == place[j];
          perm[pp] := j;
          pp := pp + 1;
        }
      }
    }
    forall i | 0 <= i < |length| ensures 0 <= Rank(length, i) < |length| && perm[Rank(length, i)] == i {
      RankInBucket(length, i);
      CumMonotone(length, length[i] as int + 1, maxLen + 1);
      assert place[i] == Rank(length, i);
    }
  }

  /** Counts how many lengths are below each n. */
  method FillBase(length: seq<Byte>, minLen: int, maxLen: int) returns (base: array<int>)
    requires Lengths(length, minLen, maxLen)
    ensures fresh(base) && base.Length == MAX_CODE_LEN
    ensures forall n :: 0 <= n < MAX_CODE_LEN ==> base[n] == Cum(length, n)
  {
    hide Count, Cum;
    base := new int[MAX_CODE_LEN](_ => 0);
    NoneCounted(length);
    for i := 0 to |length|
      invariant base[0] == 0
      invariant forall n :: 1 <= n < MAX_CODE_LEN ==> base[n] == Count(length, n - 1, i)
    {
      forall n | 1 <= n < MAX_CODE_LEN
        ensures Count(length, n - 1, i + 1) == base[n] + if length[i] == n - 1 then 1 else 0
      {
        CountNext(length, n - 1, i);
      }
      base[length[i] as int + 1] := base[length[i] as int + 1] + 1;
    }
    for i := 1 to MAX_CODE_LEN
      invariant forall n :: 0 <= n < i ==> base[n] == Cum(length, n)
      invariant forall n :: i <= n < MAX_CODE_LEN ==> base[n] == Count(length, n - 1, |length|)
    {
      CumNext(length, i - 1);
      base[i] := base[i] + base[i - 1];
    }
  }

  lemma NoneCounted(lens: seq<Byte>)
    ensures Cum(lens, 0) == 0 && forall c :: Count(lens, c, 0) == 0
  {
  }

  lemma CountNext(lens: seq<Byte>, c: int, i: nat)
    requires i < |lens|
    ensures Count(lens, c, i + 1) == Count(lens, c, i) + if lens[i] == c then 1 else 0
  {
  }

  lemma CumNext(lens: seq<Byte>, n: nat)
    ensures Cum(lens, n + 1) == Cum(lens, n) + Count(lens, n, |lens|)
  {
  }

  /** The last value used at each length. */
  method FillLimit(length: seq<Byte>, minLen: int, maxLen: int, below: seq<int>) returns (limit: array<int>)
    requires Lengths(length, minLen, maxLen)
    requires |below| == MAX_CODE_LEN && forall n :: 0 <= n < MAX_CODE_LEN ==> below[n] == Cum(length, n)
    ensures fresh(limit) && limit.Length == MAX_CODE_LEN
    ensures forall n :: minLen <= n <= maxLen ==> limit[n] == Used(length, n) - 1
    ensures forall n :: maxLen < n < MAX_CODE_LEN ==> limit[n] == 0
  {
    hide Count, Used, Cum;
    limit := new int[MAX_CODE_LEN](_ => 0);
    var vec := 0;
    NoneShorter(length, minLen, maxLen, minLen - 1);
    for i := minLen to maxLen + 1
      invariant vec == First(length, i)
      invariant forall n :: minLen <= n < i ==> limit[n] == Used(length, n) - 1
      invariant forall n :: i <= n < MAX_CODE_LEN ==> limit[n] == 0
    {
      CumNext(length, i);
      UsedNext(length, i);
      vec := vec + (below[i + 1] - below[i]);
      limit[i] := vec - 1;
      vec := vec * 2;
    }
  }

  /** BZ2_hbCreateDecodeTables. */
  method CreateDecodeTables(length: seq<Byte>, minLen: int, maxLen: int)
    returns (limit: array<int>, base: array<int>, perm: array<int>)
    requires Lengths(length, minLen, maxLen)
    ensures fresh(limit) && fresh(base) && fresh(perm)
    ensures Tables(length, minLen, maxLen, limit, base, perm)
  {
    hide Rank, Used, Cum, Lengths;
    perm := FillPerm(length, minLen, maxLen);
    base := FillBase(length, minLen, maxLen);
    limit := FillLimit(length, minLen, maxLen, base[..]);
    var last := limit[..];
    NothingShortest(length, minLen, maxLen);
    for i := minLen + 1 to maxLen + 1
      modifies base
      invariant base[minLen] == First(length, minLen) - Cum(length, minLen)
      invariant forall n :: minLen < n < i ==> base[n] == First(length, n) - Cum(length, n)
      invariant forall n :: i <= n < MAX_CODE_LEN ==> base[n] == Cum(length, n)
    {
      base[i] := (last[i - 1] + 1) * 2 - base[i];
    }
  }

  lemma NothingShortest(lens: seq<Byte>, minLen: int, maxLen: int)
    requires Lengths(lens, minLen, maxLen)
    ensures 1 <= minLen <= maxLen <= LONGEST && First(lens, minLen) == 0 && Cum(lens, minLen) == 0
  {
    NoneShorter(lens, minLen, maxLen, minLen - 1);
  }

  // ---------- decoding one symbol ----------

  datatype Decoded = Symbol(sym: int) | NeedMoreBits | BadCode

  /** The code of symbol i stands at position pos of the bits. */
  ghost predicate CodeAt(lens: seq<Byte>, i: int, bits: seq<int>, pos: int)
    requires 0 <= pos <= |bits|
  {
    0 <= i < |lens| && pos + lens[i] <= |bits| && bits[pos..pos + lens[i]] == CodeBits(lens, i)
  }

  /** Whatever the lengths: values between the first code of length n and the limit are the
      codes of that length, their places in the tables lie within the alphabet, and the tables
      lead from value to symbol. */
  lemma SymbolAt(lens: seq<Byte>, minLen: int, maxLen: int, limit: array<int>, base: array<int>, perm: array<int>,
                 bits: seq<int>, pos: int, n: int)
    requires Tables(lens, minLen, maxLen, limit, base, perm)
    requires minLen <= n <= maxLen && 0 <= pos && pos + n <= |bits| && IsBits(bits)
    requires First(lens, n) <= Value(bits[pos..pos + n]) <= limit[n]
    ensures var k := Value(bits[pos..pos + n]) - base[n];
            0 <= k < |lens| && 0 <= perm[k] < |lens| && lens[perm[k]] == n && CodeAt(lens, perm[k], bits, pos)
  {
    hide Used, Value, Bits, Rank;
    var b := bits[pos..pos + n];
    var i := SymbolOfValue(lens, n, Value(b));
    assert perm[Rank(lens, i)] == i;
    ValueBits(b);
  }

  /** Every value from the first code of a length up to the last used is the code of a
      symbol, whose place among all symbols it determines. */
  lemma SymbolOfValue(lens: seq<Byte>, n: nat, v: int) returns (i: int)
    requires 0 < n < 256 && First(lens, n) <= v < Used(lens, n)
    ensures 0 <= i < |lens| && lens[i] == n && Code(lens, i) == v
    ensures Rank(lens, i) == v - First(lens, n) + Cum(lens, n)
  {
    var k := v - First(lens, n) + Cum(lens, n);
    assert Cum(lens, n) <= k < Cum(lens, n + 1);
    CumMonotone(lens, n + 1, 256);
    CumAll(lens);
    RanksPermutation(lens);
    i := PermutationHits(Ranks(lens), |lens|, k);
    RankInBucket(lens, i);
    BucketsDisjoint(lens, k, n, lens[i]);
  }

  /** How the search for a code ends: after zn bits of value zvec, or without one. */
  datatype Found = Found(zn: nat, zvec: int) | Short | TooLong

  /** What limit holds. */
  ghost predicate Limits(lens: seq<Byte>, minLen: int, maxLen: int, limit: seq<int>) {
    && Lengths(lens, minLen, maxLen) && |limit| == MAX_CODE_LEN
    && (forall n :: minLen <= n <= maxLen ==> limit[n] == Used(lens, n) - 1)
    && (forall n :: maxLen < n < MAX_CODE_LEN ==> limit[n] == 0)
  }

  lemma LimitsSize(lens: seq<Byte>, minLen: int, maxLen: int, limit: seq<int>)
    requires Limits(lens, minLen, maxLen, limit)
    ensures Lengths(lens, minLen, maxLen) && 1 <= minLen <= maxLen <= LONGEST && |limit| == MAX_CODE_LEN
  {
  }

  /** A value within the limit ends the search at a length there is; one above it says what
      the next value is at least, and that no code of this length comes next. */
  lemma LimitMeans(lens: seq<Byte>, minLen: int, maxLen: int, limit: seq<int>, bits: seq<int>, n: nat, v: int)
    requires Limits(lens, minLen, maxLen, limit) && minLen <= n <= LONGEST && n <= |bits|
    requires v == Value(bits[0..0 + n]) && First(lens, n) <= v
    ensures v <= limit[n] ==> n <= maxLen
    ensures v > limit[n] ==> First(lens, n + 1) <= 2 * v
    ensures v > limit[n] && Kraft(lens, LONGEST) ==>
              forall i :: 0 <= i < |lens| && CodeAt(lens, i, bits, 0) ==> lens[i] != n
  {
    hide Kraft, CodeAt, Used, First, Value;
    SearchStep(lens, minLen, maxLen, n, v);
    if v > limit[n] && Kraft(lens, LONGEST) { NotThisLong(lens, minLen, maxLen, bits, 0, n); }
  }

  /** The next bit joins the value. */
  lemma ValueGrows(bits: seq<int>, n: nat, b: int)
    requires n < |bits| && b == Value(bits[n..][..1])
    ensures bits[n..][1..] == bits[n + 1..] && Value(bits[0..0 + (n + 1)]) == 2 * Value(bits[0..0 + n]) + b
    ensures b == bits[n]
  {
    hide Value;
    NextBit(bits, n + 1);
    ValueNext(bits, 0, n + 1);
  }

  /** Every code that could come next has at least n bits. */
  ghost predicate AtLeast(lens: seq<Byte>, bits: seq<int>, n: nat) {
    forall i :: 0 <= i < |lens| && CodeAt(lens, i, bits, 0) ==> n <= lens[i]
  }

  lemma AtLeastNext(lens: seq<Byte>, bits: seq<int>, n: nat)
    requires AtLeast(lens, bits, n) && forall i :: 0 <= i < |lens| && CodeAt(lens, i, bits, 0) ==> lens[i] != n
    ensures AtLeast(lens, bits, n + 1)
  {
    hide CodeAt;
  }

  lemma NoneFits(lens: seq<Byte>, minLen: int, maxLen: int, bits: seq<int>, n: nat)
    requires Lengths(lens, minLen, maxLen) && AtLeast(lens, bits, n) && (n > |bits| || n > LONGEST)
    ensures forall i :: !CodeAt(lens, i, bits, 0)
  {
    hide CodeAt;
    forall i ensures !CodeAt(lens, i, bits, 0) { CodeNeedsBits(lens, minLen, maxLen, bits, 0, i); }
  }

  lemma FirstBits(lens: seq<Byte>, minLen: int, maxLen: int, bits: seq<int>)
    requires Lengths(lens, minLen, maxLen) && IsBits(bits)
    ensures AtLeast(lens, bits, minLen)
    ensures minLen <= |bits| ==> bits[0..0 + minLen] == bits[..minLen] && First(lens, minLen) <= Value(bits[..minLen])
  {
    hide Value, First;
    if minLen <= |bits| {
      assert bits[0..0 + minLen] == bits[..minLen];
      SearchStart(lens, minLen, maxLen, bits, 0);
    }
  }

  /** The loop of GET_MTF_VAL: reads bits until their value is within the limit for their
      number, or for longer than any code. */
  method FindCode(d: BitReader, lens: seq<Byte>, gMinlen: int, ghost maxLen: int, gLimit: seq<int>) returns (r: Found)
    requires d.Valid() && Limits(lens, gMinlen, maxLen, gLimit) && |gLimit| == MAX_CODE_LEN
    modifies d
    ensures d.Valid() && |d.Rest()| <= |old(d.Rest())|
    ensures d.Kept() && (old(d.starved) ==> d.starved)
    ensures r.Found? ==> gMinlen <= r.zn <= maxLen <= LONGEST
    ensures r.Found? ==> r.zn <= |old(d.Rest())| && d.Rest() == old(d.Rest())[r.zn..]
    ensures r.Found? ==> r.zvec == Value(old(d.Rest())[0..0 + r.zn]) && First(lens, r.zn) <= r.zvec <= gLimit[r.zn]
    ensures r.Found? ==> d.starved == old(d.starved)
    ensures r.Short? ==> d.starved
    ensures r.TooLong? ==> |old(d.Rest())| == |d.Rest()| + LONGEST + 1
    ensures Kraft(lens, LONGEST) && !r.Found? && d.Fed() ==> forall i :: !CodeAt(lens, i, old(d.Rest()), 0)
  {
    hide BitReader.Valid, BitReader.Rest, Limits, Lengths, AtLeast, Kraft, CodeAt, First, Value;
    ghost var bits, kraft := d.Rest(), Kraft(lens, LONGEST);
    d.RestIsBits();
    LimitsSize(lens, gMinlen, maxLen, gLimit);
    FirstBits(lens, gMinlen, maxLen, bits);
    var zn: nat := gMinlen;
    var got := d.GetBits(zn);
    if got.None? {
      if d.Fed() { NoneFits(lens, gMinlen, maxLen, bits, zn); }
      return Short;
    }
    var zvec := got.value;
    while true
      invariant d.Valid() && gMinlen <= zn <= LONGEST + 1 && zn <= |bits| && d.Rest() == bits[zn..]
      invariant d.Kept() && d.starved == old(d.starved)
      invariant zvec == Value(bits[0..0 + zn]) && First(lens, zn) <= zvec
      invariant kraft ==> AtLeast(lens, bits, zn)
      decreases LONGEST + 1 - zn
    {
      if zn > 20 {
        if kraft { NoneFits(lens, gMinlen, maxLen, bits, zn); }
        return TooLong;
      }
      LimitMeans(lens, gMinlen, maxLen, gLimit, bits, zn, zvec);
      if zvec <= gLimit[zn] { break; }
      if kraft { AtLeastNext(lens, bits, zn); }
      got := d.GetBits(1);
      if got.None? {
        if kraft && d.Fed() { NoneFits(lens, gMinlen, maxLen, bits, zn + 1); }
        return Short;
      }
      ValueGrows(bits, zn, got.value);
      zn := zn + 1;
      zvec := zvec * 2 + got.value;
    }
    r := Found(zn, zvec);
  }

  /** GET_MTF_VAL, less the choice of table.  For any lengths in 1..20, what it returns is a
      symbol whose code comes next, having consumed exactly that code; the place looked up
      always lies within the alphabet, so that a bad code is only ever one too long.  If the
      lengths satisfy the Kraft inequality, it returns a symbol whenever some code comes next,
      unless input is still to come. */
  method GetMtfVal(d: BitReader, lens: seq<Byte>, gMinlen: int, ghost maxLen: int,
                   gLimit: array<int>, gBase: array<int>, gPerm: array<int>)
    returns (r: Decoded)
    requires d.Valid() && Tables(lens, gMinlen, maxLen, gLimit, gBase, gPerm)
    modifies d
    ensures d.Valid() && |d.Rest()| <= |old(d.Rest())|
    ensures d.Kept() && (old(d.starved) ==> d.starved) && (r.Symbol? ==> d.starved == old(d.starved))
    ensures r.Symbol? ==> CodeAt(lens, r.sym, old(d.Rest()), 0) && d.Rest() == old(d.Rest())[lens[r.sym]..]
    ensures r.Symbol? ==> 0 <= r.sym < |lens| && |d.Rest()| < |old(d.Rest())|
    ensures r.BadCode? ==> |old(d.Rest())| == |d.Rest()| + LONGEST + 1
    ensures r.NeedMoreBits? ==> d.starved
    ensures Kraft(lens, LONGEST) && !r.Symbol? && d.Fed() ==> forall i :: !CodeAt(lens, i, old(d.Rest()), 0)
  {
    hide Kraft, CodeAt, Used, First, Value, Cum, HeldAtBottom, BytesBits;
    d.RestIsBits();
    var found := FindCode(d, lens, gMinlen, maxLen, gLimit[..]);
    if found.Short? { return NeedMoreBits; }
    if found.TooLong? { return BadCode; }
    var zn, zvec := found.zn, found.zvec;
    SymbolAt(lens, gMinlen, maxLen, gLimit, gBase, gPerm, old(d.Rest()), 0, zn);
    if zvec - gBase[zn] < 0 || zvec - gBase[zn] >= MAX_ALPHA_SIZE {
      assert false;
    }
    r := Symbol(gPerm[zvec - gBase[zn]]);
  }

  lemma NextBit(bits: seq<int>, n: int)
    requires 0 < n <= |bits|
    ensures Value(bits[n - 1..][..1]) == bits[n - 1] && bits[n - 1..][1..] == bits[n..]
  {
    var b := bits[n - 1..][..1];
    assert b == [bits[n - 1]] && b[..0] == [];
    assert Value(b) == 2 * Value(b[..0]) + b[0];
  }

  lemma CodeNeedsBits(lens: seq<Byte>, minLen: int, maxLen: int, bits: seq<int>, pos: int, i: int)
    requires Lengths(lens, minLen, maxLen) && 0 <= pos <= |bits|
    ensures CodeAt(lens, i, bits, pos) ==> 0 <= i < |lens| && minLen <= lens[i] <= LONGEST && pos + lens[i] <= |bits|
  {
  }

  lemma SearchStart(lens: seq<Byte>, minLen: int, maxLen: int, bits: seq<int>, pos: int)
    requires Lengths(lens, minLen, maxLen) && 0 <= pos && pos + minLen <= |bits| && IsBits(bits)
    ensures First(lens, minLen) <= Value(bits[pos..pos + minLen])
    ensures forall i :: 0 <= i < |lens| && CodeAt(lens, i, bits, pos) ==> minLen <= lens[i]
  {
    NoneShorter(lens, minLen, maxLen, minLen - 1);
    ValueBits(bits[pos..pos + minLen]);
  }

  lemma ValueNext(bits: seq<int>, pos: int, n: int)
    requires 0 <= pos && 0 < n && pos + n <= |bits|
    ensures Value(bits[pos..pos + n]) == 2 * Value(bits[pos..pos + n - 1]) + bits[pos + n - 1]
  {
    assert bits[pos..pos + n][..n - 1] == bits[pos..pos + n - 1];
  }

  /** What follows a value above the limit lies above the codes of the next length; past the
      longest length no limit is ever met. */
  lemma SearchStep(lens: seq<Byte>, minLen: int, maxLen: int, n: int, v: int)
    requires Lengths(lens, minLen, maxLen) && minLen <= n <= LONGEST && First(lens, n) <= v
    ensures n > maxLen ==> 0 < v
    ensures n > maxLen || Used(lens, n) <= v ==> First(lens, n + 1) <= 2 * v
  {
    if n > maxLen {
      NoneAt(lens, minLen, maxLen, n, |lens|);
      UsedSome(lens, minLen, maxLen, n - 1);
    }
  }

  /** A value above the limit is no code of its length. */
  lemma NotThisLong(lens: seq<Byte>, minLen: int, maxLen: int, bits: seq<int>, pos: int, n: int)
    requires Lengths(lens, minLen, maxLen) && Kraft(lens, LONGEST)
    requires minLen <= n <= LONGEST && 0 <= pos && pos + n <= |bits|
    requires n > maxLen || Used(lens, n) <= Value(bits[pos..pos + n])
    ensures forall i :: 0 <= i < |lens| && CodeAt(lens, i, bits, pos) ==> lens[i] != n
  {
    if n <= maxLen {
      forall i | 0 <= i < |lens| && CodeAt(lens, i, bits, pos) ensures lens[i] != n {
        CodeValue(lens, i, LONGEST);
      }
    }
  }

  lemma UsedSome(lens: seq<Byte>, minLen: int, maxLen: int, n: nat)
    requires Lengths(lens, minLen, maxLen) && maxLen <= n
    ensures Used(lens, n) > 0
  {
    UsedGrows(lens, lens[0], n);
    CountStep(lens, 0, |lens|);
    MulMonotone(1, Used(lens, lens[0]), Pow2(n - lens[0]));
  }
}
