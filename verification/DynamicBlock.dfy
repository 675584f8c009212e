/** A block with codes of its own, from tokens to bits and back: what compress_block sends, the
    symbol loop of inflate() reads. */
module DynamicBlock {
  import opened Common
  import opened StringHash
  import opened CanonicalCode
  import opened TableSpec
  import opened InflateTable
  import opened CodeRanges
  import opened Tokens
  import opened CodeTables
  import GenCodes

  // ---------- bits, first bit lowest ----------

  /** The n low bits of v as send_bits sends them. */
  function LowBits(v: nat, n: nat): (b: seq<int>)
    ensures |b| == n
  {
    if n == 0 then [] else [v % 2] + LowBits(v / 2, n - 1)
  }

  /** The number that coming bits make in the bit accumulator. */
  function Hold(bits: seq<int>): nat
    requires IsBits(bits)
    decreases |bits|
  {
    if bits == [] then 0 else bits[0] + 2 * Hold(bits[1..])
  }

  lemma {:induction false} LowBitsAre(v: nat, n: nat)
    ensures IsBits(LowBits(v, n))
  {
    if n > 0 { LowBitsAre(v / 2, n - 1); }
  }

  lemma TwiceMod(q: nat, b: nat, p: nat)
    requires b < 2 && p > 0
    ensures (b + 2 * q) % (2 * p) == b + 2 * (q % p)
  {
    var d := q / p;
    assert q == d * p + q % p;
    MulDouble(d, p);
    QuotientUnique(b + 2 * q, 2 * p, d, b + 2 * (q % p));
  }

  /** A number sent is a number read. */
  lemma {:induction false} LowOfHold(v: nat, n: nat, rest: seq<int>)
    requires v < Pow2(n) && IsBits(rest)
    ensures IsBits(LowBits(v, n) + rest) && Low(Hold(LowBits(v, n) + rest), n) == v
    decreases n
  {
    LowBitsAre(v, n);
    var all := LowBits(v, n) + rest;
    if n > 0 {
      assert all[1..] == LowBits(v / 2, n - 1) + rest && all[0] == v % 2;
      LowOfHold(v / 2, n - 1, rest);
      TwiceMod(Hold(all[1..]), v % 2, Pow2(n - 1));
    }
  }

  // ---------- symbols of lengths and distances ----------

  /** The symbol of a value, the last whose range has begun. */
  function SymbolDown(ty: CodeType, v: int, top: nat): (s: nat)
    requires top < MaxSymbols(ty)
    ensures s <= top
  {
    if top == 0 || FirstOf(ty, top) <= v then top else SymbolDown(ty, v, top - 1)
  }

  function LengthSymbol(len: int): (s: nat)
    ensures s <= 285
  {
    if len == 258 then 285 else SymbolDown(Lens, len, 284)
  }

  function DistanceSymbol(dist: int): (s: nat)
    ensures s < 30
  {
    SymbolDown(Dists, dist, 29)
  }

  lemma {:induction false} DownFinds(ty: CodeType, v: int, sym: int, top: nat)
    requires (ty == Lens && 257 <= sym <= top <= 284) || (ty == Dists && 0 <= sym <= top < 30)
    requires InRange(ty, sym, v)
    ensures SymbolDown(ty, v, top) == sym
    decreases top
  {
    hide FirstOf, Pow2;
    if sym < top {
      RangesApart(ty, sym, top);
      DownFinds(ty, v, sym, top - 1);
    }
  }

  lemma LengthSymbolIs(len: int)
    requires MIN_MATCH <= len <= MAX_MATCH
    ensures var s := LengthSymbol(len);
            257 <= s <= 285 && FirstOf(Lens, s) <= len < FirstOf(Lens, s) + Pow2(ExtraBits(Lens, s))
  {
    hide FirstOf, Pow2;
    LengthsTile(285);
    Powers13();
    if len < 258 {
      var s := OneLength(len);
      assert InRange(Lens, s, len);
      DownFinds(Lens, len, s, 284);
    }
  }

  lemma DistanceSymbolIs(dist: int)
    requires 1 <= dist <= 32768
    ensures InRange(Dists, DistanceSymbol(dist), dist)
  {
    hide FirstOf, Pow2;
    var s := OneDistance(dist);
    assert InRange(Dists, s, dist);
    DownFinds(Dists, dist, s, 29);
  }

  // ---------- the bits of a block ----------

  /** Lengths and codes, of literals and lengths and of distances. */
  datatype Coding = Coding(llens: seq<Byte>, lcodes: seq<int>, dlens: seq<Byte>, dcodes: seq<int>)

  ghost predicate Fits(lens: seq<Byte>, codes: seq<int>) {
    |codes| == |lens| && forall n :: 0 <= n < |lens| && 0 < lens[n] ==> 0 <= codes[n] < Pow2(lens[n])
  }

  /** Symbol s has a code. */
  predicate Has(lens: seq<Byte>, s: nat) { s < |lens| && lens[s] > 0 }

  /** A token that the code has symbols for. */
  predicate Codable(c: Coding, t: Token) {
    match t
    case Literal(b) => Has(c.llens, b)
    case Copy(dist, len) =>
      && MIN_MATCH <= len <= MAX_MATCH && 1 <= dist <= 32768
      && Has(c.llens, LengthSymbol(len)) && Has(c.dlens, DistanceSymbol(dist))
  }

  function CodeLow(lens: seq<Byte>, codes: seq<int>, s: nat): seq<int>
    requires |codes| == |lens| && Has(lens, s) && 0 <= codes[s]
  {
    LowBits(codes[s], lens[s])
  }

  /** A value's place in its symbol's range. */
  function ExtraLow(ty: CodeType, s: nat, v: nat): seq<int>
    requires s < MaxSymbols(ty)
  {
    LowBits(if v >= FirstOf(ty, s) then v - FirstOf(ty, s) else 0, ExtraBits(ty, s))
  }

  ghost function TokenBits(c: Coding, t: Token): seq<int>
    requires Fits(c.llens, c.lcodes) && Fits(c.dlens, c.dcodes) && Codable(c, t)
  {
    match t
    case Literal(b) => CodeLow(c.llens, c.lcodes, b)
    case Copy(dist, len) =>
      CodeLow(c.llens, c.lcodes, LengthSymbol(len)) + ExtraLow(Lens, LengthSymbol(len), len) +
      (CodeLow(c.dlens, c.dcodes, DistanceSymbol(dist)) + ExtraLow(Dists, DistanceSymbol(dist), dist))
  }

  ghost predicate AllCodable(c: Coding, toks: seq<Token>) {
    && Fits(c.llens, c.lcodes) && Fits(c.dlens, c.dcodes) && Has(c.llens, 256)
    && forall i :: 0 <= i < |toks| ==> Codable(c, toks[i])
  }

  /** All tokens, and the end of the block. */
  ghost function BlockBits(c: Coding, toks: seq<Token>): seq<int>
    requires AllCodable(c, toks)
  {
    if toks == [] then CodeLow(c.llens, c.lcodes, 256) else TokenBits(c, toks[0]) + BlockBits(c, toks[1..])
  }

  // ---------- sending ----------

  lemma MapsAgree(m: StaticMaps, len: nat, dist: nat)
    requires Mapped(m) && MIN_MATCH <= len <= MAX_MATCH && 1 <= dist <= 32768
    ensures 0 <= m.lengthCode[len - 3] < 29 && m.lengthCode[len - 3] + 257 == LengthSymbol(len)
    ensures 0 <= m.distCode[DCodeAt(dist - 1)] < 30 && m.distCode[DCodeAt(dist - 1)] == DistanceSymbol(dist)
  {
    hide FirstOf, InRange, SymbolDown;
    if len < 258 { DownFinds(Lens, len, 257 + m.lengthCode[len - 3], 284); }
    DownFinds(Dists, dist, m.distCode[DCodeAt(dist - 1)], 29);
  }

  lemma MapBases(m: StaticMaps, len: nat, dist: nat)
    requires Mapped(m) && MIN_MATCH <= len <= MAX_MATCH && 1 <= dist <= 32768
    ensures var code := LengthSymbol(len) - 257;
            0 <= code < 29 && EXTRA_LBITS[code] == ExtraBits(Lens, code + 257) && FirstOf(Lens, code + 257) <= len
            && (EXTRA_LBITS[code] != 0 ==> len - 3 - m.baseLength[code] == len - FirstOf(Lens, code + 257))
    ensures var code := DistanceSymbol(dist);
            EXTRA_DBITS[code] == ExtraBits(Dists, code) && FirstOf(Dists, code) <= dist
            && dist - 1 - m.baseDist[code] == dist - FirstOf(Dists, code)
  {
    hide FirstOf, SymbolDown, Pow2;
    LengthSymbolIs(len);
    DistanceSymbolIs(dist);
    ExtraTables(LengthSymbol(len) - 257);
    ExtraTables(DistanceSymbol(dist));
  }

  /** One round of compress_block's loop. */
  method SendToken(m: StaticMaps, c: Coding, t: Token) returns (bits: seq<int>)
    requires Mapped(m) && Fits(c.llens, c.lcodes) && Fits(c.dlens, c.dcodes) && Codable(c, t)
    ensures bits == TokenBits(c, t)
  {
    hide Mapped, FirstOf, LengthSymbol, DistanceSymbol, LowBits, Pow2;
    match t
    case Literal(b) =>
      bits := CodeLow(c.llens, c.lcodes, b);
    case Copy(dist, len) =>
      MapsAgree(m, len, dist);
      MapBases(m, len, dist);
      MapSizes(m);
      var lc := len - MIN_MATCH;
      var code := m.lengthCode[lc];
      bits := CodeLow(c.llens, c.lcodes, code + 257);
      var extra := EXTRA_LBITS[code];
      ghost var first := bits;
      if extra != 0 { bits := bits + LowBits(lc - m.baseLength[code], extra); }
      assert bits == first + ExtraLow(Lens, LengthSymbol(len), len) by { NoLowBits(len - FirstOf(Lens, code + 257)); }
      var dcode := m.distCode[DCodeAt(dist - 1)];
      ghost var before := bits;
      bits := bits + CodeLow(c.dlens, c.dcodes, dcode);
      extra := EXTRA_DBITS[dcode];
      ghost var second := bits;
      if extra != 0 { bits := bits + LowBits(dist - 1 - m.baseDist[dcode], extra); }
      assert bits == second + ExtraLow(Dists, DistanceSymbol(dist), dist) by {
        NoLowBits(dist - FirstOf(Dists, dcode));
      }
      Associate(before, CodeLow(c.dlens, c.dcodes, dcode), ExtraLow(Dists, DistanceSymbol(dist), dist));
  }

  lemma NoLowBits(v: nat)
    ensures LowBits(v, 0) == []
  {
  }

  lemma MapSizes(m: StaticMaps)
    requires Mapped(m)
    ensures m.lengthCode.Length == 256 && m.baseLength.Length == 29 && m.distCode.Length == 512 &&
            m.baseDist.Length == 30
  {
  }

  /** compress_block. */
  method CompressBlock(m: StaticMaps, c: Coding, toks: seq<Token>) returns (bits: seq<int>)
    requires Mapped(m) && AllCodable(c, toks)
    ensures bits == BlockBits(c, toks)
  {
    hide Mapped, Fits, Codable, TokenBits, CodeLow, Has;
    bits := [];
    assert toks[0..] == toks;
    CodableOpen(c, toks);
    for i := 0 to |toks|
      invariant AllCodable(c, toks[i..]) && bits + BlockBits(c, toks[i..]) == BlockBits(c, toks)
    {
      assert toks[i..][0] == toks[i] && toks[i..][1..] == toks[i + 1..];
      var more := SendToken(m, c, toks[i]);
      Associate(bits, more, BlockBits(c, toks[i + 1..]));
      bits := bits + more;
    }
    bits := bits + CodeLow(c.llens, c.lcodes, 256);
  }

  lemma CodableOpen(c: Coding, toks: seq<Token>)
    requires AllCodable(c, toks)
    ensures Fits(c.llens, c.lcodes) && Fits(c.dlens, c.dcodes) && |c.lcodes| == |c.llens| && Has(c.llens, 256)
    ensures 0 <= c.lcodes[256]
  {
  }

  // ---------- reading ----------

  /** What the symbol loop of inflate() finds next. */
  datatype Item = Tok(t: Token) | End | Bad | Short

  /** One lookup: the entry, and what is left after its bits; none if they are not all there. */
  method NextEntry(tb: seq<Entry>, root: nat, bits: seq<int>) returns (e: Option<Entry>, left: seq<int>)
    requires Pow2(root) <= |tb| && IsBits(bits)
    ensures var r := Lookup(tb, root, Hold(bits));
            && (e.Some? <==> 0 < r.1 <= |bits|) && (e.Some? ==> e.value == r.0 && left == bits[r.1..])
            && (e.None? ==> left == bits)
  {
    var r := Lookup(tb, root, Hold(bits));
    if r.1 <= 0 || r.1 > |bits| { return None, bits; }
    e, left := Some(r.0), bits[r.1..];
  }

  /** Extra bits. */
  method NextExtra(bits: seq<int>, extra: nat) returns (v: Option<nat>, left: seq<int>)
    requires IsBits(bits)
    ensures v.Some? <==> extra <= |bits|
    ensures v.Some? ==> v.value == Low(Hold(bits), extra) && left == bits[extra..]
    ensures v.None? ==> left == bits
  {
    if extra > |bits| { return None, bits; }
    v, left := Some(Low(Hold(bits), extra)), bits[extra..];
  }

  /** The tables lead back from every code. */
  ghost predicate CodedFor(c: Coding, ltb: seq<Entry>, lroot: nat, dtb: seq<Entry>, droot: nat) {
    && Fits(c.llens, c.lcodes) && Fits(c.dlens, c.dcodes) && |c.llens| <= 286 && |c.dlens| <= 30
    && Meet(Lens, c.llens, c.lcodes, ltb, lroot) && Meet(Dists, c.dlens, c.dcodes, dtb, droot)
  }

  lemma CodedTables(c: Coding, ltb: seq<Entry>, lroot: nat, dtb: seq<Entry>, droot: nat)
    requires CodedFor(c, ltb, lroot, dtb, droot)
    ensures Fits(c.llens, c.lcodes) && Fits(c.dlens, c.dcodes) && |c.llens| <= 286 && |c.dlens| <= 30
    ensures |c.lcodes| == |c.llens| && |c.dcodes| == |c.dlens|
    ensures Meet(Lens, c.llens, c.lcodes, ltb, lroot) && Meet(Dists, c.dlens, c.dcodes, dtb, droot)
  {
    hide Meet;
  }

  /** A code that comes is looked up. */
  lemma EntryComes(ty: CodeType, lens: seq<Byte>, codes: seq<int>, tb: seq<Entry>, root: nat, s: nat, rest: seq<int>)
    requires |lens| <= MaxSymbols(ty) && Fits(lens, codes) && Meet(ty, lens, codes, tb, root) && Has(lens, s) &&
             IsBits(rest)
    ensures 0 <= codes[s]
    ensures var bits := CodeLow(lens, codes, s) + rest;
            && IsBits(bits) && Pow2(root) <= |tb| && 0 < lens[s] <= |bits| && bits[lens[s]..] == rest
            && var r := Lookup(tb, root, Hold(bits));
               r.1 == lens[s] && r.0.op == SymbolOp(ty, s) && r.0.val == SymbolVal(ty, s)
  {
    hide Lookup, Low, Hold, LowBits, SymbolOp, SymbolVal, Pow2;
    LowOfHold(codes[s], lens[s], rest);
    var bits := CodeLow(lens, codes, s) + rest;
    assert Low(Hold(bits), lens[s]) == codes[s];
    var r := Lookup(tb, root, Hold(bits));
  }

  /** So are extra bits. */
  lemma ExtraComes(ty: CodeType, s: nat, v: int, rest: seq<int>)
    requires s < MaxSymbols(ty) && IsBits(rest) && FirstOf(ty, s) <= v < FirstOf(ty, s) + Pow2(ExtraBits(ty, s)) &&
             0 <= v
    ensures var bits := ExtraLow(ty, s, v) + rest;
            && IsBits(bits) && ExtraBits(ty, s) <= |bits| && bits[ExtraBits(ty, s)..] == rest
            && Low(Hold(bits), ExtraBits(ty, s)) == v - FirstOf(ty, s)
  {
    hide Low, Hold, LowBits, Pow2, FirstOf;
    LowOfHold(v - FirstOf(ty, s), ExtraBits(ty, s), rest);
  }

  /** What is to be read: a token, or the end of the block. */
  ghost predicate Comes(c: Coding, want: Option<Token>, bits: seq<int>, rest: seq<int>) {
    && Fits(c.llens, c.lcodes) && Fits(c.dlens, c.dcodes) && IsBits(rest)
    && match want
       case Some(t) => Codable(c, t) && bits == TokenBits(c, t) + rest
       case None => Has(c.llens, 256) && bits == CodeLow(c.llens, c.lcodes, 256) + rest
  }

  /** The first symbol of what comes, and what comes after it. */
  ghost function FirstSymbol(want: Option<Token>): nat {
    match want
    case None => 256
    case Some(Literal(b)) => b
    case Some(Copy(dist, len)) => LengthSymbol(len)
  }

  ghost function AfterFirst(c: Coding, want: Option<Token>, rest: seq<int>): seq<int>
    requires Fits(c.llens, c.lcodes) && Fits(c.dlens, c.dcodes) && (want.Some? ==> Codable(c, want.value))
  {
    match want
    case Some(Copy(dist, len)) =>
      ExtraLow(Lens, LengthSymbol(len), len) +
      (CodeLow(c.dlens, c.dcodes, DistanceSymbol(dist)) + (ExtraLow(Dists, DistanceSymbol(dist), dist) + rest))
    case _ => rest
  }

  lemma ComesBits(c: Coding, want: Option<Token>, bits: seq<int>, rest: seq<int>)
    requires Comes(c, want, bits, rest)
    ensures IsBits(rest) && (want.Some? ==> Codable(c, want.value)) &&
            (want.None? || want.value.Literal? ==> AfterFirst(c, want, rest) == rest)
    ensures want.Some? && want.value.Copy? ==> MIN_MATCH <= want.value.len <= MAX_MATCH && 1 <= want.value.dist <= 32768
  {
  }

  lemma ComesInParts(c: Coding, want: Option<Token>, bits: seq<int>, rest: seq<int>)
    requires Comes(c, want, bits, rest)
    ensures Has(c.llens, FirstSymbol(want)) && Fits(c.llens, c.lcodes) && Fits(c.dlens, c.dcodes)
    ensures want.Some? ==> Codable(c, want.value)
    ensures bits == CodeLow(c.llens, c.lcodes, FirstSymbol(want)) + AfterFirst(c, want, rest)
  {
    hide LowBits, LengthSymbol, DistanceSymbol, ExtraLow, CodeLow;
    if want.Some? && want.value.Copy? {
      var dist, len := want.value.dist, want.value.len;
      var a, x := CodeLow(c.llens, c.lcodes, LengthSymbol(len)), ExtraLow(Lens, LengthSymbol(len), len);
      var b, y := CodeLow(c.dlens, c.dcodes, DistanceSymbol(dist)), ExtraLow(Dists, DistanceSymbol(dist), dist);
      assert a + x + (b + y) + rest == a + (x + (b + (y + rest)));
    }
  }

  /** All that follows the first symbol are bits. */
  lemma AfterIsBits(c: Coding, want: Option<Token>, rest: seq<int>)
    requires Fits(c.llens, c.lcodes) && Fits(c.dlens, c.dcodes) && (want.Some? ==> Codable(c, want.value)) &&
             IsBits(rest)
    ensures IsBits(AfterFirst(c, want, rest))
    ensures want.Some? && want.value.Copy? ==>
              var s := DistanceSymbol(want.value.dist);
              IsBits(CodeLow(c.dlens, c.dcodes, s) + (ExtraLow(Dists, s, want.value.dist) + rest))
              && IsBits(ExtraLow(Dists, s, want.value.dist) + rest)
  {
    hide LowBits, LengthSymbol, DistanceSymbol, FirstOf;
    if want.Some? && want.value.Copy? {
      var dist, len := want.value.dist, want.value.len;
      var s := DistanceSymbol(dist);
      LowBitsAre(c.dcodes[s], c.dlens[s]);
      LowBitsAre(if dist >= FirstOf(Dists, s) then dist - FirstOf(Dists, s) else 0, ExtraBits(Dists, s));
      var l := LengthSymbol(len);
      LowBitsAre(if len >= FirstOf(Lens, l) then len - FirstOf(Lens, l) else 0, ExtraBits(Lens, l));
    }
  }

  /** The entry of the first symbol says what comes. */
  lemma FirstMeans(want: Option<Token>)
    requires want.Some? && want.value.Copy? ==>
               MIN_MATCH <= want.value.len <= MAX_MATCH && 1 <= want.value.dist <= 32768
    ensures var m := SymbolMeaning(Lens, FirstSymbol(want));
            match want
            case None => m == EndOfBlock
            case Some(Literal(b)) => m == Plain(b)
            case Some(Copy(dist, len)) =>
              m == Base(FirstOf(Lens, LengthSymbol(len)), ExtraBits(Lens, LengthSymbol(len)))
  {
    hide FirstOf, LengthSymbol, SymbolMeaning, Pow2;
    LiteralsAndEnd(FirstSymbol(want));
    if want.Some? && want.value.Copy? {
      LengthSymbolIs(want.value.len);
      LengthsTile(LengthSymbol(want.value.len));
    }
  }

  lemma DistanceMeansWell(dist: int)
    requires 1 <= dist <= 32768
    ensures var s := DistanceSymbol(dist);
            SymbolOp(Dists, s) / 64 % 2 == 0 && SymbolOp(Dists, s) % 16 == ExtraBits(Dists, s) &&
                SymbolVal(Dists, s) == FirstOf(Dists, s)
  {
    hide DistanceSymbol, Pow2;
    DistancesTile(DistanceSymbol(dist));
  }

  lemma CodesThere(lens: seq<Byte>, codes: seq<int>, s: nat)
    requires Fits(lens, codes) && Has(lens, s)
    ensures |codes| == |lens| && 0 <= codes[s]
  {
  }

  /** Everything that follows the symbol of a length, read in turn. */
  lemma MatchReads(c: Coding, dist: nat, len: nat, dtb: seq<Entry>, droot: nat, rest: seq<int>)
    requires Fits(c.llens, c.lcodes) && Fits(c.dlens, c.dcodes) && IsBits(rest) && |c.dlens| <= 30
    requires Meet(Dists, c.dlens, c.dcodes, dtb, droot) && Codable(c, Copy(dist, len))
    ensures var l, s := LengthSymbol(len), DistanceSymbol(dist);
            var b2 := ExtraLow(Dists, s, dist) + rest;
            var b1 := CodeLow(c.dlens, c.dcodes, s) + b2;
            var b0 := ExtraLow(Lens, l, len) + b1;
            && b0 == AfterFirst(c, Some(Copy(dist, len)), rest)
            && IsBits(b0) && IsBits(b1) && IsBits(b2)
            && ExtraBits(Lens, l) <= |b0| && b0[ExtraBits(Lens, l)..] == b1
            && Low(Hold(b0), ExtraBits(Lens, l)) == len - FirstOf(Lens, l)
            && Pow2(droot) <= |dtb|
            && (var r := Lookup(dtb, droot, Hold(b1));
                && 0 < r.1 <= |b1| && b1[r.1..] == b2 && r.0.op / 64 % 2 == 0
                && r.0.op % 16 == ExtraBits(Dists, s) && r.0.val == FirstOf(Dists, s))
            && ExtraBits(Dists, s) <= |b2| && b2[ExtraBits(Dists, s)..] == rest
            && Low(Hold(b2), ExtraBits(Dists, s)) == dist - FirstOf(Dists, s)
  {
    hide Lookup, Low, Hold, CodeLow, Has, LowBits, Meet, Fits, SymbolOp, SymbolVal, FirstOf, ExtraLow, LengthSymbol,
         DistanceSymbol, Pow2;
    var l, s := LengthSymbol(len), DistanceSymbol(dist);
    CodesThere(c.dlens, c.dcodes, s);
    AfterIsBits(c, Some(Copy(dist, len)), rest);
    LengthSymbolIs(len);
    DistanceSymbolIs(dist);
    var b2 := ExtraLow(Dists, s, dist) + rest;
    ExtraComes(Lens, l, len, CodeLow(c.dlens, c.dcodes, s) + b2);
    EntryComes(Dists, c.dlens, c.dcodes, dtb, droot, s, b2);
    ExtraComes(Dists, s, dist, rest);
    DistanceMeansWell(dist);
  }

  /** The rest of a match: LENEXT, DIST and DISTEXT. */
  method ReadDistance(dtb: seq<Entry>, droot: nat, bits: seq<int>, base: int, extra: nat,
                      ghost c: Coding, ghost want: Option<Token>, ghost rest: seq<int>, ghost good: bool)
    returns (item: Item, left: seq<int>)
    requires Pow2(droot) <= |dtb| && IsBits(bits)
    requires good ==> Fits(c.llens, c.lcodes) && Fits(c.dlens, c.dcodes) && IsBits(rest) && |c.dlens| <= 30
    requires good ==> Meet(Dists, c.dlens, c.dcodes, dtb, droot)
    requires good ==> want.Some? && want.value.Copy? && Codable(c, want.value) && bits == AfterFirst(c, want, rest)
    requires good ==>
               var s := LengthSymbol(want.value.len); base == FirstOf(Lens, s) && extra == ExtraBits(Lens, s)
    ensures IsBits(left) && |left| <= |bits|
    ensures good ==> left == rest && item == Tok(want.value)
  {
    hide Lookup, Low, Hold, CodeLow, Has, LowBits, Meet, Fits, SymbolOp, SymbolVal, FirstOf, ExtraLow, LengthSymbol,
         DistanceSymbol, Pow2;
    if good { MatchReads(c, want.value.dist, want.value.len, dtb, droot, rest); }
    var x, y, e;
    x, left := NextExtra(bits, extra);
    if x.None? { return Short, left; }
    e, left := NextEntry(dtb, droot, left);
    if e.None? { return Short, left; }
    if e.value.op / 64 % 2 == 1 { return Bad, left; }
    y, left := NextExtra(left, e.value.op % 16);
    if y.None? { return Short, left; }
    if base + x.value < 0 || e.value.val + y.value < 0 { return Bad, left; }
    item := Tok(Copy(e.value.val + y.value, base + x.value));
  }

  /** The LEN to DISTEXT states: a literal, a length with its distance, or the end. */
  method ReadItem(ltb: seq<Entry>, lroot: nat, dtb: seq<Entry>, droot: nat, bits: seq<int>,
                  ghost c: Coding, ghost want: Option<Token>, ghost rest: seq<int>)
    returns (item: Item, left: seq<int>)
    requires Pow2(lroot) <= |ltb| && Pow2(droot) <= |dtb| && IsBits(bits)
    ensures IsBits(left) && |left| <= |bits| && (item.Tok? ==> |left| < |bits|)
    ensures CodedFor(c, ltb, lroot, dtb, droot) && Comes(c, want, bits, rest) ==>
              left == rest && item == if want.Some? then Tok(want.value) else End
  {
    hide Lookup, Low, Hold, TokenBits, CodeLow, CodedFor, Comes, Has, LowBits, Meet, Fits, SymbolOp, SymbolVal, FirstOf,
         ExtraLow, LengthSymbol, DistanceSymbol, AfterFirst, MeaningOf, Pow2;
    ghost var good, s := CodedFor(c, ltb, lroot, dtb, droot) && Comes(c, want, bits, rest), FirstSymbol(want);
    if good {
      CodedTables(c, ltb, lroot, dtb, droot);
      ComesInParts(c, want, bits, rest);
      ComesBits(c, want, bits, rest);
      AfterIsBits(c, want, rest);
      EntryComes(Lens, c.llens, c.lcodes, ltb, lroot, s, AfterFirst(c, want, rest));
      FirstMeans(want);
    }
    var e;
    e, left := NextEntry(ltb, lroot, bits);
    if e.None? { return Short, left; }
    var m := MeaningOf(e.value.op, e.value.val);
    if m.Plain? { return Tok(Literal(m.value % 256)), left; }
    if m.EndOfBlock? { return End, left; }
    if m.Invalid? { return Bad, left; }
    item, left := ReadDistance(dtb, droot, left, m.base, m.extra, c, want, rest, good);
  }

  /** The symbol loop of inflate(), up to the end of the block, or as far as it gets. */
  method ReadSymbols(ltb: seq<Entry>, lroot: nat, dtb: seq<Entry>, droot: nat, bits: seq<int>,
                     ghost c: Coding, ghost toks: seq<Token>, ghost rest: seq<int>)
    returns (got: seq<Token>, last: Item, left: seq<int>)
    requires Pow2(lroot) <= |ltb| && Pow2(droot) <= |dtb| && IsBits(bits)
    ensures IsBits(left) && !last.Tok?
    ensures CodedFor(c, ltb, lroot, dtb, droot) && AllCodable(c, toks) && IsBits(rest) &&
            bits == BlockBits(c, toks) + rest ==>
              got == toks && last == End && left == rest
  {
    hide CodedFor, Comes, BlockBits, AllCodable, Pow2, IsBits;
    ghost var good := CodedFor(c, ltb, lroot, dtb, droot) && AllCodable(c, toks) && IsBits(rest) &&
        bits == BlockBits(c, toks) + rest;
    got, left := [], bits;
    assert toks[0..] == toks;
    while true
      invariant IsBits(left) && (good ==> |got| <= |toks|)
      invariant good ==>
                  got == toks[..|got|] && AllCodable(c, toks[|got|..]) && left == BlockBits(c, toks[|got|..]) + rest
      decreases |left|
    {
      ghost var want := if good && |got| < |toks| then Some(toks[|got|]) else None;
      if good { NextComes(c, toks, |got|, left, rest); }
      ghost var after := if good && |got| < |toks| then BlockBits(c, toks[|got| + 1..]) + rest else rest;
      var item;
      item, left := ReadItem(ltb, lroot, dtb, droot, left, c, want, after);
      if !item.Tok? {
        if good { assert toks[..|toks|] == toks; }
        return got, item, left;
      }
      if good { assert toks[..|got| + 1] == toks[..|got|] + [toks[|got|]]; }
      got := got + [item.t];
    }
  }

  lemma {:induction false} BlockBitsAre(c: Coding, toks: seq<Token>)
    requires AllCodable(c, toks)
    ensures IsBits(BlockBits(c, toks))
    decreases |toks|
  {
    hide LowBits, LengthSymbol, DistanceSymbol, FirstOf;
    if toks == [] {
      LowBitsAre(c.lcodes[256], c.llens[256]);
    } else {
      BlockBitsAre(c, toks[1..]);
      TokenBitsAre(c, toks[0]);
    }
  }

  lemma TokenBitsAre(c: Coding, t: Token)
    requires Fits(c.llens, c.lcodes) && Fits(c.dlens, c.dcodes) && Codable(c, t)
    ensures IsBits(TokenBits(c, t))
  {
    hide LowBits, LengthSymbol, DistanceSymbol, FirstOf;
    match t
    case Literal(b) => LowBitsAre(c.lcodes[b], c.llens[b]);
    case Copy(dist, len) =>
      AfterIsBits(c, Some(t), []);
      LowBitsAre(c.lcodes[LengthSymbol(len)], c.llens[LengthSymbol(len)]);
      var x := AfterFirst(c, Some(t), []);
      var s, l := DistanceSymbol(dist), LengthSymbol(len);
      var tail := CodeLow(c.dlens, c.dcodes, s) + ExtraLow(Dists, s, dist);
      assert x == ExtraLow(Lens, l, len) + tail;
      assert TokenBits(c, t) == CodeLow(c.llens, c.lcodes, l) + x;
  }

  /** What comes when the first k tokens have been read. */
  lemma NextComes(c: Coding, toks: seq<Token>, k: nat, bits: seq<int>, rest: seq<int>)
    requires k <= |toks| && AllCodable(c, toks[k..]) && IsBits(rest) && bits == BlockBits(c, toks[k..]) + rest
    ensures k == |toks| ==> Comes(c, None, bits, rest)
    ensures k < |toks| ==>
              AllCodable(c, toks[k + 1..]) && Comes(c, Some(toks[k]), bits, BlockBits(c, toks[k + 1..]) + rest)
  {
    hide TokenBits, CodeLow, Has, Fits;
    if k < |toks| {
      assert toks[k..][0] == toks[k] && toks[k..][1..] == toks[k + 1..];
      assert AllCodable(c, toks[k + 1..]);
      BlockBitsAre(c, toks[k + 1..]);
      Associate(TokenBits(c, toks[k]), BlockBits(c, toks[k + 1..]), rest);
      assert Codable(c, toks[k..][0]);
    }
  }

  // ---------- frequencies ----------

  /** How often a symbol is used. */
  function LengthUses(toks: seq<Token>, s: nat): nat {
    if toks == [] then 0
    else
      var t := toks[|toks| - 1];
      LengthUses(toks[..|toks| - 1], s) +
          if s == (match t case Literal(b) => b case Copy(_, len) => LengthSymbol(len)) then 1 else 0
  }

  function DistanceUses(toks: seq<Token>, s: nat): nat {
    if toks == [] then 0
    else
      var t := toks[|toks| - 1];
      DistanceUses(toks[..|toks| - 1], s) + if t.Copy? && s == DistanceSymbol(t.dist) then 1 else 0
  }

  /** Matches as the format has them. */
  predicate Regular(t: Token) { t.Copy? ==> MIN_MATCH <= t.len <= MAX_MATCH && 1 <= t.dist <= 32768 }

  /** The counts of init_block and _tr_tally. */
  method Tally(m: StaticMaps, toks: seq<Token>) returns (lfreqs: seq<nat>, dfreqs: seq<nat>)
    requires Mapped(m) && forall i :: 0 <= i < |toks| ==> Regular(toks[i])
    ensures |lfreqs| == 286 && |dfreqs| == 30
    ensures forall s :: 0 <= s < 286 ==> lfreqs[s] == LengthUses(toks, s) + if s == 256 then 1 else 0
    ensures forall s :: 0 <= s < 30 ==> dfreqs[s] == DistanceUses(toks, s)
  {
    hide Mapped, LengthSymbol, DistanceSymbol;
    lfreqs, dfreqs := seq(286, _ => 0)[256 := 1], seq(30, _ => 0);
    for i := 0 to |toks|
      invariant |lfreqs| == 286 && |dfreqs| == 30
      invariant forall s :: 0 <= s < 286 ==> lfreqs[s] == LengthUses(toks[..i], s) + if s == 256 then 1 else 0
      invariant forall s :: 0 <= s < 30 ==> dfreqs[s] == DistanceUses(toks[..i], s)
    {
      assert toks[..i + 1][..i] == toks[..i] && toks[..i + 1][i] == toks[i];
      match toks[i]
      case Literal(b) => lfreqs := lfreqs[b := lfreqs[b] + 1];
      case Copy(dist, len) =>
        assert Regular(toks[i]);
        MapsAgree(m, len, dist);
        MapSizes(m);
        var s, d := m.lengthCode[len - MIN_MATCH] + 257, m.distCode[DCodeAt(dist - 1)];
        lfreqs, dfreqs := lfreqs[s := lfreqs[s] + 1], dfreqs[d := dfreqs[d] + 1];
    }
    assert toks[..|toks|] == toks;
  }

  lemma {:induction false} UsedIsCounted(toks: seq<Token>, i: nat)
    requires i < |toks|
    ensures toks[i].Literal? ==> LengthUses(toks, toks[i].byte) > 0
    ensures toks[i].Copy? ==>
              LengthUses(toks, LengthSymbol(toks[i].len)) > 0 && DistanceUses(toks, DistanceSymbol(toks[i].dist)) > 0
    decreases |toks|
  {
    hide LengthSymbol, DistanceSymbol;
    if i < |toks| - 1 { UsedIsCounted(toks[..|toks| - 1], i); }
  }

  /** Every token of the block has codes. */
  lemma AllHave(toks: seq<Token>, c: Coding, lfreqs: seq<nat>, dfreqs: seq<nat>)
    requires (forall i :: 0 <= i < |toks| ==> Regular(toks[i])) && |lfreqs| == 286 && |dfreqs| == 30
    requires forall s :: 0 <= s < 286 ==> lfreqs[s] == LengthUses(toks, s) + if s == 256 then 1 else 0
    requires forall s :: 0 <= s < 30 ==> dfreqs[s] == DistanceUses(toks, s)
    requires forall n :: 0 <= n < 286 && lfreqs[n] > 0 ==> Has(c.llens, n)
    requires forall n :: 0 <= n < 30 && dfreqs[n] > 0 ==> Has(c.dlens, n)
    requires Fits(c.llens, c.lcodes) && Fits(c.dlens, c.dcodes)
    ensures AllCodable(c, toks)
  {
    hide Has, Fits, LengthSymbol, DistanceSymbol;
    forall i | 0 <= i < |toks| ensures Codable(c, toks[i]) {
      UsedIsCounted(toks, i);
      assert Regular(toks[i]);
    }
  }

  // ---------- there and back ----------

  /** Any tokens that the format allows, and any bits after them: counted, given codes by
      build_tree, sent by compress_block, and read by inflate()'s loop with the tables that
      inflate_table makes of those codes, they come back, and the bits after them are left. */
  method ThereAndBack(toks: seq<Token>, rest: seq<int>)
    returns (bits: seq<int>, got: seq<Token>, last: Item, left: seq<int>)
    requires (forall i :: 0 <= i < |toks| ==> Regular(toks[i])) && IsBits(rest)
    ensures got == toks && last == End && left == rest
  {
    hide Meet, Stored, Fits, AllCodable, BlockBits, InRange, LengthUses, DistanceUses, CodedFor, Pow2;
    var m := StaticInit();
    var lfreqs, dfreqs := Tally(m, toks);
    var llens, lcodes, ltb, lroot := CodeTables.ThereAndBack(Lens, lfreqs);
    var dlens, dcodes, dtb, droot := CodeTables.ThereAndBack(Dists, dfreqs);
    var c := Coding(llens, lcodes, dlens, dcodes);
    StoredFits(llens, lcodes);
    StoredFits(dlens, dcodes);
    assert CodedFor(c, ltb[..], lroot, dtb[..], droot) by { CodedMake(c, ltb[..], lroot, dtb[..], droot); }
    AllHave(toks, c, lfreqs, dfreqs);
    bits := CompressBlock(m, c, toks);
    BlockBitsAre(c, toks);
    MeetSizes(Lens, llens, lcodes, ltb[..], lroot);
    MeetSizes(Dists, dlens, dcodes, dtb[..], droot);
    got, last, left := ReadSymbols(ltb[..], lroot, dtb[..], droot, bits + rest, c, toks, rest);
  }

  lemma StoredFits(lens: seq<Byte>, codes: seq<int>)
    requires Stored(lens, codes)
    ensures Fits(lens, codes)
  {
    hide Bits, CodeBits, GenCodes.Reversed, Pow2;
  }

  lemma MeetSizes(ty: CodeType, lens: seq<Byte>, codes: seq<int>, tb: seq<Entry>, root: nat)
    requires |lens| <= MaxSymbols(ty) && Meet(ty, lens, codes, tb, root)
    ensures Pow2(root) <= |tb|
  {
  }

  lemma CodedMake(c: Coding, ltb: seq<Entry>, lroot: nat, dtb: seq<Entry>, droot: nat)
    requires Fits(c.llens, c.lcodes) && Fits(c.dlens, c.dcodes) && |c.llens| <= 286 && |c.dlens| <= 30
    requires Meet(Lens, c.llens, c.lcodes, ltb, lroot) && Meet(Dists, c.dlens, c.dcodes, dtb, droot)
    ensures CodedFor(c, ltb, lroot, dtb, droot)
  {
  }
}
