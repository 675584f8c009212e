/** How the decompressor reads a block's tables and symbols.  Every method accepts any bits;
    if the bits begin with those of a plan, it reads exactly that plan and no bit more.  The
    source stores selectors without comparing their number with its room for them; here such
    a store ends the reading, and when it happens is stated exactly. */
module BlockReceive {
  import opened Common
  import opened CanonicalCode
  import opened MtfEncoder
  import opened SelectorMtf
  import opened BitStream
  import opened Huffman
  import opened BlockFormat

  /** The coming bits are x and then the rest. */
  lemma Coming(bits: seq<int>, a: seq<int>, b: seq<int>, rest: seq<int>)
    requires bits == a + b + rest
    ensures bits == a + (b + rest)
  {
  }

  /** A number of n bits. */
  method GetNumber(d: BitReader, n: nat, ghost sent: nat, ghost rest: seq<int>) returns (v: Option<nat>)
    requires d.Valid() && n <= 24
    modifies d
    ensures d.Kept() && (old(d.starved) ==> d.starved) && (v.Some? ==> d.starved == old(d.starved))
    ensures |d.Rest()| <= |old(d.Rest())|
    ensures d.Valid() && (v.Some? ==> |old(d.Rest())| >= n) && (v.None? ==> d.starved)
    ensures d.Fed() && |old(d.Rest())| >= n ==> v.Some?
    ensures v.Some? ==> v.value == Value(old(d.Rest())[..n]) && d.Rest() == old(d.Rest())[n..]
    ensures v.Some? ==> v.value < Pow2(n) && old(d.Rest()) == Bits(v.value, n) + d.Rest()
    ensures old(d.Rest()) == Bits(sent, n) + rest && sent < Pow2(n) && d.Fed() ==> v == Some(sent) && d.Rest() == rest
  {
    hide HeldAtBottom, BytesBits, Bits, Value;
    ghost var bits := d.Rest();
    d.RestIsBits();
    v := d.GetBits(n);
    if v.Some? { ValueBits(bits[..n]); }
    if bits == Bits(sent, n) + rest && sent < Pow2(n) { ReadsBack(rest, n, sent); }
  }

  /** GET_BIT. */
  method GetFlag(d: BitReader, ghost sent: bool, ghost rest: seq<int>) returns (ok: bool, flag: bool)
    requires d.Valid()
    modifies d
    ensures d.Kept() && (old(d.starved) ==> d.starved) && (ok ==> d.starved == old(d.starved))
    ensures |d.Rest()| <= |old(d.Rest())|
    ensures d.Valid() && (ok ==> old(d.Rest()) != []) && (!ok ==> d.starved) && (d.Fed() && old(d.Rest()) != [] ==> ok)
    ensures ok ==> (flag <==> old(d.Rest())[0] == 1) && d.Rest() == old(d.Rest())[1..]
    ensures old(d.Rest()) == [Flag(sent)] + rest && d.Fed() ==> ok && flag == sent && d.Rest() == rest
  {
    hide HeldAtBottom, BytesBits, Bits, Value;
    OneBit(sent);
    ghost var bits := d.Rest();
    var v := GetNumber(d, 1, Flag(sent), rest);
    ok, flag := v.Some?, v == Some(1);
    if ok { OneValue(bits); }
  }

  lemma OneValue(bits: seq<int>)
    requires bits != []
    ensures Value(bits[..1]) == bits[0]
  {
    var b := bits[..1];
    assert b == [bits[0]] && b[..0] == [];
    assert Value(b) == 2 * Value(b[..0]) + b[0];
  }

  method GetFlags(d: BitReader, n: nat, ghost sent: seq<bool>, ghost rest: seq<int>)
    returns (ok: bool, flags: seq<bool>)
    requires d.Valid() && |sent| == n
    modifies d
    ensures d.Kept() && (old(d.starved) ==> d.starved) && (ok ==> d.starved == old(d.starved))
    ensures |d.Rest()| <= |old(d.Rest())|
    ensures d.Valid() && (ok ==> |flags| == n)
    ensures old(d.Rest()) == FlagBits(sent) + rest && d.Fed() ==> ok && flags == sent && d.Rest() == rest
  {
    hide BitReader.Valid, BitReader.Rest;
    ghost var good := d.Rest() == FlagBits(sent) + rest;
    ok, flags := true, [];
    assert sent[0..] == sent;
    for i := 0 to n
      invariant d.Valid() && |flags| == i && |d.Rest()| <= |old(d.Rest())|
      invariant d.Kept() && d.starved == old(d.starved)
      invariant good && d.Fed() ==> flags == sent[..i] && d.Rest() == FlagBits(sent[i..]) + rest
    {
      if good && d.Fed() { assert d.Rest() == [Flag(sent[i])] + (FlagBits(sent[i + 1..]) + rest); }
      var flag;
      ok, flag := GetFlag(d, sent[i], FlagBits(sent[i + 1..]) + rest);
      if !ok { return; }
      flags := flags + [flag];
    }
    if good && d.Fed() { assert FlagBits(sent[n..]) + rest == rest; }
  }

  /** The mapping table. */
  method GetMap(d: BitReader, ghost sent: seq<bool>, ghost rest: seq<int>) returns (ok: bool, inUse: seq<bool>)
    requires d.Valid() && |sent| == 256
    modifies d
    ensures d.Kept() && (old(d.starved) ==> d.starved) && (ok ==> d.starved == old(d.starved))
    ensures |d.Rest()| <= |old(d.Rest())|
    ensures d.Valid() && (ok ==> |inUse| == 256)
    ensures old(d.Rest()) == MapBits(sent) + rest && d.Fed() ==> ok && inUse == sent && d.Rest() == rest
  {
    hide BitReader.Valid, BitReader.Rest, FlagBits, RowBits, RowsBits, Row, Summary;
    ghost var good := d.Rest() == MapBits(sent) + rest;
    if good && d.Fed() { Coming(d.Rest(), FlagBits(Summary(sent)), RowsBits(sent, 0), rest); }
    var inUse16;
    ok, inUse16 := GetFlags(d, 16, Summary(sent), RowsBits(sent, 0) + rest);
    inUse := [];
    if !ok { return; }
    for i := 0 to 16
      invariant ok && d.Valid() && |inUse| == 16 * i && |d.Rest()| <= |old(d.Rest())|
      invariant d.Kept() && d.starved == old(d.starved)
      invariant good && d.Fed() ==>
                  inUse16 == Summary(sent) && inUse == sent[..16 * i] && d.Rest() == RowsBits(sent, i) + rest
    {
      RowOpen(sent, i);
      if good && d.Fed() { Coming(d.Rest(), RowBits(sent, i), RowsBits(sent, i + 1), rest); }
      var row;
      ok, row := GetRow(d, inUse16[i], Row(sent, i), RowsBits(sent, i + 1) + rest);
      if !ok { return; }
      inUse := inUse + row;
    }
    RowsEnd(sent);
    if good && d.Fed() { assert [] + rest == rest; }
  }

  lemma RowsEnd(inUse: seq<bool>)
    requires |inUse| == 256
    ensures RowsBits(inUse, 16) == [] && inUse[..256] == inUse
  {
  }

  lemma RowOpen(inUse: seq<bool>, i: int)
    requires |inUse| == 256 && 0 <= i < 16
    ensures inUse[..16 * (i + 1)] == inUse[..16 * i] + Row(inUse, i)
    ensures RowBits(inUse, i) == if true in Row(inUse, i) then FlagBits(Row(inUse, i)) else []
    ensures RowsBits(inUse, i) == RowBits(inUse, i) + RowsBits(inUse, i + 1)
  {
  }

  /** Sixteen flags, all false unless the row has one in use. */
  method GetRow(d: BitReader, used: bool, ghost sent: seq<bool>, ghost rest: seq<int>)
    returns (ok: bool, row: seq<bool>)
    requires d.Valid() && |sent| == 16
    modifies d
    ensures d.Kept() && (old(d.starved) ==> d.starved) && (ok ==> d.starved == old(d.starved))
    ensures |d.Rest()| <= |old(d.Rest())|
    ensures d.Valid() && (ok ==> |row| == 16)
    ensures (used <==> true in sent) && old(d.Rest()) == (if used then FlagBits(sent) else []) + rest && d.Fed() ==>
              ok && row == sent && d.Rest() == rest
  {
    hide BitReader.Valid, BitReader.Rest, FlagBits;
    if used {
      ok, row := GetFlags(d, 16, sent, rest);
    } else {
      ok, row := true, seq(16, _ => false);
      assert [] + rest == rest;
      assert true !in sent ==> forall k :: 0 <= k < 16 ==> sent[k] == row[k];
    }
  }

  // ---------- selectors ----------

  /** What is left after reading a list position in unary, j of it read already; none if the
      bits run out or the position is not below limit. */
  ghost function AfterUnary(bits: seq<int>, j: nat, limit: nat): Option<seq<int>> {
    if bits == [] then None
    else if bits[0] != 1 then Some(bits[1..])
    else if j + 1 >= limit then None
    else AfterUnary(bits[1..], j + 1, limit)
  }

  /** What is left after k positions. */
  ghost function AfterUnaries(bits: seq<int>, limit: nat, k: nat): Option<seq<int>> {
    if k == 0 then Some(bits)
    else
      match AfterUnaries(bits, limit, k - 1)
      case None => None
      case Some(rest) => AfterUnary(rest, 0, limit)
  }

  /** A list position in unary, less than limit. */
  method GetUnary(d: BitReader, limit: nat, ghost sent: nat, ghost rest: seq<int>) returns (ok: bool, j: nat)
    requires d.Valid() && limit > 0
    modifies d
    ensures d.Kept() && (old(d.starved) ==> d.starved) && (ok ==> d.starved == old(d.starved))
    ensures |d.Rest()| <= |old(d.Rest())|
    ensures d.Valid() && (ok ==> j < limit)
    ensures ok ==> AfterUnary(old(d.Rest()), 0, limit).Some?
    ensures d.Fed() && AfterUnary(old(d.Rest()), 0, limit).Some? ==> ok
    ensures ok ==> Some(d.Rest()) == AfterUnary(old(d.Rest()), 0, limit)
    ensures old(d.Rest()) == UnaryBits(sent) + rest && sent < limit && d.Fed() ==> ok && j == sent && d.Rest() == rest
  {
    hide BitReader.Valid, BitReader.Rest;
    ghost var good := d.Rest() == UnaryBits(sent) + rest && sent < limit;
    j := 0;
    while true
      invariant d.Valid() && j < limit && |d.Rest()| <= |old(d.Rest())|
      invariant d.Kept() && d.starved == old(d.starved)
      invariant AfterUnary(d.Rest(), j, limit) == AfterUnary(old(d.Rest()), 0, limit)
      invariant good && d.Fed() ==> j <= sent && d.Rest() == UnaryBits(sent - j) + rest
      decreases limit - j
    {
      ghost var more := if sent > j then UnaryBits(sent - j - 1) + rest else rest;
      if good && d.Fed() && sent > j { Coming(d.Rest(), [1], UnaryBits(sent - j - 1), rest); }
      var flag;
      ok, flag := GetFlag(d, sent > j, more);
      if !ok { return; }
      if !flag { break; }
      j := j + 1;
      if j >= limit { return false, j; }
    }
  }

  /** How reading ends: done, refused, or at a store beyond the end of an array. */
  datatype Reading = Done | Failed | OutOfRange

  /** Among so many announced positions one is read for which there is no room. */
  ghost predicate Overruns(bits: seq<int>, limit: nat, announced: nat) {
    announced > MAX_SELECTORS && AfterUnaries(bits, limit, MAX_SELECTORS + 1).Some?
  }

  /** The positions of the selectors, stored as they are read. */
  method GetPositions(d: BitReader, nGroups: nat, nSelectors: nat, selectorMtf: array<int>, ghost codes: seq<int>,
                      ghost rest: seq<int>)
    returns (r: Reading)
    requires d.Valid() && nGroups > 0 && selectorMtf.Length == MAX_SELECTORS && forall k :: 0 <= k < |codes| ==>
               0 <= codes[k]
    modifies d, selectorMtf
    ensures d.Kept() && (old(d.starved) ==> d.starved) && (r.Done? ==> d.starved == old(d.starved))
    ensures |d.Rest()| <= |old(d.Rest())|
    ensures d.Valid() && (r.OutOfRange? ==> Overruns(old(d.Rest()), nGroups, nSelectors))
    ensures d.Fed() && Overruns(old(d.Rest()), nGroups, nSelectors) ==> r.OutOfRange?
    ensures r.Done? ==> nSelectors <= MAX_SELECTORS && forall k :: 0 <= k < nSelectors ==> 0 <= selectorMtf[k] < nGroups
    ensures r.Done? ==> Some(d.Rest()) == AfterUnaries(old(d.Rest()), nGroups, nSelectors)
    ensures old(d.Rest()) == AllUnary(codes) + rest && |codes| == nSelectors <= MAX_SELECTORS &&
            (forall k :: 0 <= k < |codes| ==> codes[k] < nGroups) && d.Fed() ==>
              r.Done? && selectorMtf[..nSelectors] == codes && d.Rest() == rest
  {
    hide BitReader.Valid, BitReader.Rest, UnaryBits, AllUnary, AfterUnary, AfterUnaries, Overruns;
    ghost var bits := d.Rest();
    ghost var good := bits == AllUnary(codes) + rest && |codes| == nSelectors <= MAX_SELECTORS &&
        forall k :: 0 <= k < |codes| ==> codes[k] < nGroups;
    NoPositions(codes, rest);
    UnariesNone(bits, nGroups);
    OverrunsIs(bits, nGroups, nSelectors);
    for i := 0 to nSelectors
      invariant |d.Rest()| <= |old(d.Rest())|
      invariant d.Valid() && i <= MAX_SELECTORS && forall k :: 0 <= k < i ==> 0 <= selectorMtf[k] < nGroups
      invariant d.Kept() && d.starved == old(d.starved)
      invariant Some(d.Rest()) == AfterUnaries(bits, nGroups, i)
      invariant good && d.Fed() ==> d.Rest() == AllUnary(codes[i..]) + rest
      invariant good && d.Fed() ==> forall k :: 0 <= k < i ==> selectorMtf[k] == codes[k]
    {
      ghost var code := if good then codes[i] else 0;
      ghost var more := if good then AllUnary(codes[i + 1..]) + rest else rest;
      if good && d.Fed() {
        NextPosition(d.Rest(), codes, i, rest);
      }
      UnariesNext(bits, nGroups, i, d.Rest());
      var ok, j := GetUnary(d, nGroups, code, more);
      if !ok {
        if d.Fed() { UnariesStop(bits, nGroups, i + 1, MAX_SELECTORS + 1); }
        return Failed;
      }
      if i >= selectorMtf.Length { return OutOfRange; }
      selectorMtf[i] := j;
    }
    if good && d.Fed() { assert selectorMtf[..nSelectors] == codes; }
    r := Done;
  }

  lemma OverrunsIs(bits: seq<int>, limit: nat, announced: nat)
    ensures Overruns(bits, limit, announced) <==>
            announced > MAX_SELECTORS && AfterUnaries(bits, limit, MAX_SELECTORS + 1).Some?
  {
  }

  lemma NoPositions(codes: seq<int>, rest: seq<int>)
    requires forall k :: 0 <= k < |codes| ==> 0 <= codes[k]
    ensures codes[0..] == codes && codes[..|codes|] == codes && AllUnary(codes[|codes|..]) + rest == rest
  {
    assert [] + rest == rest;
  }

  lemma NextPosition(bits: seq<int>, codes: seq<int>, i: nat, rest: seq<int>)
    requires i < |codes| && (forall k :: 0 <= k < |codes| ==> 0 <= codes[k]) && bits == AllUnary(codes[i..]) + rest
    ensures bits == UnaryBits(codes[i]) + (AllUnary(codes[i + 1..]) + rest)
  {
    hide UnaryBits;
    assert codes[i..][0] == codes[i] && codes[i..][1..] == codes[i + 1..];
    Coming(bits, UnaryBits(codes[i]), AllUnary(codes[i + 1..]), rest);
  }

  lemma UnariesNone(bits: seq<int>, limit: nat)
    ensures AfterUnaries(bits, limit, 0) == Some(bits)
  {
  }

  lemma UnariesNext(bits: seq<int>, limit: nat, k: nat, rest: seq<int>)
    requires AfterUnaries(bits, limit, k) == Some(rest)
    ensures AfterUnaries(bits, limit, k + 1) == AfterUnary(rest, 0, limit)
  {
  }

  /** Once reading has failed it does not recover. */
  lemma {:induction false} UnariesStop(bits: seq<int>, limit: nat, k: nat, n: nat)
    requires AfterUnaries(bits, limit, k) == None
    ensures k <= n ==> AfterUnaries(bits, limit, n) == None
    decreases n
  {
    if k < n { UnariesStop(bits, limit, k, n - 1); }
  }

  /** The table count and the selector count that come before the positions. */
  ghost predicate Announces(bits: seq<int>, nGroups: int, nSelectors: int) {
    |bits| >= 18 && nGroups == Value(bits[..3]) && nSelectors == Value(bits[3..18])
  }

  /** The selectors about to be read will not fit. */
  ghost predicate SelectorsOverrun(bits: seq<int>) {
    |bits| >= 18 && 2 <= Value(bits[..3]) <= GROUP_LIMIT && 0 <= Value(bits[3..18])
    && Overruns(bits[18..], Value(bits[..3]), Value(bits[3..18]))
  }

  lemma {:induction false} ZerosRead(n: nat, k: nat, limit: nat)
    requires k <= n && limit > 0
    ensures AfterUnaries(Repeat(0, n), limit, k) == Some(Repeat(0, n - k))
  {
    if k > 0 {
      ZerosRead(n, k - 1, limit);
      assert Repeat(0, n - k + 1)[1..] == Repeat(0, n - k);
    }
  }

  /** The bits that announce n selectors and are followed by n positions of zero. */
  ghost function Announcement(nGroups: nat, n: nat): seq<int> { Bits(nGroups, 3) + Bits(n, 15) + Repeat(0, n) }

  lemma AnnouncementReads(nGroups: nat, n: nat)
    requires 2 <= nGroups <= GROUP_LIMIT && n < 0x8000
    ensures Announces(Announcement(nGroups, n), nGroups, n) && Announcement(nGroups, n)[18..] == Repeat(0, n)
  {
    hide Bits, Value;
    var b := Announcement(nGroups, n);
    assert Pow2(3) == 8;
    PowerFifteen();
    BitsValue(nGroups, 3);
    BitsValue(n, 15);
    assert b[..3] == Bits(nGroups, 3) && b[3..18] == Bits(n, 15);
  }

  lemma PowerFifteen()
    ensures Pow2(15) == 0x8000
  {
    assert Pow2(7) == 128;
    Powers();
    Pow2Add(8, 7);
  }

  /** The announced count decides: with at most MAX_SELECTORS, no bits whatever lead to a
      store out of range, and with any greater count some do. */
  lemma RoomForSelectors(n: nat)
    requires n < 0x8000
    ensures n <= MAX_SELECTORS <==>
              forall bits, nGroups {:trigger Announces(bits, nGroups, n)} :: Announces(bits, nGroups, n) ==>
              !SelectorsOverrun(bits)
  {
    hide Bits, Value, AfterUnaries;
    if n > MAX_SELECTORS {
      AnnouncementReads(2, n);
      ZerosRead(n, MAX_SELECTORS + 1, 2);
      assert SelectorsOverrun(Announcement(2, n));
    }
  }

  /** The least such input: 18003 selectors, all of them zero. */
  lemma OneTooMany()
    ensures MAX_SELECTORS == 18002 && SelectorsOverrun(Announcement(2, 18003))
  {
    hide Bits, Value, AfterUnaries;
    AnnouncementReads(2, 18003);
    ZerosRead(18003, MAX_SELECTORS + 1, 2);
  }

  /** The two counts. */
  method GetCounts(d: BitReader, ghost p: Plan, ghost rest: seq<int>) returns (ok: bool, nGroups: nat, nSelectors: nat)
    requires d.Valid() && Suitable(p)
    modifies d
    ensures d.Kept() && (old(d.starved) ==> d.starved) && (ok ==> d.starved == old(d.starved))
    ensures |d.Rest()| <= |old(d.Rest())|
    ensures d.Valid() && (!ok && d.Fed() ==> !SelectorsOverrun(old(d.Rest())))
    ensures ok ==> 2 <= nGroups <= GROUP_LIMIT && 1 <= nSelectors && Announces(old(d.Rest()), nGroups, nSelectors)
    ensures ok ==> d.Rest() == old(d.Rest())[18..]
    ensures old(d.Rest()) == Bits(|p.tables|, 3) + Bits(|p.selector|, 15) + rest && d.Fed() ==>
              ok && nGroups == |p.tables| && nSelectors == |p.selector| && d.Rest() == rest
  {
    hide BitReader.Valid, BitReader.Rest, Suitable, Bits, Overruns, Value;
    SuitableSizes(p);
    SuitableCounts(p);
    ok, nGroups, nSelectors := false, 0, 0;
    ghost var bits := d.Rest();
    if bits == Bits(|p.tables|, 3) + Bits(|p.selector|, 15) + rest {
      Coming(bits, Bits(|p.tables|, 3), Bits(|p.selector|, 15), rest);
    }
    var v := GetNumber(d, 3, |p.tables|, Bits(|p.selector|, 15) + rest);
    if v.None? || v.value < 2 || v.value > 6 { return; }
    nGroups := v.value;
    v := GetNumber(d, 15, |p.selector|, rest);
    if v.None? { return; }
    assert bits[3..][..15] == bits[3..18] && bits[3..][15..] == bits[18..];
    nSelectors := v.value;
    if nSelectors < 1 { FewFit(bits[18..], nGroups, nSelectors); }
    ok := nSelectors >= 1;
  }

  /** The positions, and the selectors they stand for. */
  method StoreSelectors(d: BitReader, nGroups: nat, nSelectors: nat, ghost p: Plan, ghost rest: seq<int>)
    returns (r: Reading, selector: seq<int>)
    requires d.Valid() && Suitable(p) && nGroups > 0 && forall k :: 0 <= k < |p.selector| ==>
               p.selector[k] in Identity(|p.tables|)
    modifies d
    ensures d.Kept() && (old(d.starved) ==> d.starved) && (r.Done? ==> d.starved == old(d.starved))
    ensures d.Valid() && |d.Rest()| <= |old(d.Rest())| &&
            (r.OutOfRange? ==> Overruns(old(d.Rest()), nGroups, nSelectors)) &&
            (d.Fed() && Overruns(old(d.Rest()), nGroups, nSelectors) ==> r.OutOfRange?)
    ensures r.Done? ==> |selector| == nSelectors <= MAX_SELECTORS
    ensures r.Done? ==> forall g :: 0 <= g < |selector| ==> 0 <= selector[g] < nGroups
    ensures old(d.Rest()) == AllUnary(Positions(p.selector, Identity(|p.tables|))) + rest && nGroups == |p.tables| &&
            nSelectors == |p.selector| && d.Fed() ==>
              r.Done? && selector == p.selector && d.Rest() == rest
  {
    hide BitReader.Valid, BitReader.Rest, Suitable, Positions, SelectorsAt, UnaryBits, AllUnary, Overruns, AfterUnaries;
    SuitableSizes(p);
    SuitableCounts(p);
    selector := [];
    ghost var codes := Positions(p.selector, Identity(|p.tables|));
    PositionsBack(p.selector, Identity(|p.tables|));
    var selectorMtf, stored := new int[MAX_SELECTORS], new int[MAX_SELECTORS];
    r := GetPositions(d, nGroups, nSelectors, selectorMtf, codes, rest);
    if !r.Done? { return; }
    DecodeSelectors(selectorMtf[..], nGroups, nSelectors, stored);
    selector := stored[..nSelectors];
    assert selectorMtf[..][..nSelectors] == selectorMtf[..nSelectors];
  }

  /** The selectors.  A store out of range happens exactly when so many are announced and
      can be read. */
  method GetSelectors(d: BitReader, ghost p: Plan, ghost rest: seq<int>)
    returns (r: Reading, nGroups: nat, selector: seq<int>)
    requires d.Valid() && Suitable(p)
    modifies d
    ensures d.Kept() && (old(d.starved) ==> d.starved) && (r.Done? ==> d.starved == old(d.starved))
    ensures |d.Rest()| <= |old(d.Rest())|
    ensures d.Valid() && (r.OutOfRange? ==> SelectorsOverrun(old(d.Rest()))) &&
            (d.Fed() && SelectorsOverrun(old(d.Rest())) ==> r.OutOfRange?)
    ensures r.Done? ==> 2 <= nGroups <= GROUP_LIMIT && 1 <= |selector| <= MAX_SELECTORS
    ensures r.Done? ==> Announces(old(d.Rest()), nGroups, |selector|)
    ensures r.Done? ==> forall g :: 0 <= g < |selector| ==> 0 <= selector[g] < nGroups
    ensures old(d.Rest()) == SelectorBits(p) + rest && d.Fed() ==>
              r.Done? && nGroups == |p.tables| && selector == p.selector && d.Rest() == rest
  {
    hide BitReader.Valid, BitReader.Rest, Suitable, Bits, Positions, AllUnary, Overruns, Value;
    SuitableSizes(p);
    SelectorsInList(p);
    ghost var codes := AllUnary(Positions(p.selector, Identity(|p.tables|)));
    if d.Rest() == SelectorBits(p) + rest {
      Coming(d.Rest(), Bits(|p.tables|, 3) + Bits(|p.selector|, 15), codes, rest);
    }
    var ok, nSelectors;
    ok, nGroups, nSelectors := GetCounts(d, p, codes + rest);
    if !ok { return Failed, nGroups, []; }
    r, selector := StoreSelectors(d, nGroups, nSelectors, p, rest);
  }

  lemma FewFit(bits: seq<int>, limit: nat, announced: nat)
    requires announced <= MAX_SELECTORS
    ensures !Overruns(bits, limit, announced)
  {
  }

  lemma SuitableCounts(p: Plan)
    requires Suitable(p)
    ensures 2 <= |p.tables| <= GROUP_LIMIT && 1 <= |p.selector| <= MAX_SELECTORS
  {
  }

  /** One code length, a step at a time from the one before. */
  method GetLength(d: BitReader, curr0: int, ghost sent: int, ghost rest: seq<int>) returns (ok: bool, curr: int)
    requires d.Valid()
    modifies d
    ensures d.Kept() && (old(d.starved) ==> d.starved) && (ok ==> d.starved == old(d.starved))
    ensures |d.Rest()| <= |old(d.Rest())|
    ensures d.Valid() && (ok ==> 1 <= curr <= LONGEST)
    ensures old(d.Rest()) == Steps(curr0, sent) + rest && 1 <= curr0 <= LONGEST && 1 <= sent <= LONGEST && d.Fed() ==>
              ok && curr == sent && d.Rest() == rest
  {
    hide BitReader.Valid, BitReader.Rest;
    ghost var good := d.Rest() == Steps(curr0, sent) + rest && 1 <= curr0 <= LONGEST && 1 <= sent <= LONGEST;
    curr := curr0;
    while true
      invariant d.Valid() && |d.Rest()| <= |old(d.Rest())|
      invariant d.Kept() && d.starved == old(d.starved)
      invariant good && d.Fed() ==> 1 <= curr <= LONGEST && d.Rest() == Steps(curr, sent) + rest
      decreases |d.Rest()|
    {
      if curr < 1 || curr > 20 { return false, curr; }
      ghost var more := if curr == sent then rest
                        else [Flag(curr > sent)] + (Steps(if curr < sent then curr + 1 else curr - 1, sent) + rest);
      if good && d.Fed() { StepsOpen(d.Rest(), curr, sent, rest); }
      var flag;
      ok, flag := GetFlag(d, curr != sent, more);
      if !ok { return; }
      if !flag { break; }
      ok, flag := GetFlag(d, curr > sent, Steps(if curr < sent then curr + 1 else curr - 1, sent) + rest);
      if !ok { return; }
      if !flag { curr := curr + 1; } else { curr := curr - 1; }
    }
  }

  lemma StepsOpen(bits: seq<int>, curr: int, sent: int, rest: seq<int>)
    requires bits == Steps(curr, sent) + rest
    ensures curr == sent ==> bits == [0] + rest
    ensures curr != sent ==> bits == [1] + ([Flag(curr > sent)] +
                                            (Steps(if curr < sent then curr + 1 else curr - 1, sent) + rest))
  {
    var next := Steps(if curr < sent then curr + 1 else curr - 1, sent);
    if curr != sent {
      assert Steps(curr, sent) == [1, Flag(curr > sent)] + next;
      assert [1, Flag(curr > sent)] + next + rest == [1] + ([Flag(curr > sent)] + (next + rest));
    }
  }

  /** Lengths as the decoder accepts them. */
  ghost predicate InTable(lens: seq<Byte>, alphaSize: nat) {
    |lens| == alphaSize && forall i :: 0 <= i < alphaSize ==> 1 <= lens[i] <= LONGEST
  }

  lemma InTableSizes(tables: seq<seq<Byte>>, alphaSize: nat)
    requires forall t :: 0 <= t < |tables| ==> InTable(tables[t], alphaSize)
    ensures forall t :: 0 <= t < |tables| ==> |tables[t]| == alphaSize
  {
  }

  /** One table of code lengths. */
  method GetTable(d: BitReader, alphaSize: nat, ghost sent: seq<Byte>, ghost rest: seq<int>)
    returns (ok: bool, lens: seq<Byte>)
    requires d.Valid() && sent != []
    modifies d
    ensures d.Kept() && (old(d.starved) ==> d.starved) && (ok ==> d.starved == old(d.starved))
    ensures |d.Rest()| <= |old(d.Rest())|
    ensures d.Valid() && (ok ==> InTable(lens, alphaSize))
    ensures old(d.Rest()) == Bits(sent[0], 5) + DeltaBits(sent[0], sent) + rest && TableFits(sent, alphaSize) &&
            d.Fed() ==>
              ok && lens == sent && d.Rest() == rest
  {
    hide BitReader.Valid, BitReader.Rest, Bits, Steps, Kraft;
    ghost var good := d.Rest() == Bits(sent[0], 5) + DeltaBits(sent[0], sent) + rest && TableFits(sent, alphaSize);
    assert Pow2(5) == 32;
    if good && d.Fed() { Coming(d.Rest(), Bits(sent[0], 5), DeltaBits(sent[0], sent), rest); }
    lens := [];
    var v := GetNumber(d, 5, sent[0], DeltaBits(sent[0], sent) + rest);
    if v.None? { return false, lens; }
    ok := true;
    var curr: int := v.value;
    assert sent[0..] == sent;
    for i := 0 to alphaSize
      invariant |d.Rest()| <= |old(d.Rest())|
      invariant ok && d.Valid() && |lens| == i && forall k :: 0 <= k < i ==> 1 <= lens[k] <= LONGEST
      invariant d.Kept() && d.starved == old(d.starved)
      invariant good && d.Fed() ==>
                  1 <= curr <= LONGEST && lens == sent[..i] && d.Rest() == DeltaBits(curr, sent[i..]) + rest
    {
      ghost var target: int := if good then sent[i] else 0;
      ghost var more := if good then DeltaBits(sent[i], sent[i + 1..]) + rest else rest;
      if good && d.Fed() {
        assert sent[i..][0] == sent[i] && sent[i..][1..] == sent[i + 1..];
        Coming(d.Rest(), Steps(curr, sent[i]), DeltaBits(sent[i], sent[i + 1..]), rest);
      }
      ok, curr := GetLength(d, curr, target, more);
      if !ok { return; }
      lens := lens + [curr];
    }
    if good && d.Fed() { assert [] + rest == rest; }
  }

  method GetTables(d: BitReader, nGroups: nat, alphaSize: nat, ghost sent: seq<seq<Byte>>, ghost rest: seq<int>)
    returns (ok: bool, tables: seq<seq<Byte>>)
    requires d.Valid() && NoneEmpty(sent)
    modifies d
    ensures d.Kept() && (old(d.starved) ==> d.starved) && (ok ==> d.starved == old(d.starved))
    ensures |d.Rest()| <= |old(d.Rest())|
    ensures d.Valid()
    ensures ok ==> |tables| == nGroups
    ensures ok ==> forall t :: 0 <= t < nGroups ==> InTable(tables[t], alphaSize)
    ensures old(d.Rest()) == TablesBits(sent) + rest && |sent| == nGroups && AllFit(sent, alphaSize) && d.Fed() ==>
              ok && tables == sent && d.Rest() == rest
  {
    hide BitReader.Valid, BitReader.Rest, Bits, DeltaBits, TableFits, InTable, TablesBits, AllFit, NoneEmpty;
    ghost var good := d.Rest() == TablesBits(sent) + rest && |sent| == nGroups && AllFit(sent, alphaSize);
    ghost var todo := sent;
    ok, tables := true, [];
    for t := 0 to nGroups
      invariant ok && d.Valid() && |tables| == t && |d.Rest()| <= |old(d.Rest())|
      invariant d.Kept() && d.starved == old(d.starved)
      invariant forall u :: 0 <= u < t ==> InTable(tables[u], alphaSize)
      invariant NoneEmpty(todo) && (good ==> |todo| == nGroups - t && AllFit(todo, alphaSize))
      invariant good && d.Fed() ==> sent == tables + todo && d.Rest() == TablesBits(todo) + rest
    {
      ghost var target, more := [1], rest;
      if good {
        target, more := NextTable(todo, rest, alphaSize);
        todo := todo[1..];
      }
      var lens;
      ok, lens := GetTable(d, alphaSize, target, more);
      if !ok { return; }
      ghost var before := tables;
      tables := tables + [lens];
      if good && d.Fed() { assert before + ([target] + todo) == tables + todo; }
    }
    if good && d.Fed() { NoTables(todo, rest); }
  }

  ghost predicate AllFit(tables: seq<seq<Byte>>, alphaSize: int) {
    forall t :: 0 <= t < |tables| ==> TableFits(tables[t], alphaSize)
  }

  lemma NoTables(tables: seq<seq<Byte>>, rest: seq<int>)
    requires tables == [] && NoneEmpty(tables)
    ensures TablesBits(tables) + rest == rest
  {
    assert [] + rest == rest;
  }

  /** The table to come, and the bits after it. */
  lemma NextTable(todo: seq<seq<Byte>>, rest: seq<int>, alphaSize: int) returns (lens: seq<Byte>, more: seq<int>)
    requires todo != [] && NoneEmpty(todo) && AllFit(todo, alphaSize)
    ensures lens == todo[0] != [] && TableFits(lens, alphaSize) && NoneEmpty(todo[1..]) && AllFit(todo[1..], alphaSize)
    ensures todo == [lens] + todo[1..] && more == TablesBits(todo[1..]) + rest
    ensures TablesBits(todo) + rest == Bits(lens[0], 5) + DeltaBits(lens[0], lens) + more
  {
    hide Bits, DeltaBits, TableFits;
    lens, more := todo[0], TablesBits(todo[1..]) + rest;
    Associate(Bits(lens[0], 5) + DeltaBits(lens[0], lens), TablesBits(todo[1..]), rest);
  }

  // ---------- symbols ----------

  /** The tables made from one table of lengths. */
  datatype DecodeTable = DecodeTable(minLen: int, maxLen: int, limit: array<int>, base: array<int>, perm: array<int>)

  ghost predicate Made(lens: seq<Byte>, t: DecodeTable)
    reads t.limit, t.base, t.perm
  {
    Tables(lens, t.minLen, t.maxLen, t.limit, t.base, t.perm)
  }

  method MakeTables(tables: seq<seq<Byte>>, alphaSize: int) returns (made: seq<DecodeTable>)
    requires 0 < alphaSize <= MAX_ALPHA_SIZE
    requires forall t :: 0 <= t < |tables| ==> InTable(tables[t], alphaSize)
    ensures |made| == |tables| && forall t :: 0 <= t < |tables| ==> Made(tables[t], made[t])
  {
    hide Tables;
    made := [];
    for t := 0 to |tables|
      invariant |made| == t && forall u :: 0 <= u < t ==> Made(tables[u], made[u])
    {
      var minLen, maxLen := LengthRange(tables[t]);
      var limit, base, perm := CreateDecodeTables(tables[t], minLen, maxLen);
      ghost var before := made;
      made := made + [DecodeTable(minLen, maxLen, limit, base, perm)];
      forall u | 0 <= u < t + 1 ensures Made(tables[u], made[u]) {
        if u < t { assert made[u] == before[u]; }
      }
    }
  }

  /** The code that comes next is the only one. */
  lemma OnlyCode(lens: seq<Byte>, i: int, j: int, bits: seq<int>)
    requires Kraft(lens, LONGEST) && (forall k :: 0 <= k < |lens| ==> 1 <= lens[k] <= LONGEST)
    requires CodeAt(lens, i, bits, 0) && CodeAt(lens, j, bits, 0)
    ensures i == j
  {
    hide Kraft, CodeBits;
    if lens[i] <= lens[j] {
      assert bits[0..0 + lens[j]][..lens[i]] == bits[0..0 + lens[i]];
      PrefixFree(lens, i, j, LONGEST);
    } else {
      assert bits[0..0 + lens[i]][..lens[j]] == bits[0..0 + lens[j]];
      PrefixFree(lens, j, i, LONGEST);
    }
  }

  /** One symbol from the table that its group uses. */
  method GetSymbol(d: BitReader, lens: seq<Byte>, t: DecodeTable, ghost sent: int, ghost rest: seq<int>)
    returns (ok: bool, sym: int)
    requires d.Valid() && Made(lens, t)
    modifies d
    ensures d.Kept() && (old(d.starved) ==> d.starved) && (ok ==> d.starved == old(d.starved))
    ensures |d.Rest()| <= |old(d.Rest())|
    ensures d.Valid() && (ok ==> 0 <= sym < |lens| && |d.Rest()| < |old(d.Rest())|)
    ensures 0 <= sent < |lens| && old(d.Rest()) == CodeBits(lens, sent) + rest && TableFits(lens, |lens|) && d.Fed() ==>
              ok && sym == sent && d.Rest() == rest
  {
    hide BitReader.Valid, BitReader.Rest, Kraft, CodeBits, Tables;
    ghost var bits := d.Rest();
    var r := GetMtfVal(d, lens, t.minLen, t.maxLen, t.limit, t.base, t.perm);
    if 0 <= sent < |lens| && bits == CodeBits(lens, sent) + rest && TableFits(lens, |lens|) {
      assert CodeAt(lens, sent, bits, 0) by { assert bits[0..0 + lens[sent]] == CodeBits(lens, sent); }
      if r.Symbol? { OnlyCode(lens, r.sym, sent, bits); }
      assert bits[lens[sent]..] == rest;
    }
    ok, sym := r.Symbol?, if r.Symbol? then r.sym else 0;
  }

  /** GET_MTF_VAL: one symbol more, from the next group's table when a group is used up. */
  method NextSymbol(d: BitReader, tables: seq<seq<Byte>>, made: seq<DecodeTable>, selector: seq<int>, groupNo0: int,
                    groupPos0: int,
                    ghost i: nat, ghost p: Plan, ghost good: bool, ghost rest: seq<int>)
    returns (ok: bool, sym: int, groupNo: int, groupPos: int)
    requires d.Valid() && |made| == |tables| && Suitable(p) && |p.inUse| == 256
    requires forall t :: 0 <= t < |tables| ==> Made(tables[t], made[t])
    requires forall g :: 0 <= g < |selector| ==> 0 <= selector[g] < |tables|
    requires -1 <= groupNo0 && 0 <= groupPos0 < GROUP_SIZE && i == GROUP_SIZE * (groupNo0 + 1) - groupPos0
    requires groupPos0 > 0 ==> 0 <= groupNo0 < |selector|
    requires good && d.Fed() ==>
               i < |p.mtfv| && tables == p.tables && selector == p.selector && d.Rest() == SymbolBits(p, i) + rest
    modifies d
    ensures d.Kept() && (old(d.starved) ==> d.starved) && (ok ==> d.starved == old(d.starved))
    ensures d.Valid() && |d.Rest()| <= |old(d.Rest())|
    ensures ok ==> |d.Rest()| < |old(d.Rest())| && 0 <= groupPos < GROUP_SIZE && 0 <= groupNo < |selector|
    ensures ok ==> i + 1 == GROUP_SIZE * (groupNo + 1) - groupPos && 0 <= sym < |tables[selector[groupNo]]|
    ensures good && d.Fed() ==> ok && sym == p.mtfv[i] && d.Rest() == SymbolBits(p, i + 1) + rest
    ensures good && d.Fed() ==> (sym == UsedBelow(p.inUse, 256) + 1 <==> i == |p.mtfv| - 1)
  {
    hide BitReader.Valid, BitReader.Rest, Suitable, TableOf, CodeBits, Tables, UsedBelow, SymbolBits, TableFits, Made;
    ok, sym, groupNo, groupPos := false, 0, groupNo0, groupPos0;
    if groupPos == 0 {
      groupNo := groupNo + 1;
      if good && d.Fed() { NextComing(d.Rest(), p, i, groupNo, rest); }
      if groupNo >= |selector| { return; }
      groupPos := GROUP_SIZE;
    }
    groupPos := groupPos - 1;
    var t := selector[groupNo];
    ghost var sent := if good && d.Fed() then p.mtfv[i] else 0;
    ghost var more := if good && d.Fed() then SymbolBits(p, i + 1) + rest else rest;
    if good && d.Fed() { NextComing(d.Rest(), p, i, groupNo, rest); }
    ok, sym := GetSymbol(d, tables[t], made[t], sent, more);
  }

  /** The symbols of the block up to the end-of-block symbol, fifty to a group. */
  method GetSymbols(d: BitReader, tables: seq<seq<Byte>>, made: seq<DecodeTable>, selector: seq<int>, eob: int,
                    ghost p: Plan, ghost rest: seq<int>)
    returns (ok: bool, syms: seq<int>)
    requires d.Valid() && |made| == |tables| && Suitable(p)
    requires |p.inUse| == 256 && forall t :: 0 <= t < |tables| ==> |tables[t]| == eob + 1
    requires forall t :: 0 <= t < |tables| ==> Made(tables[t], made[t])
    requires forall g :: 0 <= g < |selector| ==> 0 <= selector[g] < |tables|
    modifies d
    ensures d.Kept() && (old(d.starved) ==> d.starved) && (ok ==> d.starved == old(d.starved))
    ensures |d.Rest()| <= |old(d.Rest())|
    ensures d.Valid() && (ok ==> EndsOnce(syms, eob))
    ensures old(d.Rest()) == SymbolBits(p, 0) + rest && tables == p.tables && selector == p.selector &&
            eob == UsedBelow(p.inUse, 256) + 1 && d.Fed() ==>
              ok && syms == p.mtfv && d.Rest() == rest
  {
    hide BitReader.Valid, BitReader.Rest, Suitable, UsedBelow, SymbolBits, Tables, EndsOnce;
    ghost var good := d.Rest() == SymbolBits(p, 0) + rest && tables == p.tables && selector == p.selector &&
        eob == UsedBelow(p.inUse, 256) + 1;
    SomeSymbol(p);
    syms := [];
    var groupNo, groupPos := -1, 0;
    while true
      invariant d.Valid() && |d.Rest()| <= |old(d.Rest())|
      invariant d.Kept() && d.starved == old(d.starved)
      invariant -1 <= groupNo && 0 <= groupPos < GROUP_SIZE && |syms| == GROUP_SIZE * (groupNo + 1) - groupPos
      invariant groupPos > 0 ==> 0 <= groupNo < |selector|
      invariant forall t :: 0 <= t < |tables| ==> Made(tables[t], made[t])
      invariant forall i :: 0 <= i < |syms| ==> 0 <= syms[i] < eob
      invariant good && d.Fed() ==>
                  |syms| < |p.mtfv| && syms == p.mtfv[..|syms|] && d.Rest() == SymbolBits(p, |syms|) + rest
      decreases |d.Rest()|
    {
      ghost var i := |syms|;
      var sym;
      ok, sym, groupNo, groupPos := NextSymbol(d, tables, made, selector, groupNo, groupPos, i, p, good, rest);
      if !ok { return; }
      syms := syms + [sym];
      if good && d.Fed() { assert syms == p.mtfv[..i + 1]; }
      if sym == eob { break; }
    }
    ok := true;
    EndsSo(syms, eob);
    if good && d.Fed() { AllSymbols(p, syms, rest); }
  }

  lemma EndsSo(syms: seq<int>, eob: int)
    requires syms != [] && syms[|syms| - 1] == eob && forall i :: 0 <= i < |syms| - 1 ==> 0 <= syms[i] < eob
    ensures EndsOnce(syms, eob)
  {
  }

  lemma SomeUsed(p: Plan)
    requires Suitable(p)
    ensures UsedBelow(p.inUse, 256) > 0
  {
  }

  lemma SomeSymbol(p: Plan)
    requires Suitable(p)
    ensures |p.mtfv| > 0
  {
  }

  /** The symbol at position i and what follows it. */
  lemma NextComing(bits: seq<int>, p: Plan, i: int, g: int, rest: seq<int>)
    requires Suitable(p) && 0 <= i < |p.mtfv| && GROUP_SIZE * g <= i < GROUP_SIZE * (g + 1) &&
             bits == SymbolBits(p, i) + rest
    ensures |p.inUse| == 256 && 0 <= g < |p.selector| && 0 <= p.selector[g] < |p.tables|
    ensures var lens := p.tables[p.selector[g]];
            0 <= p.mtfv[i] < |lens| && bits == CodeBits(lens, p.mtfv[i]) + (SymbolBits(p, i + 1) + rest) &&
            TableFits(lens, |lens|)
    ensures p.mtfv[i] == UsedBelow(p.inUse, 256) + 1 <==> i == |p.mtfv| - 1
  {
    hide Kraft, CodeBits;
    TableAt(p, i, g);
    Coming(bits, CodeBits(TableOf(p, i), p.mtfv[i]), SymbolBits(p, i + 1), rest);
  }

  lemma AllSymbols(p: Plan, syms: seq<int>, rest: seq<int>)
    requires Suitable(p) && 0 < |syms| <= |p.mtfv| && syms == p.mtfv[..|syms|] &&
             syms[|syms| - 1] == UsedBelow(p.inUse, 256) + 1
    ensures syms == p.mtfv && SymbolBits(p, |syms|) + rest == rest
  {
    hide Kraft;
    assert [] + rest == rest;
    assert p.mtfv[|syms| - 1] == syms[|syms| - 1];
  }

  /** Selectors, tables and symbols. */
  method GetCoded(d: BitReader, nInUse: nat, ghost p: Plan, ghost rest: seq<int>) returns (r: Reading, syms: seq<int>)
    requires d.Valid() && Suitable(p) && 0 < nInUse <= 256
    modifies d
    ensures d.Kept() && (old(d.starved) ==> d.starved) && (r.Done? ==> d.starved == old(d.starved))
    ensures d.Valid() && |d.Rest()| <= |old(d.Rest())| && (r.OutOfRange? ==> SelectorsOverrun(old(d.Rest()))) &&
            (d.Fed() && SelectorsOverrun(old(d.Rest())) ==> r.OutOfRange?)
    ensures r.Done? ==> EndsOnce(syms, nInUse + 1)
    ensures old(d.Rest()) == SelectorBits(p) + (TablesBits(p.tables) + (SymbolBits(p, 0) + rest)) &&
            nInUse == UsedBelow(p.inUse, 256) && d.Fed() ==>
              r.Done? && syms == p.mtfv && d.Rest() == rest
  {
    hide BitReader.Valid, BitReader.Rest, SelectorBits, TablesBits, SymbolBits, Tables, TableFits, SelectorsOverrun,
         UsedBelow, InTable, Announces, EndsOnce;
    SuitableSizes(p);
    ghost var afterTables := SymbolBits(p, 0) + rest;
    syms := [];
    var nGroups, selector;
    r, nGroups, selector := GetSelectors(d, p, TablesBits(p.tables) + afterTables);
    if !r.Done? { return; }
    var ok, tables;
    ok, tables := GetTables(d, nGroups, nInUse + 2, p.tables, afterTables);
    if !ok { r := Failed; return; }
    InTableSizes(tables, nInUse + 2);
    var made := MakeTables(tables, nInUse + 2);
    ok, syms := GetSymbols(d, tables, made, selector, nInUse + 1, p, rest);
    r := if ok then Done else Failed;
  }

  /** Everything after the block header: the bytes in use and the symbols.  The bits at which
      the selectors begin are reported, for they decide whether a store is out of range. */
  method GetMtfValues(d: BitReader, ghost p: Plan, ghost rest: seq<int>)
    returns (r: Reading, inUse: seq<bool>, syms: seq<int>, ghost selectorsAt: Option<seq<int>>)
    requires d.Valid() && Suitable(p)
    modifies d
    ensures d.Kept() && (old(d.starved) ==> d.starved) && (r.Done? ==> d.starved == old(d.starved))
    ensures |d.Rest()| <= |old(d.Rest())|
    ensures d.Valid() && (r.OutOfRange? ==> selectorsAt.Some? && SelectorsOverrun(selectorsAt.value)) &&
            (d.Fed() && selectorsAt.Some? && SelectorsOverrun(selectorsAt.value) ==> r.OutOfRange?)
    ensures r.Done? ==> |inUse| == 256 && UsedBelow(inUse, 256) > 0 && EndsOnce(syms, UsedBelow(inUse, 256) + 1)
    ensures old(d.Rest()) == PlanBits(p) + rest && d.Fed() ==>
              r.Done? && inUse == p.inUse && syms == p.mtfv && d.Rest() == rest
  {
    hide BitReader.Valid, BitReader.Rest, MapBits, SelectorBits, TablesBits, SymbolBits, SelectorsOverrun, UsedBelow,
         Suitable;
    SuitableSizes(p);
    SomeUsed(p);
    ghost var afterMap := SelectorBits(p) + (TablesBits(p.tables) + (SymbolBits(p, 0) + rest));
    if d.Rest() == PlanBits(p) + rest { assert d.Rest() == MapBits(p.inUse) + afterMap; }
    syms, selectorsAt := [], None;
    var ok;
    ok, inUse := GetMap(d, p.inUse, afterMap);
    if !ok { return Failed, inUse, syms, None; }
    var nInUse := UsedCount(inUse);
    if nInUse == 0 { return Failed, inUse, syms, None; }
    selectorsAt := Some(d.Rest());
    r, syms := GetCoded(d, nInUse, p, rest);
  }

  /** nInUse, as makeMaps_d counts it. */
  method UsedCount(inUse: seq<bool>) returns (nInUse: nat)
    requires |inUse| == 256
    ensures nInUse == UsedBelow(inUse, 256) <= 256
  {
    var maps;
    maps, nInUse := MakeMapsD(inUse);
  }
}
