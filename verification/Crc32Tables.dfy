/** The lookup tables of zlib's CRC-32 and the loops that use them, a byte or a word of four
    bytes at a time. */
module Crc32Tables {
  import opened Crc32

  /** How many bytes one table entry accounts for: the byte itself and up to three zeros. */
  const TABLES := 4

  function LowByte(c: bv32): bv8 { (c & 0xff) as bv8 }

  /** Row k holds, for every byte, the register after that byte and k zero bytes. */
  ghost predicate IsTable(table: array2<bv32>)
    reads table
  {
    && table.Length0 == TABLES && table.Length1 == 256
    && forall k, n :: 0 <= k < TABLES && 0 <= n < 256 ==> table[k, n] == Zeros(Wide(n as bv8), 8 * (k + 1))
  }

  lemma EightZeros(c: bv32)
    ensures Zeros(c, 8) == ZeroBit(ZeroBit(ZeroBit(ZeroBit(ZeroBit(ZeroBit(ZeroBit(ZeroBit(c))))))))
  {
    hide ZeroBit;
    NextZero(c, 0);
    NextZero(c, 1);
    NextZero(c, 2);
    NextZero(c, 3);
    NextZero(c, 4);
    NextZero(c, 5);
    NextZero(c, 6);
    NextZero(c, 7);
  }

  lemma NextZero(c: bv32, k: nat)
    ensures Zeros(c, 0) == c && Zeros(c, k + 1) == ZeroBit(Zeros(c, k))
  {
  }

  /** The first row of the table that the source spells out, at the powers of two and at its
      end. */
  lemma TableEntries()
    ensures Zeros(Wide(0x01), 8) == 0x7707_3096 && Zeros(Wide(0x02), 8) == 0xee0e_612c
    ensures Zeros(Wide(0x04), 8) == 0x076d_c419 && Zeros(Wide(0x08), 8) == 0x0edb_8832
    ensures Zeros(Wide(0x10), 8) == 0x1db7_1064 && Zeros(Wide(0x20), 8) == 0x3b6e_20c8
    ensures Zeros(Wide(0x40), 8) == 0x76dc_4190 && Zeros(Wide(0x80), 8) == 0xedb8_8320
    ensures Zeros(Wide(0xff), 8) == 0x2d02_ef8d
  {
    hide Zeros;
    EightZeros(0x01);
    EightZeros(0x02);
    EightZeros(0x04);
    EightZeros(0x08);
    EightZeros(0x10);
    EightZeros(0x20);
    EightZeros(0x40);
    EightZeros(0x80);
    EightZeros(0xff);
  }

  // ---------- one byte by lookup ----------

  lemma RawEvenParts(x: bv32)
    ensures x & 3 == 0 ==> x & 1 == 0 && (x >> 1) & 1 == 0
    ensures x & 0xf == 0 ==> x & 3 == 0 && (x >> 2) & 3 == 0
    ensures x & 0xff == 0 ==> x & 0xf == 0 && (x >> 4) & 0xf == 0
  {
  }

  lemma EvenStep(x: bv32)
    requires x & 1 == 0
    ensures ZeroBit(x) == Half(x)
  {
    XorZero(Half(x));
  }

  lemma Even2(x: bv32)
    requires x & 3 == 0
    ensures ZeroBit(ZeroBit(x)) == x >> 2
  {
    hide ZeroBit;
    RawEvenParts(x);
    EvenStep(x);
    EvenStep(x >> 1);
    Down2(x);
  }

  lemma Even4(x: bv32)
    requires x & 0xf == 0
    ensures Zeros(x, 4) == x >> 4
  {
    hide ZeroBit;
    RawEvenParts(x);
    Even2(x);
    Even2(x >> 2);
    assert Zeros(x, 1) == ZeroBit(x);
    assert Zeros(x, 2) == ZeroBit(ZeroBit(x));
    RawDown4(x);
  }

  /** Eight zero bits shift out an empty byte. */
  lemma Even8(x: bv32)
    requires x & 0xff == 0
    ensures Zeros(x, 8) == x >> 8
  {
    hide Zeros;
    RawEvenParts(x);
    Even4(x);
    Even4(x >> 4);
    ZerosAdd(x, 4, 4);
    RawDown8(x);
  }

  /** The register without its low byte, in place and moved down. */
  function Rest(c: bv32): bv32 { c & 0xffff_ff00 }

  function Drop(c: bv32): bv32 { c >> 8 }

  lemma SplitByte(c: bv32)
    ensures Xor(Wide(LowByte(c)), Rest(c)) == c
  {
    RawSplitByte(c);
  }

  lemma RawSplitByte(c: bv32)
    ensures (((c & 0xff) as bv8) as bv32) ^ (c & 0xffff_ff00) == c
  {
  }

  lemma ZerosOfRest(c: bv32)
    ensures Zeros(Rest(c), 8) == Drop(c)
  {
    hide Zeros;
    RawRest(c);
    Even8(c & 0xffff_ff00);
  }

  lemma RawRest(c: bv32)
    ensures (c & 0xffff_ff00) & 0xff == 0 && (c & 0xffff_ff00) >> 8 == c >> 8
  {
  }

  /** The table replaces eight single steps. */
  lemma ByteStep(c: bv32)
    ensures Zeros(c, 8) == Xor(Zeros(Wide(LowByte(c)), 8), Drop(c))
  {
    hide Zeros, Wide, LowByte, Rest, Drop, Xor;
    SplitByte(c);
    ZerosLinear(Wide(LowByte(c)), Rest(c), 8);
    ZerosOfRest(c);
  }

  lemma DropFeed(c: bv32, b: bv8)
    ensures Drop(Xor(c, Wide(b))) == Drop(c)
  {
    RawDropFeed(c, b);
  }

  lemma RawDropFeed(c: bv32, b: bv8)
    ensures (c ^ (b as bv32)) >> 8 == c >> 8
  {
  }

  /** DO1: one byte by table lookup. */
  method FeedByte(table: array2<bv32>, c: bv32, b: bv8) returns (r: bv32)
    requires IsTable(table)
    ensures r == Feed(c, b)
  {
    hide Zeros, Xor, Wide, Drop, LowByte;
    var x := Xor(c, Wide(b));
    r := Xor(table[0, LowByte(x) as int], Drop(c));
    DropFeed(c, b);
    ByteStep(x);
    RoundTrip(LowByte(x));
  }

  lemma RoundTrip(b: bv8)
    ensures (b as int) as bv8 == b
  {
  }

  /** The checksum register of one byte, bit by bit. */
  method ByteEntry(n: bv8) returns (c: bv32)
    ensures c == Zeros(Wide(n), 8)
  {
    hide ZeroBit, Wide;
    c := Wide(n);
    for k := 0 to 8
      invariant c == Zeros(Wide(n), k)
    {
      c := ZeroBit(c);
    }
  }

  /** The tables as make_crc_table computes them. */
  method MakeCrcTable(table: array2<bv32>)
    requires table.Length0 == TABLES && table.Length1 == 256
    modifies table
    ensures IsTable(table)
  {
    hide Zeros, Wide, LowByte, Xor, Drop, ZeroBit;
    for n := 0 to 256
      invariant forall i :: 0 <= i < n ==> table[0, i] == Zeros(Wide(i as bv8), 8)
    {
      table[0, n] := ByteEntry(n as bv8);
    }
    for n := 0 to 256
      invariant forall i :: 0 <= i < 256 ==> table[0, i] == Zeros(Wide(i as bv8), 8)
      invariant forall k, i :: 0 <= k < TABLES && 0 <= i < n ==> table[k, i] == Zeros(Wide(i as bv8), 8 * (k + 1))
    {
      var c := table[0, n];
      for k := 1 to TABLES
        invariant c == Zeros(Wide(n as bv8), 8 * k)
        invariant forall i :: 0 <= i < 256 ==> table[0, i] == Zeros(Wide(i as bv8), 8)
        invariant forall k', i :: 0 <= k' < TABLES && 0 <= i < n ==> table[k', i] == Zeros(Wide(i as bv8), 8 * (k' + 1))
        invariant forall k' :: 0 <= k' < k ==> table[k', n] == Zeros(Wide(n as bv8), 8 * (k' + 1))
      {
        ByteStep(c);
        ZerosAdd(Wide(n as bv8), 8 * k, 8);
        RoundTrip(LowByte(c));
        c := Xor(table[0, LowByte(c) as int], Drop(c));
        table[k, n] := c;
      }
    }
  }

  // ---------- four bytes at a time ----------

  /** Byte b in place k of a word. */
  function Lift(b: bv8, k: nat): bv32
    requires k < 4
  {
    if k == 0 then Wide(b) else if k == 1 then Wide(b) << 8 else if k == 2 then Wide(b) << 16 else Wide(b) << 24
  }

  /** A word loaded from four bytes, lowest first. */
  function Word(s: seq<bv8>): bv32
    requires |s| == 4
  {
    Xor(Xor(Xor(Lift(s[0], 0), Lift(s[1], 1)), Lift(s[2], 2)), Lift(s[3], 3))
  }

  lemma RawLift(b: bv8)
    ensures ((b as bv32) << 8) & 0xff == 0 && ((b as bv32) << 8) >> 8 == b as bv32
    ensures ((b as bv32) << 16) & 0xff == 0 && ((b as bv32) << 16) >> 8 == (b as bv32) << 8
    ensures ((b as bv32) << 24) & 0xff == 0 && ((b as bv32) << 24) >> 8 == (b as bv32) << 16
  {
  }

  lemma LiftStep(b: bv8, k: nat)
    requires k < 3
    ensures Zeros(Lift(b, k + 1), 8) == Lift(b, k)
  {
    hide Zeros;
    RawLift(b);
    Even8(Lift(b, k + 1));
  }

  /** A byte that comes k bytes later sits k places higher in the word. */
  lemma {:induction false} LaterByte(b: bv8, k: nat)
    requires k < 4
    ensures Zeros(Lift(b, k), 8 * k) == Wide(b)
  {
    hide Zeros, Wide;
    if k == 0 {
      NoZeros(Wide(b));
    } else {
      LiftStep(b, k - 1);
      LaterByte(b, k - 1);
      ZerosAdd(Lift(b, k), 8, 8 * (k - 1));
    }
  }

  /** Feeding one byte more after k bytes fed all at once. */
  lemma FeedLater(x: bv32, b: bv8, k: nat)
    requires k < 4
    ensures Feed(Zeros(x, 8 * k), b) == Zeros(Xor(x, Lift(b, k)), 8 * k + 8)
  {
    hide Zeros, Wide, Xor, Lift;
    LaterByte(b, k);
    ZerosLinear(x, Lift(b, k), 8 * k);
    ZerosAdd(Xor(x, Lift(b, k)), 8 * k, 8);
  }

  /** Feeding four bytes is feeding the word they make, all 32 bits at once. */
  lemma FeedWord(c: bv32, s: seq<bv8>)
    requires |s| == 4
    ensures FeedAll(c, s) == Zeros(Xor(c, Word(s)), 32)
  {
    hide Zeros, Feed, Xor, Lift;
    FourFeeds(c, s);
    NoZeros(c);
    var l0, l1, l2, l3 := Lift(s[0], 0), Lift(s[1], 1), Lift(s[2], 2), Lift(s[3], 3);
    FeedLater(c, s[0], 0);
    FeedLater(Xor(c, l0), s[1], 1);
    FeedLater(Xor(Xor(c, l0), l1), s[2], 2);
    FeedLater(Xor(Xor(Xor(c, l0), l1), l2), s[3], 3);
    XorAssociative(c, l0, l1);
    XorAssociative(c, Xor(l0, l1), l2);
    XorAssociative(c, Xor(Xor(l0, l1), l2), l3);
  }

  lemma FourFeeds(c: bv32, s: seq<bv8>)
    requires |s| == 4
    ensures FeedAll(c, s) == Feed(Feed(Feed(Feed(c, s[0]), s[1]), s[2]), s[3])
  {
    hide Feed;
    assert s[..3][..2] == s[..2] && s[..2][..1] == s[..1] && s[..1][..0] == [];
    assert FeedAll(c, s[..1]) == Feed(c, s[0]);
    assert FeedAll(c, s[..2]) == Feed(Feed(c, s[0]), s[1]);
    assert FeedAll(c, s[..3]) == Feed(Feed(Feed(c, s[0]), s[1]), s[2]);
  }

  /** A register's low byte is looked up in the row for all the bits it still has to go. */
  lemma Peel(x: bv32, k: nat)
    ensures Zeros(x, 8 + k) == Xor(Zeros(Wide(LowByte(x)), 8 + k), Zeros(Drop(x), k))
  {
    hide Zeros, Wide, LowByte, Xor, Drop;
    ByteStep(x);
    ZerosAdd(x, 8, k);
    ZerosLinear(Zeros(Wide(LowByte(x)), 8), Drop(x), k);
    ZerosAdd(Wide(LowByte(x)), 8, k);
  }

  /** Byte k of a word. */
  function ByteAt(x: bv32, k: nat): bv8
    requires k < 4
  {
    if k == 0 then LowByte(x)
        else if k == 1 then LowByte(x >> 8) else if k == 2 then LowByte(x >> 16) else LowByte(x >> 24)
  }

  lemma Dropped(x: bv32)
    ensures ByteAt(x, 1) == LowByte(Drop(x)) && ByteAt(x, 2) == LowByte(Drop(Drop(x)))
    ensures ByteAt(x, 3) == LowByte(Drop(Drop(Drop(x)))) && Drop(Drop(Drop(Drop(x)))) == 0
  {
    RawDropped(x);
  }

  lemma RawDropped(x: bv32)
    ensures (x >> 8) >> 8 == x >> 16 && ((x >> 8) >> 8) >> 8 == x >> 24 && (((x >> 8) >> 8) >> 8) >> 8 == 0
  {
  }

  /** DOLIT4: four bytes by four lookups. */
  method FeedFour(table: array2<bv32>, c0: bv32, s: seq<bv8>) returns (c: bv32)
    requires IsTable(table) && |s| == 4
    ensures c == FeedAll(c0, s)
  {
    hide Zeros, Wide, Xor, Drop, ByteAt, LowByte, Word, FeedAll;
    var x := Xor(c0, Word(s));
    var t3, t2 := table[3, ByteAt(x, 0) as int], table[2, ByteAt(x, 1) as int];
    var t1, t0 := table[1, ByteAt(x, 2) as int], table[0, ByteAt(x, 3) as int];
    c := Xor(Xor(Xor(t3, t2), t1), t0);
    RoundTrip(ByteAt(x, 0));
    RoundTrip(ByteAt(x, 1));
    RoundTrip(ByteAt(x, 2));
    RoundTrip(ByteAt(x, 3));
    Lookups(x, t3, t2, t1, t0);
    FeedWord(c0, s);
  }

  lemma Lookups(x: bv32, t3: bv32, t2: bv32, t1: bv32, t0: bv32)
    requires t3 == Zeros(Wide(ByteAt(x, 0)), 32) && t2 == Zeros(Wide(ByteAt(x, 1)), 24)
    requires t1 == Zeros(Wide(ByteAt(x, 2)), 16) && t0 == Zeros(Wide(ByteAt(x, 3)), 8)
    ensures Xor(Xor(Xor(t3, t2), t1), t0) == Zeros(x, 32)
  {
    hide Zeros, Wide, Xor, Drop, ByteAt, LowByte;
    Dropped(x);
    FirstByte(x);
    Peel(x, 24);
    Peel(Drop(x), 16);
    Peel(Drop(Drop(x)), 8);
    Peel(Drop(Drop(Drop(x))), 0);
    NoZeros(0);
    XorZero(t0);
    XorAssociative(t3, t2, t1);
    XorAssociative(t3, Xor(t2, t1), t0);
    XorAssociative(t2, t1, t0);
  }

  lemma FirstByte(x: bv32)
    ensures ByteAt(x, 0) == LowByte(x)
  {
  }

  // ---------- the two loops ----------

  lemma FeedOneMore(c: bv32, s: seq<bv8>, i: nat)
    requires i < |s|
    ensures FeedAll(c, s[..i + 1]) == Feed(FeedAll(c, s[..i]), s[i])
  {
    assert s[..i + 1][..i] == s[..i];
  }

  lemma FeedFourMore(c: bv32, s: seq<bv8>, i: nat)
    requires i + 4 <= |s|
    ensures FeedAll(c, s[..i + 4]) == FeedAll(FeedAll(c, s[..i]), s[i..i + 4])
  {
    hide FeedAll;
    FeedAllConcat(c, s[..i], s[i..i + 4]);
    assert s[..i + 4] == s[..i] + s[i..i + 4];
  }

  /** crc32_little: single bytes up to a word boundary, then words, eight at a time while
      there are that many, then single bytes.  addr is the address of the first byte. */
  method Crc32Little(table: array2<bv32>, crc: bv32, buf: seq<bv8>, addr: nat) returns (r: bv32)
    requires IsTable(table)
    ensures r == Crc(crc, buf)
  {
    hide Feed, FeedAll, Xor, IsTable;
    var c := Xor(crc, ONES);
    ghost var start := c;
    var i := 0;
    assert buf[..0] == [] && FeedAll(start, []) == start by { FeedNone(start); }
    while i < |buf| && (addr + i) % 4 != 0
      invariant 0 <= i <= |buf| && c == FeedAll(start, buf[..i])
    {
      FeedOneMore(start, buf, i);
      c := FeedByte(table, c, buf[i]);
      i := i + 1;
    }
    while |buf| - i >= 32
      invariant 0 <= i <= |buf| && c == FeedAll(start, buf[..i])
    {
      ghost var from := i;
      for k := 0 to 8
        invariant from <= i && i == from + 4 * k && c == FeedAll(start, buf[..i])
      {
        FeedFourMore(start, buf, i);
        c := FeedFour(table, c, buf[i..i + 4]);
        i := i + 4;
      }
    }
    while |buf| - i >= 4
      invariant 0 <= i <= |buf| && c == FeedAll(start, buf[..i])
    {
      FeedFourMore(start, buf, i);
      c := FeedFour(table, c, buf[i..i + 4]);
      i := i + 4;
    }
    while i < |buf|
      invariant 0 <= i <= |buf| && c == FeedAll(start, buf[..i])
    {
      FeedOneMore(start, buf, i);
      c := FeedByte(table, c, buf[i]);
      i := i + 1;
    }
    assert buf[..i] == buf;
    r := Xor(c, ONES);
  }

  lemma FeedNone(c: bv32)
    ensures FeedAll(c, []) == c
  {
  }
}
