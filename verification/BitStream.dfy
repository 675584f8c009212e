/** The bit streams of bzip2: bits enter and leave a 32-bit buffer, most significant first. */
module BitStream {
  import opened Common
  import opened CanonicalCode

  const WORD := 32

  // ---------- values of bit strings ----------

  lemma {:induction false} ValueConcat(a: seq<int>, b: seq<int>)
    ensures Value(a + b) == Value(a) * Pow2(|b|) + Value(b)
  {
    if b == [] {
      assert a + b == a;
    } else {
      var c := b[..|b| - 1];
      ValueConcat(a, c);
      assert (a + b)[..|a + b| - 1] == a + c;
      MulDouble(Value(a), Pow2(|c|));
    }
  }

  /** A bit string cut in two. */
  lemma ValueSplit(h: seq<int>, n: nat)
    requires IsBits(h) && n <= |h|
    ensures Value(h) == Value(h[..n]) * Pow2(|h| - n) + Value(h[n..])
    ensures 0 <= Value(h[..n]) < Pow2(n) && 0 <= Value(h[n..]) < Pow2(|h| - n)
  {
    assert h == h[..n] + h[n..];
    ValueConcat(h[..n], h[n..]);
    ValueBits(h[..n]);
    ValueBits(h[n..]);
  }

  /** The bits of bytes, one after the other. */
  ghost function BytesBits(bytes: seq<Byte>): (b: seq<int>)
    ensures |b| == 8 * |bytes| && IsBits(b)
  {
    if bytes == [] then []
    else
      BitsValue(bytes[|bytes| - 1], 8);
      BytesBits(bytes[..|bytes| - 1]) + Bits(bytes[|bytes| - 1], 8)
  }

  lemma BytesBitsPush(bytes: seq<Byte>, b: Byte)
    ensures BytesBits(bytes + [b]) == BytesBits(bytes) + Bits(b, 8)
  {
    assert (bytes + [b])[..|bytes|] == bytes;
  }

  lemma {:induction false} BytesBitsFirst(bytes: seq<Byte>)
    requires bytes != []
    ensures BytesBits(bytes) == Bits(bytes[0], 8) + BytesBits(bytes[1..])
  {
    hide BytesBits, Bits;
    var front, last := bytes[..|bytes| - 1], bytes[|bytes| - 1];
    assert bytes == front + [last];
    BytesBitsPush(front, last);
    NoBytes();
    if front == [] {
      assert bytes[1..] == [] && [] + Bits(last, 8) + [] == Bits(last, 8) + [];
    } else {
      BytesBitsFirst(front);
      assert bytes[1..] == front[1..] + [last];
      BytesBitsPush(front[1..], last);
      Associate(Bits(bytes[0], 8), BytesBits(front[1..]), Bits(last, 8));
    }
  }

  // ---------- bitwise or ----------

  function Or(a: nat, b: nat): nat
    decreases a + b
  {
    if a == 0 && b == 0 then 0 else 2 * Or(a / 2, b / 2) + Max(a % 2, b % 2)
  }

  lemma {:induction false} OrZero(a: nat)
    ensures Or(a, 0) == a
  {
    if a > 0 { OrZero(a / 2); }
  }

  lemma OrOpen(a: nat, b: nat)
    ensures Or(a, b) == 2 * Or(a / 2, b / 2) + Max(a % 2, b % 2)
  {
  }

  /** Or adds where the digits do not overlap. */
  lemma {:induction false} OrDisjoint(a: nat, b: nat, k: nat)
    requires b < Pow2(k)
    ensures Or(a * Pow2(k), b) == a * Pow2(k) + b
  {
    if k == 0 {
      OrZero(a * Pow2(0));
    } else {
      hide Or;
      var p := Pow2(k - 1);
      OrDisjoint(a, b / 2, k - 1);
      MulDouble(a, p);
      OrOpen(a * Pow2(k), b);
      Halved(a * p);
    }
  }

  lemma Halved(x: int)
    ensures (2 * x) / 2 == x && (2 * x) % 2 == 0
  {
  }

  // ---------- writing ----------

  /** Unsigned 32-bit arithmetic. */
  function Word(x: int): nat { x % 0x1_0000_0000 }

  function TopOf(x: nat): nat { x / 0x100_0000 }

  /** The live bits are the top bits of the buffer and the others are zero. */
  ghost predicate HeldAtTop(buff: nat, held: seq<int>) {
    |held| <= WORD && IsBits(held) && buff == Value(held) * Pow2(WORD - |held|)
  }

  /** The top byte leaves the buffer. */
  lemma TopByte(buff: nat, held: seq<int>)
    requires HeldAtTop(buff, held) && |held| >= 8
    ensures TopOf(buff) == Value(held[..8]) < 256 && Bits(Value(held[..8]), 8) == held[..8]
    ensures HeldAtTop(Word(buff * 256), held[8..])
  {
    hide Pow2, Value, Bits, IsBits;
    var t, r := Value(held[..8]), Value(held[8..]);
    PartBits(held, 8);
    ValueSplit(held, 8);
    ValueBits(held[..8]);
    Powers();
    Pow2Add(|held| - 8, WORD - |held|);
    Pow2Add(8, WORD - |held|);
    TopPart(buff, t, r, Pow2(|held| - 8), Pow2(WORD - |held|), 0x100_0000, 256);
  }

  lemma TopPart(buff: nat, t: int, r: int, a: int, p: int, q: int, e: int)
    requires buff == (t * a + r) * p && a * p == q && 0 <= r < a && p > 0 && q > 0 && e > 0
    ensures buff / q == t && (buff * e) % (q * e) == r * (e * p)
  {
    MulDistributes(p, t * a, r);
    MulAssociative(t, a, p);
    MulStrict(r, a, p);
    MulMonotone(0, r, p);
    QuotientUnique(buff, q, t, r * p);
    ShiftedUp(buff, t, r, p, q, e);
    MulStrict(0, q, e);
    QuotientUnique(buff * e, q * e, t, r * (p * e));
  }

  lemma ShiftedUp(buff: int, t: int, r: int, p: int, q: int, e: int)
    requires buff == t * q + r * p && 0 <= r * p < q && e > 0
    ensures buff * e == t * (q * e) + r * (p * e) && 0 <= r * (p * e) < q * e
  {
    MulAssociative(t, q, e);
    MulAssociative(r, p, e);
    MulDistributes(e, t * q, r * p);
    MulStrict(r * p, q, e);
    MulMonotone(0, r * p, e);
  }

  lemma Powers()
    ensures Pow2(8) == 256 && Pow2(24) == 0x100_0000 && Pow2(WORD) == 0x1_0000_0000
  {
    assert Pow2(4) == 16;
    Pow2Add(4, 4);
    Pow2Add(8, 8);
    Pow2Add(8, 16);
    Pow2Add(8, 24);
  }

  lemma PartBits(h: seq<int>, n: nat)
    requires IsBits(h) && n <= |h|
    ensures IsBits(h[..n]) && IsBits(h[n..])
  {
  }

  lemma ConcatBits(a: seq<int>, b: seq<int>)
    requires IsBits(a) && IsBits(b)
    ensures IsBits(a + b)
  {
  }

  /** New bits go in below the live ones. */
  lemma BelowTop(buff: nat, held: seq<int>, n: nat, v: nat)
    requires HeldAtTop(buff, held) && |held| + n <= WORD && v < Pow2(n)
    ensures HeldAtTop(Or(buff, v * Pow2(WORD - |held| - n)), held + Bits(v, n))
  {
    hide Pow2, Value, Bits, IsBits, Or;
    var k := WORD - |held| - n;
    BitsValue(v, n);
    ConcatBits(held, Bits(v, n));
    ValueConcat(held, Bits(v, n));
    ValueBits(held);
    Pow2Add(n, k);
    MulStrict(v, Pow2(n), Pow2(k));
    OrDisjoint(Value(held), v * Pow2(k), n + k);
    BelowPart(Value(held), v, Pow2(n), Pow2(k));
  }

  lemma BelowPart(t: int, v: int, a: int, p: int)
    ensures t * (a * p) + v * p == (t * a + v) * p
  {
    MulAssociative(t, a, p);
    MulDistributes(p, t * a, v);
  }

  class BitWriter {
    var zbits: seq<Byte>
    var bsBuff: nat
    var bsLive: int
    ghost var held: seq<int>

    ghost predicate Valid()
      reads this
    {
      bsLive == |held| && HeldAtTop(bsBuff, held)
    }

    /** All bits written so far. */
    ghost function Written(): seq<int>
      reads this
    {
      BytesBits(zbits) + held
    }

    constructor ()
      ensures Valid() && Written() == [] && zbits == []
    {
      zbits, bsBuff, bsLive, held := [], 0, 0, [];
      new;
      assert Value([]) == 0;
    }

    /** Bits still in the buffer from before, and a new place for bytes. */
    constructor Resume(buff: nat, live: int, ghost held: seq<int>)
      requires live == |held| && HeldAtTop(buff, held)
      ensures Valid() && Written() == held && zbits == []
    {
      zbits, bsBuff, bsLive, this.held := [], buff, live, held;
      new;
      NoBytes();
      assert [] + held == held;
    }

    /** One byte goes out. */
    method PutTop()
      requires Valid() && bsLive >= 8
      modifies this
      ensures Valid() && Written() == old(Written()) && bsLive == old(bsLive) - 8 &&
              zbits == old(zbits) + [zbits[|old(zbits)|]]
    {
      hide HeldAtTop, BytesBits, Bits, Value, TopOf, Word;
      TopByte(bsBuff, held);
      BytesBitsPush(zbits, TopOf(bsBuff));
      assert BytesBits(zbits) + held == BytesBits(zbits) + held[..8] + held[8..];
      zbits := zbits + [TopOf(bsBuff)];
      bsBuff := Word(bsBuff * 256);
      held := held[8..];
      bsLive := bsLive - 8;
    }

    /** bsW: n bits of v. */
    method BsW(n: nat, v: nat)
      requires Valid() && n <= 24 && v < Pow2(n)
      modifies this
      ensures Valid() && Written() == old(Written()) + Bits(v, n) && old(zbits) <= zbits
    {
      hide HeldAtTop, BytesBits, Bits, Or, Pow2;
      while bsLive >= 8
        invariant Valid() && Written() == old(Written()) && old(zbits) <= zbits && bsLive >= 0
        decreases bsLive
      {
        PutTop();
      }
      BelowTop(bsBuff, held, n, v);
      assert BytesBits(zbits) + (held + Bits(v, n)) == BytesBits(zbits) + held + Bits(v, n);
      bsBuff := Or(bsBuff, v * Pow2(WORD - bsLive - n));
      held := held + Bits(v, n);
      bsLive := bsLive + n;
    }

    /** The last, incomplete byte goes out. */
    method PutLast() returns (ghost pad: nat)
      requires Valid() && 0 < bsLive < 8
      modifies this
      ensures held == [] && bsLive == old(bsLive) - 8 && pad == -bsLive && Written() == old(Written()) + Bits(0, pad)
    {
      hide HeldAtTop, BytesBits, Bits;
      pad := 8 - bsLive;
      var live := bsLive;
      PadTop(bsBuff, held);
      assert BytesBits(zbits) + (held + Bits(0, pad)) == BytesBits(zbits) + held + Bits(0, pad);
      held, bsLive := held + Bits(0, pad), 8;
      PutTop();
      bsLive := live - 8;
    }

    /** bsFinishWrite: all bits go out, with zero bits up to a whole byte. */
    method FinishWrite() returns (ghost pad: nat)
      requires Valid()
      modifies this
      ensures pad < 8 && BytesBits(zbits) == old(Written()) + Bits(0, pad)
    {
      hide HeldAtTop, BytesBits, Bits;
      pad := 0;
      NoBits(0);
      while bsLive > 0
        invariant pad < 8 && Written() == old(Written()) + Bits(0, pad)
        invariant bsLive <= 0 ==> held == []
        invariant bsLive > 0 ==> Valid() && pad == 0
        decreases bsLive
      {
        if bsLive >= 8 { PutTop(); } else { pad := PutLast(); }
      }
      assert BytesBits(zbits) + held == BytesBits(zbits);
    }
  }

  lemma NoBits(v: nat)
    ensures Bits(v, 0) == []
  {
  }

  /** The buffer may be taken to hold zero bits after the live ones. */
  lemma PadTop(buff: nat, held: seq<int>)
    requires HeldAtTop(buff, held) && 0 < |held| < 8
    ensures HeldAtTop(buff, held + Bits(0, 8 - |held|))
  {
    hide Bits, Value, Pow2;
    var n := 8 - |held|;
    BitsValue(0, n);
    ValueConcat(held, Bits(0, n));
    Pow2Add(n, 24);
    MulAssociative(Value(held), Pow2(n), Pow2(24));
  }

  // ---------- reading ----------

  /** The live bits are the low bits of the buffer; what stands above them does not matter. */
  ghost predicate HeldAtBottom(buff: nat, held: seq<int>) {
    |held| <= WORD && IsBits(held) && buff % Pow2(|held|) == Value(held)
  }

  /** The next n bits are cut out of the buffer. */
  function Cut(buff: nat, live: nat, n: nat): nat
    requires n <= live
  {
    (buff / Pow2(live - n)) % Pow2(n)
  }

  lemma CutBits(buff: nat, held: seq<int>, n: nat)
    requires HeldAtBottom(buff, held) && n <= |held|
    ensures Cut(buff, |held|, n) == Value(held[..n]) && HeldAtBottom(buff, held[n..])
  {
    hide Pow2, Value, IsBits;
    PartBits(held, n);
    ValueSplit(held, n);
    Pow2Add(n, |held| - n);
    QuotientSign(buff, Pow2(|held|));
    CutPart(buff, buff / Pow2(|held|), Value(held[..n]), Value(held[n..]), Pow2(n), Pow2(|held| - n));
  }

  lemma CutPart(buff: nat, q: int, t: int, r: int, a: int, b: int)
    requires a > 0 && b > 0 && buff == q * (a * b) + (t * b + r) && 0 <= t < a && 0 <= r < b
    ensures (buff / b) % a == t && buff % b == r
  {
    MulAssociative(q, a, b);
    MulDistributes(b, q * a, t);
    QuotientUnique(buff, b, q * a + t, r);
    QuotientUnique(q * a + t, a, q, t);
  }

  /** A new byte goes in below the live bits. */
  lemma BelowBottom(buff: nat, held: seq<int>, b: Byte)
    requires HeldAtBottom(buff, held) && |held| + 8 <= WORD
    ensures HeldAtBottom(Or(Word(buff * 256), b), held + Bits(b, 8))
  {
    hide Pow2, Value, IsBits, Bits, Or;
    var n := |held|;
    Powers();
    BitsValue(b, 8);
    ConcatBits(held, Bits(b, 8));
    ValueConcat(held, Bits(b, 8));
    ValueBits(held);
    QuotientSign(buff, Pow2(n));
    Pow2Add(n, 8);
    Pow2Add(24 - n, n);
    var x := WordShifted(buff);
    OrDisjoint(x, b, 8);
    BottomPart(buff, x, buff / Pow2(n), Value(held), b, Pow2(n), Pow2(24 - n));
  }

  /** Shifting a 32-bit word by eight drops its top byte. */
  lemma WordShifted(buff: nat) returns (x: nat)
    ensures x == buff % 0x100_0000 && Word(buff * 256) == x * 256
  {
    x := buff % 0x100_0000;
    var q := buff / 0x100_0000;
    assert buff * 256 == q * 0x1_0000_0000 + x * 256;
    QuotientUnique(buff * 256, 0x1_0000_0000, q, x * 256);
  }

  lemma BottomPart(buff: nat, x: nat, q: int, v: int, b: int, p: int, a: int)
    requires p > 0 && a > 0 && buff == q * p + v && 0 <= v < p && x == buff % 0x100_0000 && a * p == 0x100_0000 &&
             0 <= b < 256
    ensures (x * 256 + b) % (p * 256) == v * 256 + b
  {
    var k := buff / 0x100_0000;
    var m := q - k * a;
    MulAssociative(k, a, p);
    MulDistributes(p, q, -(k * a));
    assert x == m * p + v;
    MulAssociative(m, p, 256);
    QuotientUnique(x * 256 + b, p * 256, m, v * 256 + b);
  }

  lemma {:induction false} BytesBitsConcat(a: seq<Byte>, b: seq<Byte>)
    ensures BytesBits(a + b) == BytesBits(a) + BytesBits(b)
  {
    hide BytesBits, Bits;
    NoBytes();
    if b == [] {
      assert a + b == a && BytesBits(a) + [] == BytesBits(a);
    } else {
      var front, last := b[..|b| - 1], b[|b| - 1];
      BytesBitsConcat(a, front);
      assert a + b == (a + front) + [last] && b == front + [last];
      BytesBitsPush(a + front, last);
      BytesBitsPush(front, last);
      Associate(BytesBits(a), BytesBits(front), Bits(last, 8));
    }
  }

  ghost predicate EndsWith(all: seq<int>, end: seq<int>) {
    |end| <= |all| && all[|all| - |end|..] == end
  }

  lemma MoveOver(all: seq<int>, before: seq<int>, after: seq<int>, future: seq<int>, x: seq<int>)
    requires EndsWith(all, before) && EndsWith(all, after) && before + future == x + (after + future)
    ensures all[..|all| - |after|] == all[..|all| - |before|] + x
  {
    assert before == (before + future)[..|before|] == (x + (after + future))[..|x| + |after|] == x + after;
    assert all[|all| - |before|..][..|x|] == x;
  }

  lemma BetweenEnds(all: seq<int>, before: seq<int>, after: seq<int>, future: seq<int>) returns (x: seq<int>)
    requires EndsWith(all, before) && EndsWith(all, after) && |after| <= |before|
    ensures before + future == x + (after + future)
  {
    x := before[..|before| - |after|];
    assert before[|before| - |after|..] == all[|all| - |before|..][|before| - |after|..] == after;
  }

  lemma MoreAhead(all: seq<int>, end: seq<int>, more: seq<int>)
    requires EndsWith(all, end)
    ensures EndsWith(all + more, end + more)
    ensures (all + more)[..|all + more| - |end + more|] == all[..|all| - |end|]
  {
    assert all == all[..|all| - |end|] + end;
    assert all + more == all[..|all| - |end|] + (end + more);
  }

  lemma LaterEnd(all: seq<int>, end: seq<int>, n: nat)
    requires EndsWith(all, end) && n <= |end|
    ensures EndsWith(all, end[n..])
  {
  }

  class BitReader {
    var input: seq<Byte>
    var bsBuff: nat
    var bsLive: int
    /** A read has found too little input. */
    var starved: bool
    ghost var held: seq<int>
    /** The bits of input that later calls will supply. */
    ghost var future: seq<int>
    /** All input supplied so far, read or not. */
    ghost var supplied: seq<Byte>

    ghost predicate Valid()
      reads this
    {
      bsLive == |held| <= WORD && HeldAtBottom(bsBuff, held) && IsBits(future) && EndsWith(BytesBits(supplied), Ahead())
    }

    /** The bits supplied and not yet read. */
    ghost function Ahead(): seq<int>
      reads this
    {
      held + BytesBits(input)
    }

    /** The bits read so far. */
    ghost function Taken(): seq<int>
      requires Valid()
      reads this
    {
      BytesBits(supplied)[..|BytesBits(supplied)| - |Ahead()|]
    }

    /** What is supplied, now or later, stays the same. */
    twostate predicate Kept()
      reads this
    {
      future == old(future) && supplied == old(supplied)
    }

    /** The bits that are no longer ahead are those that have been read. */
    twostate lemma TakenMore(x: seq<int>)
      requires old(Valid()) && Valid() && Kept() && old(Rest()) == x + Rest()
      ensures Taken() == old(Taken()) + x
    {
      hide HeldAtBottom, BytesBits;
      MoveOver(BytesBits(supplied), old(Ahead()), Ahead(), future, x);
    }

    /** Reading takes bits from the front. */
    twostate lemma FromFront() returns (x: seq<int>)
      requires old(Valid()) && Valid() && Kept() && |Rest()| <= |old(Rest())|
      ensures old(Rest()) == x + Rest()
    {
      hide HeldAtBottom, BytesBits;
      x := BetweenEnds(BytesBits(supplied), old(Ahead()), Ahead(), future);
    }

    /** All bits yet to be read, supplied or not. */
    ghost function Rest(): seq<int>
      reads this
    {
      held + BytesBits(input) + future
    }

    /** No read has had to wait for input that is still to come. */
    ghost predicate Fed()
      reads `starved, `future
    {
      !starved || future == []
    }

    lemma RestIsBits()
      requires Valid()
      ensures IsBits(Rest())
    {
    }

    constructor (input: seq<Byte>, ghost future: seq<int>)
      requires IsBits(future)
      ensures Valid() && Rest() == BytesBits(input) + future && this.future == future && !starved
      ensures supplied == input && Taken() == []
    {
      this.input, bsBuff, bsLive, starved, held, this.future, supplied := input, 0, 0, false, [], future, input;
      new;
      assert Value([]) == 0;
      assert [] + BytesBits(input) == BytesBits(input);
    }

    /** More input is at hand. */
    method Supply(more: seq<Byte>)
      requires Valid()
      modifies `input, `starved, `future, `supplied
      ensures Valid() && !starved && input == old(input) + more
      ensures supplied == old(supplied) + more && Taken() == old(Taken())
      ensures BytesBits(more) <= old(future) ==> Rest() == old(Rest()) && future == old(future)[8 * |more|..]
    {
      hide HeldAtBottom, BytesBits;
      BytesBitsConcat(input, more);
      BytesBitsConcat(supplied, more);
      MoreAhead(BytesBits(supplied), Ahead(), BytesBits(more));
      Associate(held, BytesBits(input), BytesBits(more));
      if BytesBits(more) <= future {
        assert future == BytesBits(more) + future[8 * |more|..];
        assert held + BytesBits(input) + future == held + (BytesBits(input) + BytesBits(more)) + future[8 * |more|..];
        future := future[8 * |more|..];
      } else {
        future := [];
      }
      input, starved, supplied := input + more, false, supplied + more;
    }

    /** Returns to where the reader stood before some reads. */
    method GoBack(input: seq<Byte>, bsBuff: nat, bsLive: int, ghost held: seq<int>)
      requires Valid() && bsLive == |held| <= WORD && HeldAtBottom(bsBuff, held)
      requires EndsWith(BytesBits(supplied), held + BytesBits(input))
      modifies `input, `bsBuff, `bsLive, `held
      ensures Valid() && Rest() == held + BytesBits(input) + future
      ensures Ahead() == held + BytesBits(input)
    {
      this.input, this.bsBuff, this.bsLive, this.held := input, bsBuff, bsLive, held;
    }

    /** GET_BITS: the next n bits; none as long as the input supplied does not hold so many,
        and then none is lost. */
    method GetBits(n: nat) returns (v: Option<nat>)
      requires Valid() && n <= 24
      modifies this
      ensures Valid() && Kept() && (old(starved) ==> starved) && (v.None? ==> starved) &&
              (v.Some? ==> starved == old(starved))
      ensures v.Some? ==> |old(Rest())| >= n && v.value == Value(old(Rest())[..n]) && Rest() == old(Rest())[n..]
      ensures v.None? ==> Rest() == old(Rest()) && input == []
      ensures Fed() && |old(Rest())| >= n ==> v.Some?
    {
      hide HeldAtBottom, BytesBits, Bits, Value, Cut, Word, Or, EndsWith;
      while true
        invariant Valid() && Rest() == old(Rest()) && bsLive <= WORD && Kept() && starved == old(starved)
        decreases |input|
      {
        if bsLive >= n {
          CutBits(bsBuff, held, n);
          v := Some(Cut(bsBuff, bsLive, n));
          assert Rest()[..n] == held[..n] && Rest()[n..] == held[n..] + BytesBits(input) + future;
          LaterEnd(BytesBits(supplied), Ahead(), n);
          assert Ahead()[n..] == held[n..] + BytesBits(input);
          held := held[n..];
          bsLive := bsLive - n;
          break;
        }
        if input == [] {
          NoBytes();
          starved := true;
          return None;
        }
        BytesBitsFirst(input);
        BelowBottom(bsBuff, held, input[0]);
        Associate(held, Bits(input[0], 8), BytesBits(input[1..]));
        assert held + Bits(input[0], 8) + BytesBits(input[1..]) + future == held + BytesBits(input) + future;
        bsBuff := Or(Word(bsBuff * 256), input[0]);
        held := held + Bits(input[0], 8);
        bsLive := bsLive + 8;
        input := input[1..];
      }
    }
  }

  lemma NoBytes()
    ensures BytesBits([]) == []
  {
  }

  /** What bsW wrote, GET_BITS reads back. */
  lemma ReadsBack(rest: seq<int>, n: nat, v: nat)
    requires v < Pow2(n)
    ensures var b := Bits(v, n) + rest; |b| >= n && Value(b[..n]) == v && b[n..] == rest
  {
    BitsValue(v, n);
    assert (Bits(v, n) + rest)[..n] == Bits(v, n);
  }
}
