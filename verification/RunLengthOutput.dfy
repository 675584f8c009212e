/** The output end of the decoder: symbols are drawn one at a time from the inverse
    transform, runs are recognised and written out, and the whole can stop wherever the
    caller's output space runs out. */
module RunLengthOutput {
  import opened Common
  import opened Rotations
  import opened Counting
  import opened BurrowsWheeler
  import opened InverseFast
  import opened InverseSmall
  import opened RunLength
  import opened BlockCrc

  // ---------- what is still to come ----------

  /** What the decoder has yet to write: the rest of the current run, then the runs coded
      from symbol used - 1 on, which is the symbol it holds in k0.  A decoder that has
      read past the block has nothing well-formed to write. */
  ghost function Pending(s: seq<Byte>, used: int, ch: Byte, len: nat): Option<seq<Byte>>
    requires 1 <= used
  {
    if used > |s| + 1 then None else Prepend(Repeat(ch, len), Decode(s[used - 1..]))
  }

  /** The run that starts at symbol u - 1, by the number of equal symbols. */
  lemma DecodeFrom(s: seq<Byte>, u: int)
    requires 1 <= u <= |s|
    ensures var c := s[u - 1]; var d := Decode(s[u - 1..]);
            && (u == |s| || s[u] != c ==> d == Prepend(Repeat(c, 1), Decode(s[u..])))
            && (u < |s| && s[u] == c && (u + 1 == |s| || s[u + 1] != c) ==>
                d == Prepend(Repeat(c, 2), Decode(s[u + 1..])))
            && (u + 1 < |s| && s[u] == s[u + 1] == c && (u + 2 == |s| || s[u + 2] != c) ==>
                d == Prepend(Repeat(c, 3), Decode(s[u + 2..])))
            && (u + 2 < |s| && s[u] == s[u + 1] == s[u + 2] == c ==>
                  d == if u + 3 == |s| then None else Prepend(Repeat(c, 4 + s[u + 3] as int), Decode(s[u + 4..])))
  {
    var b := s[u - 1..];
    assert b[0] == s[u - 1];
    assert |b| > 1 ==> b[1] == s[u];
    assert |b| > 2 ==> b[2] == s[u + 1];
    assert |b| > 3 ==> b[3] == s[u + 2];
    assert |b| > 4 ==> b[4] == s[u + 3];
    assert b[1..] == s[u..];
    assert |b| > 1 ==> b[2..] == s[u + 1..];
    assert |b| > 2 ==> b[3..] == s[u + 2..];
    assert |b| > 4 ==> b[5..] == s[u + 4..];
  }

  /** The run that starts at symbol used - 1, its byte and length, and how many symbols have
      been read when it is known.  Of the symbols y the last lies one past the block: it is
      read as the count of four equal symbols that end the block. */
  ghost function NextRun(y: seq<Byte>, used: nat): (r: (Byte, nat, nat))
    requires 1 <= used < |y|
    ensures 1 <= r.1 <= 259 && used < r.2 <= |y| + 1
  {
    var n := |y| - 1;
    var c := y[used - 1];
    if used == n || y[used] != c then (c, 1, used + 1)
    else if used + 1 == n || y[used + 1] != c then (c, 2, used + 2)
    else if used + 2 == n || y[used + 2] != c then (c, 3, used + 3)
    else (c, 4 + y[used + 3] as int, used + 5)
  }

  /** All bytes that come: the rest of the run in hand and the runs from symbol used - 1 on,
      and whether they end with the block, not beyond it. */
  ghost function Stream(y: seq<Byte>, used: nat, ch: Byte, len: nat): (seq<Byte>, bool)
    requires 1 <= used && |y| > 1
    decreases |y| + 1 - used
  {
    if used >= |y| then (Repeat(ch, len), used == |y|)
    else
      var (c, l, u) := NextRun(y, used);
      var rest := Stream(y, u, c, l);
      (Repeat(ch, len) + rest.0, rest.1)
  }

  /** The bytes that come are what the block decodes to; if it is not well-formed the runs
      lead beyond its end. */
  lemma {:induction false} StreamDecodes(y: seq<Byte>, used: nat, ch: Byte, len: nat)
    requires 1 <= used && |y| > 1
    ensures var r := Stream(y, used, ch, len); Pending(Block(y), used, ch, len) == if r.1 then Some(r.0) else None
    decreases |y| + 1 - used
  {
    hide Decode;
    if used >= |y| {
      if used == |y| {
        DecodeNone();
        assert Block(y)[used - 1..] == [] && Repeat(ch, len) + [] == Repeat(ch, len);
      }
    } else {
      var (c, l, u) := NextRun(y, used);
      StreamDecodes(y, u, c, l);
      RunDecodes(y, used);
    }
  }

  /** The symbols of the block among those read. */
  ghost function Block(y: seq<Byte>): (s: seq<Byte>)
    requires |y| > 0
    ensures |s| == |y| - 1 && forall k :: 0 <= k < |s| ==> s[k] == y[k]
  {
    y[..|y| - 1]
  }

  lemma DecodeNone()
    ensures Decode([]) == Some([])
  {
  }

  lemma RunDecodes(y: seq<Byte>, used: nat)
    requires 1 <= used < |y|
    ensures var (c, l, u) := NextRun(y, used); Pending(Block(y), u, c, l) == Decode(Block(y)[used - 1..])
  {
    hide Decode;
    DecodeFrom(Block(y), used);
  }

  /** Writing part of the run in hand. */
  lemma StreamWritten(y: seq<Byte>, used: nat, ch: Byte, len: nat, k: nat)
    requires 1 <= used && |y| > 1 && k <= len
    ensures Stream(y, used, ch, len) == (Repeat(ch, k) + Stream(y, used, ch, len - k).0, Stream(y, used, ch, len - k).1)
    ensures |Stream(y, used, ch, len - k).0| >= len - k
  {
    RepeatAdd(ch, k, len - k);
    if used < |y| {
      var (c, l, u) := NextRun(y, used);
      Associate(Repeat(ch, k), Repeat(ch, len - k), Stream(y, u, c, l).0);
    }
  }

  /** With no run in hand. */
  lemma StreamNext(y: seq<Byte>, used: nat, ch: Byte)
    requires 1 <= used && |y| > 1
    ensures used >= |y| ==> Stream(y, used, ch, 0) == ([], used == |y|)
    ensures used < |y| ==> Stream(y, used, ch, 0) == (var (c, l, u) := NextRun(y, used); Stream(y, u, c, l))
  {
    assert Repeat(ch, 0) == [];
    if used < |y| {
      var (c, l, u) := NextRun(y, used);
      assert [] + Stream(y, u, c, l).0 == Stream(y, u, c, l).0;
    }
  }

  /** What comes from a decoder that has read the first of the symbols y. */
  ghost function AllOf(y: seq<Byte>): (r: (seq<Byte>, bool))
    requires |y| > 1
  {
    Stream(y, 1, 0, 0)
  }

  /** Exactly the well-formed blocks end with the block, and then what comes is their decoding. */
  lemma AllDecodes(y: seq<Byte>)
    requires |y| > 1
    ensures Decode(Block(y)) == if AllOf(y).1 then Some(AllOf(y).0) else None
  {
    hide Decode, Stream;
    StreamDecodes(y, 1, 0, 0);
    assert Block(y)[0..] == Block(y);
    if Decode(Block(y)).Some? { assert Repeat(0 as Byte, 0) + Decode(Block(y)).value == Decode(Block(y)).value; }
  }

  /** The first avail of the bytes that come, and what then still comes. */
  ghost function Taken(todo: (seq<Byte>, bool), avail: nat): seq<Byte> {
    todo.0[..Min(avail, |todo.0|)]
  }

  ghost function Left(todo: (seq<Byte>, bool), avail: nat): (seq<Byte>, bool) {
    (todo.0[Min(avail, |todo.0|)..], todo.1)
  }

  /** Writes what fits of the run in hand; done says that all of it did. */
  method FinishRun(ch: Byte, len0: int, avail: nat, crc0: bv32)
    returns (done: bool, chunk: seq<Byte>, len: int, crc: bv32)
    requires len0 > 0
    ensures chunk == Repeat(ch, |chunk|) && |chunk| <= Min(avail, len0)
    ensures done ==> |chunk| == len0 && len == 0
    ensures !done ==> |chunk| == avail && len == len0 - |chunk| && len > 0
    ensures crc == UpdateAll(crc0, chunk)
  {
    hide Update;
    chunk, len, crc := [], len0, crc0;
    while true
      invariant 1 <= len <= len0 && |chunk| == len0 - len && |chunk| <= avail
      invariant chunk == Repeat(ch, |chunk|)
      invariant crc == UpdateAll(crc0, chunk)
      decreases len
    {
      if |chunk| == avail { return false, chunk, len, crc; }
      if len == 1 { break; }
      crc := Update(crc, ch);
      assert (chunk + [ch])[..|chunk|] == chunk;
      chunk := chunk + [ch];
      len := len - 1;
    }
    crc := Update(crc, ch);
    assert (chunk + [ch])[..|chunk|] == chunk;
    chunk := chunk + [ch];
    done, len := true, 0;
  }

  // ---------- the word-per-symbol decoder ----------

  /** The words of column l, linked. */
  ghost predicate FastWords(tt: array<int>, l: seq<Byte>, tl: seq<int>)
    reads tt
  {
    0 < |l| <= tt.Length && Links(l, tl) && IsPermutation(tl, |l|) && Packed(tt[..|l|], l, tl)
  }

  /** The symbols that the links spell from row o: those of the block and one more. */
  ghost function Spelled(l: seq<Byte>, tl: seq<int>, o: int): (y: seq<Byte>)
    requires 0 <= o < |l| && IsPermutation(tl, |l|)
    ensures |y| == |l| + 1
  {
    Walk(l, tl, tl[o], |l| + 1)
  }

  /** Row t is where the symbol after the first used ones is read.  No more than one symbol
      past the block is ever made use of. */
  ghost predicate AtRow(l: seq<Byte>, tl: seq<int>, y: seq<Byte>, used: nat, t: int) {
    && 0 <= t < |l| && IsPermutation(tl, |l|) && |y| == |l| + 1
    && (used <= |l| ==> Walk(l, tl, t, |y| - used) == y[used..])
  }

  lemma RowStarts(l: seq<Byte>, tl: seq<int>, o: int)
    requires 0 <= o < |l| && IsPermutation(tl, |l|)
    ensures 0 <= tl[o] < |l| && AtRow(l, tl, Spelled(l, tl, o), 0, tl[o])
  {
    assert Spelled(l, tl, o)[0..] == Spelled(l, tl, o);
  }

  lemma RowReads(l: seq<Byte>, tl: seq<int>, y: seq<Byte>, used: nat, t: int)
    requires AtRow(l, tl, y, used, t)
    ensures used <= |l| ==> l[t] == y[used]
    ensures 0 <= tl[t] < |l| && AtRow(l, tl, y, used + 1, tl[t])
  {
    if used <= |l| {
      assert y[used..][1..] == y[used + 1..];
      assert y[used..][0] == y[used];
    }
  }

  /** BZ_GET_FAST: the next symbol.  The position check cannot fail, whatever the stream: the
      links stay inside the block. */
  method GetFast(tt: array<int>, tPos0: int, blockSize100k: int, ghost l: seq<Byte>, ghost tl: seq<int>,
                 ghost y: seq<Byte>, ghost used: nat)
    returns (corrupt: bool, ch: Byte, tPos: int)
    requires FastWords(tt, l, tl) && |l| <= 100000 * blockSize100k && AtRow(l, tl, y, used, tPos0)
    ensures !corrupt && (used < |y| ==> ch == y[used]) && AtRow(l, tl, y, used + 1, tPos)
  {
    hide AtRow, Links;
    AtRowOpen(l, tl, y, used, tPos0);
    RowReads(l, tl, y, used, tPos0);
    corrupt, ch, tPos := false, 0, tPos0;
    if tPos0 >= 100000 * blockSize100k { corrupt := true; return; }
    var word := tt[tPos0];
    assert word == tt[..|l|][tPos0];
    ch, tPos := word % 256, word / 256;
  }

  lemma AtRowOpen(l: seq<Byte>, tl: seq<int>, y: seq<Byte>, used: nat, t: int)
    requires AtRow(l, tl, y, used, t)
    ensures 0 <= t < |l| && |y| == |l| + 1
  {
  }

  /** Reads the next run: one to three equal symbols, or four and a count.  Past the end of
      the block the symbols read have no meaning and are not used, except when the count of
      a fourth equal symbol is missing. */
  method NextRunFast(tt: array<int>, tPos0: int, k00: Byte, used0: int, saveNblock: int, blockSize100k: int,
                     ghost l: seq<Byte>, ghost tl: seq<int>, ghost y: seq<Byte>)
    returns (corrupt: bool, ch: Byte, len: int, tPos: int, k0: Byte, used: int)
    requires FastWords(tt, l, tl) && |l| <= 100000 * blockSize100k && |y| == |l| + 1
    requires saveNblock == |l| && 1 <= used0 <= |l| && k00 == y[used0 - 1] && AtRow(l, tl, y, used0, tPos0)
    ensures !corrupt && 1 <= len <= 259 && used0 < used <= |l| + 2 && (ch, len as nat, used as nat) == NextRun(y, used0)
    ensures (used <= |l| ==> k0 == y[used - 1]) && AtRow(l, tl, y, used, tPos)
  {
    hide AtRow, FastWords;
    var saveNblockPP := saveNblock + 1;
    var k1: Byte;
    ch, k0, used, tPos, len := k00, k00, used0, tPos0, 1;
    corrupt, k1, tPos := GetFast(tt, tPos, blockSize100k, l, tl, y, used);
    if corrupt { return; }
    used := used + 1;
    if k1 != k0 { k0 := k1; return; }
    if used == saveNblockPP { return; }
    len := 2;
    corrupt, k1, tPos := GetFast(tt, tPos, blockSize100k, l, tl, y, used);
    if corrupt { return; }
    used := used + 1;
    if used == saveNblockPP { return; }
    if k1 != k0 { k0 := k1; return; }
    len := 3;
    corrupt, k1, tPos := GetFast(tt, tPos, blockSize100k, l, tl, y, used);
    if corrupt { return; }
    used := used + 1;
    if used == saveNblockPP { return; }
    if k1 != k0 { k0 := k1; return; }
    corrupt, k1, tPos := GetFast(tt, tPos, blockSize100k, l, tl, y, used);
    if corrupt { return; }
    used := used + 1;
    len := k1 as int + 4;
    corrupt, k0, tPos := GetFast(tt, tPos, blockSize100k, l, tl, y, used);
    if corrupt { return; }
    used := used + 1;
  }

  /** A decoder that has read used symbols and still has len bytes of its run to write. */
  ghost predicate FastState(tt: array<int>, saveNblock: int, blockSize100k: int, len: int, used: int, k0: Byte,
                            tPos: int,
                            l: seq<Byte>, tl: seq<int>, y: seq<Byte>)
    reads tt
  {
    && FastWords(tt, l, tl) && saveNblock == |l| <= 100000 * blockSize100k
    && 1 <= used <= |l| + 2 && 0 <= len && |y| == |l| + 1 > 1
    && (used <= |l| ==> k0 == y[used - 1])
    && AtRow(l, tl, y, used, tPos)
  }

  /** The loop of unRLE_obuf_to_output_FAST, on the values it caches.  (The source jumps to
      the write of a run's last byte; here that is a run of one.) */
  method FastLoop(tt: array<int>, saveNblock: int, blockSize100k: int, ch0: Byte, len0: int, used0: int, k00: Byte,
                  tPos0: int,
                  crc0: bv32, avail: nat, ghost l: seq<Byte>, ghost tl: seq<int>, ghost y: seq<Byte>)
    returns (corrupt: bool, out: seq<Byte>, ch: Byte, len: int, used: int, k0: Byte, tPos: int, crc: bv32)
    requires FastState(tt, saveNblock, blockSize100k, len0, used0, k00, tPos0, l, tl, y)
    ensures FastState(tt, saveNblock, blockSize100k, len, used, k0, tPos, l, tl, y) && |out| <= avail
    ensures Stream(y, used0, ch0, len0) == (out + Stream(y, used, ch, len).0, Stream(y, used, ch, len).1)
    ensures corrupt ==> Stream(y, used, ch, len) == ([], false)
    ensures !corrupt ==> (Stream(y, used, ch, len) == ([], true) && used == saveNblock + 1 &&
                          len == 0) || (|out| == avail && len > 0)
    ensures crc == UpdateAll(crc0, out)
  {
    hide AtRow, FastWords, Update, Stream, NextRun;
    corrupt, ch, len, used, k0, tPos, crc := false, ch0, len0, used0, k00, tPos0, crc0;
    out := [];
    assert out + Stream(y, used, ch, len).0 == Stream(y, used, ch, len).0;
    while true
      invariant FastState(tt, saveNblock, blockSize100k, len, used, k0, tPos, l, tl, y) && |out| <= avail
      invariant Stream(y, used0, ch0, len0) == (out + Stream(y, used, ch, len).0, Stream(y, used, ch, len).1)
      invariant crc == UpdateAll(crc0, out)
      decreases |l| + 2 - used
    {
      if len > 0 {
        ghost var len1 := len;
        var done, chunk;
        done, chunk, len, crc := FinishRun(ch, len, avail - |out|, crc);
        StreamWritten(y, used, ch, len1, |chunk|);
        Associate(out, chunk, Stream(y, used, ch, len).0);
        UpdateAllConcat(crc0, out, chunk);
        out := out + chunk;
        if !done { return; }
      }
      StreamNext(y, used, ch);
      if used > saveNblock + 1 { return true, out, ch, len, used, k0, tPos, crc; }
      if used == saveNblock + 1 { return; }
      corrupt, ch, len, tPos, k0, used := NextRunFast(tt, tPos, k0, used, saveNblock, blockSize100k, l, tl, y);
      if corrupt { return; }
    }
  }

  /** The fields of the decoder state that survive between calls, word-per-symbol form. */
  class FastOutput {
    var state_out_ch: Byte
    var state_out_len: int
    var nblock_used: int
    var k0: Byte
    var tPos: int
    var calculatedBlockCRC: bv32
    const tt: array<int>
    const save_nblock: int
    const blockSize100k: int
    // the last column, the links in it, and the symbols they spell
    ghost const l: seq<Byte>
    ghost const tl: seq<int>
    ghost const y: seq<Byte>

    ghost predicate Valid()
      reads this, tt
    {
      FastState(tt, save_nblock, blockSize100k, state_out_len, nblock_used, k0, tPos, l, tl, y)
    }

    /** All bytes that come, and whether they end with the block. */
    ghost function Coming(): (seq<Byte>, bool)
      reads this, tt
      requires Valid()
    {
      Stream(y, nblock_used, state_out_ch, state_out_len)
    }

    /** The state in which decoding of a block begins: the words linked, one symbol read. */
    constructor (tt: array<int>, origPtr: int, nblock: int, blockSize100k: int, ghost l: seq<Byte>, ghost tl: seq<int>)
      requires FastWords(tt, l, tl) && nblock == |l| <= 100000 * blockSize100k && 0 <= origPtr < nblock
      ensures Valid() && Coming() == AllOf(Spelled(l, tl, origPtr)) && calculatedBlockCRC == INITIAL
      ensures y == Spelled(l, tl, origPtr) && this.tt == tt
    {
      hide AtRow, Stream;
      var start := tt[origPtr] / 256;
      assert start == tl[origPtr] by { assert tt[origPtr] == tt[..|l|][origPtr]; }
      RowStarts(l, tl, origPtr);
      ghost var spelled := Spelled(l, tl, origPtr);
      var corrupt, ch, next := GetFast(tt, start, blockSize100k, l, tl, spelled, 0);
      this.state_out_len, this.state_out_ch := 0, 0;
      this.nblock_used, this.k0, this.tPos := 1, ch, next;
      this.calculatedBlockCRC := INITIAL;
      this.tt, this.save_nblock, this.blockSize100k := tt, nblock, blockSize100k;
      this.l, this.tl, this.y := l, tl, spelled;
    }

    /** Until a well-formed block has been given out there is something to come. */
    lemma Unfinished()
      requires Valid() && Coming().1 && !(nblock_used == save_nblock + 1 && state_out_len == 0)
      ensures Coming().0 != []
    {
      hide FastWords, AtRow, Stream;
      StreamWritten(y, nblock_used, state_out_ch, state_out_len, 0);
      if state_out_len == 0 {
        StreamNext(y, nblock_used, state_out_ch);
        var (c, n, u) := NextRun(y, nblock_used);
        StreamWritten(y, u, c, n, 0);
      }
    }

    /** The block has been given out. */
    lemma Finished()
      requires Valid() && nblock_used == save_nblock + 1 && state_out_len == 0
      ensures Coming() == ([], true)
    {
      hide FastWords, AtRow, Stream;
      StreamNext(y, nblock_used, state_out_ch);
    }

    /** unRLE_obuf_to_output_FAST: writes the next avail of the bytes that come.  It reports
        corruption exactly if all of them have been written and they led beyond the block. */
    method UnRleFast(avail: nat) returns (corrupt: bool, out: seq<Byte>)
      requires Valid()
      modifies this
      ensures Valid() && out == Taken(old(Coming()), avail)
      ensures corrupt <==> !old(Coming()).1 && |old(Coming()).0| <= avail
      ensures !corrupt ==> Coming() == Left(old(Coming()), avail)
      ensures !corrupt ==> calculatedBlockCRC == UpdateAll(old(calculatedBlockCRC), out)
      ensures !corrupt && |out| < avail ==> nblock_used == save_nblock + 1 && state_out_len == 0
    {
      hide FastWords, AtRow, Update, Stream, Taken, Left;
      ghost var todo := Coming();
      var ch, len, used, c_k0, t, crc;
      corrupt, out, ch, len, used, c_k0, t, crc := FastLoop(tt, save_nblock, blockSize100k, state_out_ch, state_out_len,
                                                          nblock_used, k0, tPos, calculatedBlockCRC, avail, l, tl, y);
      StreamWritten(y, used, ch, len, len);
      Delivered(todo, out, Stream(y, used, ch, len), avail);
      if corrupt { return; }
      state_out_ch, state_out_len, nblock_used, k0, tPos, calculatedBlockCRC := ch, len, used, c_k0, t, crc;
    }
  }

  /** What a call that wrote out has done, given what came and what is still to come. */
  lemma Delivered(todo: (seq<Byte>, bool), out: seq<Byte>, left: (seq<Byte>, bool), avail: nat)
    requires todo == (out + left.0, left.1) && |out| <= avail && (left.0 == [] || |out| == avail)
    ensures out == Taken(todo, avail) && left == Left(todo, avail) && |todo.0| == |out| + |left.0| && left.1 == todo.1
  {
  }

  // ---------- the 20-bit decoder ----------

  /** The link store, reversed along the cycle through the block's row, and bucket starts. */
  ghost predicate SmallWords(st: LinkStore, cftab: array<int>, l: seq<Byte>, tl: seq<int>, cycle: set<int>)
    reads st, st.ll16, st.ll4, cftab
  {
    && st.Valid() && 0 < |l| <= st.ll16.Length && Links(l, tl) && IsPermutation(tl, |l|)
    && CycleLinked(l, st.Links(|l|), cycle)
    && cftab.Length == 257 && forall c :: 0 <= c <= 256 ==> cftab[c] == Cum(l, c)
  }

  /** The store is at position t, one link behind the row of the symbol to read. */
  ghost predicate SmallAt(l: seq<Byte>, tl: seq<int>, y: seq<Byte>, cycle: set<int>, used: nat, t: int) {
    t in cycle && 0 <= t < |l| == |tl| && AtRow(l, tl, y, used, tl[t])
  }

  /** BZ_GET_SMALL: the symbol whose bucket holds the position, and the link followed. */
  method GetSmall(st: LinkStore, cftab: array<int>, tPos0: int, blockSize100k: int,
                  ghost l: seq<Byte>, ghost tl: seq<int>, ghost y: seq<Byte>, ghost cycle: set<int>, ghost used: nat)
    returns (corrupt: bool, ch: Byte, tPos: int)
    requires SmallWords(st, cftab, l, tl, cycle) && |l| <= 100000 * blockSize100k &&
             SmallAt(l, tl, y, cycle, used, tPos0)
    ensures !corrupt && (used < |y| ==> ch == y[used]) && SmallAt(l, tl, y, cycle, used + 1, tPos)
  {
    hide Cum, AtRow, Links, CycleLinked, IsPermutation;
    corrupt, ch, tPos := false, 0, tPos0;
    if tPos0 >= 100000 * blockSize100k { corrupt := true; return; }
    ghost var now := st.Links(|l|);
    ch := IndexIntoF(tPos0, cftab, l);
    AtRowOpen(l, tl, y, used, tl[tPos0]);
    SmallReads(l, now, cycle, tl, tPos0);
    RowReads(l, tl, y, used, tl[tPos0]);
    tPos := st.Get(tPos0);
    assert now[tPos0] == tPos;
  }

  /** Reads the next run, as NextRunFast does. */
  method NextRunSmall(st: LinkStore, cftab: array<int>, tPos0: int, k00: Byte, used0: int, saveNblock: int,
                      blockSize100k: int,
                      ghost l: seq<Byte>, ghost tl: seq<int>, ghost y: seq<Byte>, ghost cycle: set<int>)
    returns (corrupt: bool, ch: Byte, len: int, tPos: int, k0: Byte, used: int)
    requires SmallWords(st, cftab, l, tl, cycle) && |l| <= 100000 * blockSize100k && |y| == |l| + 1
    requires saveNblock == |l| && 1 <= used0 <= |l| && k00 == y[used0 - 1] && SmallAt(l, tl, y, cycle, used0, tPos0)
    ensures !corrupt && 1 <= len <= 259 && used0 < used <= |l| + 2 && (ch, len as nat, used as nat) == NextRun(y, used0)
    ensures (used <= |l| ==> k0 == y[used - 1]) && SmallAt(l, tl, y, cycle, used, tPos)
  {
    hide SmallAt, SmallWords;
    var k1: Byte;
    ch, k0, used, tPos, len := k00, k00, used0, tPos0, 1;
    corrupt, k1, tPos := GetSmall(st, cftab, tPos, blockSize100k, l, tl, y, cycle, used);
    if corrupt { return; }
    used := used + 1;
    if used == saveNblock + 1 { return; }
    if k1 != k0 { k0 := k1; return; }
    len := 2;
    corrupt, k1, tPos := GetSmall(st, cftab, tPos, blockSize100k, l, tl, y, cycle, used);
    if corrupt { return; }
    used := used + 1;
    if used == saveNblock + 1 { return; }
    if k1 != k0 { k0 := k1; return; }
    len := 3;
    corrupt, k1, tPos := GetSmall(st, cftab, tPos, blockSize100k, l, tl, y, cycle, used);
    if corrupt { return; }
    used := used + 1;
    if used == saveNblock + 1 { return; }
    if k1 != k0 { k0 := k1; return; }
    corrupt, k1, tPos := GetSmall(st, cftab, tPos, blockSize100k, l, tl, y, cycle, used);
    if corrupt { return; }
    used := used + 1;
    len := k1 as int + 4;
    corrupt, k0, tPos := GetSmall(st, cftab, tPos, blockSize100k, l, tl, y, cycle, used);
    if corrupt { return; }
    used := used + 1;
  }

  /** The fields of the decoder state that survive between calls, 20-bit form. */
  class SmallOutput {
    var state_out_ch: Byte
    var state_out_len: int
    var nblock_used: int
    var k0: Byte
    var tPos: int
    var calculatedBlockCRC: bv32
    const st: LinkStore
    const cftab: array<int>
    const save_nblock: int
    const blockSize100k: int
    ghost const l: seq<Byte>
    ghost const tl: seq<int>
    ghost const y: seq<Byte>
    ghost const cycle: set<int>

    ghost predicate Valid()
      reads this, st, st.ll16, st.ll4, cftab
    {
      && SmallWords(st, cftab, l, tl, cycle) && save_nblock == |l| <= 100000 * blockSize100k
      && 1 <= nblock_used <= |l| + 2 && 0 <= state_out_len && |y| == |l| + 1 > 1
      && (nblock_used <= |l| ==> k0 == y[nblock_used - 1])
      && SmallAt(l, tl, y, cycle, nblock_used, tPos)
    }

    /** All bytes that come, and whether they end with the block. */
    ghost function Coming(): (seq<Byte>, bool)
      reads this, st, st.ll16, st.ll4, cftab
      requires Valid()
    {
      Stream(y, nblock_used, state_out_ch, state_out_len)
    }

    constructor (st: LinkStore, cftab: array<int>, origPtr: int, nblock: int, blockSize100k: int,
                 ghost l: seq<Byte>, ghost tl: seq<int>, ghost cycle: set<int>)
      requires SmallWords(st, cftab, l, tl, cycle) && nblock == |l| <= 100000 * blockSize100k
      requires 0 <= origPtr < nblock && origPtr in cycle
      ensures Valid() && Coming() == AllOf(Spelled(l, tl, origPtr)) && calculatedBlockCRC == INITIAL
      ensures y == Spelled(l, tl, origPtr) && this.st == st && this.cftab == cftab
    {
      hide AtRow, Stream, Cum, CycleLinked, Links;
      RowStarts(l, tl, origPtr);
      ghost var spelled := Spelled(l, tl, origPtr);
      var corrupt, ch, next := GetSmall(st, cftab, origPtr, blockSize100k, l, tl, spelled, cycle, 0);
      this.state_out_len, this.state_out_ch := 0, 0;
      this.nblock_used, this.k0, this.tPos := 1, ch, next;
      this.calculatedBlockCRC := INITIAL;
      this.st, this.cftab, this.save_nblock, this.blockSize100k := st, cftab, nblock, blockSize100k;
      this.l, this.tl, this.y, this.cycle := l, tl, spelled, cycle;
    }

    /** Writes what fits of the run in hand. */
    method WriteRun(avail: nat) returns (chunk: seq<Byte>)
      requires Valid() && state_out_len > 0
      modifies `state_out_len, `calculatedBlockCRC
      ensures Valid() && |chunk| <= avail && (|chunk| < avail ==> state_out_len == 0)
      ensures old(Coming()) == (chunk + Coming().0, Coming().1)
      ensures calculatedBlockCRC == UpdateAll(old(calculatedBlockCRC), chunk)
    {
      hide SmallAt, SmallWords, Update, Stream;
      var done, len, crc;
      done, chunk, len, crc := FinishRun(state_out_ch, state_out_len, avail, calculatedBlockCRC);
      StreamWritten(y, nblock_used, state_out_ch, state_out_len, |chunk|);
      state_out_len, calculatedBlockCRC := len, crc;
    }

    /** Reads the next run. */
    method ReadRun() returns (corrupt: bool)
      requires Valid() && state_out_len == 0 && nblock_used <= save_nblock
      modifies `state_out_ch, `state_out_len, `tPos, `k0, `nblock_used
      ensures !corrupt && Valid() && Coming() == old(Coming()) && old(nblock_used) < nblock_used
    {
      hide SmallAt, SmallWords, Stream, NextRun;
      StreamNext(y, nblock_used, state_out_ch);
      corrupt, state_out_ch, state_out_len, tPos, k0, nblock_used :=
        NextRunSmall(st, cftab, tPos, k0, nblock_used, save_nblock, blockSize100k, l, tl, y, cycle);
    }

    lemma Standing()
      requires Valid()
      ensures save_nblock == |l| && 1 <= nblock_used <= |l| + 2 && |y| == |l| + 1 > 1 && 0 <= state_out_len
      ensures state_out_len == 0 && nblock_used > |l| ==> Coming() == ([], nblock_used == |l| + 1)
    {
      hide SmallAt, SmallWords, Stream;
      StreamNext(y, nblock_used, state_out_ch);
    }

    /** The loop of unRLE_obuf_to_output_SMALL. */
    method Drain(avail: nat) returns (corrupt: bool, out: seq<Byte>)
      requires Valid()
      modifies this
      ensures Valid() && |out| <= avail && old(Coming()) == (out + Coming().0, Coming().1)
      ensures corrupt ==> Coming() == ([], false) && |out| < avail
      ensures !corrupt ==> |out| == avail || (Coming() == ([], true) && nblock_used == save_nblock + 1 &&
                                              state_out_len == 0)
      ensures calculatedBlockCRC == UpdateAll(old(calculatedBlockCRC), out)
    {
      hide SmallOutput.Valid, SmallOutput.Coming, Update;
      ghost var todo := Coming();
      out := [];
      assert out + todo.0 == todo.0;
      while true
        invariant Valid() && |out| <= avail
        invariant todo == (out + Coming().0, Coming().1)
        invariant calculatedBlockCRC == UpdateAll(old(calculatedBlockCRC), out)
        decreases |l| + 2 - nblock_used
      {
        Standing();
        // finish the run in hand; when space runs out exactly at its end, stop too
        if state_out_len > 0 {
          var chunk := WriteRun(avail - |out|);
          Associate(out, chunk, Coming().0);
          UpdateAllConcat(old(calculatedBlockCRC), out, chunk);
          out := out + chunk;
          Standing();
        }
        if |out| == avail { return false, out; }
        if nblock_used == save_nblock + 1 { return false, out; }
        if nblock_used > save_nblock + 1 { return true, out; }
        corrupt := ReadRun();
        Standing();
        if corrupt { return; }
      }
    }

    /** unRLE_obuf_to_output_SMALL: the same bytes as UnRleFast.  Corruption is noticed only
        when there is space left for a byte more. */
    method UnRleSmall(avail: nat) returns (corrupt: bool, out: seq<Byte>)
      requires Valid()
      modifies this
      ensures Valid() && out == Taken(old(Coming()), avail)
      ensures corrupt <==> !old(Coming()).1 && |old(Coming()).0| < avail
      ensures Coming() == Left(old(Coming()), avail)
      ensures calculatedBlockCRC == UpdateAll(old(calculatedBlockCRC), out)
      ensures !corrupt && |out| < avail ==> nblock_used == save_nblock + 1 && state_out_len == 0
    {
      hide SmallOutput.Valid, SmallOutput.Coming, Update, Taken, Left;
      ghost var todo := Coming();
      corrupt, out := Drain(avail);
      Delivered(todo, out, Coming(), avail);
    }
  }
}
