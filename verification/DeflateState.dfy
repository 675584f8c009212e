/** The state of deflate's match finders: a window over the input, the dictionary of the
    strings in it, and the tokens found so far. */
module DeflateState {
  import opened Common
  import opened Tokens
  import opened StringHash
  import opened HashChains
  import opened MatchSearch
  import opened MatchRule

  /** Unsigned 32-bit arithmetic. */
  function Wrap(x: int): nat { x % 0x1_0000_0000 }

  /** len bytes at position at repeat those dist before. */
  ghost predicate Repeats(text: seq<Byte>, at: int, dist: nat, len: nat) {
    && 0 < dist <= at && at + len <= |text|
    && forall i {:trigger text[i]} :: at <= i < at + len ==> text[i] == text[i - dist]
  }

  lemma RepeatsLonger(text: seq<Byte>, at: int, dist: nat, len: nat, text': seq<Byte>)
    requires Repeats(text, at, dist, len) && text <= text'
    ensures Repeats(text', at, dist, len)
  {
    forall i {:trigger text'[i]} | at <= i < at + len ensures text'[i] == text'[i - dist] {
      assert text'[i] == text[i] && text'[i - dist] == text[i - dist];
    }
  }

  lemma AgreeRepeats(window: seq<Byte>, text: seq<Byte>, base: nat, cur: nat, scan: nat, len: nat)
    requires Shows(window, text, base) && cur < scan && base + scan + len <= |text| && Agree(window, cur, scan, len)
    ensures Repeats(text, base + scan, scan - cur, len)
  {
    forall i {:trigger text[i]} | base + scan <= i < base + scan + len ensures text[i] == text[i - (scan - cur)] {
      var j := i - base - scan;
      assert At(window, cur, j) == At(window, scan, j);
      assert window[cur + j] == text[base + cur + j] && window[scan + j] == text[base + scan + j];
    }
  }

  /** The blocks flushed and the tokens since stand for the first n bytes of input, and the
      blocks for the first start of them. */
  ghost predicate Told(blocks: seq<Block>, tally: seq<Token>, text: seq<Byte>, start: int, n: int) {
    && 0 <= start <= n <= |text| && Interchangeable(blocks)
    && Expand(TokensOf(blocks)) == Some(text[..start]) && Expand(TokensOf(blocks) + tally) == Some(text[..n])
  }

  /** Lengths and distances that the format and the tally buffers have room for. */
  ghost predicate Fit(toks: seq<Token>, maxDist: int) {
    forall t :: t in toks && t.Copy? ==> 1 <= t.dist <= maxDist && MIN_MATCH <= t.len <= MAX_MATCH
  }

  lemma FitPush(toks: seq<Token>, tally: seq<Token>, t: Token, maxDist: int)
    requires Fit(toks + tally, maxDist) && (t.Copy? ==> 1 <= t.dist <= maxDist && MIN_MATCH <= t.len <= MAX_MATCH)
    ensures Fit(toks + (tally + [t]), maxDist)
  {
    assert toks + (tally + [t]) == toks + tally + [t];
  }

  lemma ToldLonger(blocks: seq<Block>, tally: seq<Token>, text: seq<Byte>, start: int, n: int, text': seq<Byte>)
    requires Told(blocks, tally, text, start, n) && text <= text'
    ensures Told(blocks, tally, text', start, n)
  {
    hide Expand;
    assert text'[..n] == text[..n] && text'[..start] == text[..start];
  }

  lemma ToldLiteral(blocks: seq<Block>, tally: seq<Token>, text: seq<Byte>, start: int, n: int, c: Byte)
    requires Told(blocks, tally, text, start, n) && n < |text| && c == text[n]
    ensures Told(blocks, tally + [Literal(c)], text, start, n + 1)
  {
    hide Expand, Interchangeable, TokensOf;
    var all := TokensOf(blocks);
    ExpandPush(all + tally, Literal(c));
    assert all + (tally + [Literal(c)]) == (all + tally) + [Literal(c)];
    assert text[..n + 1] == text[..n] + [c];
  }

  lemma ToldCopy(blocks: seq<Block>, tally: seq<Token>, text: seq<Byte>, start: int, n: int, dist: nat, len: nat)
    requires Told(blocks, tally, text, start, n) && Repeats(text, n, dist, len)
    ensures Told(blocks, tally + [Copy(dist, len)], text, start, n + len)
  {
    hide Expand, Interchangeable, TokensOf;
    var all := TokensOf(blocks);
    ExpandPush(all + tally, Copy(dist, len));
    MatchIsText(text, n, dist, len);
    assert all + (tally + [Copy(dist, len)]) == (all + tally) + [Copy(dist, len)];
  }

  lemma ToldFlush(blocks: seq<Block>, tally: seq<Token>, text: seq<Byte>, start: int, n: int, b: Block)
    requires Told(blocks, tally, text, start, n) && !Ended(blocks) && b.tokens == tally
    requires b.stored.Some? ==> b.stored.value == text[start..n]
    ensures Told(blocks + [b], [], text, n, n) && Ended(blocks + [b]) == b.last
    ensures TokensOf(blocks + [b]) + [] == TokensOf(blocks) + tally
  {
    hide Expand, Interchangeable, TokensOf, Ended;
    assert text[..n][..start] == text[..start] && text[..n][start..] == text[start..n];
    AppendBlock(blocks, b, text[..n], start);
    assert TokensOf(blocks + [b]) + [] == TokensOf(blocks) + tally;
  }

  lemma WindowSlice(window: seq<Byte>, text: seq<Byte>, base: nat, from: nat, to: nat)
    requires Shows(window, text, base) && from <= to <= |text| - base
    ensures to <= |window| && window[from..to] == text[base + from..base + to]
  {
    assert |text[base + from..base + to]| == to - from;
    forall i | 0 <= i < to - from ensures window[from..to][i] == text[base + from..base + to][i] {
      assert window[from + i] == text[base + from + i];
    }
  }

  /** CLEAR_HASH. */
  method ClearTable(a: array<nat>)
    modifies a
    ensures forall i :: 0 <= i < a.Length ==> a[i] == 0
  {
    forall i | 0 <= i < a.Length { a[i] := 0; }
  }

  /** Slides the positions held in a table, from the last entry to the first. */
  method SlideTable(a: array<nat>, wSize: nat)
    requires a.Length > 0
    modifies a
    ensures a[..] == Slid(old(a[..]), wSize)
  {
    ghost var was := a[..];
    var n: nat := a.Length;
    while true
      invariant 0 < n <= a.Length
      invariant forall i :: n <= i < a.Length ==> a[i] == if was[i] >= wSize then was[i] - wSize else 0
      invariant forall i :: 0 <= i < n ==> a[i] == was[i]
      decreases n
    {
      var m := a[n - 1];
      a[n - 1] := if m >= wSize then m - wSize else 0;
      n := n - 1;
      if n == 0 { break; }
    }
    assert a[..] == Slid(was, wSize);
  }

  /** A distance is the same after both ends have moved, however the difference wraps. */
  lemma WrapSlides(at: int, from: int, w: int)
    ensures Wrap(at - w - Wrap(from - w)) == Wrap(at - from)
  {
  }

  class Deflater {
    const wSize: nat
    const k: Hasher
    const litBufsize: nat
    const config: Config
    const filtered: bool
    const window: array<Byte>
    const head: array<nat>
    const prev: array<nat>
    var input: seq<Byte>
    var strstart: nat
    var lookahead: nat
    var insert: nat
    var insH: nat
    var matchStart: nat
    var matchLength: nat
    var prevLength: nat
    var prevMatch: nat
    var matchAvailable: bool
    var blockStart: int
    var highWater: nat
    var tally: seq<Token>
    /** All input read so far, the position in it of window index 0, the strings inserted, and
        the position after the last of them. */
    ghost var text: seq<Byte>
    ghost var base: nat
    ghost var ins: set<int>
    ghost var upto: int
    ghost var blocks: seq<Block>
    /** Where the dictionary was last cleared, why each token was chosen, and what was found at
        the byte still undecided. */
    ghost var since: int
    ghost var log: seq<Pick>
    ghost var pend: Find

    /** deflateInit2_ and lm_init; the window and the links are not initialised. */
    constructor (windowBits: nat, memLevel: nat, config: Config, filtered: bool)
      requires 8 <= windowBits <= 15 && 1 <= memLevel <= 9 && config.chain >= 4
      ensures Shaped() && InWindow() && Linked() && Behind() && Ready() && Telling(0) && this.config == config
      ensures wSize == Pow2(Max(windowBits, 9)) && k == HasherOf(memLevel) && litBufsize == Pow2(memLevel + 6)
      ensures fresh(window) && fresh(head) && fresh(prev)
      ensures input == [] && text == [] && base == 0 && strstart == 0 && lookahead == 0 && insert == 0 &&
              blockStart == 0
      ensures matchLength == prevLength == MIN_MATCH - 1 && !matchAvailable && tally == [] && blocks == []
      ensures this.filtered == filtered && since == 0 && log == [] && ins == {}
    {
      hide Pow2;
      var bits := if windowBits == 8 then 9 else windowBits;
      var hasher := HasherOf(memLevel);
      wSize, k, litBufsize := Pow2(bits), hasher, Pow2(memLevel + 6);
      this.config, this.filtered := config, filtered;
      window := new Byte[2 * Pow2(bits)];
      prev := new nat[Pow2(bits)];
      head := new nat[Pow2(hasher.bits)];
      input, strstart, lookahead, insert, insH, matchStart := [], 0, 0, 0, 0, 0;
      matchLength, prevLength, prevMatch, matchAvailable := MIN_MATCH - 1, MIN_MATCH - 1, 0, false;
      blockStart, highWater, tally := 0, 0, [];
      text, base, ins, upto, blocks := [], 0, {}, 0, [];
      since, log, pend := 0, [], Find(Look([], 0, 0, {}, 0, 0), 0, 0);
      new;
      ClearTable(head);
      WindowSizes(bits, memLevel + 6);
      ClearChain(k, text, base, upto, head[..], prev[..]);
    }

    ghost function Rule(): Rules {
      Rules(k, wSize, config, filtered)
    }

    /** The circumstances of a search at strstart. */
    ghost function Here(prior: nat): Look
      reads `text, `base, `strstart, `ins, `since
    {
      Look(text, base + strstart, base, ins, since, prior)
    }

    /** The tokens of all blocks and of the tally buffers. */
    ghost function AllTokens(): seq<Token>
      reads `blocks, `tally
    {
      TokensOf(blocks) + tally
    }

    ghost predicate Shaped() {
      && 512 <= wSize <= 0x8000 && window.Length == 2 * wSize && prev.Length == wSize && head.Length == Pow2(k.bits)
      && 2 <= litBufsize && config.chain >= 4 && (window as object) != head && (window as object) != prev &&
         head != prev
    }

    /** The window holds the lookahead and what came before it. */
    ghost predicate InWindow()
      reads `strstart, `lookahead, `insert, `text, `base, `highWater, window
    {
      && Shows(window[..], text, base) && base + strstart + lookahead == |text| && insert <= strstart
      && insert < MIN_MATCH && highWater <= window.Length
    }

    /** The dictionary is right. */
    ghost predicate Linked()
      reads `text, `base, `ins, `upto, head, prev
    {
      Chained(k, text, ins, base, upto, head[..], prev[..]) && (upto <= base || upto + MIN_MATCH <= |text| + 1)
    }

    /** No string has been inserted that is still to be. */
    ghost predicate Behind()
      reads `upto, `base, `strstart, `insert
    {
      upto <= base + strstart - insert
    }

    /** Strings wait only while they are not all there. */
    ghost predicate CaughtUp()
      reads `insert, `lookahead
    {
      insert == 0 || lookahead + insert < MIN_MATCH
    }

    ghost predicate PrimedFor(p: int)
      reads `text, `insH
    {
      0 <= p && p + 2 <= |text| && Primed(k, insH, text[p], text[p + 1])
    }

    /** The next string can be inserted if it is all there. */
    ghost predicate Ready()
      reads `text, `insH, `lookahead, `strstart, `insert, `base
    {
      lookahead >= MIN_MATCH ==> insert == 0 && PrimedFor(base + strstart)
    }

    /** The tokens account for the first n bytes of input, and more blocks may follow. */
    ghost predicate Telling(n: int)
      reads `blocks, `tally, `text, `base, `blockStart
    {
      Told(blocks, tally, text, base + blockStart, n) && !Ended(blocks) && Fit(TokensOf(blocks) + tally, MaxDist(wSize))
    }

    /** The window reaches back to where the dictionary was cleared, or as far as matches do. */
    ghost predicate Reaching()
      reads `base, `since, `strstart
    {
      base == since || strstart >= MaxDist(wSize)
    }

    /** INSERT_STRING. */
    method InsertString(str: nat) returns (hashHead: nat)
      requires Shaped() && Shows(window[..], text, base) && Linked() && upto <= base + str && PrimedFor(base + str)
      requires base + str + MIN_MATCH <= |text|
      modifies `insH, `ins, `upto, head, prev
      ensures Shows(window[..], text, base) && Linked() && upto == base + str + 1 && PrimedFor(base + str + 1)
      ensures Leads(k, text, ins, base, hashHead, base + str, HashAt(k, text, base + str))
      ensures ins == old(ins) + {(base + str) as int}
    {
      hide Chained, Leads, Primed, Hash, Update;
      var c := window[str + (MIN_MATCH - 1)];
      ghost var heads, prevs, was := head[..], prev[..], ins;
      assert c == text[base + str + 2];
      PrimedGives(k, insH, text[base + str], text[base + str + 1], c);
      UpdateFits(k, insH, c);
      insH := Update(k, insH, c);
      assert insH == HashAt(k, text, base + str);
      PrimedByHash(k, text[base + str], text[base + str + 1], c);
      hashHead := head[insH];
      prev[str % wSize] := hashHead;
      head[insH] := str;
      ins := ins + {base + str};
      InsertChain(k, text, was, base, upto, heads, prevs, base + str, insH);
      assert head[..] == heads[insH := str] && prev[..] == prevs[str % wSize := hashHead];
      LinkLeads(k, text, ins, base, base + str + 1, head[..], prev[..], str, insH);
      upto := base + str + 1;
    }

    /** Starts the rolling hash over, and inserts the strings that were left out at the end
        of the input before, as far as they are complete now. */
    method PrimeHash()
      requires Shaped() && InWindow() && Linked() && Behind()
      modifies `insH, `insert, `ins, `upto, head, prev
      ensures InWindow() && Linked() && Behind() && Ready() && insert <= old(insert) && old(ins) <= ins
      ensures CaughtUp() && forall q :: base + strstart - old(insert) <= q < base + strstart - insert ==> q in ins
    {
      hide Chained, Leads, Primed, Hash, Update, Shows, HashAt;
      if lookahead + insert >= MIN_MATCH {
        var str := strstart - insert;
        StartPrimed(window[..], text, base, str, k);
        insH := window[str];
        insH := Update(k, insH, window[str + 1]);
        while insert != 0
          invariant insert <= old(insert) && str == strstart - insert && lookahead + insert >= MIN_MATCH
          invariant InWindow() && Linked() && upto <= base + str && PrimedFor(base + str) && old(ins) <= ins
          invariant forall q :: base + strstart - old(insert) <= q < base + str ==> q in ins
        {
          var hashHead := InsertString(str);
          str := str + 1;
          insert := insert - 1;
          if lookahead + insert < MIN_MATCH { break; }
        }
      }
    }

    /** Moves the upper half of the window to the lower one. */
    method SlideWindow()
      requires Shaped() && InWindow() && Linked() && strstart >= wSize + MaxDist(wSize)
      modifies window, head, prev, `strstart, `matchStart, `blockStart, `base
      ensures InWindow() && Linked() && strstart == old(strstart) - wSize && base == old(base) + wSize
      ensures blockStart == old(blockStart) - wSize && Wrap(strstart - matchStart) == old(Wrap(strstart - matchStart))
    {
      hide Chained, Slid, Shows, Wrap;
      ghost var was, heads, prevs := window[..], head[..], prev[..];
      WrapSlides(strstart, matchStart, wSize);
      SlideHalf();
      matchStart := Wrap(matchStart - wSize);
      strstart := strstart - wSize;
      blockStart := blockStart - wSize;
      SlideTable(head, wSize);
      SlideTable(prev, wSize);
      base := base + wSize;
      ShowsSlid(was, text, old(base), wSize);
      SlideChain(k, text, ins, old(base), upto, heads, prevs);
    }

    method SlideHalf()
      requires Shaped()
      modifies window
      ensures window[..] == old(window[wSize..] + window[wSize..])
    {
      forall i | 0 <= i < wSize { window[i] := window[wSize + i]; }
    }

    /** read_buf: takes as much input as there is room for. */
    method ReadBuf(size: nat) returns (n: nat)
      requires Shaped() && InWindow() && strstart + lookahead + size <= window.Length
      modifies window, `input
      ensures n == Min(|old(input)|, size) && input == old(input)[n..]
      ensures window[..] == old(window[..strstart + lookahead]) + old(input)[..n] +
              old(window[strstart + lookahead + n..])
    {
      var at := strstart + lookahead;
      n := if |input| > size then size else |input|;
      forall i | 0 <= i < n { window[at + i] := input[i]; }
      input := input[n..];
    }

    /** Zeroes what the searches may look at beyond the input, where nothing was written yet. */
    method ZeroAhead()
      requires Shaped() && InWindow()
      modifies window, `highWater
      ensures InWindow()
    {
      hide Shows;
      ghost var was := window[..];
      if highWater < window.Length {
        var curr := strstart + lookahead;
        ShowsLength(window[..], text, base);
        if highWater < curr {
          var init := Min(window.Length - curr, MAX_MATCH);
          Zero(curr, init);
          highWater := curr + init;
        } else if highWater < curr + MAX_MATCH {
          var init := Min(curr + MAX_MATCH - highWater, window.Length - highWater);
          Zero(highWater, init);
          highWater := highWater + init;
        }
        ShowsBelow(was, window[..], text, base);
      }
    }

    method Zero(at: nat, n: nat)
      requires at + n <= window.Length
      modifies window
      ensures forall i :: 0 <= i < at ==> window[i] == old(window[i])
    {
      forall i | at <= i < at + n { window[i] := 0; }
    }

    /** fill_window. */
    method FillWindow()
      requires Shaped() && InWindow() && Linked() && Behind() && lookahead < MIN_LOOKAHEAD
      modifies window, head, prev, `strstart, `matchStart, `blockStart, `base, `input, `lookahead, `text, `insH,
               `insert, `ins, `upto, `highWater
      ensures InWindow() && Linked() && Behind() && strstart + MIN_LOOKAHEAD <= window.Length
      ensures old(Ready()) || old(input) != [] ==> Ready()
      ensures old(text) <= text && text + input == old(text + input) && insert <= old(insert)
      ensures lookahead >= MIN_LOOKAHEAD || input == []
      ensures base + strstart == old(base + strstart) && base + blockStart == old(base + blockStart)
      ensures Wrap(strstart - matchStart) == old(Wrap(strstart - matchStart)) && (old(strstart) > 0 ==> strstart > 0)
      ensures old(ins) <= ins && (old(Reaching()) ==> Reaching())
      ensures old(CaughtUp()) || old(input) != [] ==> CaughtUp()
      ensures forall q :: base + strstart - old(insert) <= q < base + strstart - insert ==> q in ins
    {
      hide Chained, Shows, Primed, Reaching, Linked, Behind, Wrap;
      while true
        invariant InWindow() && Linked() && Behind() && lookahead < MIN_LOOKAHEAD
        invariant old(Ready()) || old(input) != input ==> Ready()
        invariant old(text) <= text && text + input == old(text + input) && insert <= old(insert)
        invariant base + strstart == old(base + strstart) && base + blockStart == old(base + blockStart)
        invariant Wrap(strstart - matchStart) == old(Wrap(strstart - matchStart)) &&
                  (old(strstart) > 0 ==> strstart > 0)
        invariant old(ins) <= ins && (old(Reaching()) ==> Reaching())
        invariant old(CaughtUp()) || old(input) != input ==> CaughtUp()
        invariant forall q :: base + strstart - old(insert) <= q < base + strstart - insert ==> q in ins
        decreases |input|
      {
        var more := MakeRoom();
        if input == [] { break; }
        ReadMore(more);
        PrimeHash();
        if !(lookahead < MIN_LOOKAHEAD && input != []) { break; }
      }
      ZeroAhead();
    }

    /** Slides the window if it is almost full; then there is room for two bytes at least. */
    method MakeRoom() returns (more: nat)
      requires Shaped() && InWindow() && Linked() && Behind() && lookahead < MIN_LOOKAHEAD
      modifies window, head, prev, `strstart, `matchStart, `blockStart, `base
      ensures InWindow() && Linked() && Behind() && strstart + MIN_LOOKAHEAD <= window.Length
      ensures more >= 2 && strstart + lookahead + more == window.Length
      ensures base + strstart == old(base + strstart) && base + blockStart == old(base + blockStart)
      ensures Wrap(strstart - matchStart) == old(Wrap(strstart - matchStart)) && (old(Ready()) ==> Ready())
      ensures (old(strstart) > 0 ==> strstart > 0) && (old(Reaching()) ==> Reaching())
    {
      hide Chained, Shows, Primed;
      ShowsLength(window[..], text, base);
      more := window.Length - lookahead - strstart;
      if strstart >= wSize + MaxDist(wSize) {
        SlideWindow();
        more := more + wSize;
      }
    }

    method ReadMore(more: nat)
      requires Shaped() && InWindow() && Linked() && Behind() && 0 < more &&
               strstart + lookahead + more <= window.Length
      requires input != []
      modifies window, `input, `lookahead, `text
      ensures InWindow() && Linked() && Behind() && |input| < |old(input)|
      ensures old(text) < text && text + input == old(text + input)
    {
      hide Chained, Shows;
      ghost var was := window[..];
      var n := ReadBuf(more);
      ghost var got := old(input)[..n];
      ShowsMore(was, text, base, got, window[..]);
      GrowChain(k, text, ins, base, upto, head[..], prev[..], text + got, upto);
      lookahead := lookahead + n;
      text := text + got;
    }

    /** longest_match: the result is the best match that the search can find, and anything
        longer than the previous match is a true match at a distance within the limit. */
    method FindLongest(hashHead: nat) returns (len: nat)
      requires Shaped() && InWindow() && Linked() && upto == base + strstart + 1 &&
               strstart + MIN_LOOKAHEAD <= window.Length
      requires 1 <= prevLength <= MAX_MATCH && lookahead >= MIN_MATCH
      requires hashHead != 0 && strstart - hashHead <= MaxDist(wSize)
      requires Leads(k, text, ins, base, hashHead, base + strstart, HashAt(k, text, base + strstart))
      modifies `matchStart
      ensures Min(prevLength, lookahead) <= len <= Min(lookahead, MAX_MATCH)
      ensures Longest(Rule(), Here(prevLength), len, if len <= prevLength then 0 else Wrap(strstart - matchStart))
      ensures len > prevLength ==> Wrap(strstart - matchStart) <= MaxDist(wSize)
                                   && Repeats(text, base + strstart, Wrap(strstart - matchStart), len)
    {
      hide Chained, Shows, Known, HashAt, NoneBetter, NoneLonger, Chain, Agree, BestAt, Longest;
      assert Candidate(k, text, ins, base, strstart, MaxDist(wSize), hashHead);
      hide Leads;
      ghost var which;
      len, matchStart, which :=
        LongestMatch(window[..], prev[..], strstart, lookahead, hashHead, prevLength, matchStart, config,
                     k, text, ins, base, head[..]);
      SearchIs(window[..], Rule(), Here(prevLength), upto, head[..], prev[..], strstart, hashHead, len, matchStart,
               which);
      if len > prevLength {
        BestAgrees(window[..], Chain(prev[..], hashHead, FarLimit(strstart, wSize), ChainLength(config, prevLength)),
                   strstart, which, len, Min(MAX_MATCH, lookahead), Min(config.nice, lookahead), prevLength);
        AgreeRepeats(window[..], text, base, matchStart, strstart, len);
      }
    }

    /** _tr_tally for a literal. */
    method TallyLit(c: Byte, ghost n: int) returns (flush: bool)
      requires Telling(n) && n < |text| && c == text[n]
      modifies `tally
      ensures Telling(n + 1) && tally == old(tally) + [Literal(c)] && flush == (|tally| == litBufsize - 1)
    {
      hide Told, Ended, Fit;
      ToldLiteral(blocks, tally, text, base + blockStart, n, c);
      FitPush(TokensOf(blocks), tally, Literal(c), MaxDist(wSize));
      tally := tally + [Literal(c)];
      flush := |tally| == litBufsize - 1;
    }

    /** _tr_tally for a match, whose length is kept less MIN_MATCH in one byte. */
    method TallyDist(dist: nat, lc: Byte, ghost n: int) returns (flush: bool)
      requires Telling(n) && Repeats(text, n, dist, lc + MIN_MATCH) && 1 <= dist <= MaxDist(wSize)
      modifies `tally
      ensures Telling(n + lc + MIN_MATCH) && tally == old(tally) + [Copy(dist, lc + MIN_MATCH)]
      ensures flush == (|tally| == litBufsize - 1)
    {
      hide Told, Ended, Repeats, Fit;
      ToldCopy(blocks, tally, text, base + blockStart, n, dist, lc + MIN_MATCH);
      FitPush(TokensOf(blocks), tally, Copy(dist, lc + MIN_MATCH), MaxDist(wSize));
      tally := tally + [Copy(dist, lc + MIN_MATCH)];
      flush := |tally| == litBufsize - 1;
    }

    /** FLUSH_BLOCK: hands the block over; the result says whether output space has run out. */
    method FlushBlock(last: bool) returns (outputFull: bool)
      requires Shaped() && InWindow() && Telling(base + strstart)
      modifies `tally, `blocks, `blockStart
      ensures tally == [] && blockStart == strstart && Told(blocks, [], text, base + strstart, base + strstart) &&
              Ended(blocks) == last
      ensures Fit(TokensOf(blocks) + tally, MaxDist(wSize)) && AllTokens() == old(AllTokens())
      ensures blocks == old(blocks) +
              [Block(old(tally), if old(blockStart) >= 0 then Some(window[old(blockStart)..strstart]) else None, last)]
    {
      hide Shows, Interchangeable, Expand, Ended, Fit, TokensOf;
      if blockStart >= 0 { WindowSlice(window[..], text, base, blockStart, strstart); }
      ghost var b := Block(tally, if blockStart >= 0 then Some(window[blockStart..strstart]) else None, last);
      ToldFlush(blocks, tally, text, base + blockStart, base + strstart, b);
      blocks := blocks + [b];
      tally := [];
      blockStart := strstart;
      outputFull := *;
    }
  }

  lemma WindowSizes(bits: nat, litBits: nat)
    requires 9 <= bits <= 15 && litBits >= 7
    ensures 512 <= Pow2(bits) <= 0x8000 && Pow2(litBits) >= 128
  {
    PowerEight();
    assert Pow2(9) == 512 && Pow2(7) == 128;
    Pow2Add(8, 7);
    Pow2Monotone(9, bits);
    Pow2Monotone(bits, 15);
    Pow2Monotone(7, litBits);
  }

  lemma PrimedGives(k: Hasher, h: nat, a: Byte, b: Byte, c: Byte)
    requires Primed(k, h, a, b)
    ensures Update(k, h, c) == Hash(k, a, b, c)
  {
  }

  lemma StartPrimed(window: seq<Byte>, text: seq<Byte>, base: nat, str: nat, k: Hasher)
    requires Shows(window, text, base) && base + str + 2 <= |text|
    ensures str + 1 < |window| &&
            Primed(k, Update(k, window[str], window[str + 1]), text[base + str], text[base + str + 1])
  {
    PrimedByStart(k, window[str], window[str + 1]);
  }

  lemma ShowsLength(window: seq<Byte>, text: seq<Byte>, base: nat)
    requires Shows(window, text, base)
    ensures |text| <= base + |window|
  {
  }

  lemma ShowsSlid(window: seq<Byte>, text: seq<Byte>, base: nat, w: nat)
    requires Shows(window, text, base) && |window| == 2 * w && base + w <= |text|
    ensures Shows(window[w..] + window[w..], text, base + w)
  {
    var slid := window[w..] + window[w..];
    forall i {:trigger slid[i]} | 0 <= i < |text| - base - w ensures slid[i] == text[base + w + i] {
      assert slid[i] == window[w + i];
    }
  }

  lemma ShowsMore(window: seq<Byte>, text: seq<Byte>, base: nat, more: seq<Byte>, window': seq<Byte>)
    requires Shows(window, text, base) && |text| + |more| <= base + |window|
    requires window' == window[..|text| - base] + more + window[|text| - base + |more|..]
    ensures Shows(window', text + more, base)
  {
  }

  lemma ShowsBelow(window: seq<Byte>, window': seq<Byte>, text: seq<Byte>, base: nat)
    requires Shows(window, text, base) && |window'| == |window|
    requires forall i :: 0 <= i < |text| - base ==> window'[i] == window[i]
    ensures Shows(window', text, base)
  {
  }
}
