/** deflate's match finders at a fixed level and strategy: however the input is cut up over
    calls, the tokens handed to the tree coder expand to exactly the input consumed. */
module Deflate {
  import opened Common
  import opened Tokens
  import opened StringHash
  import opened HashChains
  import opened MatchSearch
  import opened DeflateState
  import opened MatchRule

  datatype Flush = NoFlush | PartialFlush | SyncFlush | FullFlush | Finish | BlockFlush

  datatype BlockState = NeedMore | BlockDone | FinishStarted | FinishDone

  /** All input read is in blocks. */
  ghost predicate AllTold(s: Deflater)
    reads s
  {
    s.lookahead == 0 && s.tally == [] && Told(s.blocks, [], s.text, |s.text|, |s.text|)
    && Fit(TokensOf(s.blocks), MaxDist(s.wSize))
  }

  /** Where a call that leaves a block unfinished stops: output space has run out, or more
      input is wanted and there is none. */
  ghost predicate Halted(s: Deflater, flush: Flush, outputFull: bool)
    reads s`input, s`lookahead
  {
    outputFull || (flush == NoFlush && s.input == [] && s.lookahead < MIN_LOOKAHEAD)
  }

  lemma WholeBlocks(s: Deflater)
    requires s.tally == [] && Told(s.blocks, s.tally, s.text, s.base + s.blockStart, s.base + s.strstart)
    ensures s.blockStart == s.strstart
  {
    hide Expand, Interchangeable, TokensOf;
    assert TokensOf(s.blocks) + [] == TokensOf(s.blocks);
    assert |s.text[..s.base + s.strstart]| == |s.text[..s.base + s.blockStart]|;
  }

  /** The end of a match finder: the last block, or whatever tokens are left. */
  method FlushRest(s: Deflater, flush: Flush) returns (r: BlockState, outputFull: bool)
    requires s.Shaped() && s.InWindow() && s.Telling(s.base + s.strstart) && s.lookahead == 0
    modifies s`tally, s`blocks, s`blockStart
    ensures AllTold(s) && Ended(s.blocks) == (flush == Finish) && s.blockStart == s.strstart
    ensures flush == Finish <==> r.FinishStarted? || r.FinishDone?
    ensures r.NeedMore? || r.FinishStarted? ==> outputFull
    ensures s.AllTokens() == old(s.AllTokens())
  {
    hide Shows, Told, Ended, Fit;
    outputFull := false;
    if flush == Finish {
      outputFull := s.FlushBlock(true);
      FlushedAll(s);
      return if outputFull then FinishStarted else FinishDone, outputFull;
    }
    if s.tally != [] {
      outputFull := s.FlushBlock(false);
    } else {
      WholeBlocks(s);
    }
    FlushedAll(s);
    r := if outputFull then NeedMore else BlockDone;
  }

  lemma FlushedAll(s: Deflater)
    requires s.InWindow() && s.lookahead == 0 && s.tally == [] && s.blockStart == s.strstart
    requires Told(s.blocks, s.tally, s.text, s.base + s.blockStart, s.base + s.strstart)
    requires Fit(TokensOf(s.blocks) + s.tally, MaxDist(s.wSize))
    ensures AllTold(s)
  {
    hide Told, Fit;
    assert TokensOf(s.blocks) + [] == TokensOf(s.blocks);
  }

  // ---------- deflate_fast ----------

  ghost predicate FastState(s: Deflater)
    reads s, s.window, s.head, s.prev
  {
    && s.InWindow() && s.Linked() && s.Behind() && s.Ready() && s.Telling(s.base + s.strstart)
    && |s.tally| + 1 < s.litBufsize && s.matchLength < MIN_MATCH && s.prevLength == MIN_MATCH - 1 && !s.matchAvailable
    && FastLogged(s) && s.Reaching()
  }

  /** Every token so far was chosen as deflate_fast chooses. */
  ghost predicate FastLogged(s: Deflater)
    reads s
  {
    FastLog(s.Rule(), s.log, s.AllTokens(), s.text, s.base + s.strstart, s.since, s.ins)
  }

  /** A choice made in a call: either enough input was ahead for any match, or all there was
      had been read, in a call that asked for a flush. */
  ghost predicate Informed(l: Look, since: int, flush: Flush, text: seq<Byte>, input: seq<Byte>) {
    l.since == since && (Ample(l) || (flush != NoFlush && input == [] && l.text == text))
  }

  ghost predicate Chosen(log: seq<Pick>, from: nat, since: int, flush: Flush, text: seq<Byte>, input: seq<Byte>) {
    && from <= |log|
    && forall i :: from <= i < |log| ==> log[i].after.None? && Informed(log[i].here.look, since, flush, text, input)
  }

  lemma ChosenMore(log: seq<Pick>, log': seq<Pick>, from: nat, since: int, flush: Flush, text: seq<Byte>,
                   input: seq<Byte>, text': seq<Byte>, input': seq<Byte>)
    requires Chosen(log, from, since, flush, text, input) && log <= log' &&
             Chosen(log', |log|, since, flush, text', input')
    requires text <= text' && text' + input' == text + input
    ensures Chosen(log', from, since, flush, text', input')
  {
    hide Ample;
    assert |text' + input'| == |text + input|;
    forall i | from <= i < |log'|
      ensures log'[i].after.None? && Informed(log'[i].here.look, since, flush, text', input')
    {
      if i < |log| { assert log'[i] == log[i] && Informed(log[i].here.look, since, flush, text, input); }
    }
  }

  /** Inserts the string at strstart and looks for a match. */
  method FastFind(s: Deflater) returns (ghost f: Find)
    requires s.Shaped() && FastState(s) && s.lookahead > 0 && s.strstart + MIN_LOOKAHEAD <= s.window.Length
    modifies s`insH, s`ins, s`upto, s`matchLength, s`matchStart, s.head, s.prev
    ensures s.InWindow() && s.Linked() && s.upto <= s.base + s.strstart + 1 - s.insert
    ensures s.lookahead >= MIN_MATCH ==> s.insert == 0 && s.PrimedFor(s.base + s.strstart + 1)
    ensures s.matchLength >= MIN_MATCH ==>
              && s.matchLength <= Min(s.lookahead, MAX_MATCH) && Wrap(s.strstart - s.matchStart) <= MaxDist(s.wSize)
              && Repeats(s.text, s.base + s.strstart, Wrap(s.strstart - s.matchStart), s.matchLength)
    ensures FastFoundAt(s, f)
  {
    hide Chained, Shows, Primed, Told, Fit, Ended, HashAt, Repeats, Leads, FastFound, FastLog, Wrap;
    FastInsert(s);
    var hashHead := 0;
    if s.lookahead >= MIN_MATCH {
      hashHead := s.InsertString(s.strstart);
    }
    f := FastSearch(s, hashHead);
  }

  method FastSearch(s: Deflater, hashHead: nat) returns (ghost f: Find)
    requires s.Shaped() && s.InWindow() && s.Linked() && s.strstart + MIN_LOOKAHEAD <= s.window.Length && s.Reaching()
    requires s.matchLength < MIN_MATCH && s.prevLength == MIN_MATCH - 1 && (hashHead != 0 ==> s.lookahead >= MIN_MATCH)
    requires s.lookahead >= MIN_MATCH ==>
               s.upto == s.base + s.strstart + 1 &&
               Leads(s.k, s.text, s.ins, s.base, hashHead, s.base + s.strstart,
                     HashAt(s.k, s.text, s.base + s.strstart))
    modifies s`matchLength, s`matchStart
    ensures s.matchLength >= MIN_MATCH ==>
              && s.matchLength <= Min(s.lookahead, MAX_MATCH) && Wrap(s.strstart - s.matchStart) <= MaxDist(s.wSize)
              && Repeats(s.text, s.base + s.strstart, Wrap(s.strstart - s.matchStart), s.matchLength)
    ensures f.look == s.Here(MIN_MATCH - 1) && f.len == s.matchLength && FastFound(s.Rule(), f)
    ensures f.len >= MIN_MATCH ==> f.dist == Wrap(s.strstart - s.matchStart)
  {
    hide Chained, Shows, HashAt, Repeats, Leads, Candidates, Longest, Wrap;
    f := Find(s.Here(MIN_MATCH - 1), s.matchLength, 0);
    if hashHead != 0 && s.strstart - hashHead <= MaxDist(s.wSize) {
      s.matchLength := s.FindLongest(hashHead);
      f := Find(f.look, s.matchLength, if s.matchLength < MIN_MATCH then 0 else Wrap(s.strstart - s.matchStart));
    } else if s.lookahead >= MIN_MATCH {
      NoCandidates(s.Rule(), f.look, s.strstart, hashHead);
      NothingFound(s.Rule(), f);
    }
  }

  /** Inserting strings does not affect the account. */
  lemma FastInsert(s: Deflater)
    requires FastLogged(s)
    ensures forall ins {:trigger FastLog(s.Rule(), s.log, s.AllTokens(), s.text, s.base + s.strstart, s.since, ins)} ::
              s.ins <= ins ==> FastLog(s.Rule(), s.log, s.AllTokens(), s.text, s.base + s.strstart, s.since, ins)
  {
    hide FastLog;
    forall ins {:trigger FastLog(s.Rule(), s.log, s.AllTokens(), s.text, s.base + s.strstart, s.since, ins)} |
      s.ins <= ins
      ensures FastLog(s.Rule(), s.log, s.AllTokens(), s.text, s.base + s.strstart, s.since, ins)
    {
      FastLogKept(s.Rule(), s.log, s.AllTokens(), s.text, s.base + s.strstart, s.since, s.ins, s.text, s.since, ins);
    }
  }

  /** Takes the match found, inserting its strings if it is not too long. */
  method FastTake(s: Deflater) returns (bflush: bool)
    requires s.Shaped() && s.InWindow() && s.Linked() && s.upto <= s.base + s.strstart + 1 && s.insert == 0
    requires s.PrimedFor(s.base + s.strstart + 1) && s.Telling(s.base + s.strstart)
    requires MIN_MATCH <= s.matchLength <= Min(s.lookahead, MAX_MATCH) &&
             Wrap(s.strstart - s.matchStart) <= MaxDist(s.wSize)
    requires Repeats(s.text, s.base + s.strstart, Wrap(s.strstart - s.matchStart), s.matchLength)
    requires s.strstart + MIN_LOOKAHEAD <= s.window.Length
    modifies s`tally, s`lookahead, s`strstart, s`matchLength, s`insH, s`ins, s`upto, s.head, s.prev
    ensures s.InWindow() && s.Linked() && s.Behind() && s.Ready() && s.Telling(s.base + s.strstart)
    ensures s.matchLength < MIN_MATCH && s.lookahead == old(s.lookahead - s.matchLength)
    ensures |s.tally| == |old(s.tally)| + 1 && bflush == (|s.tally| == s.litBufsize - 1)
    ensures s.tally == old(s.tally + [Copy(Wrap(s.strstart - s.matchStart), s.matchLength)]) && old(s.ins) <= s.ins
    ensures s.base + s.strstart == old(s.base + s.strstart + s.matchLength)
    ensures old(s.matchLength) <= s.config.lazy && s.lookahead >= MIN_MATCH ==>
              forall q :: old(s.base + s.strstart) < q < s.base + s.strstart ==> q in s.ins
  {
    hide Shows, Primed, Deflater.Linked, Deflater.Telling, Repeats;
    RepeatsBack(s.text, s.base + s.strstart, Wrap(s.strstart - s.matchStart), s.matchLength);
    bflush := s.TallyDist(Wrap(s.strstart - s.matchStart), s.matchLength - MIN_MATCH, s.base + s.strstart);
    s.lookahead := s.lookahead - s.matchLength;
    if s.matchLength <= s.config.lazy && s.lookahead >= MIN_MATCH {
      s.matchLength := s.matchLength - 1;
      InsertMatch(s);
    } else {
      SkipMatch(s);
    }
  }

  lemma RepeatsBack(text: seq<Byte>, at: int, dist: nat, len: nat)
    requires Repeats(text, at, dist, len)
    ensures dist >= 1
  {
  }

  /** Passes a match over and starts the rolling hash over after it. */
  method SkipMatch(s: Deflater)
    requires Shows(s.window[..], s.text, s.base) && s.strstart + s.matchLength + 1 < s.window.Length
    modifies s`strstart, s`matchLength, s`insH
    ensures s.strstart == old(s.strstart + s.matchLength) && s.matchLength == 0
    ensures s.base + s.strstart + 2 <= |s.text| ==> s.PrimedFor(s.base + s.strstart)
  {
    hide Shows, Primed, Update;
    s.strstart := s.strstart + s.matchLength;
    s.matchLength := 0;
    s.insH := s.window[s.strstart];
    s.insH := Update(s.k, s.insH, s.window[s.strstart + 1]);
    if s.base + s.strstart + 2 <= |s.text| { StartPrimed(s.window[..], s.text, s.base, s.strstart, s.k); }
  }

  /** Inserts the strings of a match after the first. */
  method InsertMatch(s: Deflater)
    requires s.Shaped() && Shows(s.window[..], s.text, s.base) && s.Linked() && s.upto <= s.base + s.strstart + 1 &&
             s.matchLength > 0
    requires s.PrimedFor(s.base + s.strstart + 1) && s.base + s.strstart + s.matchLength + MIN_MATCH + 1 <= |s.text|
    modifies s`strstart, s`matchLength, s`insH, s`ins, s`upto, s.head, s.prev
    ensures Shows(s.window[..], s.text, s.base) && s.Linked() && s.upto <= s.base + s.strstart &&
            s.PrimedFor(s.base + s.strstart)
    ensures s.strstart == old(s.strstart + s.matchLength) + 1 && s.matchLength == 0
    ensures old(s.ins) <= s.ins && forall q :: old(s.base + s.strstart) < q < s.base + s.strstart ==> q in s.ins
  {
    hide Chained, Shows, Primed, HashAt, Leads;
    while true
      invariant s.matchLength > 0 && s.strstart + s.matchLength == old(s.strstart + s.matchLength)
      invariant Shows(s.window[..], s.text, s.base) && s.Linked() && s.upto <= s.base + s.strstart + 1
      invariant s.PrimedFor(s.base + s.strstart + 1)
      invariant old(s.ins) <= s.ins && forall q :: old(s.base + s.strstart) < q <= s.base + s.strstart ==> q in s.ins
      decreases s.matchLength
    {
      s.strstart := s.strstart + 1;
      var hashHead := s.InsertString(s.strstart);
      s.matchLength := s.matchLength - 1;
      if s.matchLength == 0 { break; }
    }
    s.strstart := s.strstart + 1;
  }

  /** What is known of the state when a match, or none, has been found at strstart. */
  ghost predicate FastFoundAt(s: Deflater, f: Find)
    reads s
  {
    && FastLogged(s) && s.Reaching() && f.look == s.Here(MIN_MATCH - 1) && f.len == s.matchLength
    && FastFound(s.Rule(), f) && (s.lookahead >= MIN_MATCH ==> f.look.at in s.ins)
    && (f.len >= MIN_MATCH ==> f.dist == Wrap(s.strstart - s.matchStart))
  }

  /** One token more has been tallied since, and its strings inserted. */
  lemma FastAccount(s: Deflater, log: seq<Pick>, before: seq<Token>, p: Pick, t: Token)
    requires s.log == log + [p] && s.AllTokens() == before + [t] && s.text == p.here.look.text
    requires FastLog(s.Rule(), log, before, s.text, p.here.look.at, s.since, p.here.look.ins)
    requires p.here.look.since == s.since && p.here.look.ins <= s.ins && FastPick(s.Rule(), p, t)
    requires s.base + s.strstart == p.here.look.at + Length(t)
    requires forall q :: FastCovers(s.Rule(), p, t, q) ==> q in s.ins
    ensures FastLogged(s)
  {
    hide FastLog, FastPick, FastCovers;
    FastLogMore(s.Rule(), log, before, s.text, s.since, p.here.look.ins, p, t, s.ins);
  }

  lemma FastOpen(s: Deflater)
    requires FastLogged(s)
    ensures FastLog(s.Rule(), s.log, s.AllTokens(), s.text, s.base + s.strstart, s.since, s.ins)
  {
  }

  lemma FastClose(s: Deflater)
    requires FastLog(s.Rule(), s.log, s.AllTokens(), s.text, s.base + s.strstart, s.since, s.ins)
    ensures FastLogged(s)
  {
  }

  lemma TokenMore(blocks: seq<Block>, tally: seq<Token>, t: Token)
    ensures TokensOf(blocks) + (tally + [t]) == TokensOf(blocks) + tally + [t]
  {
  }

  /** The match found is tallied. */
  method FastCopy(s: Deflater, ghost f: Find) returns (bflush: bool)
    requires s.Shaped() && s.InWindow() && s.Linked() && s.upto <= s.base + s.strstart + 1 && s.insert == 0
    requires s.PrimedFor(s.base + s.strstart + 1) && s.Telling(s.base + s.strstart)
    requires MIN_MATCH <= s.matchLength <= Min(s.lookahead, MAX_MATCH) &&
             Wrap(s.strstart - s.matchStart) <= MaxDist(s.wSize)
    requires Repeats(s.text, s.base + s.strstart, Wrap(s.strstart - s.matchStart), s.matchLength)
    requires s.strstart + MIN_LOOKAHEAD <= s.window.Length && FastFoundAt(s, f)
    modifies s`tally, s`lookahead, s`strstart, s`matchLength, s`insH, s`ins, s`upto, s`log, s.head, s.prev
    ensures s.InWindow() && s.Linked() && s.Behind() && s.Ready() && s.Telling(s.base + s.strstart)
    ensures s.matchLength < MIN_MATCH && s.lookahead == old(s.lookahead - s.matchLength)
    ensures |s.tally| == |old(s.tally)| + 1 && bflush == (|s.tally| == s.litBufsize - 1)
    ensures FastLogged(s) && s.Reaching() && s.log == old(s.log) + [Pick(f, None)]
  {
    hide Deflater.InWindow, Deflater.Linked, Deflater.Behind, Deflater.Ready, Deflater.Telling, Deflater.PrimedFor,
         Repeats, FastLogged, FastLog, FastPick, FastCovers, FastFound, Wrap, TokensOf;
    ghost var log, before, tally := s.log, s.AllTokens(), s.tally;
    FastOpen(s);
    LookAhead(s);
    bflush := FastTake(s);
    LookAhead(s);
    s.log := s.log + [Pick(f, None)];
    TokenMore(s.blocks, tally, Copy(f.dist, f.len));
    PickedCopy(s.Rule(), f, s.ins);
    FastAccount(s, log, before, Pick(f, None), Copy(f.dist, f.len));
  }

  /** A literal is tallied. */
  method FastLiteral(s: Deflater, ghost f: Find) returns (bflush: bool)
    requires s.Shaped() && s.InWindow() && s.Linked() && s.upto <= s.base + s.strstart + 1 - s.insert
    requires s.lookahead >= MIN_MATCH ==> s.insert == 0 && s.PrimedFor(s.base + s.strstart + 1)
    requires s.lookahead > 0 && s.Telling(s.base + s.strstart) && s.matchLength < MIN_MATCH && FastFoundAt(s, f)
    modifies s`tally, s`lookahead, s`strstart, s`log
    ensures s.InWindow() && s.Linked() && s.Behind() && s.Ready() && s.Telling(s.base + s.strstart)
    ensures s.lookahead == old(s.lookahead) - 1
    ensures |s.tally| == |old(s.tally)| + 1 && bflush == (|s.tally| == s.litBufsize - 1)
    ensures FastLogged(s) && s.Reaching() && s.log == old(s.log) + [Pick(f, None)]
  {
    hide Shows, Deflater.Linked, Deflater.Telling, Primed, Repeats, FastLogged, FastLog, FastPick, FastCovers,
         FastFound, Wrap, TokensOf;
    ghost var log, before, tally := s.log, s.AllTokens(), s.tally;
    FastOpen(s);
    ShowsAt(s.window[..], s.text, s.base, s.strstart);
    var c := s.window[s.strstart];
    bflush := s.TallyLit(c, s.base + s.strstart);
    s.lookahead := s.lookahead - 1;
    s.strstart := s.strstart + 1;
    s.log := s.log + [Pick(f, None)];
    TokenMore(s.blocks, tally, Literal(c));
    PickedLiteral(s.Rule(), f, c, s.ins);
    FastAccount(s, log, before, Pick(f, None), Literal(c));
  }

  method FastStep(s: Deflater) returns (bflush: bool, ghost f: Find)
    requires s.Shaped() && FastState(s) && s.lookahead > 0 && s.strstart + MIN_LOOKAHEAD <= s.window.Length
    modifies s`tally, s`lookahead, s`strstart, s`matchLength, s`matchStart, s`insH, s`ins, s`upto, s`log, s.head,
             s.prev
    ensures s.InWindow() && s.Linked() && s.Behind() && s.Ready() && s.Telling(s.base + s.strstart)
    ensures s.matchLength < MIN_MATCH && s.lookahead < old(s.lookahead)
    ensures |s.tally| < s.litBufsize && bflush == (|s.tally| == s.litBufsize - 1)
    ensures FastLogged(s) && s.Reaching()
    ensures s.log == old(s.log) + [Pick(f, None)]
    ensures f.look.text == s.text && f.look.since == s.since && f.look.at == old(s.base + s.strstart)
  {
    hide Chained, Shows, Primed, Told, Fit, Ended, Repeats, FastLogged, FastFound;
    f := FastFind(s);
    if s.matchLength >= MIN_MATCH {
      bflush := FastCopy(s, f);
    } else {
      bflush := FastLiteral(s, f);
    }
  }

  lemma ShowsAt(window: seq<Byte>, text: seq<Byte>, base: nat, i: nat)
    requires Shows(window, text, base) && base + i < |text|
    ensures i < |window| && window[i] == text[base + i]
  {
  }

  /** What a round of a match finder's loop comes to. */
  datatype Round = Again | Leave | Return

  /** fill_window keeps the account of the choices. */
  method FastRefill(s: Deflater)
    requires s.Shaped() && FastState(s) && s.lookahead < MIN_LOOKAHEAD
    modifies s`strstart, s`matchStart, s`blockStart, s`base, s`input, s`lookahead, s`text, s`insH, s`insert, s`ins,
             s`upto, s`highWater,
             s.window, s.head, s.prev
    ensures FastState(s) && s.strstart + MIN_LOOKAHEAD <= s.window.Length
    ensures old(s.text) <= s.text && s.text + s.input == old(s.text + s.input)
    ensures s.lookahead >= MIN_LOOKAHEAD || s.input == []
    ensures |s.input| + s.lookahead == old(|s.input| + s.lookahead)
  {
    hide Deflater.InWindow, Deflater.Linked, Deflater.Behind, Deflater.Ready, Deflater.Telling, FastLog,
         Deflater.Reaching;
    ghost var text, ins, at := s.text, s.ins, s.base + s.strstart;
    Refill(s, s.base + s.strstart);
    FastLogKept(s.Rule(), s.log, s.AllTokens(), text, at, s.since, ins, s.text, s.since, s.ins);
  }

  method FastTurn(s: Deflater) returns (outputFull: bool, ghost f: Find)
    requires s.Shaped() && FastState(s) && s.lookahead > 0 && s.strstart + MIN_LOOKAHEAD <= s.window.Length
    modifies s, s.head, s.prev
    ensures FastState(s) && s.lookahead < old(s.lookahead) && s.text == old(s.text) && s.input == old(s.input)
    ensures s.log == old(s.log) + [Pick(f, None)] && s.since == old(s.since)
    ensures f.look.text == s.text && f.look.since == s.since && f.look.at == old(s.base + s.strstart)
  {
    hide Deflater.InWindow, Deflater.Linked, Deflater.Behind, Deflater.Ready, Deflater.Telling, FastLogged, FastLog,
         TokensOf;
    var bflush;
    bflush, f := FastStep(s);
    FastOpen(s);
    outputFull := FlushFull(s, bflush);
    FastClose(s);
  }

  /** How much text there is. */
  lemma LookAhead(s: Deflater)
    requires s.InWindow()
    ensures s.base + s.strstart + s.lookahead == |s.text|
  {
  }

  method FastRound(s: Deflater, flush: Flush) returns (go: Round, outputFull: bool)
    requires s.Shaped() && FastState(s)
    modifies s, s.window, s.head, s.prev
    ensures FastState(s) && old(s.text) <= s.text && s.text + s.input == old(s.text + s.input)
    ensures go.Again? ==> |s.input| + s.lookahead < old(|s.input| + s.lookahead)
    ensures go.Leave? ==> s.lookahead == 0 && s.input == []
    ensures go.Return? ==> Halted(s, flush, outputFull)
    ensures old(s.log) <= s.log && s.since == old(s.since) &&
            Chosen(s.log, old(|s.log|), s.since, flush, s.text, s.input)
  {
    hide Deflater.InWindow, Deflater.Linked, Deflater.Behind, Deflater.Ready, Deflater.Telling, FastLogged, FastLog,
         Deflater.Reaching, TokensOf;
    if s.lookahead < MIN_LOOKAHEAD {
      FastRefill(s);
      if s.lookahead < MIN_LOOKAHEAD && flush == NoFlush { return Return, false; }
      if s.lookahead == 0 { return Leave, false; }
    }
    WindowRoom(s);
    LookAhead(s);
    ghost var f;
    outputFull, f := FastTurn(s);
    go := if outputFull then Return else Again;
  }

  /** Hands the block over when the tally buffers are full. */
  method FlushFull(s: Deflater, bflush: bool) returns (outputFull: bool)
    requires s.Shaped() && s.InWindow() && s.Telling(s.base + s.strstart)
    requires |s.tally| < s.litBufsize && bflush == (|s.tally| == s.litBufsize - 1)
    modifies s`tally, s`blocks, s`blockStart
    ensures s.Telling(s.base + s.strstart) && |s.tally| + 1 < s.litBufsize && s.AllTokens() == old(s.AllTokens())
  {
    hide Shows, Told, Fit, Ended, Deflater.InWindow;
    outputFull := false;
    if bflush {
      outputFull := s.FlushBlock(false);
    }
  }

  /** The strings that begin with the last two bytes wait for a third byte. */
  ghost predicate LeftWaiting(s: Deflater)
    reads s`insert, s`strstart
  {
    s.insert == Min(s.strstart, MIN_MATCH - 1)
  }

  /** Strings that may yet be completed are inserted when they are. */
  method LeaveStrings(s: Deflater)
    requires s.InWindow() && s.Linked() && s.Behind() && s.lookahead == 0
    modifies s`insert
    ensures s.InWindow() && s.Behind() && s.Ready() && LeftWaiting(s)
  {
    hide Shows, Chained;
    s.insert := if s.strstart < MIN_MATCH - 1 then s.strstart else MIN_MATCH - 1;
  }

  method DeflateFast(s: Deflater, flush: Flush) returns (r: BlockState, outputFull: bool)
    requires s.Shaped() && FastState(s)
    modifies s, s.window, s.head, s.prev
    ensures old(s.text) <= s.text && s.text + s.input == old(s.text + s.input) && FastLogged(s)
    ensures old(s.log) <= s.log && s.since == old(s.since) &&
            Chosen(s.log, old(|s.log|), s.since, flush, s.text, s.input)
    ensures r.NeedMore? ==> FastState(s) && Halted(s, flush, outputFull)
    ensures r.BlockDone? ==> FastState(s) && AllTold(s) && s.input == [] && !s.matchAvailable && flush != Finish
    ensures r.BlockDone? ==> LeftWaiting(s)
    ensures r.FinishStarted? || r.FinishDone? ==> AllTold(s) && s.input == [] && Ended(s.blocks) && flush == Finish
    ensures r.FinishStarted? ==> outputFull
  {
    hide FastState, FastLogged, Ample;
    while true
      invariant FastState(s) && old(s.text) <= s.text && s.text + s.input == old(s.text + s.input)
      invariant old(s.log) <= s.log && s.since == old(s.since) &&
                Chosen(s.log, old(|s.log|), s.since, flush, s.text, s.input)
      decreases |s.input| + s.lookahead
    {
      var go;
      ghost var text, input, log := s.text, s.input, s.log;
      go, outputFull := FastRound(s, flush);
      ChosenMore(log, s.log, old(|s.log|), s.since, flush, text, input, s.text, s.input);
      if go.Return? { FastIs(s); return NeedMore, outputFull; }
      if go.Leave? { break; }
    }
    r, outputFull := FastEnd(s, flush);
  }

  lemma FastIs(s: Deflater)
    requires FastState(s)
    ensures FastLogged(s)
  {
  }

  method FastEnd(s: Deflater, flush: Flush) returns (r: BlockState, outputFull: bool)
    requires s.Shaped() && FastState(s) && s.lookahead == 0 && s.input == []
    modifies s`insert, s`tally, s`blocks, s`blockStart
    ensures flush != Finish ==> FastState(s) && !r.FinishStarted? && !r.FinishDone?
    ensures flush == Finish ==> (r.FinishStarted? || r.FinishDone?) && Ended(s.blocks)
    ensures AllTold(s) && (r.NeedMore? || r.FinishStarted? ==> outputFull) && !s.matchAvailable && FastLogged(s)
    ensures LeftWaiting(s)
  {
    hide Chained, Shows, Primed, Told, Fit, Ended, FastLog;
    LeaveStrings(s);
    r, outputFull := FlushRest(s, flush);
    TellingNothing(s);
  }

  lemma TellingNothing(s: Deflater)
    requires s.InWindow() && AllTold(s) && s.blockStart == s.strstart
    ensures !Ended(s.blocks) ==> s.Telling(s.base + s.strstart)
  {
    hide Told, Fit;
    assert TokensOf(s.blocks) + [] == TokensOf(s.blocks);
  }

  lemma WindowRoom(s: Deflater)
    requires s.Shaped() && s.InWindow()
    requires s.lookahead >= MIN_LOOKAHEAD || s.strstart + MIN_LOOKAHEAD <= s.window.Length
    ensures s.strstart + MIN_LOOKAHEAD <= s.window.Length
  {
  }

  /** fill_window keeps the account of the tokens. */
  method Refill(s: Deflater, ghost n: int)
    requires s.Shaped() && s.InWindow() && s.Linked() && s.Behind() && s.lookahead < MIN_LOOKAHEAD && s.Telling(n)
    modifies s`strstart, s`matchStart, s`blockStart, s`base, s`input, s`lookahead, s`text, s`insH, s`insert, s`ins,
             s`upto, s`highWater,
             s.window, s.head, s.prev
    ensures s.InWindow() && s.Linked() && s.Behind() && s.Telling(n) && s.strstart + MIN_LOOKAHEAD <= s.window.Length
    ensures (old(s.Ready()) || old(s.input) != [] ==> s.Ready()) && s.insert <= old(s.insert)
    ensures old(s.text) <= s.text && s.text + s.input == old(s.text + s.input)
    ensures s.lookahead >= MIN_LOOKAHEAD || s.input == []
    ensures s.base + s.strstart == old(s.base + s.strstart) && |s.input| + s.lookahead == old(|s.input| + s.lookahead)
    ensures Wrap(s.strstart - s.matchStart) == old(Wrap(s.strstart - s.matchStart))
    ensures s.lookahead >= old(s.lookahead) && (old(s.strstart) > 0 ==> s.strstart > 0)
    ensures old(s.ins) <= s.ins && (old(s.Reaching()) ==> s.Reaching())
  {
    hide Chained, Shows, Primed, Told, Fit, Ended;
    s.FillWindow();
    assert |s.text + s.input| == |old(s.text + s.input)|;
    ToldLonger(s.blocks, s.tally, old(s.text), s.base + s.blockStart, n, s.text);
  }
}
