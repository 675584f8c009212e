/** deflate over any sequence of calls. */
module DeflateStream {
  import opened Common
  import opened Tokens
  import opened StringHash
  import opened HashChains
  import opened MatchSearch
  import opened DeflateState
  import opened Deflate
  import opened LazyMatches
  import opened RunMatches
  import opened MatchRule

  datatype Strategy = Default | Filtered | HuffmanOnly | Rle | Fixed

  datatype Status = Going | StreamEnd | StreamError | BufError

  /** configuration_table, for the levels that search for matches. */
  function Configuration(level: nat): (c: Config)
    requires 1 <= level <= 9
    ensures c.chain >= 4 && c.lazy >= MIN_MATCH
  {
    match level
    case 1 => Config(4, 4, 8, 4)
    case 2 => Config(4, 5, 16, 8)
    case 3 => Config(4, 6, 32, 32)
    case 4 => Config(4, 4, 16, 16)
    case 5 => Config(8, 16, 32, 32)
    case 6 => Config(8, 16, 128, 128)
    case 7 => Config(8, 32, 128, 256)
    case 8 => Config(32, 128, 258, 1024)
    case 9 => Config(32, 258, 258, 4096)
  }

  /** The numbers of the flush values. */
  function Code(flush: Flush): int {
    match flush
    case NoFlush => 0
    case PartialFlush => 1
    case SyncFlush => 2
    case FullFlush => 3
    case Finish => 4
    case BlockFlush => 5
  }

  /** RANK puts Z_BLOCK between Z_NO_FLUSH and Z_PARTIAL_FLUSH. */
  function Rank(f: int): int { 2 * f - if f > 4 then 9 else 0 }

  class Stream {
    const level: nat
    const strategy: Strategy
    const s: Deflater
    var finished: bool
    var lastFlush: int
    /** 1 while the zlib trailer is still to be written, then -1; 0 if there is none. */
    var wrap: int

    /** The state that the match finder in use keeps between calls. */
    ghost predicate Running()
      reads s, s.window, s.head, s.prev
    {
      if strategy.HuffmanOnly? || strategy.Rle? then PlainState(s, strategy.HuffmanOnly?)
      else if level <= 3 then FastState(s)
      else SlowState(s)
    }

    ghost predicate Valid()
      reads `finished, s, s.window, s.head, s.prev
    {
      s.Shaped() && 1 <= level <= 9 && s.config == Configuration(level)
      && if finished then AllTold(s) && Ended(s.blocks) && Logged() else Running()
    }

    /** Whether matches are found by deflate_slow. */
    predicate Lazy() { !strategy.HuffmanOnly? && !strategy.Rle? && level > 3 }

    /** Every token was chosen by the rule of the match finder in use. */
    ghost predicate Logged()
      reads s
    {
      if strategy.HuffmanOnly? || strategy.Rle? then PlainLogged(s, strategy.HuffmanOnly?)
      else if level <= 3 then FastLogged(s)
      else SlowLogged(s)
    }

    /** The searches made since the log had from entries. */
    ghost predicate SearchedFrom(from: nat, before: Find, since: int, flush: Flush)
      reads s
    {
      if strategy.HuffmanOnly? then true
      else if !Lazy() then Chosen(s.log, from, since, flush, s.text, s.input)
      else SlowChosen(s.log, from, before, s.pend, since, flush, s.text, s.input)
    }

    constructor (level: nat, windowBits: nat, memLevel: nat, strategy: Strategy, wrap: int)
      requires 1 <= level <= 9 && 8 <= windowBits <= 15 && 1 <= memLevel <= 9 && 0 <= wrap <= 1
      ensures Valid() && fresh(s) && fresh(s.window) && fresh(s.head) && fresh(s.prev)
      ensures !finished && s.text == [] && s.input == [] && s.blocks == [] && s.tally == []
      ensures this.level == level && this.strategy == strategy
    {
      this.level, this.strategy, finished, lastFlush, this.wrap := level, strategy, false, 0, wrap;
      s := new Deflater(windowBits, memLevel, Configuration(level), strategy.Filtered?);
      new;
      WindowSizes(Max(windowBits, 9), memLevel + 6);
    }

    /** One run of the match finder for this level and strategy. */
    method Search(flush: Flush) returns (r: BlockState, outputFull: bool)
      requires Valid() && !finished
      modifies s, s.window, s.head, s.prev
      ensures old(s.text) <= s.text && s.text + s.input == old(s.text + s.input)
      ensures r.NeedMore? ==> Running() && Halted(s, flush, outputFull)
      ensures r.BlockDone? ==> Running() && AllTold(s) && s.input == [] && !s.matchAvailable && flush != Finish
      ensures r.FinishStarted? || r.FinishDone? ==> AllTold(s) && s.input == [] && Ended(s.blocks) && flush == Finish
      ensures r.FinishStarted? ==> outputFull
      ensures Logged() && old(s.log) <= s.log && s.since == old(s.since)
      ensures SearchedFrom(old(|s.log|), old(s.pend), s.since, flush)
    {
      hide FastState, SlowState, PlainState, AllTold, Halted, FastLogged, SlowLogged, PlainLogged, Chosen, SlowChosen;
      if strategy.HuffmanOnly? || strategy.Rle? {
        r, outputFull := DeflatePlain(s, flush, strategy.HuffmanOnly?);
      } else if level <= 3 {
        r, outputFull := DeflateFast(s, flush);
      } else {
        r, outputFull := DeflateSlow(s, flush);
      }
    }

    /** CLEAR_HASH after a full flush; the window starts over. */
    method ForgetHistory()
      requires Valid() && !finished && AllTold(s) && !s.matchAvailable
      modifies s`strstart, s`blockStart, s`insert, s`ins, s`upto, s`base, s`since, s.head
      ensures Running() && AllTold(s) && Logged()
    {
      hide AllTold, Running, Deflater.InWindow, Deflater.Linked, Deflater.Telling, Deflater.Behind, Deflater.Ready,
           FastLogged, SlowLogged, PlainLogged;
      Settled();
      StartOver();
      Restarted();
    }

    method StartOver()
      requires s.Shaped() && s.InWindow() && AllTold(s) && !Ended(s.blocks)
      requires Logged() && !s.matchAvailable
      modifies s`strstart, s`blockStart, s`insert, s`ins, s`upto, s`base, s`since, s.head
      ensures s.InWindow() && s.Linked() && s.Behind() && s.insert == 0 && s.Telling(s.base + s.strstart) && AllTold(s)
      ensures Logged() && s.Reaching()
    {
      hide Told, Fit, Ended, Chained, FastLog, SlowLog, RunLog, OnlyLiterals, Shows, TokensOf;
      ForgetLog();
      ShowsNothing(s.window[..], s.text);
      ClearTable(s.head);
      s.ins, s.upto, s.since := {}, s.base + s.strstart, s.base + s.strstart;
      if s.lookahead == 0 {
        s.base := s.base + s.strstart;
        s.strstart, s.blockStart, s.insert := 0, 0, 0;
      }
      ClearChain(s.k, s.text, s.base, s.upto, s.head[..], s.prev[..]);
      assert TokensOf(s.blocks) + [] == TokensOf(s.blocks);
    }

    /** The choices made before do not depend on what is forgotten. */
    lemma ForgetLog()
      requires Logged() && !s.matchAvailable
      ensures var at := s.base + s.strstart;
              if strategy.HuffmanOnly? || strategy.Rle? then PlainLogged(s, strategy.HuffmanOnly?)
              else if level <= 3 then FastLog(s.Rule(), s.log, s.AllTokens(), s.text, at, at, {})
              else SlowLog(s.Rule(), s.log, s.AllTokens(), s.text, at, at, {})
    {
      hide FastLog, SlowLog, PlainLogged;
      var at := s.base + s.strstart;
      if strategy.HuffmanOnly? || strategy.Rle? {
      } else if level <= 3 {
        FastBefore(s.Rule(), s.log, s.AllTokens(), s.text, at, s.since, s.ins);
        FastLogKept(s.Rule(), s.log, s.AllTokens(), s.text, at, s.since, s.ins, s.text, at, {});
      } else {
        SlowBefore(s.Rule(), s.log, s.AllTokens(), s.text, at, s.since, s.ins);
        SlowLogKept(s.Rule(), s.log, s.AllTokens(), s.text, at, s.since, s.ins, s.text, at, {});
      }
    }

    lemma Restarted()
      requires s.Shaped() && s.InWindow() && s.Linked() && s.Behind() && s.insert == 0 &&
               s.Telling(s.base + s.strstart) && AllTold(s)
      requires !s.matchAvailable && KeptLengths() && Logged() && s.Reaching() && StartsFresh()
      ensures Running()
    {
      hide Deflater.InWindow, Deflater.Linked, Deflater.Telling, Told, Fit, FastLog, SlowLog, PlainLogged, Fresh;
    }

    /** No byte is undecided. */
    ghost predicate StartsFresh()
      reads s
    {
      level <= 3 || strategy.HuffmanOnly? || strategy.Rle? ||
      (|s.log| == |s.AllTokens()| && Fresh(s.log, s.AllTokens(), |s.log|))
    }

    /** At the end of the input no match is undecided. */
    ghost predicate KeptLengths()
      reads s`matchLength, s`prevLength
    {
      if strategy.HuffmanOnly? || strategy.Rle? then true
      else if level <= 3 then s.matchLength < MIN_MATCH && s.prevLength == MIN_MATCH - 1
      else s.matchLength == MIN_MATCH - 1
    }

    lemma Settled()
      requires Valid() && !finished && AllTold(s)
      ensures s.InWindow() && !Ended(s.blocks) && KeptLengths() && Logged() && (!s.matchAvailable ==> StartsFresh())
    {
      hide Told, Fit, Ended, Chained, Primed, Repeats, FastLog, SlowLog, PlainLogged, SlowPend, Fresh, TokensOf;
    }

    lemma NothingLeft()
      requires Valid() && finished
      ensures s.lookahead == 0
    {
    }

    /** Starts or continues a block, and does what the flush asks for once all input is in
        blocks; stop says whether deflate returns at once. */
    method Work(flush: Flush) returns (stop: bool, outputFull: bool)
      requires Valid() && !finished
      modifies this`finished, s, s.window, s.head, s.prev
      ensures Valid() && old(s.text) <= s.text && s.text + s.input == old(s.text + s.input)
      ensures finished ==> flush == Finish && s.input == []
      ensures !outputFull ==> s.input == [] && (flush != NoFlush ==> AllTold(s))
      ensures !outputFull && flush == Finish ==> finished && !stop
      ensures !stop ==> s.input == [] && AllTold(s) && (flush == Finish ==> finished)
      ensures old(s.log) <= s.log && (flush != FullFlush ==> s.since == old(s.since))
      ensures SearchedFrom(old(|s.log|), old(s.pend), old(s.since), flush)
    {
      hide AllTold, Running, Told, Ended, Logged;
      var state;
      state, outputFull := Search(flush);
      if state.FinishStarted? || state.FinishDone? { finished := true; }
      stop := state.NeedMore? || state.FinishStarted?;
      if state.BlockDone? {
        if flush == FullFlush { ForgetHistory(); }
        outputFull := *;
        stop := outputFull;
      }
    }

    /** deflate, from the header on.  How many bytes are pending for output, and so whether the
        space given is used up, is not determined; with no space the call is refused. */
    method Deflate(flush: Flush, availOut: nat) returns (r: Status, outputFull: bool)
      requires Valid()
      modifies this`finished, this`lastFlush, this`wrap, s, s.window, s.head, s.prev
      ensures Valid() && (old(finished) ==> finished)
      ensures r.StreamError? <==> old(finished) && flush != Finish
      ensures availOut == 0 && !r.StreamError? ==>
                r.BufError? && outputFull && s.text == old(s.text) && s.blocks == old(s.blocks)
      ensures old(s.text) <= s.text && s.text + s.input == old(s.text + s.input)
      ensures r.StreamEnd? ==> finished && s.input == []
      ensures finished && !old(finished) ==> flush == Finish && s.input == []
      ensures flush == Finish && !outputFull && (old(finished) ==> old(s.input) == []) ==> r.StreamEnd?
      ensures r.Going? && !outputFull ==> s.input == [] && (flush != NoFlush ==> AllTold(s))
      ensures old(s.log) <= s.log && (flush != FullFlush ==> s.since == old(s.since))
      ensures SearchedFrom(old(|s.log|), old(s.pend), old(s.since), flush)
    {
      hide AllTold, Running, Halted, Told, Ended, Logged, Informed;
      outputFull := false;
      if finished && flush != Finish { return StreamError, false; }
      if availOut == 0 { return BufError, true; }
      var oldFlush := lastFlush;
      lastFlush := Code(flush);
      var pending: bool := *;
      if pending {
        outputFull := *;
        if outputFull { lastFlush := -1; return Going, true; }
      } else if s.input == [] && Rank(Code(flush)) <= Rank(oldFlush) && flush != Finish {
        return BufError, false;
      }
      if finished && s.input != [] { return BufError, false; }
      if finished { NothingLeft(); }
      if s.input != [] || s.lookahead != 0 || (flush != NoFlush && !finished) {
        var stop;
        stop, outputFull := Work(flush);
        if outputFull { lastFlush := -1; }
        if stop { return Going, outputFull; }
      }
      if flush != Finish { return Going, outputFull; }
      if wrap <= 0 { return StreamEnd, outputFull; }
      wrap := -wrap;
      outputFull := *;
      r := if outputFull then Going else StreamEnd;
    }

    /** How much of the input read the tokens account for. */
    ghost function Consumed(): int
      reads `finished, s
    {
      if finished then |s.text| else Decided(s)
    }

    /** Decoding the tokens of the blocks and those still in the tally buffers gives the input
        consumed, which is all that has been read but the lookahead and one byte. */
    lemma Account()
      requires Valid()
      ensures 0 <= Consumed() <= |s.text| <= Consumed() + s.lookahead + 1
      ensures Expand(TokensOf(s.blocks) + s.tally) == Some(s.text[..Consumed()]) && Interchangeable(s.blocks)
      ensures Fit(TokensOf(s.blocks) + s.tally, MaxDist(s.wSize)) && Ended(s.blocks) == finished && Logged()
    {
      hide Expand, TokensOf, Interchangeable, Fit, Ended, Chained, Primed, Repeats, Shows, FastLog, SlowLog,
           PlainLogged;
      assert TokensOf(s.blocks) + [] == TokensOf(s.blocks);
    }

    /** Each token was chosen by the rule of its match finder, if it uses a dictionary from the
        strings then in it, which were those of all tokens since it was last cleared. */
    lemma Choices(i: nat)
      requires Valid() && i < |s.AllTokens()|
      ensures strategy.HuffmanOnly? ==> s.AllTokens()[i].Literal?
      ensures !strategy.HuffmanOnly? ==>
                && |s.log| == |s.AllTokens()| && s.log[i].here.look.text <= s.text
                && s.log[i].here.look.at == Span(s.AllTokens()[..i])
      ensures strategy.Rle? ==> RunPick(s.Rule(), s.log[i], s.AllTokens()[i])
      ensures !strategy.HuffmanOnly? && !strategy.Rle? && level <= 3 ==>
                FastPick(s.Rule(), s.log[i], s.AllTokens()[i]) &&
                FastHeld(s.Rule(), s.log, s.AllTokens(), i, s.log[i].here.look.since, s.log[i].here.look.ins)
      ensures Lazy() ==> SlowPick(s.Rule(), s.log[i], s.AllTokens()[i]) &&
                         Led(s.log, s.AllTokens(), i, s.log[i].here) &&
                         SlowHeld(s.log, s.AllTokens(), i, s.log[i].here.look.since, s.log[i].here.look.ins)
    {
      hide RunPick, FastPick, SlowPick, FastHeld, SlowHeld, Led, TokensOf, Span, Chained, Told, Fit, Shows, Repeats,
           SlowPend, Fresh, Primed;
      if strategy.HuffmanOnly? {
      } else if strategy.Rle? {
        assert RunEntry(s.Rule(), s.log, s.AllTokens(), s.text, i);
      } else if level <= 3 {
        assert FastEntry(s.Rule(), s.log, s.AllTokens(), s.text, i);
      } else {
        assert SlowEntry(s.Rule(), s.log, s.AllTokens(), s.text, i);
      }
    }

    /** The searches made over some calls. */
    ghost predicate WellSearched(log: seq<Pick>, pend: Find, from: nat, before: Find, since: int, start: seq<Byte>,
                                 calls: seq<Call>)
    {
      strategy.HuffmanOnly? || (
        && from <= |log| && (Lazy() ==> pend == before || Sighted(pend.look, since, start, calls))
        && forall i :: from <= i < |log| ==> PickSighted(log[i], before, since, start, calls))
    }

    lemma NothingSearched(log: seq<Pick>, pend: Find, since: int, start: seq<Byte>)
      ensures WellSearched(log, pend, |log|, pend, since, start, [])
    {
    }

    lemma SearchedMore(from: nat, before: Find, since: int, start: seq<Byte>, calls: seq<Call>, call: Call,
                       log: seq<Pick>, pend: Find, was: int)
      requires WellSearched(log, pend, from, before, since, start, calls)
      requires log <= s.log && SearchedFrom(|log|, pend, was, call.flush) && (Unbroken(calls) ==> was == since)
      requires s.text + s.input == start + Supplied(calls + [call])
      ensures WellSearched(s.log, s.pend, from, before, since, start, calls + [call])
    {
      hide Sighted, Informed;
      var all := calls + [call];
      if !strategy.HuffmanOnly? {
        if Lazy() { PendMore(before, since, start, calls, call, pend, was); }
        forall i | from <= i < |s.log| ensures PickSighted(s.log[i], before, since, start, all) {
          assert i < |log| ==> s.log[i] == log[i];
          if i < |log| {
            SightedMore(log[i].here.look, since, start, calls, call);
            if log[i].after.Some? { SightedMore(log[i].after.value.look, since, start, calls, call); }
          } else {
            PickMore(s.log[i], before, since, start, calls, call, pend, was);
          }
        }
      }
    }

    lemma PendMore(before: Find, since: int, start: seq<Byte>, calls: seq<Call>, call: Call, pend: Find, was: int)
      requires pend == before || Sighted(pend.look, since, start, calls)
      requires s.pend == pend || Informed(s.pend.look, was, call.flush, s.text, s.input)
      requires (Unbroken(calls) ==> was == since) && s.text + s.input == start + Supplied(calls + [call])
      ensures s.pend == before || Sighted(s.pend.look, since, start, calls + [call])
    {
      hide Sighted, Informed;
      SightedMore(s.pend.look, since, start, calls, call);
      if s.pend != pend { InformedSees(s.pend.look, was, s.text, s.input, since, start, calls, call); }
    }

    lemma PickMore(p: Pick, before: Find, since: int, start: seq<Byte>, calls: seq<Call>, call: Call, pend: Find,
                   was: int)
      requires !strategy.HuffmanOnly? &&
               (Lazy() ==> pend == before || Sighted(pend.look, since, start, calls))
      requires if !Lazy() then p.after.None? && Informed(p.here.look, was, call.flush, s.text, s.input)
               else PickInformed(p, pend, was, call.flush, s.text, s.input)
      requires (Unbroken(calls) ==> was == since) && s.text + s.input == start + Supplied(calls + [call])
      ensures PickSighted(p, before, since, start, calls + [call])
    {
      hide Sighted, Informed;
      SightedMore(p.here.look, since, start, calls, call);
      if Informed(p.here.look, was, call.flush, s.text, s.input) {
        InformedSees(p.here.look, was, s.text, s.input, since, start, calls, call);
      }
      if p.after.Some? { InformedSees(p.after.value.look, was, s.text, s.input, since, start, calls, call); }
    }

    /** Any sequence of calls, each with more input and a flush value: no byte is lost, and
        once the stream has ended its blocks decode to all the input read.  Every search made
        on the way had input enough for the longest match ahead of it, or all the input up to
        a call that asked for a flush, and the dictionary is never cleared but for a full
        flush. */
    method Run(calls: seq<Call>)
      requires Valid()
      modifies this`finished, this`lastFlush, this`wrap, s, s.window, s.head, s.prev
      ensures Valid() && s.text + s.input == old(s.text + s.input) + Supplied(calls)
      ensures Expand(TokensOf(s.blocks) + s.tally) == Some(s.text[..Consumed()])
      ensures finished ==> Expand(TokensOf(s.blocks)) == Some(s.text)
      ensures Logged() && old(s.log) <= s.log && (Unbroken(calls) ==> s.since == old(s.since))
      ensures WellSearched(s.log, s.pend, old(|s.log|), old(s.pend), old(s.since), old(s.text + s.input), calls)
    {
      hide Expand, TokensOf, Running, AllTold, Ended, SearchedFrom, WellSearched, Logged;
      assert calls[..0] == [];
      ghost var start := s.text + s.input;
      NothingSearched(s.log, s.pend, s.since, start);
      for i := 0 to |calls|
        invariant Valid() && s.text + s.input == start + Supplied(calls[..i])
        invariant old(s.log) <= s.log && (Unbroken(calls[..i]) ==> s.since == old(s.since))
        invariant WellSearched(s.log, s.pend, old(|s.log|), old(s.pend), old(s.since), start, calls[..i])
      {
        ghost var before, log, pend, since := s.text + s.input, s.log, s.pend, s.since;
        MoreInput(calls[i].data);
        assert s.text + s.input == before + calls[i].data;
        var r, outputFull := Deflate(calls[i].flush, calls[i].availOut);
        assert calls[..i + 1] == calls[..i] + [calls[i]];
        assert calls[..i + 1][..i] == calls[..i];
        assert s.text + s.input == old(s.text + s.input) + Supplied(calls[..i + 1]);
        SearchedMore(old(|s.log|), old(s.pend), old(s.since), start, calls[..i], calls[i], log, pend, since);
      }
      assert calls[..|calls|] == calls;
      Account();
      if finished { Finished(); }
    }

    /** The caller supplies more input. */
    method MoreInput(data: seq<Byte>)
      requires Valid()
      modifies s`input
      ensures Valid() && s.input == old(s.input) + data
    {
      hide Told, Fit, Ended, Chained, Primed, Repeats;
      s.input := s.input + data;
    }

    lemma Finished()
      requires Valid() && finished
      ensures Expand(TokensOf(s.blocks)) == Some(s.text)
    {
      hide Expand, TokensOf, Interchangeable, Fit, Ended;
      assert TokensOf(s.blocks) + [] == TokensOf(s.blocks);
      assert s.text[..|s.text|] == s.text;
    }
  }

  datatype Call = Call(data: seq<Byte>, flush: Flush, availOut: nat)

  function Supplied(calls: seq<Call>): seq<Byte> {
    if calls == [] then [] else Supplied(calls[..|calls| - 1]) + calls[|calls| - 1].data
  }

  /** No call asks for a full flush. */
  predicate Unbroken(calls: seq<Call>) {
    forall c :: c in calls ==> c.flush != FullFlush
  }

  /** A search that was made knowing enough: input for the longest match was ahead, or all the
      input up to a call that asked for a flush had been read; and the dictionary had not been
      cleared since but by a full flush. */
  ghost predicate Sighted(l: Look, since: int, start: seq<Byte>, calls: seq<Call>) {
    && (Unbroken(calls) ==> l.since == since)
    && (Ample(l) ||
        exists c :: 0 <= c < |calls| && calls[c].flush != NoFlush && l.text == start + Supplied(calls[..c + 1]))
  }

  ghost predicate PickSighted(p: Pick, before: Find, since: int, start: seq<Byte>, calls: seq<Call>) {
    && (p.here == before || Sighted(p.here.look, since, start, calls))
    && (p.after.Some? ==> Sighted(p.after.value.look, since, start, calls))
  }

  lemma SightedMore(l: Look, since: int, start: seq<Byte>, calls: seq<Call>, call: Call)
    ensures Sighted(l, since, start, calls) ==> Sighted(l, since, start, calls + [call])
  {
    hide Ample, Supplied;
    var all := calls + [call];
    if Sighted(l, since, start, calls) {
      assert forall c :: c in calls ==> c in all;
      if !Ample(l) {
        var c :| 0 <= c < |calls| && calls[c].flush != NoFlush && l.text == start + Supplied(calls[..c + 1]);
        assert all[..c + 1] == calls[..c + 1] && all[c] == calls[c];
      }
    }
  }

  lemma InformedSees(l: Look, was: int, text: seq<Byte>, input: seq<Byte>, since: int, start: seq<Byte>,
                     calls: seq<Call>, call: Call)
    requires Informed(l, was, call.flush, text, input) && text + input == start + Supplied(calls + [call])
    requires Unbroken(calls) ==> was == since
    ensures Sighted(l, since, start, calls + [call])
  {
    hide Ample, Supplied;
    var all := calls + [call];
    assert forall c :: c in calls ==> c in all;
    if !Ample(l) {
      assert text + [] == text;
      assert all[..|calls| + 1] == all && all[|calls|] == call;
    }
  }

  /** A window that starts where the text ends. */
  lemma ShowsNothing(window: seq<Byte>, text: seq<Byte>)
    ensures Shows(window, text, |text|)
  {
  }
}
