/** The match finders that keep no dictionary: deflate_rle, for matches of distance one only,
    and deflate_huff, for no matches at all. */
module RunMatches {
  import opened Common
  import opened Tokens
  import opened StringHash
  import opened HashChains
  import opened MatchSearch
  import opened DeflateState
  import opened Deflate
  import opened MatchRule

  ghost predicate PlainState(s: Deflater, huffmanOnly: bool)
    reads s, s.window, s.head, s.prev
  {
    && s.InWindow() && s.Linked() && s.Behind() && s.insert == 0 && s.Telling(s.base + s.strstart)
    && |s.tally| + 1 < s.litBufsize && !s.matchAvailable && PlainLogged(s, huffmanOnly) && s.Reaching()
  }

  /** Every token so far was chosen as deflate_rle chooses, or is a literal. */
  ghost predicate PlainLogged(s: Deflater, huffmanOnly: bool)
    reads s
  {
    if huffmanOnly then OnlyLiterals(s.AllTokens())
    else RunLog(s.Rule(), s.log, s.AllTokens(), s.text, s.base + s.strstart)
  }

  ghost predicate OnlyLiterals(toks: seq<Token>) {
    forall i :: 0 <= i < |toks| ==> toks[i].Literal?
  }

  /** How many times the byte before strstart repeats, if three times at least. */
  method RunAt(window: seq<Byte>, strstart: nat, lookahead: nat) returns (len: nat)
    requires strstart + MIN_LOOKAHEAD <= |window| + MIN_MATCH
    ensures len == 0 || MIN_MATCH <= len <= Min(lookahead, MAX_MATCH)
    ensures len > 0 ==> strstart > 0 && forall i :: strstart <= i < strstart + len ==> window[i] == window[strstart - 1]
    ensures len == 0 ==>
              || lookahead < MIN_MATCH || strstart == 0
              || exists i :: strstart <= i < strstart + MIN_MATCH && window[i] != window[strstart - 1]
    ensures 0 < len < Min(lookahead, MAX_MATCH) ==> window[strstart + len] != window[strstart - 1]
  {
    len := 0;
    if lookahead >= MIN_MATCH && strstart > 0 {
      var prev := window[strstart - 1];
      if prev == window[strstart] && prev == window[strstart + 1] && prev == window[strstart + 2] {
        var scan := strstart + 2;
        while true
          invariant strstart + 2 <= scan < strstart + MAX_MATCH
          invariant forall i :: strstart <= i <= scan ==> window[i] == prev
          decreases strstart + MAX_MATCH - scan
        {
          scan := scan + 1;
          if prev != window[scan] || scan >= strstart + MAX_MATCH { break; }
        }
        len := scan - strstart;
        if len > lookahead { len := lookahead; }
      }
    }
  }

  /** What is found in the window is so in the text. */
  lemma RunIs(window: seq<Byte>, l: Look, strstart: nat, lookahead: nat, len: nat)
    requires Shows(window, l.text, l.base) && l.at == l.base + strstart && |l.text| == l.at + lookahead
    requires strstart + MIN_LOOKAHEAD <= |window| + MIN_MATCH
    requires len == 0 || (strstart > 0 && MIN_MATCH <= len <= Min(lookahead, MAX_MATCH))
    requires len > 0 ==> forall i :: strstart <= i < strstart + len ==> window[i] == window[strstart - 1]
    requires len == 0 ==>
               || lookahead < MIN_MATCH || strstart == 0
               || exists i :: strstart <= i < strstart + MIN_MATCH && window[i] != window[strstart - 1]
    requires 0 < len < Min(lookahead, MAX_MATCH) ==> window[strstart + len] != window[strstart - 1]
    ensures if len > 0 then RunLength(l) == len else RunLength(l) < MIN_MATCH
  {
    hide Shared;
    var most := Most(l);
    if strstart > 0 {
      assert forall i: int :: strstart - 1 <= i < strstart + most ==> window[i] == l.text[l.base + i];
      SharedIs(l.text, l.at - 1, l.at, most, 0);
      if len > 0 {
        forall i: int | l.at <= i < l.at + len ensures l.text[i] == l.text[l.at - 1] {
          assert window[i - l.base] == l.text[i] && window[strstart - 1] == l.text[l.at - 1];
        }
        RunShared(l.text, l.at, most, len);
        if len < most { SharedIs(l.text, l.at - 1, l.at, most, len + 1); NotShared(l.text, l.at, len); }
      } else if lookahead >= MIN_MATCH && RunLength(l) >= MIN_MATCH {
        SharedIs(l.text, l.at - 1, l.at, most, MIN_MATCH);
        AllShared(l.text, l.at);
        assert false;
      }
    }
  }

  lemma RunShared(text: seq<Byte>, at: int, most: int, len: nat)
    requires 0 < at && at + most <= |text| && len <= most && forall i :: at <= i < at + len ==> text[i] == text[at - 1]
    ensures len <= Shared(text, at - 1, at, most)
  {
    hide Shared;
    assert text[at - 1..at - 1 + len] == text[at..at + len];
    SharedIs(text, at - 1, at, most, len);
  }

  /** The run ends after len bytes. */
  lemma NotShared(text: seq<Byte>, at: int, len: nat)
    requires 0 < len && 0 < at && at + len < |text| && text[at + len] != text[at - 1] == text[at + len - 1]
    ensures text[at - 1..at - 1 + (len + 1)] != text[at..at + (len + 1)]
  {
    assert text[at - 1..at - 1 + (len + 1)][len] == text[at + len - 1];
    assert text[at..at + (len + 1)][len] == text[at + len];
  }

  lemma AllShared(text: seq<Byte>, at: int)
    requires 0 < at && at + MIN_MATCH <= |text| && text[at - 1..at - 1 + MIN_MATCH] == text[at..at + MIN_MATCH]
    ensures text[at] == text[at + 1] == text[at + 2] == text[at - 1]
  {
    var x, y := text[at - 1..at - 1 + MIN_MATCH], text[at..at + MIN_MATCH];
    assert x[0] == y[0] && x[1] == y[1] && x[2] == y[2];
  }

  lemma RunRepeats(window: seq<Byte>, text: seq<Byte>, base: nat, strstart: nat, len: nat)
    requires Shows(window, text, base) && strstart > 0 && base + strstart + len <= |text|
    requires forall i :: strstart <= i < strstart + len ==> window[i] == window[strstart - 1]
    ensures Repeats(text, base + strstart, 1, len)
  {
    forall i {:trigger text[i]} | base + strstart <= i < base + strstart + len ensures text[i] == text[i - 1] {
      assert window[i - base] == text[i] && window[i - base - 1] == text[i - 1];
    }
  }

  /** A literal for the byte at strstart. */
  method TakeByte(s: Deflater) returns (bflush: bool, ghost c: Byte)
    requires s.Shaped() && s.InWindow() && s.Linked() && s.Behind() && s.insert == 0 &&
             s.Telling(s.base + s.strstart) && |s.tally| + 1 < s.litBufsize && s.lookahead > 0
    modifies s`tally, s`lookahead, s`strstart
    ensures s.InWindow() && s.Linked() && s.Behind() && s.Telling(s.base + s.strstart) &&
            s.lookahead == old(s.lookahead) - 1
    ensures |s.tally| < s.litBufsize && bflush == (|s.tally| == s.litBufsize - 1)
    ensures s.tally == old(s.tally) + [Literal(c)] && s.strstart == old(s.strstart) + 1
  {
    hide Shows, Deflater.Telling, Deflater.Linked;
    ShowsAt(s.window[..], s.text, s.base, s.strstart);
    c := s.window[s.strstart];
    bflush := s.TallyLit(s.window[s.strstart], s.base + s.strstart);
    s.lookahead := s.lookahead - 1;
    s.strstart := s.strstart + 1;
  }

  /** The literal, where no match is looked for. */
  method HuffStep(s: Deflater) returns (bflush: bool)
    requires s.Shaped() && PlainState(s, true) && s.lookahead > 0
    modifies s`tally, s`lookahead, s`strstart
    ensures s.InWindow() && s.Linked() && s.Behind() && s.Telling(s.base + s.strstart) && s.lookahead < old(s.lookahead)
    ensures |s.tally| < s.litBufsize && bflush == (|s.tally| == s.litBufsize - 1)
    ensures PlainLogged(s, true) && s.Reaching()
  {
    hide Shows, Deflater.Telling, Deflater.Linked, TokensOf;
    ghost var before, tally := s.AllTokens(), s.tally;
    ghost var c;
    bflush, c := TakeByte(s);
    TokenMore(s.blocks, tally, Literal(c));
    assert s.AllTokens() == before + [Literal(c)];
  }

  /** A match for the run at strstart, or a literal. */
  method TakeRun(s: Deflater) returns (bflush: bool, ghost t: Token)
    requires s.Shaped() && s.InWindow() && s.Linked() && s.Behind() && s.insert == 0 &&
             s.Telling(s.base + s.strstart) && |s.tally| + 1 < s.litBufsize && s.lookahead > 0
    requires s.lookahead > MAX_MATCH || s.strstart + MIN_LOOKAHEAD <= s.window.Length
    modifies s`tally, s`lookahead, s`strstart, s`matchLength
    ensures s.InWindow() && s.Linked() && s.Behind() && s.Telling(s.base + s.strstart) && s.lookahead < old(s.lookahead)
    ensures |s.tally| < s.litBufsize && bflush == (|s.tally| == s.litBufsize - 1)
    ensures s.tally == old(s.tally) + [t] && s.strstart == old(s.strstart) + Length(t)
    ensures var n := old(RunLength(s.Here(0))); if n >= MIN_MATCH then t == Copy(1, n) else t.Literal?
  {
    hide Shows, Deflater.Telling, Deflater.Linked, Repeats, RunLength;
    ShowsLength(s.window[..], s.text, s.base);
    s.matchLength := RunAt(s.window[..], s.strstart, s.lookahead);
    RunIs(s.window[..], s.Here(0), s.strstart, s.lookahead, s.matchLength);
    if s.matchLength >= MIN_MATCH {
      t := Copy(1, s.matchLength);
      RunRepeats(s.window[..], s.text, s.base, s.strstart, s.matchLength);
      bflush := s.TallyDist(1, s.matchLength - MIN_MATCH, s.base + s.strstart);
      s.lookahead := s.lookahead - s.matchLength;
      s.strstart := s.strstart + s.matchLength;
      s.matchLength := 0;
    } else {
      ghost var c;
      bflush, c := TakeByte(s);
      t := Literal(c);
    }
  }

  method RleStep(s: Deflater) returns (bflush: bool, ghost f: Find)
    requires s.Shaped() && PlainState(s, false) && s.lookahead > 0
    requires s.lookahead > MAX_MATCH || s.strstart + MIN_LOOKAHEAD <= s.window.Length
    modifies s`tally, s`lookahead, s`strstart, s`matchLength, s`log
    ensures s.InWindow() && s.Linked() && s.Behind() && s.Telling(s.base + s.strstart) && s.lookahead < old(s.lookahead)
    ensures |s.tally| < s.litBufsize && bflush == (|s.tally| == s.litBufsize - 1)
    ensures PlainLogged(s, false) && s.Reaching()
    ensures s.log == old(s.log) + [Pick(f, None)] && f.look == old(s.Here(0))
  {
    hide Deflater.InWindow, Deflater.Telling, Deflater.Linked, Deflater.Behind, RunLength, RunLog, TokensOf;
    ghost var log, before, tally, t := s.log, s.AllTokens(), s.tally, Literal(0);
    f := Find(s.Here(0), 0, 0);
    bflush, t := TakeRun(s);
    TokenMore(s.blocks, tally, t);
    s.log := s.log + [Pick(f, None)];
    RunLogMore(s.Rule(), log, before, s.text, Pick(f, None), t);
  }

  /** Fills the window where the lookahead is no more than least. */
  method PlainRefill(s: Deflater, least: nat, ghost huffmanOnly: bool)
    requires s.Shaped() && PlainState(s, huffmanOnly) && s.lookahead <= least < MIN_LOOKAHEAD
    modifies s, s.window, s.head, s.prev
    ensures PlainState(s, huffmanOnly) && old(s.text) <= s.text && s.text + s.input == old(s.text + s.input)
    ensures s.strstart + MIN_LOOKAHEAD <= s.window.Length && (s.lookahead > least || s.input == [])
    ensures |s.input| + s.lookahead == old(|s.input| + s.lookahead)
    ensures s.log == old(s.log) && s.since == old(s.since)
  {
    hide Deflater.InWindow, Deflater.Linked, Deflater.Behind, Deflater.Ready, Deflater.Telling, Deflater.Reaching,
         RunLog, TokensOf;
    ghost var text := s.text;
    Refill(s, s.base + s.strstart);
    if !huffmanOnly { RunLogKept(s.Rule(), s.log, s.AllTokens(), text, s.base + s.strstart, s.text); }
  }

  /** Hands the block over when the tally buffers are full. */
  method PlainTurn(s: Deflater, bflush: bool, ghost huffmanOnly: bool) returns (outputFull: bool)
    requires s.Shaped() && s.InWindow() && s.Linked() && s.Behind() && s.insert == 0 && s.Telling(s.base + s.strstart)
    requires |s.tally| < s.litBufsize && bflush == (|s.tally| == s.litBufsize - 1) && !s.matchAvailable
    requires PlainLogged(s, huffmanOnly) && s.Reaching()
    modifies s`tally, s`blocks, s`blockStart
    ensures PlainState(s, huffmanOnly)
  {
    hide Deflater.InWindow, Deflater.Linked, Deflater.Behind, Deflater.Telling, RunLog, OnlyLiterals, TokensOf;
    outputFull := FlushFull(s, bflush);
  }

  method RleRound(s: Deflater, flush: Flush) returns (go: Round, outputFull: bool)
    requires s.Shaped() && PlainState(s, false)
    modifies s, s.window, s.head, s.prev
    ensures PlainState(s, false) && old(s.text) <= s.text && s.text + s.input == old(s.text + s.input)
    ensures go.Again? ==> |s.input| + s.lookahead < old(|s.input| + s.lookahead)
    ensures go.Leave? ==> s.lookahead == 0 && s.input == []
    ensures go.Return? ==> Halted(s, flush, outputFull)
    ensures old(s.log) <= s.log && s.since == old(s.since) &&
            Chosen(s.log, old(|s.log|), s.since, flush, s.text, s.input)
  {
    hide Deflater.InWindow, Deflater.Linked, Deflater.Behind, Deflater.Telling, Deflater.Reaching, PlainLogged;
    if s.lookahead <= MAX_MATCH {
      PlainRefill(s, MAX_MATCH, false);
      if s.lookahead <= MAX_MATCH && flush == NoFlush { return Return, false; }
      if s.lookahead == 0 { return Leave, false; }
    }
    LookAhead(s);
    ghost var f;
    var bflush;
    bflush, f := RleStep(s);
    outputFull := PlainTurn(s, bflush, false);
    go := if outputFull then Return else Again;
  }

  method HuffRound(s: Deflater, flush: Flush) returns (go: Round, outputFull: bool)
    requires s.Shaped() && PlainState(s, true)
    modifies s, s.window, s.head, s.prev
    ensures PlainState(s, true) && old(s.text) <= s.text && s.text + s.input == old(s.text + s.input)
    ensures go.Again? ==> |s.input| + s.lookahead < old(|s.input| + s.lookahead)
    ensures go.Leave? ==> s.lookahead == 0 && s.input == []
    ensures go.Return? ==> Halted(s, flush, outputFull)
    ensures s.log == old(s.log) && s.since == old(s.since)
  {
    hide Deflater.InWindow, Deflater.Linked, Deflater.Behind, Deflater.Telling, Deflater.Reaching, OnlyLiterals,
         TokensOf;
    if s.lookahead == 0 {
      PlainRefill(s, 0, true);
      if s.lookahead == 0 {
        if flush == NoFlush { return Return, false; }
        return Leave, false;
      }
    }
    s.matchLength := 0;
    var bflush := HuffStep(s);
    outputFull := PlainTurn(s, bflush, true);
    go := if outputFull then Return else Again;
  }

  /** deflate_rle, or with plain deflate_huff. */
  method DeflatePlain(s: Deflater, flush: Flush, huffmanOnly: bool) returns (r: BlockState, outputFull: bool)
    requires s.Shaped() && PlainState(s, huffmanOnly)
    modifies s, s.window, s.head, s.prev
    ensures old(s.text) <= s.text && s.text + s.input == old(s.text + s.input) && PlainLogged(s, huffmanOnly)
    ensures r.NeedMore? ==> PlainState(s, huffmanOnly) && Halted(s, flush, outputFull)
    ensures r.BlockDone? ==>
              PlainState(s, huffmanOnly) && AllTold(s) && s.input == [] && !s.matchAvailable && flush != Finish
    ensures r.FinishStarted? || r.FinishDone? ==> AllTold(s) && s.input == [] && Ended(s.blocks) && flush == Finish
    ensures r.FinishStarted? ==> outputFull
    ensures old(s.log) <= s.log && s.since == old(s.since)
    ensures !huffmanOnly ==> Chosen(s.log, old(|s.log|), s.since, flush, s.text, s.input)
  {
    hide PlainState, PlainLogged, Ample;
    while true
      invariant PlainState(s, huffmanOnly) && old(s.text) <= s.text && s.text + s.input == old(s.text + s.input)
      invariant old(s.log) <= s.log && s.since == old(s.since)
      invariant !huffmanOnly ==> Chosen(s.log, old(|s.log|), s.since, flush, s.text, s.input)
      decreases |s.input| + s.lookahead
    {
      var go;
      ghost var text, input, log := s.text, s.input, s.log;
      if huffmanOnly {
        go, outputFull := HuffRound(s, flush);
      } else {
        go, outputFull := RleRound(s, flush);
        ChosenMore(log, s.log, old(|s.log|), s.since, flush, text, input, s.text, s.input);
      }
      if go.Return? { PlainIs(s, huffmanOnly); return NeedMore, outputFull; }
      if go.Leave? { break; }
    }
    r, outputFull := PlainEnd(s, flush, huffmanOnly);
  }

  lemma PlainIs(s: Deflater, huffmanOnly: bool)
    requires PlainState(s, huffmanOnly)
    ensures PlainLogged(s, huffmanOnly)
  {
  }

  method PlainEnd(s: Deflater, flush: Flush, ghost huffmanOnly: bool) returns (r: BlockState, outputFull: bool)
    requires s.Shaped() && PlainState(s, huffmanOnly) && s.lookahead == 0 && s.input == []
    modifies s`insert, s`tally, s`blocks, s`blockStart
    ensures flush != Finish ==> PlainState(s, huffmanOnly) && !r.FinishStarted? && !r.FinishDone?
    ensures PlainLogged(s, huffmanOnly)
    ensures flush == Finish ==> (r.FinishStarted? || r.FinishDone?) && Ended(s.blocks)
    ensures AllTold(s) && (r.NeedMore? || r.FinishStarted? ==> outputFull) && !s.matchAvailable
  {
    hide Chained, Shows, Told, Fit, Ended, RunLog, OnlyLiterals;
    s.insert := 0;
    r, outputFull := FlushRest(s, flush);
    TellingNothing(s);
  }
}
