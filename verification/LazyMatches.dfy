/** deflate_slow: a match is taken only if the next position has no better one. */
module LazyMatches {
  import opened Common
  import opened Tokens
  import opened StringHash
  import opened HashChains
  import opened MatchSearch
  import opened DeflateState
  import opened Deflate
  import opened MatchRule

  /** The token for the byte before strstart is still to be decided; a match found there is
      a true match. */
  ghost predicate Pending(s: Deflater)
    reads s`matchLength, s`matchAvailable, s`matchStart, s`strstart, s`lookahead, s`text, s`base
  {
    && (s.matchAvailable ==> s.strstart > 0) && MIN_MATCH - 1 <= s.matchLength <= MAX_MATCH
    && (s.matchLength >= MIN_MATCH ==>
          && s.matchAvailable && s.matchLength <= s.lookahead + 1 &&
             Wrap(s.strstart - 1 - s.matchStart) <= MaxDist(s.wSize)
          && Repeats(s.text, s.base + s.strstart - 1, Wrap(s.strstart - 1 - s.matchStart), s.matchLength))
  }

  /** The tokens account for all bytes before strstart but the undecided one. */
  ghost function Decided(s: Deflater): int
    reads s`base, s`strstart, s`matchAvailable
  {
    s.base + s.strstart - if s.matchAvailable then 1 else 0
  }

  ghost predicate SlowState(s: Deflater)
    reads s, s.window, s.head, s.prev
  {
    && s.InWindow() && s.Linked() && s.Behind() && s.Ready() && s.Telling(Decided(s))
    && |s.tally| + 1 < s.litBufsize && Pending(s) && SlowLogged(s) && s.Reaching() && Awaiting(s)
  }

  /** Every token so far was chosen as deflate_slow chooses. */
  ghost predicate SlowLogged(s: Deflater)
    reads s
  {
    SlowLog(s.Rule(), s.log, s.AllTokens(), s.text, Decided(s), s.since, s.ins)
  }

  /** What was found at the undecided byte, if there is one. */
  ghost predicate Awaiting(s: Deflater)
    reads s
  {
    if s.matchAvailable then
      PendingAt(s, s.pend) && s.pend.len == s.matchLength &&
      (s.matchLength >= MIN_MATCH ==> s.pend.dist == Wrap(s.strstart - 1 - s.matchStart))
    else |s.log| == |s.AllTokens()| && Fresh(s.log, s.AllTokens(), |s.log|)
  }

  ghost predicate PendingAt(s: Deflater, f: Find)
    reads s
  {
    SlowPend(s.Rule(), s.log, s.AllTokens(), s.text, Decided(s), s.since, s.ins, f)
  }

  lemma PendKept(r: Rules, log: seq<Pick>, toks: seq<Token>, text: seq<Byte>, at: int, since: int, ins: set<int>,
                 f: Find, text': seq<Byte>, ins': set<int>)
    requires SlowPend(r, log, toks, text, at, since, ins, f) && text <= text' && ins <= ins'
    ensures SlowPend(r, log, toks, text', at, since, ins', f)
  {
    hide SlowFound, SlowHeld, Led;
  }

  /** More text and more strings do not affect the account. */
  lemma AccountKept(s: Deflater, text: seq<Byte>, ins: set<int>, at: int)
    requires SlowLog(s.Rule(), s.log, s.AllTokens(), text, at, s.since, ins) && text <= s.text && ins <= s.ins
    ensures SlowLog(s.Rule(), s.log, s.AllTokens(), s.text, at, s.since, s.ins)
    ensures SlowPend(s.Rule(), s.log, s.AllTokens(), text, at, s.since, ins, s.pend) ==>
              SlowPend(s.Rule(), s.log, s.AllTokens(), s.text, at, s.since, s.ins, s.pend)
  {
    hide SlowLog, SlowPend;
    SlowLogKept(s.Rule(), s.log, s.AllTokens(), text, at, s.since, ins, s.text, s.since, s.ins);
    if SlowPend(s.Rule(), s.log, s.AllTokens(), text, at, s.since, ins, s.pend) {
      PendKept(s.Rule(), s.log, s.AllTokens(), text, at, s.since, ins, s.pend, s.text, s.ins);
    }
  }

  lemma WrapLess(x: int, y: int)
    requires Wrap(x) == Wrap(y)
    ensures Wrap(x - 1) == Wrap(y - 1)
  {
  }

  /** fill_window keeps the undecided match. */
  method SlowRefill(s: Deflater)
    requires s.Shaped() && SlowState(s) && s.lookahead < MIN_LOOKAHEAD
    modifies s, s.window, s.head, s.prev
    ensures SlowState(s) && old(s.text) <= s.text && s.text + s.input == old(s.text + s.input)
    ensures s.strstart + MIN_LOOKAHEAD <= s.window.Length && (s.lookahead >= MIN_LOOKAHEAD || s.input == [])
    ensures |s.input| + s.lookahead == old(|s.input| + s.lookahead)
    ensures s.log == old(s.log) && s.pend == old(s.pend) && s.since == old(s.since)
  {
    hide Deflater.InWindow, Deflater.Linked, Deflater.Behind, Deflater.Ready, Deflater.Telling, Repeats, SlowLog,
         SlowPend, Deflater.Reaching, TokensOf;
    ghost var text, ins := s.text, s.ins;
    Refill(s, Decided(s));
    AccountKept(s, text, ins, Decided(s));
    WrapLess(s.strstart - s.matchStart, old(s.strstart - s.matchStart));
    if s.matchLength >= MIN_MATCH {
      RepeatsLonger(old(s.text), s.base + s.strstart - 1, Wrap(s.strstart - 1 - s.matchStart), s.matchLength, s.text);
    }
  }

  /** The match at strstart, if there is one worth having. */
  ghost predicate Found(s: Deflater)
    reads s`matchLength, s`prevLength, s`matchStart, s`strstart, s`lookahead, s`text, s`base
  {
    && MIN_MATCH - 1 <= s.matchLength <= MAX_MATCH
    && (s.matchLength > s.prevLength ==>
          && s.matchLength <= s.lookahead && Wrap(s.strstart - s.matchStart) <= MaxDist(s.wSize)
          && Repeats(s.text, s.base + s.strstart, Wrap(s.strstart - s.matchStart), s.matchLength))
  }

  /** The result of the search at strstart. */
  ghost predicate FoundHere(s: Deflater, f: Find)
    reads s
  {
    && f == Find(s.Here(s.prevLength), s.matchLength, Wrap(s.strstart - s.matchStart)) && SlowFound(s.Rule(), f)
    && (s.lookahead >= MIN_MATCH ==> f.look.at in s.ins)
  }

  /** Inserts the string at strstart and looks for a match better than the undecided one. */
  method SlowFind(s: Deflater) returns (ghost f: Find)
    requires s.Shaped() && SlowState(s) && s.lookahead > 0 && s.strstart + MIN_LOOKAHEAD <= s.window.Length
    modifies s`insH, s`ins, s`upto, s`matchLength, s`matchStart, s`prevLength, s`prevMatch, s.head, s.prev
    ensures s.Linked() && s.upto <= s.base + s.strstart + 1 - s.insert
    ensures s.lookahead >= MIN_MATCH ==> s.insert == 0 && s.PrimedFor(s.base + s.strstart + 1)
    ensures s.prevLength == old(s.matchLength) && s.prevMatch == old(s.matchStart) && Found(s)
    ensures old(s.ins) <= s.ins && FoundHere(s, f)
  {
    hide Chained, Shows, Primed, Told, Fit, Ended, HashAt, Repeats, Found, SlowFound, Leads, SlowLogged, Awaiting;
    var hashHead := 0;
    if s.lookahead >= MIN_MATCH {
      hashHead := s.InsertString(s.strstart);
    }
    SlowSearch(s, hashHead);
    f := Find(s.Here(s.prevLength), s.matchLength, Wrap(s.strstart - s.matchStart));
  }

  method SlowSearch(s: Deflater, hashHead: nat)
    requires s.Shaped() && s.InWindow() && s.Linked() && s.strstart + MIN_LOOKAHEAD <= s.window.Length
    requires MIN_MATCH - 1 <= s.matchLength <= MAX_MATCH && s.lookahead > 0 && s.Reaching()
    requires s.lookahead >= MIN_MATCH ==>
               Leads(s.k, s.text, s.ins, s.base, hashHead, s.base + s.strstart,
                     HashAt(s.k, s.text, s.base + s.strstart))
    requires hashHead != 0 ==> s.lookahead >= MIN_MATCH && s.upto == s.base + s.strstart + 1
    modifies s`matchLength, s`matchStart, s`prevLength, s`prevMatch
    ensures s.prevLength == old(s.matchLength) && s.prevMatch == old(s.matchStart) && Found(s)
    ensures SlowFound(s.Rule(), Find(s.Here(s.prevLength), s.matchLength, Wrap(s.strstart - s.matchStart)))
  {
    hide Shows, HashAt, Repeats, Deflater.Linked, Leads, Longest, Wrap, Candidates;
    s.prevLength, s.prevMatch := s.matchLength, s.matchStart;
    s.matchLength := MIN_MATCH - 1;
    ghost var n, d: nat := MIN_MATCH - 1, 0;
    if hashHead != 0 && s.prevLength < s.config.lazy && s.strstart - hashHead <= MaxDist(s.wSize) {
      s.matchLength := s.FindLongest(hashHead);
      n, d := s.matchLength, if s.matchLength <= s.prevLength then 0 else Wrap(s.strstart - s.matchStart);
      if s.matchLength <= 5 &&
         (s.filtered || (s.matchLength == MIN_MATCH && Wrap(s.strstart - s.matchStart) > TOO_FAR)) {
        s.matchLength := MIN_MATCH - 1;
      }
    } else if s.lookahead >= MIN_MATCH && s.prevLength < s.config.lazy {
      NoCandidates(s.Rule(), s.Here(s.prevLength), s.strstart, hashHead);
      NothingFound(s.Rule(), Find(s.Here(s.prevLength), n, d));
    }
    ghost var f := Find(s.Here(s.prevLength), s.matchLength, Wrap(s.strstart - s.matchStart));
    if s.lookahead >= MIN_MATCH && s.prevLength < s.config.lazy {
      assert Longest(s.Rule(), f.look, n, d) && Kept(s.Rule(), f.look.prior, n, d, f);
    }
  }

  /** Takes the match found one position before. */
  method SlowTake(s: Deflater) returns (bflush: bool)
    requires s.Shaped() && s.InWindow() && s.Linked() && s.upto <= s.base + s.strstart + 1 - s.insert
    requires s.lookahead >= MIN_MATCH ==> s.insert == 0 && s.PrimedFor(s.base + s.strstart + 1)
    requires s.strstart > 0 && MIN_MATCH <= s.prevLength <= Min(s.lookahead + 1, MAX_MATCH) &&
             s.Telling(s.base + s.strstart - 1)
    requires Wrap(s.strstart - 1 - s.prevMatch) <= MaxDist(s.wSize)
    requires Repeats(s.text, s.base + s.strstart - 1, Wrap(s.strstart - 1 - s.prevMatch), s.prevLength)
    modifies s`tally, s`lookahead, s`strstart, s`matchLength, s`matchAvailable, s`prevLength, s`insH, s`ins, s`upto,
             s.head, s.prev
    ensures s.InWindow() && s.Linked() && s.Behind() && s.Ready() && s.Telling(s.base + s.strstart)
    ensures !s.matchAvailable && s.matchLength == MIN_MATCH - 1 && s.lookahead < old(s.lookahead)
    ensures |s.tally| == |old(s.tally)| + 1 && bflush == (|s.tally| == s.litBufsize - 1)
    ensures s.tally == old(s.tally + [Copy(Wrap(s.strstart - 1 - s.prevMatch), s.prevLength)])
    ensures s.base + s.strstart == old(s.base + s.strstart - 1 + s.prevLength)
    ensures old(s.ins) <= s.ins
    ensures forall q :: old(s.base + s.strstart) < q < s.base + s.strstart && q + MIN_MATCH <= |s.text| ==> q in s.ins
  {
    hide Shows, Deflater.PrimedFor, Deflater.Linked, Deflater.Telling, Repeats;
    var maxInsert := s.strstart + s.lookahead - MIN_MATCH;
    bflush := TallyPrevious(s);
    PassPrevious(s, maxInsert);
    s.matchAvailable := false;
    s.matchLength := MIN_MATCH - 1;
  }

  method TallyPrevious(s: Deflater) returns (bflush: bool)
    requires s.Shaped() && s.strstart > 0 && MIN_MATCH <= s.prevLength <= MAX_MATCH &&
             s.Telling(s.base + s.strstart - 1)
    requires Wrap(s.strstart - 1 - s.prevMatch) <= MaxDist(s.wSize)
    requires Repeats(s.text, s.base + s.strstart - 1, Wrap(s.strstart - 1 - s.prevMatch), s.prevLength)
    modifies s`tally
    ensures s.Telling(s.base + s.strstart - 1 + s.prevLength)
    ensures |s.tally| == |old(s.tally)| + 1 && bflush == (|s.tally| == s.litBufsize - 1)
    ensures s.tally == old(s.tally + [Copy(Wrap(s.strstart - 1 - s.prevMatch), s.prevLength)])
  {
    hide Deflater.Telling, Repeats;
    RepeatsBack(s.text, s.base + s.strstart - 1, Wrap(s.strstart - 1 - s.prevMatch), s.prevLength);
    bflush := s.TallyDist(Wrap(s.strstart - 1 - s.prevMatch), s.prevLength - MIN_MATCH, s.base + s.strstart - 1);
  }

  /** Moves past the match that started one position before. */
  method PassPrevious(s: Deflater, maxInsert: int)
    requires s.Shaped() && s.InWindow() && s.Linked() && s.upto <= s.base + s.strstart + 1 - s.insert
    requires s.lookahead >= MIN_MATCH ==> s.insert == 0 && s.PrimedFor(s.base + s.strstart + 1)
    requires MIN_MATCH <= s.prevLength <= s.lookahead + 1 && maxInsert == s.strstart + s.lookahead - MIN_MATCH
    modifies s`lookahead, s`strstart, s`prevLength, s`insH, s`ins, s`upto, s.head, s.prev
    ensures s.InWindow() && s.Linked() && s.Behind() && s.Ready()
    ensures s.strstart == old(s.strstart + s.prevLength) - 1 && s.lookahead == old(s.lookahead - s.prevLength) + 1
    ensures old(s.ins) <= s.ins
    ensures forall q :: old(s.base + s.strstart) < q < s.base + s.strstart && q + MIN_MATCH <= |s.text| ==> q in s.ins
  {
    hide Shows, Deflater.PrimedFor, Deflater.Linked;
    s.lookahead := s.lookahead - (s.prevLength - 1);
    s.prevLength := s.prevLength - 2;
    InsertUpTo(s, maxInsert);
    s.strstart := s.strstart + 1;
  }

  /** Inserts the strings of the match as far as they are complete. */
  method InsertUpTo(s: Deflater, maxInsert: int)
    requires s.Shaped() && Shows(s.window[..], s.text, s.base) && s.Linked() &&
             s.upto <= s.base + s.strstart + 1 - s.insert
    requires s.prevLength > 0 && s.base + maxInsert + MIN_MATCH == |s.text|
    requires s.strstart <= maxInsert ==> s.insert == 0 && s.PrimedFor(s.base + s.strstart + 1)
    modifies s`strstart, s`prevLength, s`insH, s`ins, s`upto, s.head, s.prev
    ensures Shows(s.window[..], s.text, s.base) && s.Linked() && s.upto <= s.base + s.strstart + 1 - s.insert
    ensures s.strstart == old(s.strstart + s.prevLength)
    ensures s.strstart <= maxInsert ==> s.PrimedFor(s.base + s.strstart + 1)
    ensures old(s.ins) <= s.ins &&
            forall q :: old(s.base + s.strstart) < q <= s.base + s.strstart && q <= s.base + maxInsert ==> q in s.ins
  {
    hide Chained, Shows, Primed, HashAt, Leads;
    while true
      invariant s.prevLength > 0 && s.strstart + s.prevLength == old(s.strstart + s.prevLength) &&
                s.strstart >= old(s.strstart)
      invariant Shows(s.window[..], s.text, s.base) && s.Linked() && s.upto <= s.base + s.strstart + 1 - s.insert
      invariant s.strstart <= maxInsert ==> s.insert == 0 && s.PrimedFor(s.base + s.strstart + 1)
      invariant old(s.ins) <= s.ins
      invariant forall q :: old(s.base + s.strstart) < q <= s.base + s.strstart && q <= s.base + maxInsert ==>
                  q in s.ins
      decreases s.prevLength
    {
      s.strstart := s.strstart + 1;
      if s.strstart <= maxInsert {
        var hashHead := s.InsertString(s.strstart);
      }
      s.prevLength := s.prevLength - 1;
      if s.prevLength == 0 { break; }
    }
  }

  /** All bytes before strstart are decided, and f is what was found there. */
  ghost predicate Settled(s: Deflater, f: Find)
    reads s
  {
    && SlowLog(s.Rule(), s.log, s.AllTokens(), s.text, s.base + s.strstart, s.since, s.ins)
    && SlowPend(s.Rule(), s.log, s.AllTokens(), s.text, s.base + s.strstart, s.since, s.ins, f)
  }

  /** Moves past a byte whose match, if any, is to be decided at the next position. */
  method SlowMove(s: Deflater, ghost f: Find)
    requires Settled(s, f) && s.Reaching() && f.len == s.matchLength && f.dist == Wrap(s.strstart - s.matchStart)
    requires s.InWindow() && s.Linked() && s.upto <= s.base + s.strstart + 1 - s.insert && Found(s) && s.lookahead > 0
    requires s.lookahead >= MIN_MATCH ==> s.insert == 0 && s.PrimedFor(s.base + s.strstart + 1)
    requires s.prevLength >= MIN_MATCH ==> s.matchLength > s.prevLength
    requires s.prevLength >= MIN_MATCH - 1 && s.Telling(s.base + s.strstart) && |s.tally| + 1 < s.litBufsize
    modifies s`strstart, s`lookahead, s`matchAvailable, s`pend
    ensures SlowState(s) && s.lookahead == old(s.lookahead) - 1 && s.pend == f
  {
    hide Shows, Primed, Deflater.Linked, Deflater.Telling, Repeats, SlowLog, SlowPend, TokensOf;
    s.pend := f;
    s.matchAvailable := true;
    s.strstart := s.strstart + 1;
    s.lookahead := s.lookahead - 1;
  }

  /** After the search: the previous match, if any, is a true match, and so is the new one. */
  ghost predicate Searched(s: Deflater)
    requires s.Shaped()
    reads s, s.window, s.head, s.prev
  {
    && s.InWindow() && s.Linked() && s.upto <= s.base + s.strstart + 1 - s.insert && Found(s) && s.lookahead > 0
    && (s.lookahead >= MIN_MATCH ==> s.insert == 0 && s.PrimedFor(s.base + s.strstart + 1))
    && s.Telling(Decided(s)) && |s.tally| + 1 < s.litBufsize && (s.matchAvailable ==> s.strstart > 0)
    && MIN_MATCH - 1 <= s.prevLength <= MAX_MATCH
    && (s.prevLength >= MIN_MATCH ==>
          && s.matchAvailable && s.prevLength <= s.lookahead + 1 &&
             Wrap(s.strstart - 1 - s.prevMatch) <= MaxDist(s.wSize)
          && Repeats(s.text, s.base + s.strstart - 1, Wrap(s.strstart - 1 - s.prevMatch), s.prevLength))
  }

  /** The account before the undecided byte, and what has been found there and after it. */
  ghost predicate Comparing(s: Deflater, f: Find)
    reads s
  {
    && SlowLogged(s) && s.Reaching() && FoundHere(s, f)
    && if s.matchAvailable then
         PendingAt(s, s.pend) && s.pend.len == s.prevLength &&
         (s.prevLength >= MIN_MATCH ==> s.pend.dist == Wrap(s.strstart - 1 - s.prevMatch))
       else |s.log| == |s.AllTokens()| && Fresh(s.log, s.AllTokens(), |s.log|) && s.prevLength == MIN_MATCH - 1
  }

  method SlowLook(s: Deflater) returns (ghost f: Find)
    requires s.Shaped() && SlowState(s) && s.lookahead > 0 && s.strstart + MIN_LOOKAHEAD <= s.window.Length
    modifies s`insH, s`ins, s`upto, s`matchLength, s`matchStart, s`prevLength, s`prevMatch, s.head, s.prev
    ensures Searched(s) && Comparing(s, f) && f.look.text == s.text && f.look.since == s.since &&
            f.look.at == s.base + s.strstart
  {
    hide Shows, Deflater.Linked, Deflater.Telling, Deflater.PrimedFor, Repeats, Found, SlowLog, SlowPend, FoundHere,
         TokensOf, Fresh;
    ghost var ins := s.ins;
    f := SlowFind(s);
    AccountKept(s, s.text, ins, Decided(s));
    FoundLook(s, f);
  }

  lemma FoundLook(s: Deflater, f: Find)
    requires FoundHere(s, f)
    ensures f.look == s.Here(s.prevLength) && f.len == s.matchLength
  {
  }

  /** The choice for the undecided byte. */
  lemma DecideCopy(s: Deflater, f: Find)
    requires Comparing(s, f) && s.matchAvailable && s.prevLength >= MIN_MATCH && f.len <= s.prevLength
    ensures var p, t := Pick(s.pend, Some(f)), Copy(Wrap(s.strstart - 1 - s.prevMatch), s.prevLength);
            && SlowPick(s.Rule(), p, t) && |s.log| == |s.AllTokens()|
            && Grounded(s.log, s.AllTokens(), s.text, |s.log|, f.look)
    ensures SlowLog(s.Rule(), s.log, s.AllTokens(), s.text, Decided(s), s.since, s.ins)
    ensures SlowPend(s.Rule(), s.log, s.AllTokens(), s.text, Decided(s), s.since, s.ins, s.pend)
  {
    hide SlowFound, SlowHeld, SlowEntry, Led, TokensOf;
  }

  lemma DecideLiteral(s: Deflater, f: Find, c: Byte)
    requires Comparing(s, f) && s.matchAvailable && (s.prevLength >= MIN_MATCH ==> f.len > s.prevLength)
    ensures SlowPick(s.Rule(), Pick(s.pend, Some(f)), Literal(c)) && |s.log| == |s.AllTokens()|
    ensures Grounded(s.log, s.AllTokens(), s.text, |s.log|, f.look)
    ensures SlowLog(s.Rule(), s.log, s.AllTokens(), s.text, Decided(s), s.since, s.ins)
    ensures SlowPend(s.Rule(), s.log, s.AllTokens(), s.text, Decided(s), s.since, s.ins, s.pend)
  {
    hide SlowFound, SlowHeld, SlowEntry, Led, TokensOf;
  }

  lemma CopyCovers(s: Deflater, f: Find, p: Pick, t: Token)
    requires p == Pick(p.here, Some(f)) && t.Copy? && f.look.text == s.text && f.look.at == p.here.look.at + 1
    requires s.base + s.strstart == p.here.look.at + t.len && p.here.look.text <= s.text
    requires s.since <= p.here.look.at && p.here.look.at + MIN_MATCH <= |p.here.look.text| ==> p.here.look.at in s.ins
    requires f.look.at + MIN_MATCH <= |s.text| ==> f.look.at in s.ins
    requires p.here.look.at + MIN_MATCH <= |p.here.look.text| || |s.text| < p.here.look.at + MIN_MATCH
    requires forall q :: f.look.at < q < s.base + s.strstart && q + MIN_MATCH <= |s.text| ==> q in s.ins
    ensures s.since <= p.here.look.at ==> forall q :: SlowCovers(p, t, q) ==> q in s.ins
  {
  }

  /** The previous match is tallied. */
  method TakePrevious(s: Deflater, ghost f: Find) returns (bflush: bool)
    requires s.Shaped() && Searched(s) && Comparing(s, f) && s.prevLength >= MIN_MATCH && s.matchLength <= s.prevLength
    modifies s`tally, s`lookahead, s`strstart, s`matchLength, s`matchAvailable, s`prevLength, s`insH, s`ins, s`upto,
             s`log, s.head, s.prev
    ensures s.InWindow() && s.Linked() && s.Behind() && s.Ready() && s.Telling(s.base + s.strstart)
    ensures !s.matchAvailable && s.matchLength == MIN_MATCH - 1 && s.lookahead < old(s.lookahead)
    ensures |s.tally| == |old(s.tally)| + 1 && bflush == (|s.tally| == s.litBufsize - 1)
    ensures SlowLogged(s) && Awaiting(s) && s.Reaching() && s.log == old(s.log) + [Pick(s.pend, Some(f))]
  {
    hide Deflater.InWindow, Deflater.Linked, Deflater.Behind, Deflater.Ready, Deflater.Telling, Deflater.PrimedFor,
         Repeats, Found, SlowLog, SlowPend, SlowPick, SlowCovers, FoundHere, Grounded, TokensOf, Comparing, Wrap;
    ghost var log, before, ins, tally := s.log, s.AllTokens(), s.ins, s.tally;
    ghost var p, t := Pick(s.pend, Some(f)), Copy(Wrap(s.strstart - 1 - s.prevMatch), s.prevLength);
    FoundFacts(s, f);
    FoundAgain(s, f);
    DecideCopy(s, f);
    PendFacts(s);
    bflush := SlowTake(s);
    s.log := s.log + [p];
    TokenMore(s.blocks, tally, t);
    CopyCovers(s, f, p, t);
    SlowLogMore(s.Rule(), log, before, s.text, p.here.look.at, s.since, ins, p, t, s.ins);
    assert s.AllTokens()[|log|] == t;
  }

  /** The previous match is taken. */
  method TakeStep(s: Deflater, ghost f: Find) returns (outputFull: bool)
    requires s.Shaped() && Searched(s) && Comparing(s, f) && s.prevLength >= MIN_MATCH && s.matchLength <= s.prevLength
    modifies s, s.head, s.prev
    ensures SlowState(s) && s.lookahead < old(s.lookahead) && s.text == old(s.text) && s.input == old(s.input)
    ensures s.log == old(s.log + [Pick(s.pend, Some(f))]) && s.pend == old(s.pend) && s.since == old(s.since)
  {
    hide Deflater.InWindow, Deflater.Linked, Deflater.Behind, Deflater.Ready, Deflater.Telling, Deflater.PrimedFor,
         Repeats, Found, SlowLog, SlowPend, FoundHere, TokensOf, Comparing, Fresh;
    var bflush := TakePrevious(s, f);
    outputFull := FlushFull(s, bflush);
  }

  lemma PendFacts(s: Deflater)
    requires PendingAt(s, s.pend)
    ensures s.pend.look.at == Decided(s) && s.pend.look.text <= s.text
    ensures s.since <= s.pend.look.at && s.pend.look.at + MIN_MATCH <= |s.pend.look.text| ==> s.pend.look.at in s.ins
    ensures s.pend.len >= MIN_MATCH ==> s.pend.look.at + MIN_MATCH <= |s.pend.look.text|
  {
    hide SlowHeld, Led, TokensOf;
  }

  /** There is none; the byte before, if undecided, becomes a literal. */
  method KeepStep(s: Deflater, ghost f: Find) returns (outputFull: bool)
    requires s.Shaped() && Searched(s) && (s.prevLength >= MIN_MATCH ==> s.matchLength > s.prevLength)
    requires Comparing(s, f)
    modifies s, s.head, s.prev
    ensures SlowState(s) && s.lookahead < old(s.lookahead) && s.text == old(s.text) && s.input == old(s.input)
    ensures s.log == old(s.log) || s.log == old(s.log + [Pick(s.pend, Some(f))])
    ensures s.pend == f && s.since == old(s.since)
  {
    hide Shows, Deflater.Linked, Deflater.Telling, Deflater.PrimedFor, Repeats, Found, SlowState, SlowLogged,
         SlowPend, Comparing;
    outputFull := false;
    FoundFacts(s, f);
    if s.matchAvailable {
      outputFull := TallyByte(s, f);
    } else {
      SettledFresh(s, f);
    }
    SlowMove(s, f);
  }

  lemma FoundFacts(s: Deflater, f: Find)
    requires Comparing(s, f)
    ensures s.Reaching() && f.len == s.matchLength && f.dist == Wrap(s.strstart - s.matchStart)
  {
    hide SlowFound, SlowLog, SlowPend, Fresh, TokensOf;
  }

  lemma SettledFresh(s: Deflater, f: Find)
    requires Comparing(s, f) && !s.matchAvailable && s.InWindow()
    ensures Settled(s, f)
  {
    hide SlowFound, SlowEntry, SlowHeld, TokensOf, Shows;
  }

  method SlowStep(s: Deflater) returns (outputFull: bool, ghost f: Find)
    requires s.Shaped() && SlowState(s) && s.lookahead > 0 && s.strstart + MIN_LOOKAHEAD <= s.window.Length
    modifies s, s.head, s.prev
    ensures SlowState(s) && s.lookahead < old(s.lookahead) && s.text == old(s.text) && s.input == old(s.input)
    ensures s.log == old(s.log) || s.log == old(s.log + [Pick(s.pend, Some(f))])
    ensures (s.pend == f || s.pend == old(s.pend)) && s.since == old(s.since)
    ensures f.look.text == s.text && f.look.since == s.since && f.look.at == old(s.base + s.strstart)
  {
    hide SlowState, Searched, Comparing;
    f := SlowLook(s);
    if s.prevLength >= MIN_MATCH && s.matchLength <= s.prevLength {
      outputFull := TakeStep(s, f);
    } else {
      outputFull := KeepStep(s, f);
    }
  }

  /** The byte before strstart becomes a literal. */
  method TallyByte(s: Deflater, ghost f: Find) returns (outputFull: bool)
    requires s.Shaped() && s.InWindow() && s.strstart > 0 && s.Telling(s.base + s.strstart - 1) &&
             |s.tally| + 1 < s.litBufsize
    requires Comparing(s, f) && s.matchAvailable && (s.prevLength >= MIN_MATCH ==> f.len > s.prevLength)
    modifies s`tally, s`blocks, s`blockStart, s`log
    ensures s.Telling(s.base + s.strstart) && |s.tally| + 1 < s.litBufsize
    ensures Settled(s, f) && s.log == old(s.log) + [Pick(s.pend, Some(f))]
  {
    hide Shows, Deflater.Telling, SlowLog, SlowPend, SlowPick, SlowCovers, FoundHere, Grounded, TokensOf, Comparing,
         SlowFound;
    ShowsAt(s.window[..], s.text, s.base, s.strstart - 1);
    ghost var log, before, tally, c := s.log, s.AllTokens(), s.tally, s.window[s.strstart - 1];
    ghost var p, t := Pick(s.pend, Some(f)), Literal(c);
    DecideLiteral(s, f, c);
    FoundAgain(s, f);
    PendFacts(s);
    var bflush := s.TallyLit(s.window[s.strstart - 1], s.base + s.strstart - 1);
    s.log := s.log + [p];
    TokenMore(s.blocks, tally, t);
    LiteralCovers(p, t, s.since, s.ins);
    SlowLogMore(s.Rule(), log, before, s.text, p.here.look.at, s.since, s.ins, p, t, s.ins);
    NextPends(s, log, before, f, p, t);
    outputFull := FlushFull(s, bflush);
  }

  lemma LiteralCovers(p: Pick, t: Token, since: int, ins: set<int>)
    requires t.Literal?
    requires since <= p.here.look.at && p.here.look.at + MIN_MATCH <= |p.here.look.text| ==> p.here.look.at in ins
    ensures since <= p.here.look.at ==> forall q :: SlowCovers(p, t, q) ==> q in ins
  {
  }

  lemma FoundAgain(s: Deflater, f: Find)
    requires Comparing(s, f)
    ensures SlowFound(s.Rule(), f) && f.look == s.Here(s.prevLength)
    ensures f.look.at + MIN_MATCH <= |s.text| && s.InWindow() ==> f.look.at in s.ins
    ensures s.matchAvailable ==> PendingAt(s, s.pend) && s.pend.len == s.prevLength
  {
    hide SlowFound, SlowLog, SlowPend, Fresh, TokensOf, Shows;
  }

  /** What was found at strstart is what the next decision is about. */
  lemma NextPends(s: Deflater, log: seq<Pick>, before: seq<Token>, f: Find, p: Pick, t: Token)
    requires s.log == log + [p] && s.AllTokens() == before + [t] && |log| == |before| && t.Literal? &&
             p.after == Some(f)
    requires SlowLog(s.Rule(), s.log, s.AllTokens(), s.text, s.base + s.strstart, s.since, s.ins)
    requires SlowFound(s.Rule(), f) && f.look == s.Here(f.look.prior) &&
             (f.look.at + MIN_MATCH <= |s.text| ==> f.look.at in s.ins)
    ensures SlowPend(s.Rule(), s.log, s.AllTokens(), s.text, s.base + s.strstart, s.since, s.ins, f)
  {
    hide SlowFound, SlowEntry, SlowHeld, TokensOf;
  }

  /** The searches made in a call.  The first token decided may rest on one made before it. */
  ghost predicate SlowChosen(log: seq<Pick>, from: nat, before: Find, pend: Find, since: int, flush: Flush,
                             text: seq<Byte>, input: seq<Byte>)
  {
    && from <= |log| && (pend == before || Informed(pend.look, since, flush, text, input))
    && forall i :: from <= i < |log| ==> PickInformed(log[i], before, since, flush, text, input)
  }

  ghost predicate PickInformed(p: Pick, before: Find, since: int, flush: Flush, text: seq<Byte>, input: seq<Byte>) {
    && (p.here == before || Informed(p.here.look, since, flush, text, input))
    && (p.after.Some? ==> Informed(p.after.value.look, since, flush, text, input))
  }

  lemma StillInformed(l: Look, since: int, flush: Flush, text: seq<Byte>, input: seq<Byte>, text': seq<Byte>,
                      input': seq<Byte>)
    requires Informed(l, since, flush, text, input) && text <= text' && text' + input' == text + input
    ensures Informed(l, since, flush, text', input')
  {
    hide Ample;
    assert |text' + input'| == |text + input|;
  }

  lemma SlowChosenMore(log: seq<Pick>, log': seq<Pick>, from: nat, before: Find, pend: Find, pend': Find, since: int,
                       flush: Flush, text: seq<Byte>, input: seq<Byte>, text': seq<Byte>, input': seq<Byte>)
    requires SlowChosen(log, from, before, pend, since, flush, text, input) && log <= log'
    requires SlowChosen(log', |log|, pend, pend', since, flush, text', input')
    requires text <= text' && text' + input' == text + input
    ensures SlowChosen(log', from, before, pend', since, flush, text', input')
  {
    hide Informed;
    if Informed(pend.look, since, flush, text, input) {
      StillInformed(pend.look, since, flush, text, input, text', input');
    }
    forall i | from <= i < |log'| ensures PickInformed(log'[i], before, since, flush, text', input') {
      assert i < |log| ==> log'[i] == log[i];
      var p := log'[i];
      assert i < |log| ==> PickInformed(p, before, since, flush, text, input);
      if i < |log| && p.here != before {
        StillInformed(p.here.look, since, flush, text, input, text', input');
      }
      if i < |log| && p.after.Some? {
        StillInformed(p.after.value.look, since, flush, text, input, text', input');
      }
    }
  }

  method SlowRound(s: Deflater, flush: Flush) returns (go: Round, outputFull: bool)
    requires s.Shaped() && SlowState(s)
    modifies s, s.window, s.head, s.prev
    ensures SlowState(s) && old(s.text) <= s.text && s.text + s.input == old(s.text + s.input)
    ensures go.Again? ==> |s.input| + s.lookahead < old(|s.input| + s.lookahead)
    ensures go.Leave? ==> s.lookahead == 0 && s.input == []
    ensures go.Return? ==> Halted(s, flush, outputFull)
    ensures old(s.log) <= s.log && s.since == old(s.since)
    ensures SlowChosen(s.log, old(|s.log|), old(s.pend), s.pend, s.since, flush, s.text, s.input)
  {
    hide Deflater.InWindow, Deflater.Linked, Deflater.Behind, Deflater.Ready, Deflater.Telling, Pending, SlowLogged,
         Awaiting, Deflater.Reaching;
    if s.lookahead < MIN_LOOKAHEAD {
      SlowRefill(s);
      if s.lookahead < MIN_LOOKAHEAD && flush == NoFlush { return Return, false; }
      if s.lookahead == 0 { return Leave, false; }
    }
    WindowRoom(s);
    LookAhead(s);
    ghost var f;
    outputFull, f := SlowStep(s);
    go := if outputFull then Return else Again;
  }

  method DeflateSlow(s: Deflater, flush: Flush) returns (r: BlockState, outputFull: bool)
    requires s.Shaped() && SlowState(s)
    modifies s, s.window, s.head, s.prev
    ensures old(s.text) <= s.text && s.text + s.input == old(s.text + s.input) && SlowLogged(s)
    ensures old(s.log) <= s.log && s.since == old(s.since)
    ensures SlowChosen(s.log, old(|s.log|), old(s.pend), s.pend, s.since, flush, s.text, s.input)
    ensures r.NeedMore? ==> SlowState(s) && Halted(s, flush, outputFull)
    ensures r.BlockDone? ==> SlowState(s) && AllTold(s) && s.input == [] && !s.matchAvailable && flush != Finish
    ensures r.BlockDone? ==> LeftWaiting(s)
    ensures r.FinishStarted? || r.FinishDone? ==> AllTold(s) && s.input == [] && Ended(s.blocks) && flush == Finish
    ensures r.FinishStarted? ==> outputFull
  {
    hide SlowState, SlowLogged, Informed;
    while true
      invariant SlowState(s) && old(s.text) <= s.text && s.text + s.input == old(s.text + s.input)
      invariant old(s.log) <= s.log && s.since == old(s.since)
      invariant SlowChosen(s.log, old(|s.log|), old(s.pend), s.pend, s.since, flush, s.text, s.input)
      decreases |s.input| + s.lookahead
    {
      var go;
      ghost var text, input, log, pend := s.text, s.input, s.log, s.pend;
      go, outputFull := SlowRound(s, flush);
      SlowChosenMore(log, s.log, old(|s.log|), old(s.pend), pend, s.pend, s.since, flush, text, input, s.text, s.input);
      if go.Return? {
        SlowIs(s);
        return NeedMore, outputFull;
      }
      if go.Leave? { break; }
    }
    ghost var log := s.log;
    r, outputFull := SlowEnd(s, flush);
    EndChosen(log, s.log, old(|s.log|), old(s.pend), s.pend, s.since, flush, s.text, s.input);
  }

  lemma SlowIs(s: Deflater)
    requires SlowState(s)
    ensures SlowLogged(s)
  {
  }

  /** The last byte is decided by what was found at it. */
  lemma EndChosen(log: seq<Pick>, log': seq<Pick>, from: nat, before: Find, pend: Find, since: int, flush: Flush,
                  text: seq<Byte>, input: seq<Byte>)
    requires SlowChosen(log, from, before, pend, since, flush, text, input)
    requires log' == log || log' == log + [Pick(pend, None)]
    ensures SlowChosen(log', from, before, pend, since, flush, text, input)
  {
    hide Informed;
    forall i | from <= i < |log'| ensures PickInformed(log'[i], before, since, flush, text, input) {
      assert i < |log| ==> log'[i] == log[i];
    }
  }

  /** The end of the input has been reached: the last byte, if undecided, becomes a literal. */
  method DecideLast(s: Deflater)
    requires s.Shaped() && SlowState(s) && s.lookahead == 0
    modifies s`tally, s`matchAvailable, s`log
    ensures s.InWindow() && s.Linked() && s.Behind() && s.Ready() && s.Telling(s.base + s.strstart) && !s.matchAvailable
    ensures |s.tally| < s.litBufsize && Pending(s) && s.Reaching()
    ensures SlowLogged(s) && Awaiting(s) && (s.log == old(s.log) || s.log == old(s.log + [Pick(s.pend, None)]))
  {
    hide Shows, Primed, Deflater.Linked, Deflater.Telling, Repeats, SlowLog, SlowPend, SlowPick, SlowCovers, TokensOf,
         Wrap, SlowFound;
    if s.matchAvailable {
      ShowsAt(s.window[..], s.text, s.base, s.strstart - 1);
      ghost var log, before, tally, c := s.log, s.AllTokens(), s.tally, s.window[s.strstart - 1];
      ghost var p, t := Pick(s.pend, None), Literal(c);
      LastLiteral(s, c);
      PendFacts(s);
      var bflush := s.TallyLit(s.window[s.strstart - 1], s.base + s.strstart - 1);
      s.log := s.log + [p];
      TokenMore(s.blocks, tally, t);
      LiteralCovers(p, t, s.since, s.ins);
      SlowLogMore(s.Rule(), log, before, s.text, p.here.look.at, s.since, s.ins, p, t, s.ins);
      s.matchAvailable := false;
    }
  }

  lemma LastLiteral(s: Deflater, c: Byte)
    requires PendingAt(s, s.pend) && Decided(s) + 1 == |s.text| && s.pend.len < MIN_MATCH
    ensures SlowPick(s.Rule(), Pick(s.pend, None), Literal(c)) && |s.log| == |s.AllTokens()|
  {
    hide SlowHeld, Led, TokensOf, Longest, Kept;
  }

  method SlowEnd(s: Deflater, flush: Flush) returns (r: BlockState, outputFull: bool)
    requires s.Shaped() && SlowState(s) && s.lookahead == 0 && s.input == []
    modifies s`insert, s`tally, s`blocks, s`blockStart, s`matchAvailable, s`log
    ensures flush != Finish ==> SlowState(s) && !r.FinishStarted? && !r.FinishDone?
    ensures flush == Finish ==> (r.FinishStarted? || r.FinishDone?) && Ended(s.blocks)
    ensures AllTold(s) && (r.NeedMore? || r.FinishStarted? ==> outputFull) && !s.matchAvailable && LeftWaiting(s)
    ensures SlowLogged(s) && (s.log == old(s.log) || s.log == old(s.log + [Pick(s.pend, None)]))
  {
    hide Chained, Shows, Primed, Told, Fit, Ended, Repeats, SlowLog, SlowPend, Fresh, TokensOf, Wrap;
    DecideLast(s);
    LeaveStrings(s);
    r, outputFull := FlushRest(s, flush);
    TellingNothing(s);
  }
}
