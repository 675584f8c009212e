/** The search along a hash chain for the longest earlier string that matches the next bytes
    of input. */
module MatchSearch {
  import opened Common
  import opened StringHash
  import opened HashChains

  const MIN_LOOKAHEAD := MAX_MATCH + MIN_MATCH + 1

  function MaxDist(wSize: int): int { wSize - MIN_LOOKAHEAD }

  /** A row of configuration_table: reduce lazy search above good, do not search lazily above
      lazy, stop searching at nice, and try at most chain strings. */
  datatype Config = Config(good: nat, lazy: nat, nice: nat, chain: nat)

  /** The window shows the input from position base on. */
  ghost predicate Shows(window: seq<Byte>, text: seq<Byte>, base: nat) {
    && base <= |text| <= base + |window|
    && forall i {:trigger window[i]} :: 0 <= i < |text| - base ==> window[i] == text[base + i]
  }

  function At(w: seq<Byte>, a: nat, i: nat): Byte
    requires a + i < |w|
  {
    w[a + i]
  }

  /** n bytes at a and at b are equal. */
  ghost predicate Agree(w: seq<Byte>, a: nat, b: nat, n: nat) {
    && a + n <= |w| && b + n <= |w|
    && forall i: nat {:trigger At(w, a, i)} :: i < n ==> At(w, a, i) == At(w, b, i)
  }

  lemma AgreeLess(w: seq<Byte>, a: nat, b: nat, n: nat, m: nat)
    requires Agree(w, a, b, n) && m <= n
    ensures Agree(w, a, b, m)
  {
  }

  lemma Differ(w: seq<Byte>, a: nat, b: nat, n: nat, i: nat)
    requires i < n && a + n <= |w| && b + n <= |w| && w[a + i] != w[b + i]
    ensures !Agree(w, a, b, n)
  {
    assert At(w, a, i) != At(w, b, i);
  }

  /** Compares on from the fourth byte. */
  method Extend(window: seq<Byte>, scan: nat, cur: nat) returns (len: nat)
    requires cur < scan && scan + MAX_MATCH < |window| && Agree(window, cur, scan, MIN_MATCH)
    ensures MIN_MATCH <= len <= MAX_MATCH && Agree(window, cur, scan, len)
    ensures len < MAX_MATCH ==> window[cur + len] != window[scan + len]
  {
    len := 2;
    while true
      invariant 2 <= len < MAX_MATCH && Agree(window, cur, scan, len + 1)
      decreases MAX_MATCH - len
    {
      len := len + 1;
      if window[scan + len] != window[cur + len] || len >= MAX_MATCH { break; }
    }
  }

  /** No string tried agrees with the one at scan in more than best bytes. */
  ghost predicate NoneBetter(window: seq<Byte>, tried: seq<nat>, scan: nat, best: nat) {
    best < MAX_MATCH ==> forall c {:trigger c in tried} :: c in tried ==> !Agree(window, c, scan, best + 1)
  }

  lemma TriedOneMore(window: seq<Byte>, tried: seq<nat>, scan: nat, best: nat, c: nat, best': nat)
    requires NoneBetter(window, tried, scan, best) && best <= best'
    requires best' < MAX_MATCH ==> !Agree(window, c, scan, best' + 1)
    ensures NoneBetter(window, tried + [c], scan, best')
  {
    hide Agree;
    if best' < MAX_MATCH {
      forall d | d in tried + [c] ensures !Agree(window, d, scan, best' + 1) {
        if d in tried && Agree(window, d, scan, best' + 1) { AgreeLess(window, d, scan, best' + 1, best + 1); }
      }
    }
  }

  /** A string that can be a match: on the chain, before scan, not too far back. */
  ghost predicate Candidate(k: Hasher, text: seq<Byte>, ins: set<int>, base: nat, scan: nat, maxDist: int, cur: nat) {
    && 0 < cur < scan && scan - cur <= maxDist && base + scan + MIN_MATCH <= |text|
    && Known(k, text, ins, base + cur, HashAt(k, text, base + scan))
  }

  /** Equal hashes spare the comparison of the third byte. */
  lemma CandidateThird(k: Hasher, text: seq<Byte>, ins: set<int>, base: nat, scan: nat, maxDist: int, cur: nat,
                       window: seq<Byte>)
    requires Candidate(k, text, ins, base, scan, maxDist, cur) && Shows(window, text, base)
    requires window[cur] == window[scan] && window[cur + 1] == window[scan + 1]
    ensures Agree(window, cur, scan, MIN_MATCH)
  {
    hide HashAt;
    KnownThird(k, text, ins, base + cur, base + scan);
    assert window[cur + 2] == text[base + cur + 2] && window[scan + 2] == text[base + scan + 2];
  }

  lemma NextCandidate(k: Hasher, text: seq<Byte>, ins: set<int>, base: nat, next: int, head: seq<nat>, prev: seq<nat>,
                      scan: nat,
                      maxDist: int, cur: nat)
    requires Candidate(k, text, ins, base, scan, maxDist, cur) && Chained(k, text, ins, base, next, head, prev)
    requires next == base + scan + 1 && maxDist < |prev|
    ensures var q := prev[cur % |prev|]; q < cur && (q > 0 && scan - q <= maxDist ==>
                                                     Candidate(k, text, ins, base, scan, maxDist, q))
  {
    hide HashAt, Chained;
    ChainedHasLinks(k, text, ins, base, next, head, prev);
    LinkLeads(k, text, ins, base, next, head, prev, cur, HashAt(k, text, base + scan));
  }

  lemma ChainedHasLinks(k: Hasher, text: seq<Byte>, ins: set<int>, base: nat, next: int, head: seq<nat>, prev: seq<nat>)
    requires Chained(k, text, ins, base, next, head, prev)
    ensures |prev| > 0
  {
  }

  /** At most n strings: the one at c if it lies beyond the limit, and on along the chain. */
  function Onward(prev: seq<nat>, c: nat, limit: int, n: nat): seq<nat>
    requires |prev| > 0
    decreases n
  {
    if n == 0 || c <= limit then [] else [c] + Onward(prev, prev[c % |prev|], limit, n - 1)
  }

  /** The strings a search may try: the first in any case, then those beyond the limit. */
  function Chain(prev: seq<nat>, hashHead: nat, limit: int, n: nat): seq<nat>
    requires |prev| > 0 && n > 0
  {
    [hashHead] + Onward(prev, prev[hashHead % |prev|], limit, n - 1)
  }

  /** A chain is its first string and the chain from the next, if that counts. */
  lemma ChainStep(prev: seq<nat>, cur: nat, limit: int, n: nat, tried: seq<nat>)
    requires |prev| > 0 && n > 0
    ensures var next := prev[cur % |prev|];
            tried + Chain(prev, cur, limit, n) ==
            if next <= limit || n == 1 then tried + [cur] else tried + [cur] + Chain(prev, next, limit, n - 1)
  {
  }

  /** The limits of a search: how far back, and how many strings. */
  function FarLimit(strstart: nat, wSize: int): int { Max(0, strstart - MaxDist(wSize)) }

  function ChainLength(config: Config, prevLength: nat): nat {
    if prevLength >= config.good then config.chain / 4 else config.chain
  }

  /** No string tried agrees with the one at scan in more than len bytes, of those that count. */
  ghost predicate NoneLonger(window: seq<Byte>, tried: seq<nat>, scan: nat, len: nat, most: int) {
    forall c, n: nat {:trigger Agree(window, c, scan, n)} :: c in tried && n <= most && Agree(window, c, scan, n) ==>
    n <= len
  }

  lemma BetterIsLonger(window: seq<Byte>, tried: seq<nat>, scan: nat, best: nat, most: int)
    requires NoneBetter(window, tried, scan, best) && most <= MAX_MATCH
    ensures NoneLonger(window, tried, scan, best, most)
  {
    hide Agree;
    forall c, n: nat | c in tried && n <= most && Agree(window, c, scan, n) ensures n <= best {
      if n > best { AgreeLess(window, c, scan, n, best + 1); }
    }
  }

  /** The string at place which of the chain agrees in exactly len bytes, of most that count.
      Those before it agree in fewer, and none of them had enough to stop the search; if it has
      not enough itself, none on the chain agrees in more. */
  ghost predicate BestAt(window: seq<Byte>, chain: seq<nat>, scan: nat, which: nat, len: nat, most: int, enough: int,
                         prior: nat) {
    && which < |chain| && Agree(window, chain[which], scan, len)
    && (len < most ==> !Agree(window, chain[which], scan, len + 1))
    && (exists less: nat :: less < len && less < Max(enough, prior + 1) &&
                            NoneLonger(window, chain[..which], scan, less, most))
    && (len < enough ==> NoneLonger(window, chain, scan, len, most))
  }

  lemma BestAgrees(window: seq<Byte>, chain: seq<nat>, scan: nat, which: nat, len: nat, most: int, enough: int,
                   prior: nat)
    requires BestAt(window, chain, scan, which, len, most, enough, prior)
    ensures which < |chain| && Agree(window, chain[which], scan, len)
  {
    hide Agree;
  }

  /** Of the strings tried the one at place which agrees in best bytes, those before it in no
      more than fewer that were not enough. */
  ghost predicate Leading(window: seq<Byte>, tried: seq<nat>, scan: nat, which: nat, matchStart: nat, best: nat,
                          beaten: nat, prior: nat, enough: int) {
    && which < |tried| && matchStart == tried[which] && Agree(window, matchStart, scan, best)
    && beaten < best && beaten < Max(enough, prior + 1) && NoneBetter(window, tried[..which], scan, beaten)
  }

  lemma LeadsNow(window: seq<Byte>, tried: seq<nat>, scan: nat, cur: nat, best: nat, beaten: nat, prior: nat,
                 enough: int)
    requires Agree(window, cur, scan, best) && beaten < best && NoneBetter(window, tried, scan, beaten)
    requires beaten == prior || beaten < enough
    ensures Leading(window, tried + [cur], scan, |tried|, cur, best, beaten, prior, enough)
  {
    hide Agree, NoneBetter;
    assert (tried + [cur])[..|tried|] == tried;
  }

  lemma LeadsStill(window: seq<Byte>, tried: seq<nat>, scan: nat, which: nat, matchStart: nat, best: nat, beaten: nat,
                   prior: nat, enough: int, cur: nat)
    requires Leading(window, tried, scan, which, matchStart, best, beaten, prior, enough)
    ensures Leading(window, tried + [cur], scan, which, matchStart, best, beaten, prior, enough)
  {
    hide Agree, NoneBetter;
    assert (tried + [cur])[..which] == tried[..which];
  }

  /** What the loop of the search has found, cut to the input there is. */
  lemma MatchIsBest(window: seq<Byte>, chain: seq<nat>, tried: seq<nat>, scan: nat, which: nat, matchStart: nat,
                    best: nat, beaten: nat, prior: nat, enough: int, lookahead: nat)
    requires prior < best <= MAX_MATCH && prior < lookahead && enough <= lookahead && tried <= chain
    requires Leading(window, tried, scan, which, matchStart, best, beaten, prior, enough)
    requires NoneBetter(window, tried, scan, best) && (best < enough ==> tried == chain)
    ensures BestAt(window, chain, scan, which, Min(best, lookahead), Min(MAX_MATCH, lookahead), enough, prior)
    ensures chain[which] == matchStart
  {
    hide Agree, NoneLonger;
    var len, most := Min(best, lookahead), Min(MAX_MATCH, lookahead);
    AgreeLess(window, chain[which], scan, best, len);
    assert chain[..which] == tried[..which] && chain[which] in tried;
    BetterIsLonger(window, chain[..which], scan, beaten, most);
    BetterIsLonger(window, tried, scan, best, most);
  }

  lemma FewLonger(window: seq<Byte>, tried: seq<nat>, scan: nat, best: nat, lookahead: nat)
    requires NoneBetter(window, tried, scan, best) || lookahead <= best
    ensures NoneLonger(window, tried, scan, best, Min(MAX_MATCH, lookahead))
  {
    hide Agree;
    if NoneBetter(window, tried, scan, best) {
      BetterIsLonger(window, tried, scan, best, Min(MAX_MATCH, lookahead));
    }
  }

  /** longest_match: a longer match than the previous one is the best on the chain, up to the
      chain's length limit, as far as there is input, or the first that is good enough to stop;
      if none is reported there is none on the chain. */
  method LongestMatch(window: seq<Byte>, prev: seq<nat>, strstart: nat, lookahead: nat, hashHead: nat, prevLength: nat,
                      matchStart0: nat,
                      config: Config, ghost k: Hasher, ghost text: seq<Byte>, ghost ins: set<int>, ghost base: nat,
                      ghost head: seq<nat>)
    returns (len: nat, matchStart: nat, ghost which: nat)
    requires |prev| > MIN_LOOKAHEAD && |window| == 2 * |prev| && strstart + MIN_LOOKAHEAD <= |window|
    requires 1 <= prevLength <= MAX_MATCH && config.chain >= 4
    requires Shows(window, text, base) && base + strstart + lookahead == |text|
    requires Chained(k, text, ins, base, base + strstart + 1, head, prev)
    requires Candidate(k, text, ins, base, strstart, MaxDist(|prev|), hashHead)
    ensures Min(prevLength, lookahead) <= len <= Min(MAX_MATCH, lookahead)
    ensures var chain := Chain(prev, hashHead, FarLimit(strstart, |prev|), ChainLength(config, prevLength));
            if len <= prevLength then NoneLonger(window, chain, strstart, prevLength, Min(MAX_MATCH, lookahead))
            else
              && BestAt(window, chain, strstart, which, len, Min(MAX_MATCH, lookahead), Min(config.nice, lookahead),
                        prevLength)
              && chain[which] == matchStart && 0 < matchStart < strstart && strstart - matchStart <= MaxDist(|prev|)
  {
    hide Chained, HashAt, Agree, NoneBetter, NoneLonger, BestAt, Known, Chain, Onward, Shows, Leading;
    var chainLength, cur: nat, bestLen := config.chain, hashHead, prevLength;
    var limit := if strstart > MaxDist(|prev|) then strstart - MaxDist(|prev|) else 0;
    if prevLength >= config.good { chainLength := chainLength / 4; }
    var niceMatch := if config.nice > lookahead then lookahead else config.nice;
    matchStart := matchStart0;
    ghost var chain, tried: seq<nat>, beaten := Chain(prev, hashHead, limit, chainLength), [], 0;
    which := 0;
    NoneTried(window, strstart, bestLen);
    while true
      invariant prevLength <= bestLen <= MAX_MATCH && 0 < chainLength && (bestLen == prevLength || bestLen < niceMatch)
      invariant bestLen > prevLength ==>
                  && 0 < matchStart < strstart && strstart - matchStart <= MaxDist(|prev|)
                  && Leading(window, tried, strstart, which, matchStart, bestLen, beaten, prevLength, niceMatch)
      invariant Candidate(k, text, ins, base, strstart, MaxDist(|prev|), cur) &&
                NoneBetter(window, tried, strstart, bestLen)
      invariant chain == tried + Chain(prev, cur, limit, chainLength)
      decreases cur
    {
      ghost var before, best := tried, bestLen;
      var len1 := TryMatch(window, strstart, cur, bestLen, MaxDist(|prev|), k, text, ins, base);
      tried := tried + [cur];
      TriedOneMore(window, before, strstart, best, cur, Max(best, len1));
      ChainStep(prev, cur, limit, chainLength, before);
      if len1 > bestLen {
        LeadsNow(window, before, strstart, cur, len1, best, prevLength, niceMatch);
        matchStart := cur;
        bestLen := len1;
        which, beaten := |before|, best;
        if len1 >= niceMatch { break; }
      } else if bestLen > prevLength {
        LeadsStill(window, before, strstart, which, matchStart, bestLen, beaten, prevLength, niceMatch, cur);
      }
      NextCandidate(k, text, ins, base, base + strstart + 1, head, prev, strstart, MaxDist(|prev|), cur);
      cur := prev[cur % |prev|];
      if cur <= limit { break; }
      chainLength := chainLength - 1;
      if chainLength == 0 { break; }
    }
    len := if bestLen <= lookahead then bestLen else lookahead;
    if len > prevLength {
      MatchIsBest(window, chain, tried, strstart, which, matchStart, bestLen, beaten, prevLength, niceMatch,
                  lookahead);
    } else {
      FewLonger(window, chain, strstart, prevLength, lookahead);
    }
  }

  lemma NoneTried(window: seq<Byte>, scan: nat, best: nat)
    ensures NoneBetter(window, [], scan, best)
  {
  }

  /** One string: the four quick comparisons, and the rest only if they succeed. */
  method TryMatch(window: seq<Byte>, scan: nat, cur: nat, bestLen: nat, maxDist: int,
                  ghost k: Hasher, ghost text: seq<Byte>, ghost ins: set<int>, ghost base: nat)
    returns (len: nat)
    requires scan + MIN_LOOKAHEAD <= |window| && 1 <= bestLen <= MAX_MATCH
    requires Shows(window, text, base) && Candidate(k, text, ins, base, scan, maxDist, cur)
    ensures len <= MAX_MATCH && Agree(window, cur, scan, len)
    ensures Max(bestLen, len) < MAX_MATCH ==> !Agree(window, cur, scan, Max(bestLen, len) + 1)
  {
    hide Agree, Shows, Known, HashAt;
    if window[cur + bestLen] != window[scan + bestLen] {
      len := NoMatch(window, cur, scan, bestLen + 1, bestLen);
    } else if window[cur + bestLen - 1] != window[scan + bestLen - 1] {
      len := NoMatch(window, cur, scan, bestLen + 1, bestLen - 1);
    } else if window[cur] != window[scan] {
      len := NoMatch(window, cur, scan, bestLen + 1, 0);
    } else if window[cur + 1] != window[scan + 1] {
      len := NoMatch(window, cur, scan, bestLen + 1, 1);
    } else {
      CandidateThird(k, text, ins, base, scan, maxDist, cur, window);
      len := Extend(window, scan, cur);
      if Max(bestLen, len) < MAX_MATCH { Differ(window, cur, scan, Max(bestLen, len) + 1, len); }
    }
  }

  method NoMatch(window: seq<Byte>, cur: nat, scan: nat, ghost n: nat, ghost i: nat) returns (len: nat)
    requires i < n && cur + n <= |window| && scan + n <= |window| && window[cur + i] != window[scan + i]
    ensures len == 0 && Agree(window, cur, scan, 0) && !Agree(window, cur, scan, n)
  {
    len := 0;
    Differ(window, cur, scan, n, i);
  }
}
