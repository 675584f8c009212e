/** Which match deflate takes, in terms of the text, positions and the strings inserted: the
    rule by which every token is accounted for. */
module MatchRule {
  import opened Common
  import opened Tokens
  import opened StringHash
  import opened HashChains
  import opened MatchSearch

  /** Matches of length three are ignored by the lazy search if their distance exceeds this. */
  const TOO_FAR := 4096

  /** What does not change over a stream. */
  datatype Rules = Rules(k: Hasher, wSize: nat, config: Config, filtered: bool)

  /** The circumstances of a search at position at: the text read, the position of window
      index 0, the strings inserted, where the dictionary was last cleared, and the length of
      the match to improve on. */
  datatype Look = Look(text: seq<Byte>, at: int, base: nat, ins: set<int>, since: int, prior: nat)

  // ---------- the strings that are tried ----------

  /** The last known string with hash h before p, if there is one after floor. */
  ghost function Before(k: Hasher, text: seq<Byte>, ins: set<int>, h: nat, p: int, floor: int): (r: int)
    ensures r == floor || (floor < r < p && Known(k, text, ins, r, h))
    ensures forall q {:trigger Known(k, text, ins, q, h)} :: r < q < p ==> !Known(k, text, ins, q, h)
    decreases p - floor
  {
    if p - 1 <= floor then floor
    else if Known(k, text, ins, p - 1, h) then p - 1
    else Before(k, text, ins, h, p - 1, floor)
  }

  /** At most n of them, the newest first. */
  ghost function Strings(k: Hasher, text: seq<Byte>, ins: set<int>, h: nat, p: int, floor: int, n: nat): seq<int>
    decreases n
  {
    var q := Before(k, text, ins, h, p, floor);
    if n == 0 || q <= floor then [] else [q] + Strings(k, text, ins, h, q, floor, n - 1)
  }

  /** The strings that a search tries: the newest ones with the hash of the string at hand,
      within the maximum distance, as many as the configuration allows. */
  ghost function Candidates(r: Rules, l: Look): seq<int> {
    if l.at < 0 || |l.text| < l.at + MIN_MATCH then []
    else
      var h, far := HashAt(r.k, l.text, l.at), l.at - MaxDist(r.wSize);
      var n, floor := ChainLength(r.config, l.prior), Max(l.base, far - 1);
      var q := Before(r.k, l.text, l.ins, h, l.at, floor);
      if n == 0 || q <= floor then []
      else [q] + Strings(r.k, l.text, l.ins, h, q, Max(l.base, far), n - 1)
  }

  // ---------- how far two strings agree ----------

  /** The number of equal bytes at a and at b, up to most. */
  ghost function Shared(text: seq<Byte>, a: int, b: int, most: int): (n: nat)
    decreases most
  {
    if most <= 0 || !(0 <= a < |text| && 0 <= b < |text|) || text[a] != text[b] then 0
    else 1 + Shared(text, a + 1, b + 1, most - 1)
  }

  lemma {:induction false} SharedIs(text: seq<Byte>, a: int, b: int, most: int, n: nat)
    requires 0 <= a && 0 <= b && a + most <= |text| && b + most <= |text| && n <= most
    ensures text[a..a + n] == text[b..b + n] <==> n <= Shared(text, a, b, most)
    ensures Shared(text, a, b, most) <= most
    decreases n
  {
    SharedMost(text, a, b, most);
    if n > 0 {
      SharedIs(text, a + 1, b + 1, most - 1, n - 1);
      var x, y := text[a..a + n], text[b..b + n];
      assert x == [text[a]] + text[a + 1..a + 1 + (n - 1)] && y == [text[b]] + text[b + 1..b + 1 + (n - 1)];
      assert x[1..] == text[a + 1..a + 1 + (n - 1)] && y[1..] == text[b + 1..b + 1 + (n - 1)];
      assert x[0] == text[a] && y[0] == text[b];
    }
  }

  lemma {:induction false} SharedMost(text: seq<Byte>, a: int, b: int, most: int)
    requires 0 <= most
    ensures Shared(text, a, b, most) <= most
    decreases most
  {
    if most > 0 { SharedMost(text, a + 1, b + 1, most - 1); }
  }

  // ---------- the match a search finds ----------

  ghost function Most(l: Look): int { Min(MAX_MATCH, |l.text| - l.at) }

  ghost function Enough(r: Rules, l: Look): int { Min(r.config.nice, |l.text| - l.at) }

  ghost function SharedWith(l: Look, q: int): nat {
    Shared(l.text, q, l.at, Most(l))
  }

  /** The i-th string tried agrees in exactly len bytes.  Those before it agree in fewer, and
      none of them was good enough to stop; if it is not good enough itself, none agrees in
      more. */
  ghost predicate Best(r: Rules, l: Look, i: nat, len: nat, dist: nat) {
    var c := Candidates(r, l);
    && i < |c| && c[i] == l.at - dist && SharedWith(l, c[i]) == len
    && (forall j :: 0 <= j < i ==> SharedWith(l, c[j]) < len && SharedWith(l, c[j]) < Max(Enough(r, l), l.prior + 1))
    && (len < Enough(r, l) ==> forall j :: 0 <= j < |c| ==> SharedWith(l, c[j]) <= len)
  }

  /** The result of a search: a length above the prior one and the distance of the best match,
      or a length not above it if no string tried agrees in more bytes. */
  ghost predicate Longest(r: Rules, l: Look, len: nat, dist: nat) {
    if len <= l.prior then forall j :: 0 <= j < |Candidates(r, l)| ==> SharedWith(l, Candidates(r, l)[j]) <= l.prior
    else exists i :: Best(r, l, i, len, dist)
  }

  // ---------- what follows for the tokens ----------

  /** A search and its result. */
  datatype Find = Find(look: Look, len: nat, dist: nat)

  /** Why a token was chosen: the search where it starts and, if matches are taken lazily, the
      one a byte later. */
  datatype Pick = Pick(here: Find, after: Option<Find>)

  /** The window reaches back to where the dictionary was cleared, or as far as matches do. */
  ghost predicate Placed(r: Rules, l: Look) {
    0 <= l.at && l.base <= l.at && (l.base == l.since || l.at - l.base >= MaxDist(r.wSize))
  }

  /** There is enough input ahead for any match. */
  ghost predicate Ample(l: Look) {
    |l.text| - l.at > MAX_MATCH
  }

  function Length(t: Token): nat {
    if t.Copy? then t.len else 1
  }

  /** Where a token after these starts. */
  function Span(toks: seq<Token>): nat {
    if toks == [] then 0 else Span(toks[..|toks| - 1]) + Length(toks[|toks| - 1])
  }

  /** What deflate_fast finds. */
  ghost predicate FastFound(r: Rules, f: Find) {
    && Placed(r, f.look) && f.look.prior == MIN_MATCH - 1
    && (if f.look.at + MIN_MATCH <= |f.look.text| then Longest(r, f.look, f.len, f.dist) else f.len < MIN_MATCH)
  }

  /** deflate_fast: the match found is taken; a literal stands where there is none. */
  ghost predicate FastPick(r: Rules, p: Pick, t: Token) {
    FastFound(r, p.here) && if p.here.len >= MIN_MATCH then t == Copy(p.here.dist, p.here.len) else t.Literal?
  }

  lemma NothingFound(r: Rules, f: Find)
    requires Candidates(r, f.look) == [] && f.len <= f.look.prior
    ensures Longest(r, f.look, f.len, f.dist)
  {
  }

  /** The positions whose strings deflate_fast has inserted after the token. */
  ghost predicate FastCovers(r: Rules, p: Pick, t: Token, q: int) {
    var l := p.here.look;
    && l.at + MIN_MATCH <= |l.text|
    && (q == l.at || (t.Copy? && t.len <= r.config.lazy && l.at + t.len + MIN_MATCH <= |l.text| &&
                      l.at < q < l.at + t.len))
  }

  /** The strings of the first n tokens, since the dictionary was cleared, are in it. */
  ghost predicate FastHeld(r: Rules, log: seq<Pick>, toks: seq<Token>, n: nat, since: int, ins: set<int>)
    requires n <= |log| && n <= |toks|
  {
    forall j, q {:trigger FastCovers(r, log[j], toks[j], q)} ::
      0 <= j < n && since <= log[j].here.look.at && FastCovers(r, log[j], toks[j], q) ==> q in ins
  }

  ghost predicate FastEntry(r: Rules, log: seq<Pick>, toks: seq<Token>, text: seq<Byte>, i: nat)
    requires i < |log| == |toks|
  {
    var l := log[i].here.look;
    FastPick(r, log[i], toks[i]) && l.at == Span(toks[..i]) && l.text <= text &&
    FastHeld(r, log, toks, i, l.since, l.ins)
  }

  /** Every token is accounted for, and its strings are in the dictionary. */
  ghost predicate FastLog(r: Rules, log: seq<Pick>, toks: seq<Token>, text: seq<Byte>, at: int, since: int,
                          ins: set<int>)
  {
    && |log| == |toks| && at == Span(toks) && FastHeld(r, log, toks, |log|, since, ins)
    && forall i :: 0 <= i < |log| ==> FastEntry(r, log, toks, text, i)
  }

  lemma PickedCopy(r: Rules, f: Find, ins: set<int>)
    requires FastFound(r, f) && f.len >= MIN_MATCH && f.look.at in ins
    requires f.len <= r.config.lazy && f.look.at + f.len + MIN_MATCH <= |f.look.text| ==>
               forall q :: f.look.at < q < f.look.at + f.len ==> q in ins
    ensures var p, t := Pick(f, None), Copy(f.dist, f.len);
            FastPick(r, p, t) && forall q :: FastCovers(r, p, t, q) ==> q in ins
  {
    hide FastFound;
  }

  lemma PickedLiteral(r: Rules, f: Find, c: Byte, ins: set<int>)
    requires FastFound(r, f) && f.len < MIN_MATCH && (f.look.at + MIN_MATCH <= |f.look.text| ==> f.look.at in ins)
    ensures var p, t := Pick(f, None), Literal(c);
            FastPick(r, p, t) && forall q :: FastCovers(r, p, t, q) ==> q in ins
  {
    hide FastFound;
  }

  lemma FastEntryStays(r: Rules, log: seq<Pick>, toks: seq<Token>, text: seq<Byte>, i: nat, p: Pick, t: Token,
                       text': seq<Byte>)
    requires i < |log| == |toks| && FastEntry(r, log, toks, text, i) && text <= text'
    ensures FastEntry(r, log + [p], toks + [t], text', i)
  {
    hide FastPick, Span, FastCovers;
    assert (toks + [t])[..i] == toks[..i];
    var l := log[i].here.look;
    forall j, q {:trigger FastCovers(r, (log + [p])[j], (toks + [t])[j], q)} |
      0 <= j < i && l.since <= (log + [p])[j].here.look.at && FastCovers(r, (log + [p])[j], (toks + [t])[j], q)
      ensures q in l.ins
    {
      assert FastCovers(r, log[j], toks[j], q);
    }
  }

  /** One token more. */
  lemma FastLogMore(r: Rules, log: seq<Pick>, toks: seq<Token>, text: seq<Byte>, since: int, ins: set<int>, p: Pick,
                    t: Token, ins': set<int>)
    requires FastLog(r, log, toks, text, p.here.look.at, since, ins) && FastPick(r, p, t)
    requires text <= p.here.look.text && p.here.look.since == since && ins <= p.here.look.ins <= ins'
    requires forall q :: FastCovers(r, p, t, q) ==> q in ins'
    ensures FastLog(r, log + [p], toks + [t], p.here.look.text, p.here.look.at + Length(t), since, ins')
  {
    hide FastPick, FastCovers;
    var log', toks', l := log + [p], toks + [t], p.here.look;
    assert toks'[..|toks|] == toks && toks'[|toks|] == t;
    forall i | 0 <= i < |log'| ensures FastEntry(r, log', toks', l.text, i) {
      if i < |log| {
        FastEntryStays(r, log, toks, text, i, p, t, l.text);
      } else {
        FastHeldStays(r, log, toks, since, ins, p, t, l.ins);
      }
    }
    FastHeldStays(r, log, toks, since, ins, p, t, ins');
    assert FastHeld(r, log', toks', |log'|, since, ins');
  }

  lemma FastHeldStays(r: Rules, log: seq<Pick>, toks: seq<Token>, since: int, ins: set<int>, p: Pick, t: Token,
                      ins': set<int>)
    requires |log| == |toks| && FastHeld(r, log, toks, |log|, since, ins) && ins <= ins'
    ensures FastHeld(r, log + [p], toks + [t], |log|, since, ins')
  {
    hide FastCovers;
    forall j, q {:trigger FastCovers(r, (log + [p])[j], (toks + [t])[j], q)} |
      0 <= j < |log| && since <= (log + [p])[j].here.look.at && FastCovers(r, (log + [p])[j], (toks + [t])[j], q)
      ensures q in ins'
    {
      assert FastCovers(r, log[j], toks[j], q);
    }
  }

  /** More text, more strings, or a dictionary cleared. */
  lemma FastLogKept(r: Rules, log: seq<Pick>, toks: seq<Token>, text: seq<Byte>, at: int, since: int, ins: set<int>,
                    text': seq<Byte>, since': int, ins': set<int>)
    requires FastLog(r, log, toks, text, at, since, ins) && text <= text'
    requires (since == since' && ins <= ins') || forall j :: 0 <= j < |log| ==> log[j].here.look.at < since'
    ensures FastLog(r, log, toks, text', at, since', ins')
  {
    hide FastPick, FastCovers, FastHeld, Span;
    forall i | 0 <= i < |log| ensures FastEntry(r, log, toks, text', i) {
      assert FastEntry(r, log, toks, text, i);
    }
    FastHeldKept(r, log, toks, since, ins, since', ins');
  }

  lemma FastHeldKept(r: Rules, log: seq<Pick>, toks: seq<Token>, since: int, ins: set<int>, since': int, ins': set<int>)
    requires |log| == |toks| && FastHeld(r, log, toks, |log|, since, ins)
    requires (since == since' && ins <= ins') || forall j :: 0 <= j < |log| ==> log[j].here.look.at < since'
    ensures FastHeld(r, log, toks, |log|, since', ins')
  {
    hide FastCovers;
  }

  // ---------- runs only ----------

  /** How often the byte before repeats, up to the longest match there is room for. */
  ghost function RunLength(l: Look): nat {
    if l.at <= l.base then 0 else Shared(l.text, l.at - 1, l.at, Most(l))
  }

  /** deflate_rle: a run is taken as far as it goes. */
  ghost predicate RunPick(r: Rules, p: Pick, t: Token) {
    var l := p.here.look;
    && Placed(r, l) && p.after.None?
    && if RunLength(l) >= MIN_MATCH then t == Copy(1, RunLength(l)) else t.Literal?
  }

  ghost predicate RunEntry(r: Rules, log: seq<Pick>, toks: seq<Token>, text: seq<Byte>, i: nat)
    requires i < |log| == |toks|
  {
    RunPick(r, log[i], toks[i]) && log[i].here.look.at == Span(toks[..i]) && log[i].here.look.text <= text
  }

  ghost predicate RunLog(r: Rules, log: seq<Pick>, toks: seq<Token>, text: seq<Byte>, at: int) {
    && |log| == |toks| && at == Span(toks) && forall i :: 0 <= i < |log| ==> RunEntry(r, log, toks, text, i)
  }

  /** One token more. */
  lemma RunLogMore(r: Rules, log: seq<Pick>, toks: seq<Token>, text: seq<Byte>, p: Pick, t: Token)
    requires RunLog(r, log, toks, text, p.here.look.at) && RunPick(r, p, t) && text <= p.here.look.text
    ensures RunLog(r, log + [p], toks + [t], p.here.look.text, p.here.look.at + Length(t))
  {
    hide RunPick;
    var log', toks' := log + [p], toks + [t];
    assert toks'[..|toks|] == toks && toks'[|toks|] == t;
    forall i | 0 <= i < |log'| ensures RunEntry(r, log', toks', p.here.look.text, i) {
      if i < |log| {
        assert RunEntry(r, log, toks, text, i);
        assert toks'[..i] == toks[..i];
      }
    }
  }

  lemma RunLogKept(r: Rules, log: seq<Pick>, toks: seq<Token>, text: seq<Byte>, at: int, text': seq<Byte>)
    requires RunLog(r, log, toks, text, at) && text <= text'
    ensures RunLog(r, log, toks, text', at)
  {
    hide RunPick, Span;
    forall i | 0 <= i < |log| ensures RunEntry(r, log, toks, text', i) {
      assert RunEntry(r, log, toks, text, i);
    }
  }

  // ---------- the lazy rule ----------

  /** A match of length n at distance d is too short, or too far away, to be worth having. */
  predicate Poor(r: Rules, n: nat, d: nat) {
    n <= 5 && (r.filtered || (n == MIN_MATCH && d > TOO_FAR))
  }

  /** What deflate_slow makes of the best match there is: nothing, if it is poor. */
  ghost predicate Kept(r: Rules, prior: nat, n: nat, d: nat, f: Find) {
    if n <= prior then f.len <= prior
    else if Poor(r, n, d) then f.len == MIN_MATCH - 1
    else f.len == n && f.dist == d
  }

  /** What deflate_slow finds: it does not search if the string is not complete or the match to
      improve on is long enough. */
  ghost predicate SlowFound(r: Rules, f: Find) {
    && Placed(r, f.look) && f.look.at < |f.look.text| && MIN_MATCH - 1 <= f.look.prior && MIN_MATCH - 1 <= f.len
    && if |f.look.text| < f.look.at + MIN_MATCH || f.look.prior >= r.config.lazy then f.len == MIN_MATCH - 1
       else exists n: nat, d: nat :: Longest(r, f.look, n, d) && Kept(r, f.look.prior, n, d, f)
  }

  /** deflate_slow: a match is taken unless the next byte has a longer one; only the last byte
      of the input has none after it. */
  ghost predicate SlowPick(r: Rules, p: Pick, t: Token) {
    && SlowFound(r, p.here)
    && match p.after
       case None => p.here.len < MIN_MATCH && p.here.look.at + 1 == |p.here.look.text| && t.Literal?
       case Some(f) =>
         && SlowFound(r, f) && f.look.at == p.here.look.at + 1 && f.look.prior == p.here.len
         && p.here.look.text <= f.look.text
         && if p.here.len >= MIN_MATCH && f.len <= p.here.len then t == Copy(p.here.dist, p.here.len) else t.Literal?
  }

  /** The positions whose strings deflate_slow has inserted after the token. */
  ghost predicate SlowCovers(p: Pick, t: Token, q: int) {
    var l := p.here.look;
    if t.Copy? then p.after.Some? && l.at <= q < l.at + t.len && q + MIN_MATCH <= |p.after.value.look.text|
    else q == l.at && q + MIN_MATCH <= |l.text|
  }

  ghost predicate SlowHeld(log: seq<Pick>, toks: seq<Token>, n: nat, since: int, ins: set<int>)
    requires n <= |log| && n <= |toks|
  {
    forall j, q {:trigger SlowCovers(log[j], toks[j], q)} ::
      0 <= j < n && since <= log[j].here.look.at && SlowCovers(log[j], toks[j], q) ==> q in ins
  }

  /** After the first n tokens the search starts afresh. */
  ghost predicate Fresh(log: seq<Pick>, toks: seq<Token>, n: nat)
    requires n <= |log| && n <= |toks|
  {
    n == 0 || toks[n - 1].Copy? || log[n - 1].after.None?
  }

  /** A find at the start of the token after the first n: after a literal it is the one that
      was compared there. */
  ghost predicate Led(log: seq<Pick>, toks: seq<Token>, n: nat, f: Find)
    requires n <= |log| && n <= |toks|
  {
    if Fresh(log, toks, n) then f.look.prior == MIN_MATCH - 1 else f == log[n - 1].after.value
  }

  /** The text and the strings of a find are those of its time. */
  ghost predicate Grounded(log: seq<Pick>, toks: seq<Token>, text: seq<Byte>, n: nat, l: Look)
    requires n <= |log| && n <= |toks|
  {
    l.text <= text && SlowHeld(log, toks, n, l.since, l.ins)
  }

  ghost predicate SlowEntry(r: Rules, log: seq<Pick>, toks: seq<Token>, text: seq<Byte>, i: nat)
    requires i < |log| == |toks|
  {
    && SlowPick(r, log[i], toks[i]) && log[i].here.look.at == Span(toks[..i]) && Led(log, toks, i, log[i].here)
    && Grounded(log, toks, text, i, log[i].here.look)
    && (log[i].after.Some? ==> Grounded(log, toks, text, i, log[i].after.value.look))
  }

  /** Every token is accounted for, and its strings are in the dictionary. */
  ghost predicate SlowLog(r: Rules, log: seq<Pick>, toks: seq<Token>, text: seq<Byte>, at: int, since: int,
                          ins: set<int>)
  {
    && |log| == |toks| && at == Span(toks) && SlowHeld(log, toks, |log|, since, ins)
    && forall i :: 0 <= i < |log| ==> SlowEntry(r, log, toks, text, i)
  }

  /** The find at a byte that is still undecided. */
  ghost predicate SlowPend(r: Rules, log: seq<Pick>, toks: seq<Token>, text: seq<Byte>, at: int, since: int,
                           ins: set<int>, f: Find)
  {
    && |log| == |toks| && SlowFound(r, f) && f.look.at == at && Led(log, toks, |log|, f)
    && Grounded(log, toks, text, |log|, f.look)
    && (since <= at && at + MIN_MATCH <= |f.look.text| ==> at in ins)
  }

  lemma SlowHeldStays(log: seq<Pick>, toks: seq<Token>, n: nat, since: int, ins: set<int>, p: Pick, t: Token,
                      ins': set<int>)
    requires n <= |log| == |toks| && SlowHeld(log, toks, n, since, ins) && ins <= ins'
    ensures SlowHeld(log + [p], toks + [t], n, since, ins')
  {
    hide SlowCovers;
    forall j, q {:trigger SlowCovers((log + [p])[j], (toks + [t])[j], q)} |
      0 <= j < n && since <= (log + [p])[j].here.look.at && SlowCovers((log + [p])[j], (toks + [t])[j], q)
      ensures q in ins'
    {
      assert SlowCovers(log[j], toks[j], q);
    }
  }

  lemma SlowEntryStays(r: Rules, log: seq<Pick>, toks: seq<Token>, text: seq<Byte>, i: nat, p: Pick, t: Token,
                       text': seq<Byte>)
    requires i < |log| == |toks| && SlowEntry(r, log, toks, text, i) && text <= text'
    ensures SlowEntry(r, log + [p], toks + [t], text', i)
  {
    hide SlowPick, Span, SlowHeld;
    assert (toks + [t])[..i] == toks[..i];
    SlowHeldStays(log, toks, i, log[i].here.look.since, log[i].here.look.ins, p, t, log[i].here.look.ins);
    if log[i].after.Some? {
      var l := log[i].after.value.look;
      SlowHeldStays(log, toks, i, l.since, l.ins, p, t, l.ins);
    }
  }

  /** The undecided byte is decided: one token more. */
  lemma SlowLogMore(r: Rules, log: seq<Pick>, toks: seq<Token>, text: seq<Byte>, at: int, since: int, ins: set<int>,
                    p: Pick, t: Token, ins': set<int>)
    requires SlowLog(r, log, toks, text, at, since, ins) && SlowPend(r, log, toks, text, at, since, ins, p.here)
    requires SlowPick(r, p, t) && (p.after.Some? ==> Grounded(log, toks, text, |log|, p.after.value.look))
    requires ins <= ins' && (since <= at ==> forall q :: SlowCovers(p, t, q) ==> q in ins')
    ensures SlowLog(r, log + [p], toks + [t], text, at + Length(t), since, ins')
  {
    hide SlowPick, SlowFound, SlowCovers, SlowHeld;
    var log', toks' := log + [p], toks + [t];
    assert toks'[..|toks|] == toks && toks'[|toks|] == t;
    forall i | 0 <= i < |log'| ensures SlowEntry(r, log', toks', text, i) {
      if i < |log| {
        SlowEntryStays(r, log, toks, text, i, p, t, text);
      } else {
        SlowHeldStays(log, toks, |log|, p.here.look.since, p.here.look.ins, p, t, p.here.look.ins);
        if p.after.Some? {
          SlowHeldStays(log, toks, |log|, p.after.value.look.since, p.after.value.look.ins, p, t,
                        p.after.value.look.ins);
        }
      }
    }
    SlowHeldStays(log, toks, |log|, since, ins, p, t, ins');
    SlowHeldLast(log, toks, since, ins', p, t);
  }

  lemma SlowHeldLast(log: seq<Pick>, toks: seq<Token>, since: int, ins: set<int>, p: Pick, t: Token)
    requires |log| == |toks| && SlowHeld(log + [p], toks + [t], |log|, since, ins)
    requires since <= p.here.look.at ==> forall q :: SlowCovers(p, t, q) ==> q in ins
    ensures SlowHeld(log + [p], toks + [t], |log| + 1, since, ins)
  {
    hide SlowCovers;
  }

  /** More text, more strings, or a dictionary cleared. */
  lemma SlowLogKept(r: Rules, log: seq<Pick>, toks: seq<Token>, text: seq<Byte>, at: int, since: int, ins: set<int>,
                    text': seq<Byte>, since': int, ins': set<int>)
    requires SlowLog(r, log, toks, text, at, since, ins) && text <= text'
    requires (since == since' && ins <= ins') || forall j :: 0 <= j < |log| ==> log[j].here.look.at < since'
    ensures SlowLog(r, log, toks, text', at, since', ins')
  {
    hide SlowPick, SlowCovers, SlowHeld, Span;
    forall i | 0 <= i < |log| ensures SlowEntry(r, log, toks, text', i) {
      assert SlowEntry(r, log, toks, text, i);
    }
    SlowHeldKept(log, toks, since, ins, since', ins');
  }

  lemma SlowHeldKept(log: seq<Pick>, toks: seq<Token>, since: int, ins: set<int>, since': int, ins': set<int>)
    requires |log| == |toks| && SlowHeld(log, toks, |log|, since, ins)
    requires (since == since' && ins <= ins') || forall j :: 0 <= j < |log| ==> log[j].here.look.at < since'
    ensures SlowHeld(log, toks, |log|, since', ins')
  {
    hide SlowCovers;
  }

  // ---------- positions in the log ----------

  lemma {:induction false} SpanGrows(toks: seq<Token>, i: nat)
    requires i < |toks| && forall t :: t in toks ==> Length(t) > 0
    ensures Span(toks[..i]) < Span(toks)
  {
    var n := |toks| - 1;
    assert toks[n] in toks;
    if i < n {
      assert toks[..n][..i] == toks[..i];
      SpanGrows(toks[..n], i);
    }
  }

  /** Tokens start before the position the log has come to. */
  lemma FastBefore(r: Rules, log: seq<Pick>, toks: seq<Token>, text: seq<Byte>, at: int, since: int, ins: set<int>)
    requires FastLog(r, log, toks, text, at, since, ins)
    ensures forall j :: 0 <= j < |log| ==> log[j].here.look.at < at
  {
    hide FastFound, FastHeld, Span;
    forall i | 0 <= i < |toks| ensures Length(toks[i]) > 0 { assert FastEntry(r, log, toks, text, i); }
    forall j | 0 <= j < |log| ensures log[j].here.look.at < at {
      assert FastEntry(r, log, toks, text, j);
      SpanGrows(toks, j);
    }
  }

  lemma SlowBefore(r: Rules, log: seq<Pick>, toks: seq<Token>, text: seq<Byte>, at: int, since: int, ins: set<int>)
    requires SlowLog(r, log, toks, text, at, since, ins)
    ensures forall j :: 0 <= j < |log| ==> log[j].here.look.at < at
  {
    hide SlowFound, SlowHeld, Span, Led, Grounded;
    forall i | 0 <= i < |toks| ensures Length(toks[i]) > 0 { assert SlowEntry(r, log, toks, text, i); }
    forall j | 0 <= j < |log| ensures log[j].here.look.at < at {
      assert SlowEntry(r, log, toks, text, j);
      SpanGrows(toks, j);
    }
  }

  // ---------- from chains to candidates ----------

  /** A chain of window indices spells the strings after the limit, newest first. */
  lemma {:induction false} OnwardIs(k: Hasher, text: seq<Byte>, ins: set<int>, base: nat, next: int, head: seq<nat>,
                                    prev: seq<nat>, c: nat, p: int, h: nat, limit: nat, n: nat)
    requires Chained(k, text, ins, base, next, head, prev) && Leads(k, text, ins, base, c, p, h) && p <= next
    requires next <= base + limit + 1 + |prev|
    ensures |prev| > 0
    ensures var s, o := Strings(k, text, ins, h, p, base + limit, n), Onward(prev, c, limit, n);
            |s| == |o| && forall i :: 0 <= i < |s| ==> s[i] == base + o[i]
    decreases n
  {
    hide Chained, HashAt, Known;
    ChainedHasLinks(k, text, ins, base, next, head, prev);
    BeforeIs(k, text, ins, base, c, p, h, limit);
    if n > 0 && c > limit {
      LinkLeads(k, text, ins, base, next, head, prev, c, h);
      OnwardIs(k, text, ins, base, next, head, prev, prev[c % |prev|], base + c, h, limit, n - 1);
    }
  }

  lemma BeforeIs(k: Hasher, text: seq<Byte>, ins: set<int>, base: nat, c: nat, p: int, h: nat, limit: nat)
    requires Leads(k, text, ins, base, c, p, h)
    ensures Before(k, text, ins, h, p, base + limit) == (if c > limit then base + c else base + limit)
    ensures c > 0 ==> base + c < p && Known(k, text, ins, base + c, h)
  {
    hide Known, HashAt;
    var q := Before(k, text, ins, h, p, base + limit);
    if c > limit { assert Known(k, text, ins, base + c, h); }
  }

  /** With no limit on their number, all known strings are listed, the newest first. */
  lemma {:induction false} AllStrings(k: Hasher, text: seq<Byte>, ins: set<int>, h: nat, p: int, floor: int, n: nat)
    requires n >= p - floor
    ensures var s := Strings(k, text, ins, h, p, floor, n);
            && (forall i, j :: 0 <= i < j < |s| ==> s[j] < s[i]) && (forall i :: 0 <= i < |s| ==> floor < s[i] < p)
            && forall q {:trigger Known(k, text, ins, q, h)} :: floor < q < p ==>
                 (Known(k, text, ins, q, h) <==> q in s)
    decreases n
  {
    hide Known;
    var q := Before(k, text, ins, h, p, floor);
    if n > 0 && q > floor { AllStrings(k, text, ins, h, q, floor, n - 1); }
  }

  /** From its head, the links of a hash's chain visit every string with that hash that was
      inserted and lies behind the limit, if none there is too old for prev, newest first. */
  lemma ChainComplete(k: Hasher, text: seq<Byte>, ins: set<int>, base: nat, next: int, head: seq<nat>, prev: seq<nat>,
                      h: nat, limit: nat, n: nat)
    requires Chained(k, text, ins, base, next, head, prev) && h < |head| && n >= next - base - limit
    requires next <= base + limit + 1 + |prev|
    ensures |prev| > 0
    ensures var o := Onward(prev, head[h], limit, n);
            && (forall i, j :: 0 <= i < j < |o| ==> o[j] < o[i])
            && (forall i :: 0 <= i < |o| ==> limit < o[i] && base + o[i] < next)
            && forall c: nat {:trigger Known(k, text, ins, base + c, h)} :: limit < c && base + c < next ==>
                 (Known(k, text, ins, base + c, h) <==> c in o)
  {
    hide Chained, Known, Leads;
    ChainedHasLinks(k, text, ins, base, next, head, prev);
    HeadLeads(k, text, ins, base, next, head, prev, h);
    OnwardIs(k, text, ins, base, next, head, prev, head[h], next, h, limit, n);
    AllStrings(k, text, ins, h, next, base + limit, n);
    var s, o := Strings(k, text, ins, h, next, base + limit, n), Onward(prev, head[h], limit, n);
    forall c: nat {:trigger Known(k, text, ins, base + c, h)} | limit < c && base + c < next
      ensures Known(k, text, ins, base + c, h) <==> c in o
    {
      assert forall i :: 0 <= i < |s| ==> (s[i] == base + c <==> o[i] == c);
    }
  }

  /** The strings on the chain are the candidates, in the same order. */
  lemma CandidatesAre(r: Rules, l: Look, next: int, head: seq<nat>, prev: seq<nat>, strstart: nat, hashHead: nat)
    requires Chained(r.k, l.text, l.ins, l.base, next, head, prev) && next == l.at + 1 && |prev| == r.wSize
    requires l.at == l.base + strstart && |prev| > MIN_LOOKAHEAD && r.config.chain >= 4
    requires l.at + MIN_MATCH <= |l.text| && hashHead != 0 && strstart - hashHead <= MaxDist(r.wSize)
    requires Leads(r.k, l.text, l.ins, l.base, hashHead, l.at, HashAt(r.k, l.text, l.at))
    ensures var c := Candidates(r, l);
            var chain := Chain(prev, hashHead, FarLimit(strstart, r.wSize), ChainLength(r.config, l.prior));
            |c| == |chain| && forall i :: 0 <= i < |c| ==> c[i] == l.base + chain[i]
  {
    hide Chained, HashAt, Known, Leads;
    var h, limit, n := HashAt(r.k, l.text, l.at), FarLimit(strstart, r.wSize), ChainLength(r.config, l.prior);
    BeforeIs(r.k, l.text, l.ins, l.base, hashHead, l.at, h, Max(0, strstart - MaxDist(r.wSize) - 1));
    LinkLeads(r.k, l.text, l.ins, l.base, next, head, prev, hashHead, h);
    OnwardIs(r.k, l.text, l.ins, l.base, next, head, prev, prev[hashHead % |prev|], l.base + hashHead, h, limit, n - 1);
  }

  /** Without a head in reach there are none. */
  lemma NoCandidates(r: Rules, l: Look, strstart: nat, hashHead: nat)
    requires l.at == l.base + strstart && l.at + MIN_MATCH <= |l.text|
    requires hashHead == 0 || strstart - hashHead > MaxDist(r.wSize)
    requires Leads(r.k, l.text, l.ins, l.base, hashHead, l.at, HashAt(r.k, l.text, l.at))
    ensures Candidates(r, l) == []
  {
    hide HashAt, Known, Leads;
    BeforeIs(r.k, l.text, l.ins, l.base, hashHead, l.at, HashAt(r.k, l.text, l.at),
             Max(0, strstart - MaxDist(r.wSize) - 1));
  }

  /** Strings agree in the window as they do in the text. */
  lemma AgreeShared(window: seq<Byte>, text: seq<Byte>, base: nat, cur: nat, scan: nat, most: int, n: nat)
    requires Shows(window, text, base) && cur < scan && 0 <= most && base + scan + most <= |text| && n <= most
    ensures Agree(window, cur, scan, n) <==> n <= Shared(text, base + cur, base + scan, most)
    ensures Shared(text, base + cur, base + scan, most) <= most
  {
    var a, b := base + cur, base + scan;
    SharedIs(text, a, b, most, n);
    var x, y := text[a..a + n], text[b..b + n];
    if Agree(window, cur, scan, n) {
      forall i: int | 0 <= i < |x| ensures x[i] == y[i] {
        assert At(window, cur, i) == At(window, scan, i);
        assert window[cur + i] == text[a + i] && window[scan + i] == text[b + i];
      }
      assert x == y;
    }
    if x == y {
      forall i: nat {:trigger At(window, cur, i)} | i < n ensures At(window, cur, i) == At(window, scan, i) {
        assert x[i] == y[i];
        assert window[cur + i] == text[a + i] && window[scan + i] == text[b + i];
      }
      assert Agree(window, cur, scan, n);
    }
  }

  /** No string of a chain agrees in more than len bytes. */
  lemma NoneShared(window: seq<Byte>, l: Look, chain: seq<nat>, scan: nat, len: nat)
    requires Shows(window, l.text, l.base) && l.at == l.base + scan <= |l.text|
    requires NoneLonger(window, chain, scan, len, Most(l)) && forall i :: 0 <= i < |chain| ==> chain[i] < scan
    ensures forall i :: 0 <= i < |chain| ==> SharedWith(l, l.base + chain[i]) <= len
  {
    hide Agree, Shows, Shared;
    forall i | 0 <= i < |chain| ensures SharedWith(l, l.base + chain[i]) <= len {
      AgreeShared(window, l.text, l.base, chain[i], scan, Most(l), 0);
      AgreeShared(window, l.text, l.base, chain[i], scan, Most(l), SharedWith(l, l.base + chain[i]));
      assert chain[i] in chain;
    }
  }

  /** The best string on the chain is the best candidate. */
  lemma BestIs(window: seq<Byte>, r: Rules, l: Look, chain: seq<nat>, scan: nat, which: nat, len: nat)
    requires Shows(window, l.text, l.base) && l.at == l.base + scan <= |l.text| && len <= Most(l)
    requires forall i :: 0 <= i < |chain| ==> chain[i] < scan
    requires |Candidates(r, l)| == |chain| && forall i :: 0 <= i < |chain| ==> Candidates(r, l)[i] == l.base + chain[i]
    requires BestAt(window, chain, scan, which, len, Most(l), Enough(r, l), l.prior)
    ensures Best(r, l, which, len, scan - chain[which])
  {
    hide Agree, Shows, Shared, NoneLonger, Candidates, SharedWith, Most, Enough;
    var cur := chain[which];
    var less: nat :| less < len && less < Max(Enough(r, l), l.prior + 1) &&
                     NoneLonger(window, chain[..which], scan, less, Most(l));
    NoneShared(window, l, chain[..which], scan, less);
    forall j | 0 <= j < which ensures SharedWith(l, Candidates(r, l)[j]) <= less {
      assert chain[..which][j] == chain[j];
    }
    if len < Enough(r, l) { NoneShared(window, l, chain, scan, len); }
    ExactlyShared(window, l, cur, scan, len);
  }

  lemma ExactlyShared(window: seq<Byte>, l: Look, cur: nat, scan: nat, len: nat)
    requires Shows(window, l.text, l.base) && l.at == l.base + scan <= |l.text| && len <= Most(l) && cur < scan
    requires Agree(window, cur, scan, len) && (len < Most(l) ==> !Agree(window, cur, scan, len + 1))
    ensures SharedWith(l, l.base + cur) == len
  {
    hide Agree, Shows, Shared;
    AgreeShared(window, l.text, l.base, cur, scan, Most(l), len);
    if len < Most(l) { AgreeShared(window, l.text, l.base, cur, scan, Most(l), len + 1); }
  }

  /** Indices on a chain are below the one it starts from. */
  lemma {:induction false} OnwardBelow(k: Hasher, text: seq<Byte>, ins: set<int>, base: nat, next: int, head: seq<nat>,
                                       prev: seq<nat>, c: nat, p: int, h: nat, limit: nat, n: nat)
    requires Chained(k, text, ins, base, next, head, prev) && Leads(k, text, ins, base, c, p, h) && p <= next
    requires next <= base + limit + 1 + |prev|
    ensures |prev| > 0 && forall i :: 0 <= i < |Onward(prev, c, limit, n)| ==> base + Onward(prev, c, limit, n)[i] < p
    decreases n
  {
    hide Chained, HashAt, Known;
    ChainedHasLinks(k, text, ins, base, next, head, prev);
    if n > 0 && c > limit {
      LinkLeads(k, text, ins, base, next, head, prev, c, h);
      OnwardBelow(k, text, ins, base, next, head, prev, prev[c % |prev|], base + c, h, limit, n - 1);
    }
  }

  lemma ChainBelow(r: Rules, l: Look, next: int, head: seq<nat>, prev: seq<nat>, strstart: nat, hashHead: nat)
    requires Chained(r.k, l.text, l.ins, l.base, next, head, prev) && next == l.at + 1 && |prev| == r.wSize
    requires l.at == l.base + strstart && |prev| > MIN_LOOKAHEAD && r.config.chain >= 4
    requires l.at + MIN_MATCH <= |l.text| && hashHead != 0 && strstart - hashHead <= MaxDist(r.wSize)
    requires Leads(r.k, l.text, l.ins, l.base, hashHead, l.at, HashAt(r.k, l.text, l.at))
    ensures var chain := Chain(prev, hashHead, FarLimit(strstart, r.wSize), ChainLength(r.config, l.prior));
            forall i :: 0 <= i < |chain| ==> chain[i] < strstart
  {
    hide Chained, HashAt, Known;
    var h, limit, n := HashAt(r.k, l.text, l.at), FarLimit(strstart, r.wSize), ChainLength(r.config, l.prior);
    LinkLeads(r.k, l.text, l.ins, l.base, next, head, prev, hashHead, h);
    OnwardBelow(r.k, l.text, l.ins, l.base, next, head, prev, prev[hashHead % |prev|], l.base + hashHead, h, limit,
                n - 1);
  }

  /** What longest_match reports is the result of the search among the candidates. */
  lemma SearchIs(window: seq<Byte>, r: Rules, l: Look, next: int, head: seq<nat>, prev: seq<nat>, strstart: nat,
                 hashHead: nat, len: nat, matchStart: nat, which: nat)
    requires Shows(window, l.text, l.base)
    requires Chained(r.k, l.text, l.ins, l.base, next, head, prev) && next == l.at + 1 && |prev| == r.wSize
    requires l.at == l.base + strstart && |prev| > MIN_LOOKAHEAD && r.config.chain >= 4
    requires l.at + MIN_MATCH <= |l.text| && hashHead != 0 && strstart - hashHead <= MaxDist(r.wSize)
    requires Leads(r.k, l.text, l.ins, l.base, hashHead, l.at, HashAt(r.k, l.text, l.at)) && len <= Most(l)
    requires var chain := Chain(prev, hashHead, FarLimit(strstart, r.wSize), ChainLength(r.config, l.prior));
             if len <= l.prior then NoneLonger(window, chain, strstart, l.prior, Most(l))
             else
               && BestAt(window, chain, strstart, which, len, Most(l), Enough(r, l), l.prior)
               && chain[which] == matchStart < strstart
    ensures Longest(r, l, len, if len <= l.prior then 0 else strstart - matchStart)
  {
    hide Chained, HashAt, Known, Leads, Shows, NoneLonger, BestAt, Best, Chain, Candidates, Most, Enough;
    CandidatesAre(r, l, next, head, prev, strstart, hashHead);
    ChainBelow(r, l, next, head, prev, strstart, hashHead);
    var chain := Chain(prev, hashHead, FarLimit(strstart, r.wSize), ChainLength(r.config, l.prior));
    if len <= l.prior {
      NoneShared(window, l, chain, strstart, l.prior);
    } else {
      BestIs(window, r, l, chain, strstart, which, len);
    }
  }
}
