/** How zlib transmits code lengths: runs are sent with three repeat codes, and the decoder
    expands them again (section 3.2.7 of RFC 1951). */
module TreeCoding {
  import opened Common

  const REP_3_6 := 16
  const REPZ_3_10 := 17
  const REPZ_11_138 := 18

  /** A code length symbol with the value of its extra bits. */
  datatype Token = Token(sym: int, extra: int) {
    ghost predicate Valid() { 0 <= sym <= 18 && 0 <= extra < Pow2(ExtraBits(sym)) }
  }

  function ExtraBits(sym: int): nat {
    if sym == REP_3_6 then 2 else if sym == REPZ_3_10 then 3 else if sym == REPZ_11_138 then 7 else 0
  }

  ghost predicate Lengths(lens: seq<int>) {
    forall i :: 0 <= i < |lens| ==> 0 <= lens[i] <= 15
  }

  // ---------- the decoder ----------

  /** How decoding ends: all lengths known and some symbols left, an invalid repeat, or more
      symbols needed. */
  datatype Outcome = Done(lens: seq<int>, rest: seq<Token>) | Bad | Starved(lens: seq<int>)

  /** The lengths a symbol stands for, given those before. */
  function Meaning(have: seq<int>, t: Token): Option<seq<int>> {
    if t.sym < 16 then Some([t.sym])
    else if t.sym == REP_3_6 then
      if have == [] then None else Some(Repeat(have[|have| - 1], 3 + Max(0, t.extra)))
    else if t.sym == REPZ_3_10 then Some(Repeat(0, 3 + Max(0, t.extra)))
    else Some(Repeat(0, 11 + Max(0, t.extra)))
  }

  function Expand(have: seq<int>, toks: seq<Token>, limit: nat): Outcome
    decreases |toks|
  {
    if |have| >= limit then Done(have, toks)
    else if toks == [] then Starved(have)
    else
      match Meaning(have, toks[0])
      case None => Bad
      case Some(more) => if |have| + |more| > limit then Bad else Expand(have + more, toks[1..], limit)
  }

  /** Decoding can be interrupted after any symbol and carried on with what comes next. */
  lemma {:induction false} Resume(have: seq<int>, a: seq<Token>, b: seq<Token>, limit: nat)
    ensures Expand(have, a + b, limit) ==
            match Expand(have, a, limit)
            case Done(lens, rest) => Done(lens, rest + b)
            case Bad => Bad
            case Starved(lens) => Expand(lens, b, limit)
    decreases |a|
  {
    if a == [] {
      assert a + b == b;
    } else {
      assert (a + b)[1..] == a[1..] + b && (a + b)[0] == a[0];
      if |have| < limit && Meaning(have, a[0]).Some? {
        Resume(have + Meaning(have, a[0]).value, a[1..], b, limit);
      }
    }
  }

  // ---------- the encoder ----------

  /** The longest run sent as one, and the shortest not sent length by length, for length
      cur after length prev. */
  function MaxCount(prev: int, cur: int): (max: nat)
    ensures max > 0
  {
    if cur == 0 then 138 else if prev == cur then 6 else 7
  }

  function MinCount(prev: int, cur: int): nat { if cur == 0 || prev == cur then 3 else 4 }

  /** How often lens[i] is repeated from i on, at most max times. */
  function RunLength(lens: seq<int>, i: nat, max: nat): (k: nat)
    requires i < |lens| && max > 0
    ensures 1 <= k <= max && i + k <= |lens| && forall j :: i <= j < i + k ==> lens[j] == lens[i]
    ensures k == max || i + k == |lens| || lens[i + k] != lens[i]
    decreases max
  {
    if max == 1 || i + 1 == |lens| || lens[i + 1] != lens[i] then 1 else 1 + RunLength(lens, i + 1, max - 1)
  }

  /** What is sent for a run of count. */
  function Emit(prev: int, cur: int, count: nat): seq<Token> {
    if count < MinCount(prev, cur) then seq(count, _ => Token(cur, 0))
    else if cur != 0 then (if cur != prev then [Token(cur, 0), Token(REP_3_6, count - 4)]
                           else [Token(REP_3_6, count - 3)])
    else if count <= 10 then [Token(REPZ_3_10, count - 3)]
    else [Token(REPZ_11_138, count - 11)]
  }

  /** What is sent for the lengths from i on, the run before having been of length prev. */
  function Tokens(lens: seq<int>, i: nat, prev: int): seq<Token>
    requires i <= |lens|
    decreases |lens| - i
  {
    if i == |lens| then []
    else
      var k := RunLength(lens, i, MaxCount(prev, lens[i]));
      Emit(prev, lens[i], k) + Tokens(lens, i + k, lens[i])
  }

  /** What is sent for a whole vector. */
  function Sent(lens: seq<int>): seq<Token> { Tokens(lens, 0, -1) }

  /** Every extra value fits its bits. */
  lemma EmitValid(prev: int, cur: int, count: nat)
    requires 0 <= cur <= 15 && 1 <= count <= MaxCount(prev, cur)
    ensures forall i :: 0 <= i < |Emit(prev, cur, count)| ==> Emit(prev, cur, count)[i].Valid()
  {
    assert Pow2(2) == 4 && Pow2(3) == 8 && Pow2(7) == 128;
  }

  lemma {:induction false} TokensValid(lens: seq<int>, i: nat, prev: int)
    requires Lengths(lens) && i <= |lens|
    ensures forall j :: 0 <= j < |Tokens(lens, i, prev)| ==> Tokens(lens, i, prev)[j].Valid()
    decreases |lens| - i
  {
    hide Emit, RunLength, MaxCount;
    if i < |lens| {
      var k := RunLength(lens, i, MaxCount(prev, lens[i]));
      EmitValid(prev, lens[i], k);
      TokensValid(lens, i + k, lens[i]);
    }
  }

  // ---------- round trip ----------

  /** Equal lengths sent one by one. */
  lemma {:induction false} ExpandSingles(have: seq<int>, cur: int, count: nat, rest: seq<Token>, limit: nat)
    requires 0 <= cur <= 15 && |have| + count <= limit
    ensures Expand(have, seq(count, _ => Token(cur, 0)) + rest, limit) == Expand(have + Repeat(cur, count), rest, limit)
    decreases count
  {
    var toks := seq(count, _ => Token(cur, 0));
    if count == 0 {
      assert toks + rest == rest && have + Repeat(cur, 0) == have;
    } else {
      assert (toks + rest)[1..] == seq(count - 1, _ => Token(cur, 0)) + rest && (toks + rest)[0] == Token(cur, 0);
      ExpandSingles(have + [cur], cur, count - 1, rest, limit);
      assert have + [cur] + Repeat(cur, count - 1) == have + Repeat(cur, count);
    }
  }

  lemma ExpandOne(have: seq<int>, t: Token, rest: seq<Token>, limit: nat)
    requires Meaning(have, t).Some? && |have| + |Meaning(have, t).value| <= limit && |Meaning(have, t).value| > 0
    ensures Expand(have, [t] + rest, limit) == Expand(have + Meaning(have, t).value, rest, limit)
  {
    assert ([t] + rest)[1..] == rest;
  }

  /** The decoder turns a run's symbols back into the run. */
  lemma ExpandRun(have: seq<int>, prev: int, cur: int, count: nat, rest: seq<Token>, limit: nat)
    requires 0 <= cur <= 15 && 1 <= count <= MaxCount(prev, cur) && |have| + count <= limit
    requires prev >= 0 ==> have != [] && have[|have| - 1] == prev
    ensures Expand(have, Emit(prev, cur, count) + rest, limit) == Expand(have + Repeat(cur, count), rest, limit)
  {
    hide Expand;
    if count < MinCount(prev, cur) {
      ExpandSingles(have, cur, count, rest, limit);
    } else if cur != 0 && cur != prev {
      var t := Token(REP_3_6, count - 4);
      assert [Token(cur, 0), t] + rest == [Token(cur, 0)] + ([t] + rest);
      ExpandOne(have, Token(cur, 0), [t] + rest, limit);
      ExpandOne(have + [cur], t, rest, limit);
      assert have + [cur] + Repeat(cur, count - 1) == have + Repeat(cur, count);
    } else if cur != 0 {
      ExpandOne(have, Token(REP_3_6, count - 3), rest, limit);
    } else if count <= 10 {
      ExpandOne(have, Token(REPZ_3_10, count - 3), rest, limit);
    } else {
      ExpandOne(have, Token(REPZ_11_138, count - 11), rest, limit);
    }
  }

  lemma {:induction false} ExpandTokens(have: seq<int>, lens: seq<int>, i: nat, prev: int, rest: seq<Token>, limit: nat)
    requires Lengths(lens) && i <= |lens| && |have| + |lens| - i <= limit
    requires prev >= 0 ==> have != [] && have[|have| - 1] == prev
    ensures Expand(have, Tokens(lens, i, prev) + rest, limit) == Expand(have + lens[i..], rest, limit)
    decreases |lens| - i
  {
    hide Expand, Emit, RunLength, MaxCount;
    if i == |lens| {
      assert [] + rest == rest && have + lens[i..] == have;
    } else {
      var k := RunLength(lens, i, MaxCount(prev, lens[i]));
      var later := Tokens(lens, i + k, lens[i]);
      assert Emit(prev, lens[i], k) + later + rest == Emit(prev, lens[i], k) + (later + rest);
      ExpandRun(have, prev, lens[i], k, later + rest, limit);
      ExpandTokens(have + Repeat(lens[i], k), lens, i + k, lens[i], rest, limit);
      assert have + Repeat(lens[i], k) + lens[i + k..] == have + lens[i..];
    }
  }

  /** Round trip: the two vectors sent one after the other come back as one, and nothing of
      what follows is consumed. */
  lemma RoundTrip(literal: seq<int>, distance: seq<int>, rest: seq<Token>)
    requires Lengths(literal) && Lengths(distance)
    ensures Expand([], Sent(literal) + Sent(distance) + rest, |literal| + |distance|) == Done(literal + distance, rest)
  {
    hide Expand, Tokens;
    var limit := |literal| + |distance|;
    Associate(Sent(literal), Sent(distance), rest);
    ExpandTokens([], literal, 0, -1, Sent(distance) + rest, limit);
    assert [] + literal[0..] == literal;
    ExpandTokens(literal, distance, 0, -1, rest, limit);
    assert literal + distance[0..] == literal + distance;
    ExpandEnd(literal + distance, rest, limit);
  }

  lemma ExpandEnd(have: seq<int>, rest: seq<Token>, limit: nat)
    requires |have| >= limit
    ensures Expand(have, rest, limit) == Done(have, rest)
  {
  }

  // ---------- the loops of the encoder ----------

  /** Where both loops stand: count lengths of the run in progress have been seen. */
  ghost predicate InRun(lens: seq<int>, n: nat, count: nat, prev: int, nextLen: int, max: nat, min: nat) {
    && count <= n <= |lens|
    && (n == |lens| ==> count == 0)
    && (n < |lens| ==> nextLen == lens[n] && max == MaxCount(prev, nextLen) && min == MinCount(prev,
                                                                                               nextLen) && count < max)
    && forall k :: n - count <= k < n ==> lens[k] == nextLen
  }

  lemma {:induction false} RunLengthIs(lens: seq<int>, i: nat, max: nat, k: nat)
    requires i < |lens| && 1 <= k <= max && i + k <= |lens| && forall j :: i <= j < i + k ==> lens[j] == lens[i]
    requires k == max || i + k == |lens| || lens[i + k] != lens[i]
    ensures RunLength(lens, i, max) == k
    decreases max
  {
    if k > 1 { RunLengthIs(lens, i + 1, max - 1, k - 1); }
  }

  /** At the end of a run, its symbols come next. */
  lemma RunEnds(lens: seq<int>, n: nat, count: nat, prev: int, max: nat, min: nat, sent: seq<Token>)
    requires n < |lens| && InRun(lens, n, count, prev, lens[n], max, min)
    requires count + 1 == max || n + 1 == |lens| || lens[n + 1] != lens[n]
    ensures Tokens(lens, n - count, prev) == Emit(prev, lens[n], count + 1) + Tokens(lens, n + 1, lens[n])
  {
    hide RunLength, Emit;
    RunLengthIs(lens, n - count, max, count + 1);
  }

  /** send_tree, with the guard the source writes past the end of the lengths. */
  method SendTree(lens: seq<int>) returns (out: seq<Token>)
    requires |lens| > 0 && Lengths(lens)
    ensures out == Sent(lens) && forall i :: 0 <= i < |out| ==> out[i].Valid()
  {
    hide Tokens, RunLength;
    out := [];
    var prevLen, nextLen, count, maxCount, minCount := -1, lens[0], 0, 7, 4;
    if nextLen == 0 { maxCount, minCount := 138, 3; }
    for n := 0 to |lens|
      invariant 0 <= count && InRun(lens, n, count, prevLen, nextLen, maxCount, minCount)
      invariant out + Tokens(lens, n - count, prevLen) == Sent(lens)
    {
      var curLen := nextLen;
      nextLen := if n + 1 < |lens| then lens[n + 1] else 0xffff;
      count := count + 1;
      if count < maxCount && curLen == nextLen { continue; }
      RunEnds(lens, n, count - 1, prevLen, maxCount, minCount, out);
      ghost var before, code := out, Emit(prevLen, curLen, count);
      if count < minCount {
        out := out + SendSingles(curLen, count);
      } else if curLen != 0 {
        if curLen != prevLen {
          out := out + [Token(curLen, 0)];
          count := count - 1;
        }
        out := out + [Token(REP_3_6, count - 3)];
      } else if count <= 10 {
        out := out + [Token(REPZ_3_10, count - 3)];
      } else {
        out := out + [Token(REPZ_11_138, count - 11)];
      }
      assert out == before + code;
      Associate(before, code, Tokens(lens, n + 1, curLen));
      count, prevLen := 0, curLen;
      if nextLen == 0 {
        maxCount, minCount := 138, 3;
      } else if curLen == nextLen {
        maxCount, minCount := 6, 3;
      } else {
        maxCount, minCount := 7, 4;
      }
    }
    NoTokens(lens, prevLen);
    assert out + [] == out;
    TokensValid(lens, 0, -1);
  }

  lemma NoTokens(lens: seq<int>, prev: int)
    ensures Tokens(lens, |lens|, prev) == []
  {
  }

  function SendSingles(cur: int, count: nat): seq<Token> {
    seq(count, _ => Token(cur, 0))
  }

  // ---------- scan_tree ----------

  /** How often symbol v is sent. */
  ghost function Uses(toks: seq<Token>, v: int): nat {
    if toks == [] then 0 else Uses(toks[..|toks| - 1], v) + if toks[|toks| - 1].sym == v then 1 else 0
  }

  lemma {:induction false} UsesConcat(a: seq<Token>, b: seq<Token>, v: int)
    ensures Uses(a + b, v) == Uses(a, v) + Uses(b, v)
  {
    if b == [] {
      assert a + b == a;
    } else {
      UsesConcat(a, b[..|b| - 1], v);
      assert (a + b)[..|a + b| - 1] == a + b[..|b| - 1];
    }
  }

  lemma {:induction false} UsesSingles(cur: int, count: nat, v: int)
    ensures Uses(seq(count, _ => Token(cur, 0)), v) == if v == cur then count else 0
  {
    var s := seq(count, _ => Token(cur, 0));
    if count > 0 {
      assert s[..count - 1] == seq(count - 1, _ => Token(cur, 0));
      UsesSingles(cur, count - 1, v);
    }
  }

  lemma UsesOne(t: Token, v: int)
    ensures Uses([t], v) == if t.sym == v then 1 else 0
  {
    assert [t][..0] == [];
  }

  /** The symbols of one run, counted by kind. */
  lemma UsesEmit(prev: int, cur: int, count: nat, v: int)
    ensures Uses(Emit(prev, cur, count), v) ==
            if count < MinCount(prev, cur) then (if v == cur then count else 0)
            else if cur != 0 then (if v == cur && cur != prev then 1 else 0) + (if v == REP_3_6 then 1 else 0)
            else if count <= 10 then (if v == REPZ_3_10 then 1 else 0)
            else if v == REPZ_11_138 then 1 else 0
  {
    UsesSingles(cur, count, v);
    var first, rep := Token(cur, 0), Token(REP_3_6, count - 4);
    assert [first, rep] == [first] + [rep];
    UsesConcat([first], [rep], v);
    UsesOne(first, v);
    UsesOne(rep, v);
    UsesOne(Token(REP_3_6, count - 3), v);
    UsesOne(Token(REPZ_3_10, count - 3), v);
    UsesOne(Token(REPZ_11_138, count - 11), v);
  }

  lemma UsesRun(lens: seq<int>, n: nat, count: nat, prev: int, v: int)
    requires count <= n < |lens|
    requires Tokens(lens, n - count, prev) == Emit(prev, lens[n], count + 1) + Tokens(lens, n + 1, lens[n])
    ensures Uses(Tokens(lens, n - count, prev), v) ==
            Uses(Emit(prev, lens[n], count + 1), v) + Uses(Tokens(lens, n + 1, lens[n]), v)
  {
    UsesConcat(Emit(prev, lens[n], count + 1), Tokens(lens, n + 1, lens[n]), v);
  }

  /** scan_tree: freq grows by exactly the number of times send_tree will send each symbol. */
  method ScanTree(lens: seq<int>, freq: array<int>)
    requires |lens| > 0 && Lengths(lens) && freq.Length >= 19
    modifies freq
    ensures forall v :: 0 <= v < 19 ==> freq[v] == old(freq[v]) + Uses(Sent(lens), v)
  {
    hide Tokens, RunLength, Emit, Uses;
    var prevLen, nextLen, count, maxCount, minCount := -1, lens[0], 0, 7, 4;
    if nextLen == 0 { maxCount, minCount := 138, 3; }
    for n := 0 to |lens|
      invariant 0 <= count && InRun(lens, n, count, prevLen, nextLen, maxCount, minCount)
      invariant forall v :: 0 <= v < 19 ==>
                  freq[v] + Uses(Tokens(lens, n - count, prevLen), v) == old(freq[v]) + Uses(Sent(lens), v)
    {
      var curLen := nextLen;
      nextLen := if n + 1 < |lens| then lens[n + 1] else 0xffff;
      count := count + 1;
      if count < maxCount && curLen == nextLen { continue; }
      RunEnds(lens, n, count - 1, prevLen, maxCount, minCount, []);
      forall v | 0 <= v < 19
        ensures Uses(Tokens(lens, n + 1 - count, prevLen), v) ==
                Uses(Emit(prevLen, curLen, count), v) + Uses(Tokens(lens, n + 1, curLen), v)
      {
        UsesRun(lens, n, count - 1, prevLen, v);
      }
      ghost var before := freq[..];
      Count(freq, prevLen, curLen, count, minCount);
      count, prevLen := 0, curLen;
      if nextLen == 0 {
        maxCount, minCount := 138, 3;
      } else if curLen == nextLen {
        maxCount, minCount := 6, 3;
      } else {
        maxCount, minCount := 7, 4;
      }
    }
    NoTokens(lens, prevLen);
    forall v | 0 <= v < 19 ensures Uses([], v) == 0 { UsesNone(v); }
  }

  lemma UsesNone(v: int)
    ensures Uses([], v) == 0
  {
  }

  /** Counts the symbols of one run. */
  method Count(freq: array<int>, prevLen: int, curLen: int, count: nat, minCount: nat)
    requires freq.Length >= 19 && 0 <= curLen <= 15 && minCount == MinCount(prevLen, curLen)
    modifies freq
    ensures forall v :: 0 <= v < 19 ==> freq[v] == old(freq[v]) + Uses(Emit(prevLen, curLen, count), v)
  {
    hide Emit, Uses;
    forall v | 0 <= v < 19 { UsesEmit(prevLen, curLen, count, v); }
    if count < minCount {
      freq[curLen] := freq[curLen] + count;
    } else if curLen != 0 {
      if curLen != prevLen { freq[curLen] := freq[curLen] + 1; }
      freq[REP_3_6] := freq[REP_3_6] + 1;
    } else if count <= 10 {
      freq[REPZ_3_10] := freq[REPZ_3_10] + 1;
    } else {
      freq[REPZ_11_138] := freq[REPZ_11_138] + 1;
    }
  }

  // ---------- the loop of the decoder ----------

  datatype Mode = CodeLens | BadMode | LensDone

  /** The CODELENS state: fills lens from the symbols at hand and stops when all lengths are
      known, when a repeat is invalid, or when symbols run out. */
  method CodeLengths(lens: array<int>, have0: nat, nlen: nat, ndist: nat, toks: seq<Token>)
    returns (mode: Mode, have: nat, used: nat)
    requires have0 <= nlen + ndist <= lens.Length && forall i :: 0 <= i < |toks| ==> toks[i].Valid()
    modifies lens
    ensures have <= nlen + ndist && used <= |toks|
    ensures match Expand(old(lens[..have0]), toks, nlen + ndist)
            case Done(all, rest) => mode == LensDone && have == nlen + ndist && lens[..have] == all &&
                toks[used..] == rest
            case Bad => mode == BadMode
            case Starved(some) => mode == CodeLens && lens[..have] == some && used == |toks|
  {
    hide Expand, Meaning;
    mode, have, used := CodeLens, have0, 0;
    ghost var outcome := Expand(lens[..have0], toks, nlen + ndist);
    assert toks[0..] == toks;
    while have < nlen + ndist
      invariant have <= nlen + ndist && used <= |toks|
      invariant Expand(lens[..have], toks[used..], nlen + ndist) == outcome
      decreases |toks| - used
    {
      ExpandStep(lens[..have], toks[used..], nlen + ndist);
      if used == |toks| { return; }
      var here := toks[used];
      ghost var before := lens[..have];
      assert toks[used..][0] == here && toks[used..][1..] == toks[used + 1..];
      used := used + 1;
      MeaningOf(lens[..have], here);
      if here.sym < 16 {
        lens[have] := here.sym;
        have := have + 1;
        assert lens[..have] == before + [here.sym];
      } else {
        var len, copy := 0, 0;
        if here.sym == 16 {
          if have == 0 { mode := BadMode; return; }
          len := lens[have - 1];
          copy := 3 + here.extra;
        } else if here.sym == 17 {
          copy := 3 + here.extra;
        } else {
          copy := 11 + here.extra;
        }
        if have + copy > nlen + ndist { mode := BadMode; return; }
        ghost var more := Repeat(len, copy);
        while copy > 0
          invariant 0 <= copy && have + copy <= nlen + ndist && |before| <= have
          invariant have + copy == |before| + |more| && lens[..have] == before + more[..have - |before|]
        {
          lens[have] := len;
          have := have + 1;
          copy := copy - 1;
        }
        assert lens[..have] == before + more;
      }
    }
    mode := LensDone;
    ExpandEnd(lens[..have], toks[used..], nlen + ndist);
  }

  lemma ExpandStep(have: seq<int>, toks: seq<Token>, limit: nat)
    requires |have| < limit
    ensures toks == [] ==> Expand(have, toks, limit) == Starved(have)
    ensures toks != [] && Meaning(have, toks[0]).None? ==> Expand(have, toks, limit) == Bad
    ensures toks != [] && Meaning(have, toks[0]).Some? ==>
              (var more := Meaning(have, toks[0]).value;
               Expand(have, toks, limit) == if |have| + |more| > limit then Bad
                   else Expand(have + more, toks[1..], limit))
  {
  }

  lemma MeaningOf(have: seq<int>, t: Token)
    requires t.Valid()
    ensures t.sym < 16 ==> Meaning(have, t) == Some([t.sym])
    ensures t.sym == 16 && have == [] ==> Meaning(have, t).None?
    ensures t.sym == 16 && have != [] ==> Meaning(have, t) == Some(Repeat(have[|have| - 1], 3 + t.extra))
    ensures t.sym == 17 ==> Meaning(have, t) == Some(Repeat(0, 3 + t.extra))
    ensures t.sym == 18 ==> Meaning(have, t) == Some(Repeat(0, 11 + t.extra))
  {
  }

  /** The CODELENS state over any number of calls, each with whatever symbols have come: the
      outcome is that of all symbols at once. */
  method CodeLengthsInPieces(lens: array<int>, nlen: nat, ndist: nat, pieces: seq<seq<Token>>)
    returns (mode: Mode, have: nat)
    requires 0 < nlen + ndist <= lens.Length
    requires forall k :: 0 <= k < |pieces| ==> forall i :: 0 <= i < |pieces[k]| ==> pieces[k][i].Valid()
    modifies lens
    ensures have <= nlen + ndist
    ensures match Expand([], Joined(pieces), nlen + ndist)
            case Done(all, rest) => mode == LensDone && have == nlen + ndist && lens[..have] == all
            case Bad => mode == BadMode
            case Starved(some) => mode == CodeLens && lens[..have] == some
  {
    hide Expand, Joined;
    mode, have := CodeLens, 0;
    NothingJoined(nlen + ndist);
    assert pieces[..0] == [] && lens[..0] == [];
    for i := 0 to |pieces|
      invariant mode == CodeLens && have <= nlen + ndist
      invariant Expand([], Joined(pieces[..i]), nlen + ndist) == Starved(lens[..have])
    {
      ghost var before := lens[..have];
      ghost var later := JoinedPast(pieces, i);
      var used;
      mode, have, used := CodeLengths(lens, have, nlen, ndist, pieces[i]);
      Resume([], Joined(pieces[..i]), pieces[i], nlen + ndist);
      Resume([], Joined(pieces[..i + 1]), later, nlen + ndist);
      if mode != CodeLens { return; }
    }
    assert pieces[..|pieces|] == pieces;
  }

  lemma NothingJoined(limit: nat)
    requires limit > 0
    ensures Expand([], Joined([]), limit) == Starved([])
  {
  }
}
