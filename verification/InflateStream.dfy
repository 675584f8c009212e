/** The output side of inflate: decoded literals and matches become bytes, over any number of
    calls, with the window kept between them; and the way back from deflate. */
module InflateStream {
  import opened Common
  import opened StringHash
  import opened InflateWindow
  import opened Tokens
  import opened MatchSearch
  import opened DeflateState
  import DeflateStream

  // ---------- what tokens stand for, from the front ----------

  /** History h after some tokens, and whether all distances were in reach. */
  function Onto(h: seq<Byte>, toks: seq<Token>): (r: (seq<Byte>, bool))
    ensures h <= r.0
    decreases |toks|
  {
    if toks == [] then (h, true)
    else
      match Step(h, toks[0])
      case None => (h, false)
      case Some(g) => Onto(g, toks[1..])
  }

  lemma {:induction false} OntoConcat(h: seq<Byte>, a: seq<Token>, b: seq<Token>)
    ensures Onto(h, a + b) == if Onto(h, a).1 then Onto(Onto(h, a).0, b) else Onto(h, a)
    decreases |a|
  {
    hide Step;
    if a == [] {
      assert a + b == b;
    } else {
      assert (a + b)[0] == a[0] && (a + b)[1..] == a[1..] + b;
      if Step(h, a[0]).Some? { OntoConcat(Step(h, a[0]).value, a[1..], b); }
    }
  }

  /** Expanding all tokens is taking them one by one. */
  lemma {:induction false} ExpandIsOnto(toks: seq<Token>)
    ensures Expand(toks) == if Onto([], toks).1 then Some(Onto([], toks).0) else None
    decreases |toks|
  {
    hide Step;
    if toks != [] {
      var front, t := toks[..|toks| - 1], toks[|toks| - 1];
      ExpandIsOnto(front);
      assert toks == front + [t];
      OntoConcat([], front, [t]);
      OntoOne(Onto([], front).0, t);
    }
  }

  lemma OntoOne(h: seq<Byte>, t: Token)
    ensures Onto(h, [t]) == match Step(h, t) case None => (h, false) case Some(g) => (g, true)
  {
    assert [t][1..] == [];
  }

  // ---------- what is due in each mode ----------

  /** The modes of inflate() that produce output: the next symbol, a literal, a match. */
  datatype Mode = Len | Lit | Copying | Bad

  /** What the symbol in hand makes of history h. */
  function InHand(h: seq<Byte>, mode: Mode, length: nat, offset: nat): (r: (seq<Byte>, bool))
    requires mode == Lit ==> length < 256
    ensures h <= r.0
  {
    match mode
    case Len => (h, true)
    case Lit => (h + [length], true)
    case Copying => if 0 < offset <= |h| then (Match(h, offset, length), true) else (h, false)
    case Bad => (h, false)
  }

  /** ... and then those to come. */
  function Due(h: seq<Byte>, mode: Mode, length: nat, offset: nat, pending: seq<Token>): (r: (seq<Byte>, bool))
    requires mode == Lit ==> length < 256
    ensures h <= r.0
  {
    var r := InHand(h, mode, length, offset);
    if r.1 then Onto(r.0, pending) else r
  }

  lemma DueMore(h: seq<Byte>, mode: Mode, length: nat, offset: nat, pending: seq<Token>, more: seq<Token>)
    requires mode == Lit ==> length < 256
    ensures var d := Due(h, mode, length, offset, pending);
            Due(h, mode, length, offset, pending + more) == if d.1 then Onto(d.0, more) else d
  {
    OntoConcat(InHand(h, mode, length, offset).0, pending, more);
  }

  lemma FetchLiteral(h: seq<Byte>, length: nat, offset: nat, pending: seq<Token>)
    requires pending != [] && pending[0].Literal?
    ensures Due(h, Len, length, offset, pending) == Due(h, Lit, pending[0].byte, offset, pending[1..])
  {
  }

  lemma FetchCopy(h: seq<Byte>, length: nat, offset: nat, pending: seq<Token>)
    requires pending != [] && pending[0].Copy?
    ensures Due(h, Len, length, offset, pending) == Due(h, Copying, pending[0].len, pending[0].dist, pending[1..])
  {
    hide Match;
  }

  /** Part of a match, or all of it, has been copied. */
  lemma CopyDone(h: seq<Byte>, length: nat, offset: nat, pending: seq<Token>, k: nat)
    requires 0 < offset <= |h| && k <= length
    ensures Due(h, Copying, length, offset, pending) ==
            Due(Match(h, offset, k), if k == length then Len else Copying, length - k, offset, pending)
  {
    hide Match, Onto;
    MatchSplit(h, offset, k, length - k);
  }

  /** Matches as the format has them, with distances that the window can reach. */
  predicate Reachable(t: Token, size: nat) {
    t.Copy? ==> 0 < t.dist <= size && MIN_MATCH <= t.len <= MAX_MATCH
  }

  ghost predicate Within(toks: seq<Token>, size: nat) {
    forall i :: 0 <= i < |toks| ==> Reachable(toks[i], size)
  }

  /** The decoder refuses only distances that reach before the first byte of all. */
  lemma OnlyTooFar(window: seq<Byte>, wsize: int, whave: int, wnext: int, past: seq<Byte>, pos: nat, offset: nat)
    requires Ready(window, wsize, whave, wnext, past) && 0 < |window| && 0 < offset <= |window| && offset > pos + whave
    ensures offset > |past| + pos
  {
  }

  // ---------- calls ----------

  class Inflater {
    const w: Window
    var mode: Mode
    var length: nat
    var offset: nat
    /** Symbols decoded from input and not yet dealt with. */
    var pending: seq<Token>
    /** All output so far. */
    ghost var given: seq<Byte>

    ghost predicate InMode()
      reads `mode, `length, `offset, `pending
    {
      && (mode == Lit ==> length < 256)
      && (mode == Copying ==> 0 < length <= MAX_MATCH && 0 < offset <= w.window.Length)
      && Within(pending, w.window.Length)
    }

    ghost predicate Valid()
      reads this, w, w.window
    {
      InMode() && w.Valid() && (mode != Bad ==> w.past == given)
    }

    /** All output there will be of the symbols known, and whether they are good. */
    ghost function Outcome(more: seq<Token>): (seq<Byte>, bool)
      requires InMode()
      reads this
    {
      Due(given, mode, length, offset, pending + more)
    }

    constructor (wbits: nat)
      ensures Valid() && fresh(w) && fresh(w.window) && given == [] && mode == Len && pending == [] &&
              w.window.Length == Pow2(wbits)
    {
      w := new Window(wbits);
      mode, length, offset, pending, given := Len, 0, 0, [], [];
    }

    /** One pass through inflate()'s switch. */
    method Pass(output: array<Byte>, pos0: nat) returns (pos: nat, stop: bool)
      requires InMode() && w.Valid() && pos0 <= output.Length && output != w.window
      modifies `mode, `length, `offset, `pending, output
      ensures InMode() && pos0 <= pos <= output.Length
      ensures Due(w.past + output[..pos], mode, length, offset, pending) ==
              old(Due(w.past + output[..pos0], mode, length, offset, pending))
      ensures stop ==> pos == pos0 && mode == old(mode) && pending == old(pending)
      ensures stop ==> pos == output.Length || mode == Bad || (mode == Len && pending == [])
      ensures !stop ==> |pending| < old(|pending|) || (pending == old(pending) &&
                        (Busy(mode) < old(Busy(mode)) || (mode == old(mode) && length < old(length))))
    {
      hide Match, Onto, Holds, Due;
      pos, stop := pos0, false;
      match mode
      case Len =>
        if pending == [] { return pos0, true; }
        Fetch(w.past + output[..pos0]);
      case Lit =>
        if pos0 == output.Length { return pos0, true; }
        PutLiteral(w.past, output[..pos0], length, offset, pending);
        output[pos0] := length;
        pos := pos0 + 1;
        assert output[..pos] == old(output[..pos0]) + [length];
        mode := Len;
      case Copying =>
        if pos0 == output.Length { return pos0, true; }
        pos := CopyPass(output, pos0);
      case Bad =>
        stop := true;
    }

    /** The LEN to DISTEXT states: the next symbol. */
    method Fetch(ghost h: seq<Byte>)
      requires InMode() && mode == Len && pending != []
      modifies `mode, `length, `offset, `pending
      ensures InMode() && pending == old(pending)[1..]
      ensures Due(h, mode, length, offset, pending) == old(Due(h, mode, length, offset, pending))
    {
      hide Due;
      assert Reachable(pending[0], w.window.Length);
      match pending[0]
      case Literal(b) =>
        FetchLiteral(h, length, offset, pending);
        mode, length, pending := Lit, b, pending[1..];
      case Copy(dist, len) =>
        FetchCopy(h, length, offset, pending);
        mode, length, offset, pending := Copying, len, dist, pending[1..];
    }

    /** The MATCH state, as often as it takes. */
    method CopyPass(output: array<Byte>, pos0: nat) returns (pos: nat)
      requires InMode() && w.Valid() && mode == Copying && pos0 < output.Length && output != w.window
      modifies `mode, `length, output
      ensures InMode() && pos0 <= pos <= output.Length
      ensures Due(w.past + output[..pos], mode, length, offset, pending) ==
              old(Due(w.past + output[..pos0], mode, length, offset, pending))
      ensures mode == Bad || mode == Len || (mode == Copying && length < old(length))
    {
      hide Match, Onto, Holds;
      ghost var h := w.past + output[..pos0];
      var bad, rest;
      bad, pos, rest := InflateMatch(output, w.window[..], w.wsize, w.whave, w.wnext, pos0, length, offset, w.past);
      if bad {
        OnlyTooFar(w.window[..], w.wsize, w.whave, w.wnext, w.past, pos0, offset);
        pos := pos0;
        assert w.past + output[..pos] == h;
        mode := Bad;
      } else {
        CopyDone(h, length, offset, pending, length - rest);
        length := rest;
        if length == 0 { mode := Len; }
      }
    }

    /** inflate_fast: whole symbols as long as there is room for the longest match. */
    method Fast(output: array<Byte>, pos0: nat) returns (pos: nat)
      requires InMode() && w.Valid() && mode == Len && pending != [] && pos0 + MAX_MATCH <= output.Length &&
               output != w.window
      modifies `mode, `length, `offset, `pending, output
      ensures InMode() && pos0 <= pos <= output.Length && |pending| < old(|pending|) && mode in {Len, Bad}
      ensures Due(w.past + output[..pos], mode, length, offset, pending) ==
              old(Due(w.past + output[..pos0], mode, length, offset, pending))
    {
      hide Match, Onto, Holds, Due;
      pos := pos0;
      var more := true;
      while more
        invariant InMode() && pos0 <= pos <= output.Length && mode in {Len, Bad}
        invariant more ==> mode == Len && pending != [] && pos + MAX_MATCH <= output.Length
        invariant !more ==> |pending| < old(|pending|)
        invariant |pending| <= old(|pending|)
        invariant Due(w.past + output[..pos], mode, length, offset, pending) ==
                  old(Due(w.past + output[..pos0], mode, length, offset, pending))
        decreases |pending|, more
      {
        pos := FastSymbol(output, pos);
        if mode == Bad || pending == [] || pos + MAX_MATCH > output.Length { more := false; } else { more := *; }
      }
    }

    method FastSymbol(output: array<Byte>, pos0: nat) returns (pos: nat)
      requires InMode() && w.Valid() && mode == Len && pending != [] && pos0 + MAX_MATCH <= output.Length &&
               output != w.window
      modifies `mode, `length, `offset, `pending, output
      ensures InMode() && pos0 <= pos <= output.Length && |pending| == old(|pending|) - 1 && mode in {Len, Bad}
      ensures Due(w.past + output[..pos], mode, length, offset, pending) ==
              old(Due(w.past + output[..pos0], mode, length, offset, pending))
    {
      hide Match, Onto, Holds;
      ghost var h := w.past + output[..pos0];
      assert Reachable(pending[0], w.window.Length);
      match pending[0]
      case Literal(b) =>
        FetchLiteral(h, length, offset, pending);
        PutLiteral(w.past, output[..pos0], b, offset, pending[1..]);
        output[pos0] := b;
        pos := pos0 + 1;
        assert output[..pos] == old(output[..pos0]) + [b];
        length, pending := b, pending[1..];
      case Copy(dist, len) =>
        FetchCopy(h, length, offset, pending);
        var bad;
        bad, pos := FastMatch(output, w.window[..], w.wsize, w.whave, w.wnext, pos0, len, dist, w.past);
        length, offset, pending := len, dist, pending[1..];
        if bad {
          OnlyTooFar(w.window[..], w.wsize, w.whave, w.wnext, w.past, pos0, dist);
          pos := pos0;
          assert w.past + output[..pos] == h;
          mode := Bad;
        } else {
          CopyDone(h, len, dist, pending, len);
          length := 0;
        }
    }

    /** One call of inflate() with input that decodes to more symbols and with space for
        output.  It stops when the space is full, the symbols are used up, or one is bad. */
    method Inflate(more: seq<Token>, space: nat) returns (out: seq<Byte>)
      requires Valid() && Within(more, w.window.Length)
      modifies this, w, w.window
      ensures Valid() && given == old(given) + out && |out| <= space
      ensures Outcome([]) == old(Outcome(more))
      ensures |out| == space || mode == Bad || (mode == Len && pending == [])
      ensures old(mode) == Bad ==> mode == Bad && out == []
    {
      hide Match, Onto, Holds, Due, Ready;
      if mode == Bad {
        BadStays(given, length, offset, pending + more, pending);
        assert pending + [] == pending && given + [] == given;
        return [];
      }
      pending := pending + more;
      var output := new Byte[space];
      var pos, stop := 0, false;
      assert given + output[..0] == given;
      while !stop
        invariant InMode() && w.Valid() && pos <= output.Length && w.past == given == old(given)
        invariant Due(w.past + output[..pos], mode, length, offset, pending) == old(Outcome(more))
        invariant stop ==> pos == output.Length || mode == Bad || (mode == Len && pending == [])
        decreases !stop, |pending|, Busy(mode), length
      {
        var fast := *;
        if fast && mode == Len && pending != [] && pos + MAX_MATCH <= output.Length {
          pos := Fast(output, pos);
        } else {
          pos, stop := Pass(output, pos);
        }
      }
      out := output[..pos];
      if w.wsize != 0 || (pos > 0 && mode != Bad) {
        w.UpdateWindow(out);
      }
      given := given + out;
      assert given == old(given) + out && pending + [] == pending;
    }
  }

  /** Whether a symbol is in hand. */
  function Busy(mode: Mode): nat {
    if mode == Lit || mode == Copying then 1 else 0
  }

  lemma PutLiteral(past: seq<Byte>, out: seq<Byte>, b: Byte, offset: nat, pending: seq<Token>)
    ensures forall length: nat ::
              Due(past + out, Lit, b, offset, pending) == Due(past + (out + [b]), Len, length, offset, pending)
  {
    hide Onto;
    assert past + out + [b] == past + (out + [b]);
  }

  lemma BadStays(h: seq<Byte>, length: nat, offset: nat, a: seq<Token>, b: seq<Token>)
    ensures Due(h, Bad, length, offset, a) == Due(h, Bad, length, offset, b) == (h, false)
  {
  }

  // ---------- any calls ----------

  /** One call: the symbols that its input decodes to, and its output space. */
  datatype Call = Call(symbols: seq<Token>, space: nat)

  /** The symbols of all calls. */
  function Symbols(calls: seq<Call>): seq<Token> {
    if calls == [] then [] else Symbols(calls[..|calls| - 1]) + calls[|calls| - 1].symbols
  }

  lemma SymbolsPush(calls: seq<Call>, k: nat)
    requires k < |calls|
    ensures Symbols(calls[..k + 1]) == Symbols(calls[..k]) + calls[k].symbols
  {
    assert calls[..k + 1][..k] == calls[..k];
  }

  lemma {:induction false} WithinCalls(calls: seq<Call>, size: nat, k: nat)
    requires Within(Symbols(calls), size) && k < |calls|
    ensures Within(calls[k].symbols, size)
    decreases |calls|
  {
    var n := |calls| - 1;
    var all := Symbols(calls[..n]) + calls[n].symbols;
    if k == n {
      forall i | 0 <= i < |calls[k].symbols| ensures Reachable(calls[k].symbols[i], size) {
        assert calls[k].symbols[i] == all[|Symbols(calls[..n])| + i];
      }
    } else {
      forall i | 0 <= i < |Symbols(calls[..n])| ensures Reachable(Symbols(calls[..n])[i], size) {
        assert all[i] == Symbols(calls[..n])[i];
      }
      WithinCalls(calls[..n], size, k);
    }
  }

  /** Any calls, whatever symbols and whatever space each has: what comes out is the beginning
      of what the symbols expand to, all of it unless the last call filled its space; and a
      symbol is refused only if the symbols do not expand. */
  method Run(calls: seq<Call>, wbits: nat) returns (bytes: seq<Byte>, full: bool, refused: bool)
    requires Within(Symbols(calls), Pow2(wbits))
    ensures Expand(Symbols(calls)).Some? ==> !refused && bytes <= Expand(Symbols(calls)).value
    ensures Expand(Symbols(calls)).Some? && !full ==> bytes == Expand(Symbols(calls)).value
    ensures Expand(Symbols(calls)).None? ==> full || refused
  {
    hide Due, Onto, Expand, Within, Inflater.Valid, Inflater.InMode;
    var i := new Inflater(wbits);
    bytes, full, refused := [], false, false;
    InflaterStart(i);
    assert calls[..0] == [];
    for k := 0 to |calls|
      invariant i.Valid() && i.InMode() && fresh(i) && fresh(i.w) && fresh(i.w.window) &&
                i.w.window.Length == Pow2(wbits)
      invariant i.given == bytes && refused == (i.mode == Bad)
      invariant i.Outcome([]) == Onto([], Symbols(calls[..k]))
      invariant full || refused || (i.mode == Len && i.pending == [])
    {
      WithinCalls(calls, Pow2(wbits), k);
      SymbolsPush(calls, k);
      OntoConcat([], Symbols(calls[..k]), calls[k].symbols);
      OutcomeMore(i, calls[k].symbols);
      var out := i.Inflate(calls[k].symbols, calls[k].space);
      bytes := bytes + out;
      full, refused := |out| == calls[k].space, i.mode == Bad;
      InflaterModes(i);
    }
    assert calls[..|calls|] == calls;
    ExpandIsOnto(Symbols(calls));
    OutcomeEnd(i);
  }

  lemma InflaterStart(i: Inflater)
    requires i.Valid() && i.given == [] && i.mode == Len && i.pending == []
    ensures i.InMode() && i.Outcome([]) == Onto([], Symbols([]))
  {
  }

  lemma InflaterModes(i: Inflater)
    requires i.Valid()
    ensures i.InMode()
  {
  }

  lemma OutcomeMore(i: Inflater, more: seq<Token>)
    requires i.Valid() && i.InMode()
    ensures i.Outcome(more) == if i.Outcome([]).1 then Onto(i.Outcome([]).0, more) else i.Outcome([])
  {
    hide Due, Onto;
    assert i.pending + [] == i.pending;
    DueMore(i.given, i.mode, i.length, i.offset, i.pending, more);
  }

  lemma OutcomeEnd(i: Inflater)
    requires i.Valid() && i.InMode()
    ensures i.given <= i.Outcome([]).0 && (i.mode == Bad ==> !i.Outcome([]).1)
    ensures i.mode == Len && i.pending == [] ==> i.Outcome([]) == (i.given, true)
  {
  }

  // ---------- there and back ----------

  /** What deflate made of any input, inflate gives back: for a finished stream at any level,
      with a window at least as large, whatever the calls. */
  method ThereAndBack(st: DeflateStream.Stream, calls: seq<Call>, wbits: nat)
    returns (bytes: seq<Byte>, full: bool, refused: bool)
    requires st.Valid() && st.finished && st.s.wSize <= Pow2(wbits) && Symbols(calls) == TokensOf(st.s.blocks)
    ensures !refused && bytes <= st.s.text && (!full ==> bytes == st.s.text)
  {
    hide Expand, TokensOf, Symbols, DeflateStream.Stream.Valid, Within, Fit;
    st.Account();
    st.Finished();
    assert st.s.tally == [] by { FinishedTally(st); }
    assert TokensOf(st.s.blocks) + [] == TokensOf(st.s.blocks);
    FitIsWithin(TokensOf(st.s.blocks), MaxDist(st.s.wSize), Pow2(wbits));
    bytes, full, refused := Run(calls, wbits);
  }

  lemma FinishedTally(st: DeflateStream.Stream)
    requires st.Valid() && st.finished
    ensures st.s.tally == []
  {
  }

  lemma FitIsWithin(toks: seq<Token>, maxDist: int, size: nat)
    requires Fit(toks, maxDist) && maxDist <= size
    ensures Within(toks, size)
  {
    forall i | 0 <= i < |toks| ensures Reachable(toks[i], size) { assert toks[i] in toks; }
  }
}
