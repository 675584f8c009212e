/** The sliding window of zlib's decoder and the copying of matches: whatever part of the
    history a match starts in, the bytes appended are those that copying one byte at a time
    from that distance back would append. */
module InflateWindow {
  import opened Common

  // ---------- what a match means ----------

  /** History h after a match of length len at distance dist (section 3.2.3 of RFC 1951):
      each byte may itself have been copied just before. */
  function Match(h: seq<Byte>, dist: nat, len: nat): (r: seq<Byte>)
    requires 0 < dist <= |h|
    ensures |r| == |h| + len && h <= r
  {
    if len == 0 then h
    else
      var before := Match(h, dist, len - 1);
      before + [before[|before| - dist]]
  }

  lemma {:induction false} MatchSplit(h: seq<Byte>, dist: nat, a: nat, b: nat)
    requires 0 < dist <= |h|
    ensures Match(Match(h, dist, a), dist, b) == Match(h, dist, a + b)
  {
    if b > 0 { MatchSplit(h, dist, a, b - 1); }
  }

  // ---------- the circular window ----------

  function Last(h: seq<Byte>, n: nat): (r: seq<Byte>)
    requires n <= |h|
    ensures |r| == n
  {
    h[|h| - n..]
  }

  lemma LastSlice(h: seq<Byte>, m: nat, d: nat, n: nat)
    requires n <= d <= m <= |h|
    ensures Last(h, m)[m - d..m - d + n] == h[|h| - d..|h| - d + n]
  {
    var x, y := Last(h, m)[m - d..m - d + n], h[|h| - d..|h| - d + n];
    forall k | 0 <= k < n ensures x[k] == y[k] { assert Last(h, m)[m - d + k] == h[|h| - d + k]; }
  }

  /** A slice of history that lies before the newest output. */
  lemma PastSlice(past: seq<Byte>, out: seq<Byte>, op: nat, n: nat)
    requires n <= op <= |past|
    ensures var h := past + out; h[|h| - (op + |out|)..|h| - (op + |out|) + n] == past[|past| - op..|past| - op + n]
  {
    var h := past + out;
    var x, y := h[|h| - (op + |out|)..|h| - (op + |out|) + n], past[|past| - op..|past| - op + n];
    forall k | 0 <= k < n ensures x[k] == y[k] { assert h[|past| - op + k] == past[|past| - op + k]; }
  }

  /** The window holds the last bytes of history h, the newest just before wnext.  Until it
      has filled up, it has been written from the start. */
  ghost predicate Holds(window: seq<Byte>, whave: int, wnext: int, h: seq<Byte>) {
    && 0 <= wnext < |window| && whave == Min(|window|, |h|)
    && (if |h| < |window| then wnext == |h| && window[..wnext] == h
        else window[wnext..] + window[..wnext] == Last(h, |window|))
  }

  /** Where the last bytes of history are: just before wnext, ... */
  lemma StretchLow(window: seq<Byte>, whave: int, wnext: int, h: seq<Byte>, d: nat, n: nat)
    requires Holds(window, whave, wnext, h) && n <= d <= whave && d <= wnext
    ensures window[wnext - d..wnext - d + n] == h[|h| - d..|h| - d + n]
  {
    if |h| >= |window| {
      var rot := window[wnext..] + window[..wnext];
      var x, y := window[wnext - d..wnext - d + n], rot[|window| - d..|window| - d + n];
      forall k | 0 <= k < n ensures x[k] == y[k] { assert rot[|window| - d + k] == window[wnext - d + k]; }
      LastSlice(h, |window|, d, n);
    }
  }

  /** ... and, before those, at the end of the window. */
  lemma StretchHigh(window: seq<Byte>, whave: int, wnext: int, h: seq<Byte>, d: nat, n: nat)
    requires Holds(window, whave, wnext, h) && wnext < d <= whave && n <= d - wnext
    ensures |window| <= |h| && window[|window| + wnext - d..|window| + wnext - d + n] == h[|h| - d..|h| - d + n]
  {
    var rot := window[wnext..] + window[..wnext];
    var x, y := window[|window| + wnext - d..|window| + wnext - d + n], rot[|window| - d..|window| - d + n];
    forall k | 0 <= k < n ensures x[k] == y[k] { assert rot[|window| - d + k] == window[|window| + wnext - d + k]; }
    LastSlice(h, |window|, d, n);
  }

  /** memcpy of src to position at. */
  function Stored(w: seq<Byte>, at: nat, src: seq<Byte>): (r: seq<Byte>)
    requires at + |src| <= |w|
    ensures |r| == |w|
  {
    w[..at] + src + w[at + |src|..]
  }

  lemma StoredAll(w: seq<Byte>, src: seq<Byte>)
    requires |src| == |w|
    ensures Stored(w, 0, src) == src
  {
  }

  /** More than a window full of new bytes: the window becomes the last of them. */
  lemma HoldsFull(h: seq<Byte>, more: seq<Byte>, size: nat)
    requires 0 < size <= |more|
    ensures Holds(Last(more, size), size, 0, h + more)
  {
    var w := Last(more, size);
    assert w[0..] + w[..0] == w;
    assert Last(h + more, size) == w;
  }

  /** New bytes that fit before the end of the window. */
  lemma HoldsAppend(window: seq<Byte>, whave: int, wnext: int, h: seq<Byte>, more: seq<Byte>)
    requires Holds(window, whave, wnext, h) && wnext + |more| <= |window| && |more| < |window|
    ensures var w := Stored(window, wnext, more);
            var next := wnext + |more|;
            Holds(w, if whave < |window| then whave + |more| else whave, if next == |window| then 0 else next, h + more)
  {
    var w, next, all := window[..wnext] + more + window[wnext + |more|..], wnext + |more|, h + more;
    if |all| < |window| {
      assert w[..next] == all;
    } else {
      assert w[next..] + w[..next] == window[next..] + window[..wnext] + more;
      assert w[0..] + w[..0] == w;
      if |h| < |window| {
        assert w == all;
      } else {
        AppendLast(window[wnext..] + window[..wnext], h, more);
        assert (window[wnext..] + window[..wnext])[|more|..] == window[next..] + window[..wnext];
      }
    }
  }

  lemma AppendLast(rot: seq<Byte>, h: seq<Byte>, more: seq<Byte>)
    requires |more| <= |rot| <= |h| && rot == Last(h, |rot|)
    ensures rot[|more|..] + more == Last(h + more, |rot|)
  {
  }

  /** New bytes that wrap round the end of the window. */
  lemma HoldsWrap(window: seq<Byte>, whave: int, wnext: int, h: seq<Byte>, more: seq<Byte>)
    requires Holds(window, whave, wnext, h) && |window| < wnext + |more| && |more| < |window|
    ensures var dist := |window| - wnext;
            Holds(Stored(Stored(window, wnext, more[..dist]), 0, more[dist..]), |window|, |more| - dist, h + more)
  {
    var dist := |window| - wnext;
    var w, next := more[dist..] + window[|more| - dist..wnext] + more[..dist], |more| - dist;
    assert Stored(Stored(window, wnext, more[..dist]), 0, more[dist..]) == w;
    assert w[next..] + w[..next] == window[next..wnext] + more;
    StretchLowOrAll(window, whave, wnext, h, wnext - next);
    assert Last(h + more, |window|) == Last(h, wnext - next) + more;
  }

  lemma StretchLowOrAll(window: seq<Byte>, whave: int, wnext: int, h: seq<Byte>, d: nat)
    requires Holds(window, whave, wnext, h) && d <= wnext
    ensures d <= |h| && window[wnext - d..wnext] == Last(h, d)
  {
    StretchLow(window, whave, wnext, h, d, d);
    assert h[|h| - d..|h|] == Last(h, d);
  }

  /** The window part of the decoder state. */
  class Window {
    const window: array<Byte>
    var wsize: int
    var whave: int
    var wnext: int
    /** All output up to the last update. */
    ghost var past: seq<Byte>

    ghost predicate Valid()
      reads this, window
    {
      && 0 < window.Length
      && (if wsize == 0 then whave == 0 && past == []
          else wsize == window.Length && Holds(window[..], whave, wnext, past))
    }

    /** The window has 2^wbits bytes; it is not in use before the first update. */
    constructor (wbits: nat)
      ensures Valid() && past == [] && wsize == 0 && window.Length == Pow2(wbits) && fresh(window)
    {
      window := new Byte[Pow2(wbits)];
      wsize, whave, wnext, past := 0, 0, 0, [];
    }

    /** memcpy into the window. */
    method Store(at: int, src: seq<Byte>)
      requires 0 <= at && at + |src| <= window.Length
      modifies window
      ensures window[..] == Stored(old(window[..]), at, src)
    {
      forall i | 0 <= i < |src| { window[at + i] := src[i]; }
    }

    /** updatewindow: takes in the last bytes of output. */
    method UpdateWindow(out: seq<Byte>)
      requires Valid()
      modifies this, window
      ensures Valid() && past == old(past) + out && wsize == window.Length
    {
      hide Holds, Stored, Last;
      ghost var h := past;
      if wsize == 0 {
        wsize, wnext, whave := window.Length, 0, 0;
        HoldsNothing(window[..]);
      }
      ghost var w := window[..];
      HoldsIndex(w, whave, wnext, h);
      var copy := |out|;
      if copy >= wsize {
        HoldsFull(h, out, wsize);
        StoredAll(w, out[copy - wsize..]);
        LastIs(out, wsize);
        Store(0, out[copy - wsize..]);
        wnext, whave := 0, wsize;
      } else {
        var dist := wsize - wnext;
        if dist > copy { dist := copy; }
        Store(wnext, out[..dist]);
        copy := copy - dist;
        if copy > 0 {
          HoldsWrap(w, whave, wnext, h, out);
          Store(0, out[dist..]);
          wnext, whave := copy, wsize;
        } else {
          HoldsAppend(w, whave, wnext, h, out);
          assert out[..dist] == out;
          wnext := wnext + dist;
          if wnext == wsize { wnext := 0; }
          if whave < wsize { whave := whave + dist; }
        }
      }
      past := past + out;
    }
  }

  lemma LastIs(h: seq<Byte>, n: nat)
    requires n <= |h|
    ensures Last(h, n) == h[|h| - n..]
  {
  }

  lemma HoldsNothing(window: seq<Byte>)
    requires 0 < |window|
    ensures Holds(window, 0, 0, [])
  {
  }

  lemma HoldsIndex(window: seq<Byte>, whave: int, wnext: int, h: seq<Byte>)
    requires Holds(window, whave, wnext, h)
    ensures 0 <= wnext < |window| && 0 <= whave <= |window|
  {
  }

  // ---------- copying ----------

  /** The next n bytes to copy are found from position from on, in the window or in the
      output written so far; h is the history and pos the length of that output. */
  ghost predicate Source(h: seq<Byte>, window: seq<Byte>, inWindow: bool, from: int, dist: nat, n: nat, pos: nat) {
    && 0 < dist <= |h|
    && if inWindow then 0 <= from && from + n <= |window| && n <= dist && window[from..from +
                                                                                 n] == h[|h| - dist..|h| - dist + n]
       else from == pos - dist >= 0
  }

  /** Copying one byte. */
  lemma CopyOne(h: seq<Byte>, window: seq<Byte>, inWindow: bool, from: int, dist: nat, n: nat, pos: nat,
                past: seq<Byte>, out: seq<Byte>, b: Byte)
    requires Source(h, window, inWindow, from, dist, n, pos) && n > 0
    requires h == past + out && |out| == pos && b == if inWindow then window[from] else out[from]
    ensures past + (out + [b]) == h + [b] == Match(h, dist, 1)
    ensures Source(h + [b], window, inWindow, from + 1, dist, n - 1, pos + 1)
  {
    assert Match(h, dist, 0) == h;
    assert b == h[|h| - dist] by {
      if inWindow { assert window[from] == window[from..from + n][0]; }
    }
    if inWindow {
      assert window[from + 1..from + n] == window[from..from + n][1..];
      assert h[|h| - dist..|h| - dist + n][1..] == (h + [b])[|h| + 1 - dist..|h| + 1 - dist + (n - 1)];
    }
  }

  /** The loops of the form *put++ = *from++. */
  method CopyRun(output: array<Byte>, window: seq<Byte>, pos0: nat, inWindow: bool, from0: int, n: nat,
                 ghost past: seq<Byte>, ghost dist: nat, ghost m: nat)
    returns (pos: nat, from: int)
    requires pos0 + n <= output.Length && n <= m &&
             Source(past + output[..pos0], window, inWindow, from0, dist, m, pos0)
    modifies output
    ensures pos == pos0 + n && from == from0 + n
    ensures past + output[..pos] == Match(past + old(output[..pos0]), dist, n)
    ensures Source(past + output[..pos], window, inWindow, from, dist, m - n, pos)
  {
    hide Match, Source;
    pos, from := pos0, from0;
    ghost var start := past + output[..pos0];
    SourceDist(start, window, inWindow, from0, dist, m, pos0);
    MatchNothing(start, dist);
    for i := 0 to n
      invariant pos == pos0 + i && from == from0 + i && 0 < dist <= |start|
      invariant past + output[..pos] == Match(start, dist, i)
      invariant Source(past + output[..pos], window, inWindow, from, dist, m - i, pos)
    {
      ghost var out := output[..pos];
      SourceIndex(past + out, window, inWindow, from, dist, m - i, pos);
      var b := if inWindow then window[from] else output[from];
      CopyOne(past + out, window, inWindow, from, dist, m - i, pos, past, out, b);
      MatchSplit(start, dist, i, 1);
      output[pos] := b;
      pos, from := pos + 1, from + 1;
      assert output[..pos] == out + [b];
    }
  }

  lemma SourceDist(h: seq<Byte>, window: seq<Byte>, inWindow: bool, from: int, dist: nat, n: nat, pos: nat)
    requires Source(h, window, inWindow, from, dist, n, pos)
    ensures 0 < dist <= |h|
  {
  }

  lemma SourceIndex(h: seq<Byte>, window: seq<Byte>, inWindow: bool, from: int, dist: nat, n: nat, pos: nat)
    requires Source(h, window, inWindow, from, dist, n, pos) && n > 0
    ensures 0 <= from && (if inWindow then from < |window| else from < pos)
  {
  }

  lemma MatchNothing(h: seq<Byte>, dist: nat)
    requires 0 < dist <= |h|
    ensures Match(h, dist, 0) == h
  {
  }

  /** Once the window part has been copied, the rest comes from the output. */
  lemma FromOutput(h: seq<Byte>, window: seq<Byte>, dist: nat, n: nat, pos: nat)
    requires 0 < dist <= |h| && dist <= pos
    ensures Source(h, window, false, pos - dist, dist, n, pos)
  {
  }

  /** The window part of a match that starts op bytes before this call's output. */
  lemma FromWindowLow(window: seq<Byte>, whave: int, wnext: int, past: seq<Byte>, out: seq<Byte>, dist: nat, n: nat)
    requires Holds(window, whave, wnext, past) && |out| < dist <= |out| + whave && dist - |out| <= wnext &&
             n <= dist - |out|
    ensures Source(past + out, window, true, wnext - (dist - |out|), dist, n, |out|)
  {
    var op := dist - |out|;
    StretchLow(window, whave, wnext, past, op, n);
    PastSlice(past, out, op, n);
  }

  lemma FromWindowHigh(window: seq<Byte>, whave: int, wnext: int, past: seq<Byte>, out: seq<Byte>, dist: nat, n: nat)
    requires Holds(window, whave, wnext, past) && |out| < dist <= |out| + whave && wnext < dist - |out| &&
             n <= dist - |out| - wnext
    ensures Source(past + out, window, true, |window| + wnext - (dist - |out|), dist, n, |out|)
  {
    var op := dist - |out|;
    StretchHigh(window, whave, wnext, past, op, n);
    PastSlice(past, out, op, n);
  }

  /** What the decoder knows of the window when it starts a match. */
  ghost predicate Ready(window: seq<Byte>, wsize: int, whave: int, wnext: int, past: seq<Byte>) {
    if wsize == 0 then whave == 0 && past == [] else wsize == |window| && Holds(window, whave, wnext, past)
  }

  /** One pass through the MATCH state of inflate(): the distance is refused exactly if it
      reaches back before the bytes still known; otherwise as much is copied as lies in one
      piece and has room. */
  method MatchState(output: array<Byte>, window: seq<Byte>, wsize: int, whave: int, wnext: int, pos0: nat, length0: nat,
                    offset: nat,
                    ghost past: seq<Byte>)
    returns (bad: bool, pos: nat, length: nat)
    requires Ready(window, wsize, whave, wnext, past) && pos0 < output.Length && 0 < length0 && 0 < offset
    modifies output
    ensures bad <==> offset > pos0 + whave
    ensures bad ==> pos == pos0 && length == length0 && output[..] == old(output[..])
    ensures !bad ==> length < length0 && pos + length == pos0 + length0 && pos <= output.Length
    ensures !bad ==> offset <= |past| + pos0
    ensures !bad ==> past + output[..pos] == Match(past + old(output[..pos0]), offset, length0 - length)
  {
    hide Holds, Source, Match;
    bad, pos, length := false, pos0, length0;
    ReadyIndex(window, wsize, whave, wnext, past);
    var left := output.Length - pos0;
    var copy, from, inWindow := pos0, 0, true;
    if offset > copy {
      copy := offset - copy;
      if copy > whave { bad := true; return; }
      if copy > wnext {
        copy := copy - wnext;
        from := wsize - copy;
        FromWindowHigh(window, whave, wnext, past, output[..pos0], offset, copy);
      } else {
        from := wnext - copy;
        FromWindowLow(window, whave, wnext, past, output[..pos0], offset, copy);
      }
    } else {
      inWindow := false;
      from := pos0 - offset;
      copy := length0;
      FromOutput(past + output[..pos0], window, offset, copy, pos0);
    }
    ghost var m := copy;
    if copy > length0 { copy := length0; }
    if copy > left { copy := left; }
    length := length - copy;
    pos, from := CopyRun(output, window, pos0, inWindow, from, copy, past, offset, m);
  }

  lemma ReadyIndex(window: seq<Byte>, wsize: int, whave: int, wnext: int, past: seq<Byte>)
    requires Ready(window, wsize, whave, wnext, past)
    ensures 0 <= whave <= |past| && (whave > 0 ==>
                                     wsize == |window| && 0 <= wnext < wsize && Holds(window, whave, wnext, past))
    ensures whave > 0 && wnext == 0 ==> whave == wsize
    ensures whave < wsize ==> whave == wnext
  {
  }

  /** All passes through the MATCH state: the match is copied as far as there is room. */
  method InflateMatch(output: array<Byte>, window: seq<Byte>, wsize: int, whave: int, wnext: int, pos0: nat,
                      length0: nat, offset: nat,
                      ghost past: seq<Byte>)
    returns (bad: bool, pos: nat, length: nat)
    requires Ready(window, wsize, whave, wnext, past) && pos0 < output.Length && 0 < length0 && 0 < offset
    modifies output
    ensures bad <==> offset > pos0 + whave
    ensures bad ==> output[..] == old(output[..])
    ensures !bad ==> length == length0 - Min(length0, output.Length -
                                             pos0) && pos == pos0 + (length0 - length) && offset <= |past| + pos0
    ensures !bad ==> past + output[..pos] == Match(past + old(output[..pos0]), offset, length0 - length)
  {
    hide Holds, Ready, Match;
    ghost var start := past + output[..pos0];
    bad, pos, length := MatchState(output, window, wsize, whave, wnext, pos0, length0, offset, past);
    if bad { return; }
    while length > 0 && pos < output.Length
      invariant length < length0 && pos + length == pos0 + length0 && pos0 < pos <= output.Length &&
                offset <= |past| + pos0
      invariant !bad && offset <= pos0 + whave
      invariant past + output[..pos] == Match(start, offset, length0 - length)
      decreases length
    {
      MatchSplitMore(start, offset, length0 - length);
      ghost var before := length;
      bad, pos, length := MatchState(output, window, wsize, whave, wnext, pos, length, offset, past);
      MatchSplit(start, offset, length0 - before, before - length);
    }
  }

  lemma MatchSplitMore(h: seq<Byte>, dist: nat, a: nat)
    requires 0 < dist <= |h|
    ensures |Match(h, dist, a)| == |h| + a
  {
  }

  /** The last part of a copy in inflate_fast: three bytes at a time, then the rest. */
  method CopyTail(output: array<Byte>, window: seq<Byte>, pos0: nat, inWindow: bool, from0: int, len0: nat,
                  ghost past: seq<Byte>, ghost dist: nat)
    returns (pos: nat)
    requires pos0 + len0 <= output.Length && Source(past + output[..pos0], window, inWindow, from0, dist, len0, pos0)
    modifies output
    ensures pos == pos0 + len0 && 0 < dist <= |past| + pos0
    ensures past + output[..pos] == Match(past + old(output[..pos0]), dist, len0)
  {
    hide Source, Match;
    ghost var start := past + output[..pos0];
    SourceDist(start, window, inWindow, from0, dist, len0, pos0);
    MatchNothing(start, dist);
    var from, len := from0, len0;
    pos := pos0;
    while len > 2
      invariant 0 <= len <= len0 && pos == pos0 + len0 - len
      invariant past + output[..pos] == Match(start, dist, len0 - len)
      invariant Source(past + output[..pos], window, inWindow, from, dist, len, pos)
    {
      MatchSplit(start, dist, len0 - len, 3);
      pos, from := CopyRun(output, window, pos, inWindow, from, 3, past, dist, len);
      len := len - 3;
    }
    MatchSplit(start, dist, len0 - len, len);
    pos, from := CopyRun(output, window, pos, inWindow, from, len, past, dist, len);
  }

  /** The copy in inflate_fast, for a match of at least three bytes with room for all of it:
      direct, from a contiguous part of the window, or from both ends of it, and then from
      the output as far as the window does not reach. */
  method FastMatch(output: array<Byte>, window: seq<Byte>, wsize: int, whave: int, wnext: int, pos0: nat, len0: nat,
                   dist: nat,
                   ghost past: seq<Byte>)
    returns (bad: bool, pos: nat)
    requires Ready(window, wsize, whave, wnext, past) && 3 <= len0 && pos0 + len0 <= output.Length && 0 < dist
    modifies output
    ensures bad <==> dist > pos0 + whave
    ensures bad ==> output[..] == old(output[..])
    ensures !bad ==> pos == pos0 + len0 && dist <= |past| + pos0
    ensures !bad ==> past + output[..pos] == Match(past + old(output[..pos0]), dist, len0)
  {
    hide Holds, Source, Match;
    bad, pos := false, pos0;
    ReadyIndex(window, wsize, whave, wnext, past);
    ghost var start := past + output[..pos0];
    var op := pos0;
    if dist > op {
      op := dist - op;
      if op > whave { bad := true; return; }
      if wnext == 0 {
        pos := FastPiece(output, window, pos0, wsize - op, op, len0, dist, past, whave, wnext);
      } else if wnext < op {
        var from := wsize + wnext - op;
        op := op - wnext;
        if op < len0 {
          FromWindowHigh(window, whave, wnext, past, output[..pos0], dist, op);
          pos, from := CopyRun(output, window, pos0, true, from, op, past, dist, op);
          MatchSplitMore(start, dist, op);
          MatchSplit(start, dist, op, len0 - op);
          pos := FastPiece(output, window, pos, 0, wnext, len0 - op, dist, past, whave, wnext);
        } else {
          FromWindowHigh(window, whave, wnext, past, output[..pos0], dist, len0);
          pos := CopyTail(output, window, pos0, true, from, len0, past, dist);
        }
      } else {
        pos := FastPiece(output, window, pos0, wnext - op, op, len0, dist, past, whave, wnext);
      }
    } else {
      FromOutput(start, window, dist, len0, pos0);
      pos := CopyTail(output, window, pos0, false, pos0 - dist, len0, past, dist);
    }
  }

  /** A contiguous piece of op bytes of the window, then the output. */
  method FastPiece(output: array<Byte>, window: seq<Byte>, pos0: nat, from0: int, op: nat, len: nat, dist: nat,
                   ghost past: seq<Byte>,
                   ghost whave: int, ghost wnext: int)
    returns (pos: nat)
    requires Holds(window, whave, wnext, past) && pos0 + len <= output.Length && dist == pos0 + op && 0 < op <= whave
    requires from0 == if wnext == 0 then |window| - op else wnext - op
    requires wnext == 0 || op <= wnext
    modifies output
    ensures pos == pos0 + len && dist <= |past| + pos0
    ensures past + output[..pos] == Match(past + old(output[..pos0]), dist, len)
  {
    hide Holds, Source, Match;
    HoldsHistory(window, whave, wnext, past);
    ghost var start := past + output[..pos0];
    var n := Min(op, len);
    if wnext == 0 {
      FromWindowHigh(window, whave, wnext, past, output[..pos0], dist, n);
    } else {
      FromWindowLow(window, whave, wnext, past, output[..pos0], dist, n);
    }
    if op < len {
      var from;
      pos, from := CopyRun(output, window, pos0, true, from0, op, past, dist, op);
      MatchSplitMore(start, dist, op);
      MatchSplit(start, dist, op, len - op);
      FromOutput(past + output[..pos], window, dist, len - op, pos);
      pos := CopyTail(output, window, pos, false, pos - dist, len - op, past, dist);
    } else {
      pos := CopyTail(output, window, pos0, true, from0, len, past, dist);
    }
  }

  lemma HoldsHistory(window: seq<Byte>, whave: int, wnext: int, h: seq<Byte>)
    requires Holds(window, whave, wnext, h)
    ensures whave <= |h|
  {
  }
}
