/** The initial run-length stage: runs of 4 to 255 equal bytes become four copies and a
    count; shorter runs are written as they are. */
module RunLength {
  import opened Common

  const MAX_RUN := 255

  // ---------- decoding ----------

  /** How many of the first four bytes equal the first. */
  function LeadRun(b: seq<Byte>): (k: nat)
    requires b != []
    ensures 1 <= k <= 4 && k <= |b|
  {
    if |b| < 2 || b[1] != b[0] then 1
    else if |b| < 3 || b[2] != b[0] then 2
    else if |b| < 4 || b[3] != b[0] then 3
    else 4
  }

  /** What a run-length coded block stands for.  Four equal bytes at the very end lack
      their count: such a block stands for nothing. */
  function Decode(b: seq<Byte>): Option<seq<Byte>>
    decreases |b|
  {
    if b == [] then Some([])
    else
      var k := LeadRun(b);
      if k < 4 then Prepend(Repeat(b[0], k), Decode(b[k..]))
      else if |b| < 5 then None
      else Prepend(Repeat(b[0], 4 + b[4] as int), Decode(b[5..]))
  }

  function Prepend(p: seq<Byte>, r: Option<seq<Byte>>): Option<seq<Byte>> {
    match r
    case None => None
    case Some(x) => Some(p + x)
  }

  // ---------- coding ----------

  datatype Run = Run(ch: Byte, len: nat) {
    ghost predicate Valid() { 1 <= len <= MAX_RUN }

    /** The bytes a run is coded as. */
    function Code(): seq<Byte>
      requires Valid()
    {
      if len < 4 then Repeat(ch, len) else Repeat(ch, 4) + [(len - 4) as Byte]
    }
  }

  /** Runs as the encoder forms them: a run ends where the byte changes or at 255. */
  ghost predicate Separated(runs: seq<Run>) {
    && (forall i :: 0 <= i < |runs| ==> runs[i].Valid())
    && forall i :: 0 < i < |runs| ==> runs[i - 1].ch != runs[i].ch || runs[i - 1].len == MAX_RUN
  }

  /** The bytes of all runs, written out. */
  ghost function Flatten(runs: seq<Run>): seq<Byte> {
    if runs == [] then [] else Repeat(runs[0].ch, runs[0].len) + Flatten(runs[1..])
  }

  /** The coded bytes of all runs. */
  ghost function Encode(runs: seq<Run>): seq<Byte>
    requires forall i :: 0 <= i < |runs| ==> runs[i].Valid()
  {
    if runs == [] then [] else runs[0].Code() + Encode(runs[1..])
  }

  lemma {:induction false} FlattenAppend(runs: seq<Run>, r: Run)
    ensures Flatten(runs + [r]) == Flatten(runs) + Repeat(r.ch, r.len)
  {
    if runs == [] {
      assert Flatten([r][1..]) == [];
    } else {
      FlattenAppend(runs[1..], r);
      assert (runs + [r])[1..] == runs[1..] + [r];
    }
  }

  lemma {:induction false} EncodeAppend(runs: seq<Run>, r: Run)
    requires r.Valid() && forall i :: 0 <= i < |runs| ==> runs[i].Valid()
    ensures Encode(runs + [r]) == Encode(runs) + r.Code()
  {
    if runs == [] {
      assert Encode([r][1..]) == [];
    } else {
      EncodeAppend(runs[1..], r);
      assert (runs + [r])[1..] == runs[1..] + [r];
    }
  }

  /** The decoder recognises a short run if a different byte, or nothing, follows. */
  lemma DecodeShortRun(c: Byte, k: nat, rest: seq<Byte>)
    requires 1 <= k < 4 && (rest != [] ==> rest[0] != c)
    ensures Decode(Repeat(c, k) + rest) == Prepend(Repeat(c, k), Decode(rest))
  {
    var b := Repeat(c, k) + rest;
    assert LeadRun(b) == k by {
      if rest == [] { assert |b| == k; } else { assert b[k] == rest[0]; }
      assert forall i :: 0 <= i < k ==> b[i] == c;
    }
    assert b[k..] == rest && b[0] == c;
  }

  /** ... and a long one whatever follows its count. */
  lemma DecodeLongRun(c: Byte, n: Byte, rest: seq<Byte>)
    ensures Decode(Repeat(c, 4) + [n] + rest) == Prepend(Repeat(c, 4 + n as int), Decode(rest))
  {
    var b := Repeat(c, 4) + [n] + rest;
    assert b[0] == b[1] == b[2] == b[3] == c;
    assert b[4] == n && b[5..] == rest;
  }

  /** Round trip of the run-length stage. */
  lemma {:induction false} DecodeEncode(runs: seq<Run>)
    requires Separated(runs)
    ensures Decode(Encode(runs)) == Some(Flatten(runs))
  {
    if runs != [] {
      var r, rest := runs[0], runs[1..];
      assert Separated(rest) by {
        assert forall i :: 0 <= i < |rest| ==> rest[i] == runs[i + 1];
      }
      DecodeEncode(rest);
      if r.len < 4 {
        if rest != [] {
          assert rest[0] == runs[1];
          assert Encode(rest)[0] == rest[0].ch;
        }
        DecodeShortRun(r.ch, r.len, Encode(rest));
      } else {
        DecodeLongRun(r.ch, (r.len - 4) as Byte, Encode(rest));
      }
    }
  }
}
