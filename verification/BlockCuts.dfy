/** Where one block ends and the next begins: a block is ended as soon as its run-length code
    has reached the limit, or by a flush or finish. */
module BlockCuts {
  import opened Common
  import opened RunLength
  import opened StreamFormat

  /** The runs of a block and why it was ended: it had become full; a flush or finish came
      before it was full; or the last byte of a flush or finish was the one that filled it, in
      which case that byte, a run of its own, still joins the block. */
  datatype Cut = Full(runs: seq<Run>) | Early(runs: seq<Run>) | Late(runs: seq<Run>) {
    ghost predicate Fits(limit: int) {
      var n := |runs|;
      Separated(runs) &&
      match this
      case Full(_) => n > 0 && |Encode(runs[..n - 1])| < limit <= |Encode(runs)|
      case Early(_) => n == 0 || |Encode(runs[..n - 1])| < limit
      case Late(_) =>
        n > 1 && runs[n - 1].len == 1 && |Encode(runs[..n - 2])| < limit <= |Encode(runs[..n - 1])|
    }
  }

  /** A run of byte ch may come after these, or there is nothing to come after them. */
  ghost predicate Apart(runs: seq<Run>, ch: int) {
    runs == [] || runs[|runs| - 1].ch != ch || runs[|runs| - 1].len == MAX_RUN
  }

  /** What goes on with byte ch goes on after the last of the cuts; a full block is always
      followed by something. */
  ghost predicate Open(cuts: seq<Cut>, ch: int) {
    cuts != [] && cuts[|cuts| - 1].Full? ==> ch != 256 && Apart(cuts[|cuts| - 1].runs, ch)
  }

  ghost function FirstCh(runs: seq<Run>): int {
    if runs == [] then 256 else runs[0].ch
  }

  /** Each block holds the code of its runs and was ended for the reason given; full blocks go
      on in the next one. */
  ghost predicate AllCut(blocks: seq<Block>, cuts: seq<Cut>, limit: int) {
    && |cuts| == |blocks|
    && (forall i :: 0 <= i < |cuts| ==> cuts[i].Fits(limit) && blocks[i].data == Encode(cuts[i].runs))
    && forall i :: 0 <= i < |cuts| ==> Open(cuts[..i], FirstCh(cuts[i].runs))
  }

  lemma AppendCut(blocks: seq<Block>, cuts: seq<Cut>, b: Block, c: Cut, limit: int)
    requires AllCut(blocks, cuts, limit) && Open(cuts, FirstCh(c.runs))
    requires c.Fits(limit) && b.data == Encode(c.runs)
    ensures AllCut(blocks + [b], cuts + [c], limit)
  {
    hide Encode, Open;
    var all := cuts + [c];
    forall i | 0 <= i < |all| ensures Open(all[..i], FirstCh(all[i].runs)) {
      assert all[..i] == cuts[..i];
      assert i == |cuts| ==> cuts[..i] == cuts;
    }
    forall i | 0 <= i < |all|
      ensures all[i].Fits(limit) && (blocks + [b])[i].data == Encode(all[i].runs)
    {
    }
  }

  /** Cuts made since: only the last one may be of a block that is not full, and only if
      everything has been taken; the last byte counts only if some byte was taken. */
  ghost predicate NewCuts(before: seq<Cut>, cuts: seq<Cut>, done: bool, took: bool) {
    && before <= cuts
    && forall k :: |before| <= k < |cuts| && !cuts[k].Full? ==>
         k == |cuts| - 1 && done && (cuts[k].Late? ==> took)
  }

  lemma NoNewCuts(cuts: seq<Cut>)
    ensures forall done, took :: NewCuts(cuts, cuts, done, took)
  {
  }

  lemma MoreCuts(a: seq<Cut>, b: seq<Cut>, c: seq<Cut>, was: bool, done: bool, took: bool, more: bool)
    requires NewCuts(a, b, was, took) && NewCuts(b, c, done, more)
    requires was ==> b == c && done
    ensures NewCuts(a, c, done, took || more)
  {
  }

  lemma CutsSince(a: seq<Cut>, b: seq<Cut>, c: seq<Cut>, was: bool, closes: bool, done: bool, took: bool, more: bool)
    requires NewCuts(a, b, was, took) && NewCuts(b, c, closes, more) && (closes ==> done) && (was ==> b == c && done)
    ensures NewCuts(a, c, done, took || more)
  {
  }

  /** Before anything may end a block early, whether bytes were taken does not matter. */
  lemma FullCuts(a: seq<Cut>, b: seq<Cut>, took: bool)
    requires NewCuts(a, b, false, took)
    ensures NewCuts(a, b, false, false)
  {
  }

  // ---------- how a text is divided ----------

  ghost function Together(groups: seq<seq<Run>>): seq<Run> {
    if groups == [] then [] else groups[0] + Together(groups[1..])
  }

  /** Every block but the last ends with the run that fills it, and the last one does not go
      on past that. */
  ghost predicate Divided(groups: seq<seq<Run>>, limit: int) {
    && groups != []
    && (forall i :: 0 <= i < |groups| - 1 ==> Full(groups[i]).Fits(limit))
    && (forall i :: 0 < i < |groups| ==> groups[i] != [])
    && Early(groups[|groups| - 1]).Fits(limit)
  }

  /** The blocks are the division of all these bytes: they hold the code of its runs. */
  ghost predicate DividedInto(blocks: seq<Block>, all: seq<Byte>, limit: int) {
    exists groups :: Divides(groups, blocks, all, limit)
  }

  ghost predicate Divides(groups: seq<seq<Run>>, blocks: seq<Block>, all: seq<Byte>, limit: int) {
    && Divided(groups, limit) && |groups| == |blocks|
    && Separated(Together(groups)) && Flatten(Together(groups)) == all
    && forall i :: 0 <= i < |groups| ==>
         (forall k :: 0 <= k < |groups[i]| ==> groups[i][k].Valid()) && blocks[i].data == Encode(groups[i])
  }

  /** The bytes alone decide how many blocks there are and what each one holds. */
  lemma SameBlocks(a: seq<Block>, b: seq<Block>, all: seq<Byte>, limit: int)
    requires DividedInto(a, all, limit) && DividedInto(b, all, limit)
    ensures |a| == |b| && forall i :: 0 <= i < |a| ==> a[i].data == b[i].data
  {
    hide Divided, Separated, Flatten, Encode, Together;
    var x :| Divides(x, a, all, limit);
    var y :| Divides(y, b, all, limit);
    OneWayToRun(Together(x), Together(y));
    OneDivision(x, y, limit);
  }

  /** ... the number of them follows from the length of the run-length code. */
  lemma BlockCount(blocks: seq<Block>, all: seq<Byte>, limit: int) returns (runs: seq<Run>)
    requires DividedInto(blocks, all, limit) && limit > 0
    ensures Separated(runs) && Flatten(runs) == all
    ensures (|blocks| - 1) * limit <= |Encode(runs)| <= |blocks| * (limit + 4)
  {
    hide Divided, Separated, Flatten, Encode, Together;
    var groups :| Divides(groups, blocks, all, limit);
    runs := Together(groups);
    HowMany(groups, limit);
  }

  lemma {:induction false} EncodeConcat(a: seq<Run>, b: seq<Run>)
    requires Separated(a) && Separated(b)
    ensures (forall i :: 0 <= i < |a + b| ==> (a + b)[i].Valid()) && Encode(a + b) == Encode(a) + Encode(b)
  {
    AllValid(a, b);
    if a == [] {
      assert a + b == b;
    } else {
      hide Run.Code, Separated;
      RestSeparated(a);
      EncodeConcat(a[1..], b);
      assert (a + b)[1..] == a[1..] + b && (a + b)[0] == a[0];
      Associate(a[0].Code(), Encode(a[1..]), Encode(b));
    }
  }

  lemma AllValid(a: seq<Run>, b: seq<Run>)
    requires Separated(a) && Separated(b)
    ensures forall i :: 0 <= i < |a + b| ==> (a + b)[i].Valid()
    ensures (forall i :: 0 <= i < |a| ==> a[i].Valid()) && forall i :: 0 <= i < |b| ==> b[i].Valid()
  {
  }

  lemma RestSeparated(a: seq<Run>)
    requires Separated(a) && a != []
    ensures Separated(a[1..])
  {
    assert a[1..] == a[1..|a|];
    SeparatedPart(a, 1, |a|);
  }

  lemma SeparatedPart(runs: seq<Run>, i: nat, j: nat)
    requires Separated(runs) && i <= j <= |runs|
    ensures Separated(runs[i..j])
  {
    var part := runs[i..j];
    assert forall k :: 0 <= k < |part| ==> part[k] == runs[i + k];
    forall k | 0 < k < |part| ensures part[k - 1].ch != part[k].ch || part[k - 1].len == MAX_RUN {
      assert runs[i + k - 1].ch != runs[i + k].ch || runs[i + k - 1].len == MAX_RUN;
    }
  }

  lemma EncodeGrows(runs: seq<Run>, i: nat, j: nat)
    requires Separated(runs) && i <= j <= |runs|
    ensures Separated(runs[..i]) && Separated(runs[..j]) && |Encode(runs[..i])| <= |Encode(runs[..j])|
  {
    SeparatedPart(runs, 0, i);
    SeparatedPart(runs, 0, j);
    SeparatedPart(runs, i, j);
    EncodeConcat(runs[..i], runs[i..j]);
    assert runs[..i] + runs[i..j] == runs[..j];
  }

  /** The first block of a division of the runs ends at one place only. */
  lemma OneFirst(runs: seq<Run>, i: nat, j: nat, limit: int)
    requires Separated(runs) && 0 < i <= |runs| && 0 < j <= |runs|
    requires i < |runs| ==> Full(runs[..i]).Fits(limit)
    requires i == |runs| ==> Full(runs[..i]).Fits(limit) || Early(runs[..i]).Fits(limit)
    requires j < |runs| ==> Full(runs[..j]).Fits(limit)
    requires j == |runs| ==> Full(runs[..j]).Fits(limit) || Early(runs[..j]).Fits(limit)
    ensures i == j
  {
    assert runs[..i][..i - 1] == runs[..i - 1] && runs[..j][..j - 1] == runs[..j - 1];
    hide Encode;
    if i < j { EncodeGrows(runs, i, j - 1); }
    if j < i { EncodeGrows(runs, j, i - 1); }
  }

  /** There is one way only to divide some runs. */
  lemma {:induction false} OneDivision(a: seq<seq<Run>>, b: seq<seq<Run>>, limit: int)
    requires Divided(a, limit) && Divided(b, limit) && Together(a) == Together(b) && Separated(Together(a))
    ensures a == b
  {
    hide Cut.Fits, Separated, Encode, Together, Divided;
    var runs := Together(a);
    DividedSome(a, limit);
    DividedSome(b, limit);
    FirstBlock(a, limit);
    FirstBlock(b, limit);
    if runs != [] {
      OneFirst(runs, |a[0]|, |b[0]|, limit);
      if |a| > 1 {
        RestDivided(a, limit);
        RestDivided(b, limit);
        SeparatedPart(runs, |a[0]|, |runs|);
        assert runs[|a[0]|..] == runs[|a[0]|..|runs|];
        OneDivision(a[1..], b[1..], limit);
      }
    }
    assert a == [a[0]] + a[1..] && b == [b[0]] + b[1..];
  }

  lemma DividedSome(a: seq<seq<Run>>, limit: int)
    requires Divided(a, limit)
    ensures a != []
  {
  }

  lemma RestDivided(a: seq<seq<Run>>, limit: int)
    requires Divided(a, limit) && |a| > 1
    ensures Divided(a[1..], limit)
  {
    hide Cut.Fits;
    var rest := a[1..];
    forall i | 0 <= i < |rest| - 1 ensures Full(rest[i]).Fits(limit) { assert Full(a[i + 1]).Fits(limit); }
    assert rest[|rest| - 1] == a[|a| - 1];
  }

  lemma FirstBlock(a: seq<seq<Run>>, limit: int)
    requires Divided(a, limit)
    ensures var runs, n := Together(a), |a[0]|;
            n <= |runs| && a[0] == runs[..n] && Together(a[1..]) == runs[n..] && (n == |runs| <==> |a| == 1)
    ensures |a| > 1 ==> Full(a[0]).Fits(limit) && a[0] != []
    ensures |a| == 1 ==> Early(a[0]).Fits(limit) && Together(a) == a[0]
  {
    if |a| == 1 {
      assert Together(a[1..]) == [];
    } else {
      assert Together(a[1..]) == a[1] + Together(a[1..][1..]);
    }
  }

  /** The runs of a text are those the encoder forms, whatever the calls. */
  lemma {:induction false} OneWayToRun(a: seq<Run>, b: seq<Run>)
    requires Separated(a) && Separated(b) && Flatten(a) == Flatten(b)
    ensures a == b
  {
    assert Flatten([]) == [];
    hide Separated, Flatten;
    if a != [] { LeadingRun(a); }
    if b != [] { LeadingRun(b); }
    if a != [] && b != [] {
      ghost var text, m, n := Flatten(a), a[0].len, b[0].len;
      assert text[0] == a[0].ch == b[0].ch;
      var afterM, afterN := if m < |text| then text[m] else 0, if n < |text| then text[n] else 0;
      assert m == n;
      SeparatedPart(a, 1, |a|);
      SeparatedPart(b, 1, |b|);
      assert a[1..] == a[1..|a|] && b[1..] == b[1..|b|];
      OneWayToRun(a[1..], b[1..]);
      assert a == [a[0]] + a[1..] && b == [b[0]] + b[1..];
    }
  }

  /** The first run is as long as there are equal bytes, up to its greatest length. */
  lemma LeadingRun(runs: seq<Run>)
    requires Separated(runs) && runs != []
    ensures var text, n := Flatten(runs), runs[0].len;
            && 1 <= n <= |text| && n <= MAX_RUN && (forall k :: 0 <= k < n ==> text[k] == runs[0].ch)
            && (n < MAX_RUN && n < |text| ==> text[n] != runs[0].ch) && text[n..] == Flatten(runs[1..])
  {
    assert runs[0].Valid();
    if |runs| > 1 {
      assert runs[0].ch != runs[1].ch || runs[0].len == MAX_RUN;
      assert Flatten(runs[1..])[0] == runs[1].ch;
    }
  }

  /** How many blocks there are: each but the last has limit bytes or up to four more. */
  lemma {:induction false} HowMany(groups: seq<seq<Run>>, limit: int)
    requires Divided(groups, limit) && Separated(Together(groups)) && limit > 0
    ensures (|groups| - 1) * limit <= |Encode(Together(groups))| <= |groups| * (limit + 4)
  {
    hide Encode, Separated, Cut.Fits, Together, Divided;
    DividedSome(groups, limit);
    FirstBlock(groups, limit);
    LengthBounds(groups[0], limit);
    if |groups| > 1 {
      var runs, n := Together(groups), |groups[0]|;
      RestDivided(groups, limit);
      SeparatedPart(runs, n, |runs|);
      assert runs == groups[0] + runs[n..] && runs[n..] == runs[n..|runs|];
      EncodeConcat(groups[0], runs[n..]);
      HowMany(groups[1..], limit);
      Blocks(|groups| - 1, limit);
    }
  }

  lemma Blocks(n: nat, limit: int)
    ensures (n - 1) * limit + limit == n * limit && n * (limit + 4) + (limit + 4) == (n + 1) * (limit + 4)
  {
  }

  lemma LengthBounds(runs: seq<Run>, limit: int)
    requires limit > 0 && (Full(runs).Fits(limit) || Early(runs).Fits(limit))
    ensures Separated(runs) && |Encode(runs)| <= limit + 4 && (Full(runs).Fits(limit) ==> limit <= |Encode(runs)|)
  {
    if runs != [] {
      hide Encode;
      var n := |runs| - 1;
      SeparatedPart(runs, 0, n);
      EncodeAppend(runs[..n], runs[n]);
      assert runs == runs[..n] + [runs[n]];
    } else {
      assert Encode(runs) == [];
    }
  }

  // ---------- from cuts to a division ----------

  ghost function Groups(cuts: seq<Cut>): (g: seq<seq<Run>>)
    ensures |g| == |cuts| && forall i :: 0 <= i < |g| ==> g[i] == cuts[i].runs
  {
    seq(|cuts|, i requires 0 <= i < |cuts| => cuts[i].runs)
  }

  lemma GroupsAppend(cuts: seq<Cut>)
    requires cuts != []
    ensures Groups(cuts) == Groups(cuts[..|cuts| - 1]) + [cuts[|cuts| - 1].runs]
  {
  }

  lemma {:induction false} TogetherAppend(groups: seq<seq<Run>>, g: seq<Run>)
    ensures Together(groups + [g]) == Together(groups) + g
  {
    if groups == [] {
      assert Together([g][1..]) == [];
    } else {
      TogetherAppend(groups[1..], g);
      assert (groups + [g])[1..] == groups[1..] + [g];
    }
  }

  lemma {:induction false} FlattenConcat(a: seq<Run>, b: seq<Run>)
    ensures Flatten(a + b) == Flatten(a) + Flatten(b)
  {
    if a == [] {
      assert a + b == b;
    } else {
      FlattenConcat(a[1..], b);
      assert (a + b)[1..] == a[1..] + b && (a + b)[0] == a[0];
      Associate(Repeat(a[0].ch, a[0].len), Flatten(a[1..]), Flatten(b));
    }
  }

  lemma JoinSeparated(a: seq<Run>, b: seq<Run>)
    requires Separated(a) && Separated(b) && (b != [] ==> Apart(a, b[0].ch))
    ensures Separated(a + b)
  {
    var both := a + b;
    forall i | 0 < i < |both| ensures both[i - 1].ch != both[i].ch || both[i - 1].len == MAX_RUN {
      if i < |a| {
        assert a[i - 1].ch != a[i].ch || a[i - 1].len == MAX_RUN;
      } else if i > |a| {
        assert b[i - |a| - 1].ch != b[i - |a|].ch || b[i - |a| - 1].len == MAX_RUN;
      }
    }
  }

  /** Each group goes on after the one before. */
  ghost predicate Chained(groups: seq<seq<Run>>) {
    && (forall i :: 0 <= i < |groups| ==> Separated(groups[i]))
    && forall i :: 0 < i < |groups| ==> groups[i] != [] && Apart(groups[i - 1], groups[i][0].ch)
  }

  lemma {:induction false} ChainTogether(groups: seq<seq<Run>>)
    requires Chained(groups)
    ensures Separated(Together(groups))
  {
    if groups != [] {
      hide Separated, Apart;
      var rest: seq<seq<Run>> := groups[1..];
      forall i: int | 0 < i < |rest| ensures rest[i] != [] && Apart(rest[i - 1], rest[i][0].ch) {
        assert groups[i + 1] != [] && Apart(groups[i], groups[i + 1][0].ch);
      }
      ChainTogether(rest);
      if rest != [] { assert Together(rest) == rest[0] + Together(rest[1..]); }
      JoinSeparated(groups[0], Together(rest));
    }
  }

  lemma CutsBefore(blocks: seq<Block>, cuts: seq<Cut>, limit: int)
    requires AllCut(blocks, cuts, limit) && cuts != []
    ensures AllCut(blocks[..|cuts| - 1], cuts[..|cuts| - 1], limit)
  {
    hide Cut.Fits, Open;
    var n := |cuts| - 1;
    forall i | 0 <= i < n ensures Open(cuts[..n][..i], FirstCh(cuts[..n][i].runs)) {
      assert cuts[..n][..i] == cuts[..i];
    }
  }

  lemma CutFacts(blocks: seq<Block>, cuts: seq<Cut>, limit: int)
    requires AllCut(blocks, cuts, limit) && cuts != []
    ensures var n := |cuts| - 1;
            |blocks| == |cuts| && Separated(cuts[n].runs) && blocks[n].data == Encode(cuts[n].runs)
  {
    hide Encode, Open;
    assert cuts[|cuts| - 1].Fits(limit);
  }

  lemma CutsChained(blocks: seq<Block>, cuts: seq<Cut>, limit: int)
    requires AllCut(blocks, cuts, limit) && forall i :: 0 <= i < |cuts| - 1 ==> cuts[i].Full?
    ensures Chained(Groups(cuts))
  {
    hide Encode, Separated, Apart;
    forall i | 0 <= i < |cuts| ensures Separated(cuts[i].runs) { assert cuts[i].Fits(limit); }
    forall i | 0 < i < |cuts| ensures cuts[i].runs != [] && Apart(cuts[i - 1].runs, cuts[i].runs[0].ch) {
      assert Open(cuts[..i], FirstCh(cuts[i].runs));
      assert cuts[..i][|cuts[..i]| - 1] == cuts[i - 1];
    }
  }

  /** If only the last block was ended before it was full, the blocks are the division of what
      they stand for. */
  lemma CutsDivide(blocks: seq<Block>, cuts: seq<Cut>, limit: int)
    requires AllCut(blocks, cuts, limit) && cuts != []
    requires cuts[|cuts| - 1].Early? && forall i :: 0 <= i < |cuts| - 1 ==> cuts[i].Full?
    ensures Divides(Groups(cuts), blocks, Flatten(Together(Groups(cuts))), limit)
  {
    hide Encode, Together, Flatten, Separated, Open;
    CutsChained(blocks, cuts, limit);
    ChainTogether(Groups(cuts));
    forall i | 0 <= i < |cuts|
      ensures cuts[i].Fits(limit) && cuts[i] == (if i < |cuts| - 1 then Full(cuts[i].runs) else Early(cuts[i].runs))
    {
    }
    CutsValid(blocks, cuts, limit);
  }

  lemma CutsValid(blocks: seq<Block>, cuts: seq<Cut>, limit: int)
    requires AllCut(blocks, cuts, limit)
    ensures forall i :: 0 <= i < |cuts| ==>
              (forall k :: 0 <= k < |cuts[i].runs| ==> cuts[i].runs[k].Valid()) &&
              blocks[i].data == Encode(cuts[i].runs)
  {
    forall i | 0 <= i < |cuts|
      ensures (forall k :: 0 <= k < |cuts[i].runs| ==> cuts[i].runs[k].Valid()) &&
              blocks[i].data == Encode(cuts[i].runs)
    {
      assert cuts[i].Fits(limit);
    }
  }
}
