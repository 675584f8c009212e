/** Whole files: the loops that write one, and what comes back from it. */
module FileStream {
  import opened Common
  import opened OutputForms
  import opened CompressStream
  import opened CanonicalCode
  import opened BitStream
  import opened StreamFormat
  import opened BlockCuts
  import opened RunLength
  import StreamDecode

  // ---------- writing a file ----------

  /** BZ2_bzWrite: the bytes of buf are taken and no call is refused, whatever output space
      each call has.  (The source always gives it 5000 bytes.) */
  method Write(e: Encoder, buf: seq<Byte>) returns (out: seq<Byte>)
    requires e.Valid() && e.Awaited() && e.mode == Running
    modifies e, e.block, e.inUse
    ensures e.Valid() && e.Awaited() && e.mode == Running
    ensures e.consumed == old(e.consumed) + buf && e.emitted == old(e.emitted) + out
    ensures NewCuts(old(e.cuts), e.cuts, false, false)
  {
    hide Encoder.Valid, Encoder.Nearer, Encoder.CaughtUp, Ended, NewCuts;
    NoNewCuts(e.cuts);
    var rest := buf;
    out := [];
    assert e.emitted + [] == e.emitted;
    while rest != []
      invariant e.Valid() && e.Awaited() && e.mode == Running
      invariant e.consumed + rest == old(e.consumed) + buf && e.emitted == old(e.emitted) + out
      invariant NewCuts(old(e.cuts), e.cuts, false, false)
      decreases |rest|, e.Waiting()
    {
      ghost var soFar, offered := e.cuts, |rest|;
      var room: nat, chunk := *, [];
      WaitingBounds(e);
      var status;
      status, rest, chunk := e.Compress(Action.Run, rest, room + 1);
      MoreCuts(old(e.cuts), soFar, e.cuts, false, false, false, |rest| < offered);
      FullCuts(old(e.cuts), e.cuts, false || |rest| < offered);
      Associate(old(e.emitted), out, chunk);
      out := out + chunk;
    }
    assert e.consumed + [] == e.consumed;
  }

  lemma WaitingBounds(e: Encoder)
    requires e.Valid()
    ensures e.Waiting() >= 0
  {
  }

  /** The loop of BZ2_bzWriteClose64: with any space in each call, the stream comes to its end.
      There may still be input. */
  method WriteClose(e: Encoder, last: seq<Byte>) returns (out: seq<Byte>)
    requires e.Valid() && e.Awaited() && e.mode == Running
    modifies e, e.block, e.inUse
    ensures e.Valid() && e.CaughtUp() && Ended(e.blocks)
    ensures e.consumed == old(e.consumed) + last && e.emitted == old(e.emitted) + out
    ensures NewCuts(old(e.cuts), e.cuts, true, last != [])
  {
    hide Encoder.Valid, Encoder.CaughtUp, Ended, NewCuts;
    NoNewCuts(e.cuts);
    var rest, status := last, FinishOk;
    out := [];
    assert e.emitted + [] == e.emitted;
    while status != StreamEnd
      invariant e.Valid() && e.Awaited() && status in {FinishOk, StreamEnd}
      invariant status == FinishOk ==> e.Finishable(Action.Finish, |rest|)
      invariant status == StreamEnd ==> rest == [] && e.CaughtUp() && Ended(e.blocks)
      invariant e.consumed + rest == old(e.consumed) + last && e.emitted == old(e.emitted) + out
      invariant |rest| <= |last| && NewCuts(old(e.cuts), e.cuts, Ended(e.blocks), |rest| < |last|)
      decreases status == FinishOk, |rest|, !Ended(e.blocks), e.Waiting()
    {
      ghost var soFar, before, ended := e.cuts, |rest|, Ended(e.blocks);
      var room: nat, chunk := *, [];
      WaitingBounds(e);
      status, rest, chunk := e.Compress(Action.Finish, rest, room + 1);
      CutsSince(old(e.cuts), soFar, e.cuts, ended, e.Closes(Action.Finish, rest), Ended(e.blocks), before < |last|,
                |rest| < before);
      Associate(old(e.emitted), out, chunk);
      out := out + chunk;
    }
    assert e.consumed + [] == e.consumed;
  }

  // ---------- and back ----------

  /** The bytes of a stream whose blocks hold the given bytes and checksums. */
  ghost predicate Spells(file: seq<Byte>, level: int, all: seq<Byte>, blocks: seq<Block>) {
    && 1 <= level <= 9 && Sound(blocks, 100000 * level) && Ended(blocks) && Contents(blocks) == Some(all)
    && AllCoded(blocks)
    && exists pad: nat :: pad < 8 && BytesBits(file) == StreamBits(level, blocks) + Bits(0, pad)
  }

  ghost predicate IsFile(file: seq<Byte>, level: int, all: seq<Byte>) {
    exists blocks :: Spells(file, level, all, blocks)
  }

  /** ... and whose blocks are the division of those bytes: each but the last was ended by the
      run with which its code reached the limit. */
  ghost predicate IsWritten(file: seq<Byte>, level: int, all: seq<Byte>) {
    exists blocks :: Spells(file, level, all, blocks) && DividedInto(blocks, all, 100000 * level - 19)
  }

  lemma TheFile(e: Encoder)
    requires e.Valid() && e.CaughtUp() && Ended(e.blocks)
    ensures Spells(e.emitted, e.blockSize100k, e.consumed, e.blocks)
  {
    hide Encoder.Valid, Encoder.CaughtUp, Ended, Sound, Contents, AllCoded, StreamBits, BytesBits, Bits;
    var pad := e.Complete();
    assert Bits(0, pad) == Bits(0, pad);
  }

  lemma {:induction false} ContentsAre(blocks: seq<Block>, cuts: seq<Cut>, limit: int)
    requires AllCut(blocks, cuts, limit)
    ensures Contents(blocks) == Some(Flatten(Together(Groups(cuts))))
  {
    if cuts != [] {
      hide Cut.Fits, Encode, Together, Decode, Flatten, Separated, AllCut, Groups;
      var n := |cuts| - 1;
      CutsBefore(blocks, cuts, limit);
      ContentsAre(blocks[..n], cuts[..n], limit);
      GroupsAppend(cuts);
      TogetherAppend(Groups(cuts[..n]), cuts[n].runs);
      CutFacts(blocks, cuts, limit);
      DecodeEncode(cuts[n].runs);
      FlattenConcat(Together(Groups(cuts[..n])), cuts[n].runs);
    } else {
      assert Groups(cuts) == [];
    }
  }

  /** A stream written without flushes, and finished once all input had been taken, has the
      blocks into which its input divides. */
  lemma TheBlocks(e: Encoder)
    requires e.Valid() && e.CaughtUp() && Ended(e.blocks) && NewCuts([], e.cuts, true, false)
    ensures DividedInto(e.blocks, e.consumed, 100000 * e.blockSize100k - 19)
  {
    hide Contents, Together, Flatten, Written;
    hide Encoder.BitsKept, Encoder.Conserving, Encoder.Filling, AllCut, Separated;
    OnlyTheLast(e);
    ContentsAre(e.blocks, e.cuts, e.nblockMax);
    CutsDivide(e.blocks, e.cuts, e.nblockMax);
  }

  lemma OnlyTheLast(e: Encoder)
    requires e.Valid() && Ended(e.blocks) && NewCuts([], e.cuts, true, false)
    ensures e.cuts != [] && e.cuts[|e.cuts| - 1].Early? && forall i :: 0 <= i < |e.cuts| - 1 ==> e.cuts[i].Full?
  {
    hide Encoder.BitsKept, Encoder.Conserving, Encoder.Filling, Cut.Fits, Encode;
  }

  /** A file of some bytes that come in pieces. */
  method WriteFile(level: int, pieces: seq<seq<Byte>>) returns (file: seq<Byte>, e: Encoder)
    requires 1 <= level <= 9
    ensures fresh(e) && e.Valid() && e.CaughtUp() && Ended(e.blocks) && e.emitted == file &&
            e.consumed == Joined(pieces)
    ensures IsWritten(file, level, Joined(pieces))
  {
    hide Encoder.Valid, Encoder.CaughtUp, Ended, Joined, Spells, NewCuts, DividedInto;
    e := new Encoder(level);
    file := [];
    NoNewCuts([]);
    assert Joined<Byte>([]) == [] by { NothingJoined(); }
    assert pieces[..0] == [];
    for k := 0 to |pieces|
      invariant e.Valid() && e.Awaited() && e.mode == Running && fresh(e) && fresh(e.block) && fresh(e.inUse) &&
                e.blockSize100k == level
      invariant e.consumed == Joined(pieces[..k]) && e.emitted == file
      invariant NewCuts([], e.cuts, false, false)
    {
      ghost var soFar := e.cuts;
      ghost var later := JoinedPast(pieces, k);
      var out := Write(e, pieces[k]);
      MoreCuts([], soFar, e.cuts, false, false, false, false);
      file := file + out;
    }
    assert pieces[..|pieces|] == pieces;
    ghost var soFar := e.cuts;
    var out := WriteClose(e, []);
    MoreCuts([], soFar, e.cuts, false, true, false, false);
    file := file + out;
    assert Joined(pieces) + [] == Joined(pieces);
    TheFile(e);
    TheBlocks(e);
  }

  /** A whole file there and back.  However the bytes to compress are divided into pieces, and
      whatever output space the compressor and the decompressor have in each call, the
      compressor finishes and its bytes give the original bytes back, as many as fit, and the
      end of the stream just when all have been given. */
  method ThereAndBack(level: int, pieces: seq<seq<Byte>>, spaces: seq<nat>)
    returns (file: seq<Byte>, bytes: seq<Byte>, ended: bool)
    requires 1 <= level <= 9
    ensures var all := Joined(pieces);
            && IsWritten(file, level, all)
            && bytes == all[..Min(Space(spaces, |spaces|), |all|)]
            && (ended <==> spaces != [] && |all| <= Space(spaces, |spaces|))
  {
    hide Encoder.Valid, Encoder.CaughtUp, Ended, Joined, IsWritten;
    var e;
    file, e := WriteFile(level, pieces);
    bytes, ended := StreamDecode.Restore(file, spaces, e);
  }

  /** The same with the compressed bytes, too, supplied in any pieces, each call with any output
      space: nothing but the original bytes comes out, and all of them by the end of the
      stream, which is reached unless input is withheld or the last call fills its space. */
  method InPieces(level: int, pieces: seq<seq<Byte>>, calls: seq<StreamDecode.Call>)
    returns (file: seq<Byte>, bytes: seq<Byte>, ended: bool, supplied: nat, full: bool)
    requires 1 <= level <= 9
    ensures IsWritten(file, level, Joined(pieces)) && supplied <= |file|
    ensures bytes <= Joined(pieces) && (ended ==> bytes == Joined(pieces))
    ensures calls != [] && !ended ==> supplied < |file| || full
  {
    hide Encoder.Valid, Encoder.CaughtUp, Ended, Joined, IsWritten;
    var e;
    file, e := WriteFile(level, pieces);
    bytes, ended, supplied, full := StreamDecode.RestoreInPieces(file, calls, e);
  }

  lemma NothingJoined()
    ensures Joined<Byte>([]) == []
  {
  }

  // ---------- any calls at all ----------

  /** One call of BZ2_bzCompress. */
  datatype Call = Call(action: Action, input: seq<Byte>, space: nat)

  /** What came of it: the status, how much input was taken, and the output. */
  datatype Answer = Answer(status: Status, taken: nat, output: seq<Byte>)

  /** A refused call takes nothing and gives nothing; a flush or finish not complete has filled
      its space; only a finish ends the stream. */
  predicate Fits(call: Call, answer: Answer) {
    && answer.taken <= |call.input| && |answer.output| <= call.space
    && (answer.status in {FlushOk, FinishOk} ==> |answer.output| == call.space)
    && (answer.status in {SequenceError, ParamError} ==> answer.taken == 0 && answer.output == [])
    && (answer.status == StreamEnd ==> call.action == Action.Finish && answer.taken == |call.input|)
  }

  /** Answers to the first of some calls. */
  ghost predicate Answered(calls: seq<Call>, answers: seq<Answer>) {
    |answers| <= |calls| && forall k :: 0 <= k < |answers| ==> Fits(calls[k], answers[k])
  }

  predicate Finished(answers: seq<Answer>) {
    answers != [] && answers[|answers| - 1].status == StreamEnd
  }

  /** The input taken by some calls. */
  ghost function TakenIn(calls: seq<Call>, answers: seq<Answer>): seq<Byte>
    requires Answered(calls, answers)
  {
    if answers == [] then []
    else
      var n := |answers| - 1;
      assert Fits(calls[n], answers[n]);
      TakenIn(calls, answers[..n]) + calls[n].input[..answers[n].taken]
  }

  /** The output of some calls. */
  function GivenOut(answers: seq<Answer>): seq<Byte> {
    if answers == [] then [] else GivenOut(answers[..|answers| - 1]) + answers[|answers| - 1].output
  }

  lemma AnswersAppend(calls: seq<Call>, answers: seq<Answer>, a: Answer)
    requires Answered(calls, answers) && |answers| < |calls| && Fits(calls[|answers|], a)
    ensures Answered(calls, answers + [a]) && GivenOut(answers + [a]) == GivenOut(answers) + a.output
    ensures TakenIn(calls, answers + [a]) == TakenIn(calls, answers) + calls[|answers|].input[..a.taken]
  {
    hide Fits;
    assert (answers + [a])[..|answers|] == answers;
  }

  lemma NoAnswers(calls: seq<Call>)
    ensures Answered(calls, []) && TakenIn(calls, []) == [] && GivenOut([]) == []
  {
  }

  /** Any calls of BZ2_bzCompress in any order, flushes and mistakes included, up to the end of
      the stream if there is one: then what was taken in comes out of what was given out. */
  method AnyCalls(level: int, calls: seq<Call>, spaces: seq<nat>)
    returns (answers: seq<Answer>, bytes: seq<Byte>, ended: bool)
    requires 1 <= level <= 9
    ensures Answered(calls, answers) && (Finished(answers) || |answers| == |calls|)
    ensures Finished(answers) ==>
              var all := TakenIn(calls, answers);
              && IsFile(GivenOut(answers), level, all)
              && bytes == all[..Min(Space(spaces, |spaces|), |all|)]
              && (ended <==> spaces != [] && |all| <= Space(spaces, |spaces|))
  {
    hide Encoder.Valid, Encoder.CaughtUp, Ended, Answered, Fits, TakenIn, GivenOut, Spells;
    var e := new Encoder(level);
    answers, bytes, ended := [], [], false;
    NoAnswers(calls);
    while |answers| < |calls| && !Finished(answers)
      invariant e.Valid() && e.Awaited() && fresh(e) && fresh(e.block) && fresh(e.inUse) && e.blockSize100k == level
      invariant Answered(calls, answers) && |answers| <= |calls|
      invariant e.consumed == TakenIn(calls, answers) && e.emitted == GivenOut(answers)
      invariant Finished(answers) ==> e.CaughtUp() && Ended(e.blocks)
      decreases |calls| - |answers|
    {
      var call := calls[|answers|];
      var a := Ask(e, call);
      AnswersAppend(calls, answers, a);
      answers := answers + [a];
    }
    if Finished(answers) {
      TheFile(e);
      bytes, ended := StreamDecode.Restore(GivenOut(answers), spaces, e);
    }
  }

  /** One of the calls. */
  method Ask(e: Encoder, call: Call) returns (a: Answer)
    requires e.Valid() && e.Awaited()
    modifies e, e.block, e.inUse
    ensures e.Valid() && e.Awaited() && Fits(call, a)
    ensures e.consumed == old(e.consumed) + call.input[..a.taken] && e.emitted == old(e.emitted) + a.output
    ensures a.status == StreamEnd ==> e.CaughtUp() && Ended(e.blocks)
  {
    hide Encoder.Valid, Encoder.CaughtUp, Ended, Encoder.Nearer;
    var status, rest, output := e.Compress(call.action, call.input, call.space);
    InputTaken(old(e.consumed), call.input, e.consumed, rest);
    a := Answer(status, |call.input| - |rest|, output);
  }

  lemma InputTaken(before: seq<Byte>, input: seq<Byte>, after: seq<Byte>, rest: seq<Byte>)
    requires after + rest == before + input && |rest| <= |input|
    ensures after == before + input[..|input| - |rest|]
  {
    assert after == (after + rest)[..|after|] == (before + input)[..|after|];
  }
}
