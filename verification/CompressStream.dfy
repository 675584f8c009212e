/** The compression stream: input bytes are gathered into runs, runs into blocks, and the
    caller may cut up input and output space over any number of calls. */
module CompressStream {
  import opened Common
  import opened RunLength
  import opened BlockCrc
  import opened CanonicalCode
  import opened BitStream
  import opened StreamFormat
  import opened BlockCuts
  import BlockCodec
  import CodingSize
  import Huffman

  datatype Mode = Idle | Running | Flushing | Finishing

  datatype State = Input | Output

  datatype Action = Run | Flush | Finish | Other

  datatype Status = RunOk | FlushOk | FinishOk | StreamEnd | SequenceError | ParamError

  /** No character is pending. */
  const NONE := 256

  // ---------- what a list of blocks stands for ----------

  /** The input behind the blocks: their run-length decoded contents, one after the other. */
  ghost function Contents(blocks: seq<Block>): Option<seq<Byte>> {
    if blocks == [] then Some([])
    else
      match Contents(blocks[..|blocks| - 1])
      case None => None
      case Some(before) => Prepend(before, Decode(blocks[|blocks| - 1].data))
  }

  /** All bytes written for the blocks. */
  ghost function Written(blocks: seq<Block>): seq<Byte> {
    if blocks == [] then [] else Written(blocks[..|blocks| - 1]) + blocks[|blocks| - 1].bytes
  }

  /** Each block carries the checksum of its decoded contents and the stream checksum up to
      it, has at most limit bytes, and only the last one may be marked as such. */
  ghost predicate Sound(blocks: seq<Block>, limit: int) {
    blocks == [] || (
      var before, b := blocks[..|blocks| - 1], blocks[|blocks| - 1];
      && Sound(before, limit) && |b.data| <= limit && !Ended(before)
      && b.combined == (if b.data == [] then Checksum(before) else Combine(Checksum(before), b.crc))
      && (b.data != [] ==> Decode(b.data).Some? && b.crc == Finalise(UpdateAll(INITIAL, Decode(b.data).value))))
  }

  ghost function Checksum(blocks: seq<Block>): bv32 {
    if blocks == [] then 0 else blocks[|blocks| - 1].combined
  }

  /** The end-of-stream trailer has been written. */
  ghost predicate Ended(blocks: seq<Block>) {
    blocks != [] && blocks[|blocks| - 1].last
  }

  lemma {:induction false} SoundWiden(blocks: seq<Block>, limit: int, wide: int)
    requires Sound(blocks, limit) && limit <= wide
    ensures Sound(blocks, wide)
  {
    if blocks != [] { SoundWiden(blocks[..|blocks| - 1], limit, wide); }
  }

  lemma WrittenAppend(blocks: seq<Block>, b: Block)
    ensures Written(blocks + [b]) == Written(blocks) + b.bytes
  {
    assert (blocks + [b])[..|blocks|] == blocks;
  }

  lemma AppendBlock(blocks: seq<Block>, b: Block, runs: seq<Run>, limit: int)
    requires Sound(blocks, limit) && !Ended(blocks) && Contents(blocks).Some?
    requires Separated(runs) && b.data == Encode(runs) && |b.data| <= limit
    requires b.data != [] ==> b.crc == Finalise(UpdateAll(INITIAL, Flatten(runs)))
    requires b.combined == if b.data == [] then Checksum(blocks) else Combine(Checksum(blocks), b.crc)
    ensures Sound(blocks + [b], limit) && Contents(blocks + [b]) == Some(Contents(blocks).value + Flatten(runs))
    ensures Written(blocks + [b]) == Written(blocks) + b.bytes
  {
    assert (blocks + [b])[..|blocks|] == blocks;
    DecodeEncode(runs);
  }

  // ---------- one run more ----------

  /** marks says which bytes occur. */
  ghost predicate Marked(marks: seq<bool>, bytes: seq<Byte>) {
    |marks| == 256 && forall v :: 0 <= v < 256 ==> (marks[v] <==> v in bytes)
  }

  lemma MarkRun(marks: seq<bool>, bytes: seq<Byte>, r: Run)
    requires Marked(marks, bytes) && r.Valid()
    ensures var m := marks[r.ch := true];
            Marked(if r.len < 4 then m else m[r.len - 4 := true], bytes + r.Code())
  {
    var m := marks[r.ch := true];
    forall v | 0 <= v < 256 ensures v in bytes + r.Code() <==> v in bytes || v in r.Code() {}
    assert r.ch in r.Code() by { assert r.Code()[0] == r.ch; }
    if r.len >= 4 { assert r.Code()[4] == r.len - 4; }
  }

  /** The fast track for a run of one. */
  lemma AddShort(runs: seq<Run>, bytes: seq<Byte>, marks: seq<bool>, crc: bv32, ch: Byte)
    requires Separated(runs)
    requires bytes == Encode(runs) && Marked(marks, bytes) && crc == UpdateAll(INITIAL, Flatten(runs))
    ensures Encode(runs + [Run.Run(ch, 1)]) == bytes + [ch] && Marked(marks[ch := true], bytes + [ch])
    ensures Update(crc, ch) == UpdateAll(INITIAL, Flatten(runs + [Run.Run(ch, 1)]))
  {
    hide Encode, Flatten, Update, Marked;
    var r := Run.Run(ch, 1);
    assert r.Code() == [ch];
    EncodeAppend(runs, r);
    FlattenAppend(runs, r);
    MarkRun(marks, bytes, r);
    assert Flatten(runs + [r]) == Flatten(runs) + [ch];
  }

  lemma CodeSpelled(r: Run)
    requires r.Valid()
    ensures r.Code() == if r.len == 1 then [r.ch]
            else if r.len == 2 then [r.ch, r.ch] else if r.len == 3 then [r.ch, r.ch, r.ch]
                        else [r.ch, r.ch, r.ch, r.ch, (r.len - 4) as Byte]
  {
  }

  lemma FlattenOne(r: Run)
    ensures Flatten([r]) == Repeat(r.ch, r.len)
  {
    assert Flatten([r][1..]) == [];
  }

  /** An empty block. */
  lemma NothingYet(marks: seq<bool>, pending: seq<Run>)
    requires |marks| == 256 && forall v :: 0 <= v < 256 ==> !marks[v]
    requires |pending| <= 1 && forall i :: 0 <= i < |pending| ==> pending[i].Valid()
    ensures Marked(marks, []) && Separated([]) && Separated(pending) && Encode([]) == [] &&
            UpdateAll(INITIAL, Flatten([])) == INITIAL
  {
  }

  lemma FirstRun(runs: seq<Run>, z: Byte)
    requires runs == []
    ensures Separated(runs + [Run.Run(z, 1)]) && Flatten(runs) == [] && Flatten([Run.Run(z, 1)]) == [z]
  {
    FlattenOne(Run.Run(z, 1));
  }

  /** A pending run ends where the byte changes or at its greatest length. */
  lemma CloseRun(runs: seq<Run>, p: Run, z: Byte)
    requires Separated(runs + [p]) && (p.ch != z || p.len == MAX_RUN)
    ensures Separated(runs + [p] + [Run.Run(z, 1)])
    ensures Flatten(runs + [p]) + Flatten([Run.Run(z, 1)]) == Flatten(runs) + Flatten([p]) + [z]
  {
    FlattenAppend(runs, p);
    FlattenOne(p);
    FlattenOne(Run.Run(z, 1));
  }

  lemma GrowRun(runs: seq<Run>, p: Run)
    requires Separated(runs + [p]) && p.Valid() && p.len < MAX_RUN
    ensures Separated(runs + [Run.Run(p.ch, p.len + 1)])
    ensures Flatten(runs) + Flatten([Run.Run(p.ch, p.len + 1)]) == Flatten(runs) + Flatten([p]) + [p.ch]
  {
    var q := Run.Run(p.ch, p.len + 1);
    FlattenOne(p);
    FlattenOne(q);
    var before, after := runs + [p], runs + [q];
    forall i | 0 <= i < |after| ensures after[i].Valid() { assert before[i].Valid(); }
    forall i | 0 < i < |after| ensures after[i - 1].ch != after[i].ch || after[i - 1].len == MAX_RUN {
      assert before[i - 1].ch != before[i].ch || before[i - 1].len == MAX_RUN;
    }
  }

  lemma FlushedSame(runs: seq<Run>, pending: seq<Run>)
    requires |pending| <= 1
    ensures Flatten(runs + pending) + Flatten([]) == Flatten(runs) + Flatten(pending) && runs + [] == runs
  {
    if pending != [] {
      FlattenAppend(runs, pending[0]);
      FlattenOne(pending[0]);
      assert pending == [pending[0]];
    } else {
      assert runs + pending == runs;
    }
  }

  lemma MoveOne(consumed: seq<Byte>, next: seq<Byte>, closed: seq<Byte>, held: seq<Byte>)
    requires next != [] && consumed == closed + held
    ensures consumed + [next[0]] == closed + (held + [next[0]]) && consumed + [next[0]] + next[1..] == consumed + next
  {
  }

  class Encoder {
    const blockSize100k: int
    const nblockMax: int
    const block: array<Byte>
    const inUse: array<bool>

    var mode: Mode
    var state: State
    var availInExpect: nat
    var stateInCh: int
    var stateInLen: int
    var nblock: int
    var zbits: seq<Byte>
    var numZ: int
    var stateOutPos: int
    var blockNo: int
    var blockCRC: bv32
    var combinedCRC: bv32
    var bsBuff: nat
    var bsLive: int

    /** The caller's side: input not yet taken, output given in this call, space left for more. */
    var nextIn: seq<Byte>
    var nextOut: seq<Byte>
    var availOut: nat

    /** All blocks compressed, all input bytes taken, all output bytes given, and the runs in
        the current block. */
    ghost var blocks: seq<Block>
    ghost var consumed: seq<Byte>
    ghost var emitted: seq<Byte>
    ghost var runs: seq<Run>
    /** The runs of each block and why it was ended. */
    ghost var cuts: seq<Cut>
    /** The bits still in the buffer. */
    ghost var held: seq<int>

    // ---------- the invariant ----------

    ghost predicate Shape()
      reads `stateInCh, `stateInLen, `stateOutPos, `numZ, `zbits
    {
      && 1 <= blockSize100k <= 9 && nblockMax == 100000 * blockSize100k - 19
      && block.Length == 100000 * blockSize100k && inUse.Length == 256
      && 0 <= stateInCh <= NONE && (if stateInCh == NONE then stateInLen == 0 else 1 <= stateInLen <= MAX_RUN)
      && 0 <= stateOutPos <= numZ == |zbits|
    }

    /** The run being counted, not yet in any block. */
    ghost function Pending(): (r: seq<Run>)
      requires Shape()
      reads `stateInCh, `stateInLen, `stateOutPos, `numZ, `zbits
    {
      if stateInCh == NONE then [] else [Run.Run(stateInCh, stateInLen)]
    }

    /** The input in the current block and in the pending run. */
    ghost function Held(): seq<Byte>
      requires Shape()
      reads `stateInCh, `stateInLen, `stateOutPos, `numZ, `zbits, `runs
    {
      Flatten(runs) + Flatten(Pending())
    }

    /** The current block holds the code of its runs. */
    ghost predicate Filling()
      requires Shape()
      reads `stateInCh, `stateInLen, `stateOutPos, `numZ, `zbits, `nblock, `runs, `blockCRC, block, inUse
    {
      && 0 <= nblock <= block.Length - 10 && Separated(runs + Pending()) && Separated(runs)
      && block[..nblock] == Encode(runs)
      && blockCRC == UpdateAll(INITIAL, Flatten(runs))
      && Marked(inUse[..], block[..nblock])
    }

    /** Nothing consumed is lost and nothing written is dropped: the blocks so far, the
        current block and the pending run make up the input; the output given and the output
        waiting make up what was written for the blocks. */
    ghost predicate Conserving()
      requires Shape()
      reads `stateInCh, `stateInLen, `stateOutPos, `numZ, `zbits, `blocks, `combinedCRC, `consumed, `emitted, `runs
    {
      && Sound(blocks, block.Length - 10) && Checksum(blocks) == combinedCRC && Contents(blocks).Some?
      && consumed == Contents(blocks).value + Held()
      && Written(blocks) == emitted + zbits[stateOutPos..]
    }

    /** What was written, and the bits still in the buffer, are the bits of the stream so far;
        in the end they fill whole bytes. */
    ghost predicate BitsKept()
      reads `blocks, `bsBuff, `bsLive, `held
    {
      && 1 <= blockSize100k <= 9 && AllCoded(blocks) && (blocks == [] ==> held == [])
      && if Ended(blocks) then
           held == [] && exists pad: nat ::
             pad < 8 && BytesBits(Written(blocks)) == StreamBits(blockSize100k, blocks) + Bits(0, pad)
         else
           && bsLive == |held| && HeldAtTop(bsBuff, held)
           && BytesBits(Written(blocks)) + held == StreamBits(blockSize100k, blocks)
    }

    /** Blocks are ended only where they may be, and what is held goes on after the last one. */
    ghost predicate Cutting()
      reads `blocks, `cuts, `runs, `stateInCh
    {
      AllCut(blocks, cuts, nblockMax) && Open(cuts, Ahead())
    }

    /** The byte that what is held begins with. */
    ghost function Ahead(): int
      reads `runs, `stateInCh
    {
      if runs != [] then runs[0].ch else stateInCh
    }

    ghost predicate Valid()
      reads this, block, inUse
    {
      && Shape() && Conserving() && BitsKept() && Cutting() && blockNo == |blocks| + (if state == Input then 1 else 0)
      && (state == Input ==> Filling() && nblock < nblockMax && numZ == 0 && mode != Idle)
      && (state == Input && stateInCh == NONE ==> runs == [])
      && (state == Output ==> runs == [])
      && (mode == Running && state == Output ==> stateInCh != NONE)
      && (Ended(blocks) <==> state == Output && mode in {Finishing, Idle} && availInExpect == 0 && stateInCh == NONE)
      && (mode == Idle ==> Ended(blocks) && stateOutPos == numZ)
    }

    // ---------- filling the block ----------

    constructor (blockSize100k: int)
      requires 1 <= blockSize100k <= 9
      ensures Valid() && Awaited() && mode == Running && consumed == emitted == [] && blocks == [] && cuts == []
      ensures fresh(block) && fresh(inUse)
      ensures this.blockSize100k == blockSize100k
    {
      hide Shape, Conserving, BitsKept, Filling, Awaited, Valid;
      this.blockSize100k := blockSize100k;
      nblockMax := 100000 * blockSize100k - 19;
      block := new Byte[100000 * blockSize100k];
      inUse := new bool[256](_ => false);
      mode, state, availInExpect := Running, Input, 0;
      stateInCh, stateInLen := NONE, 0;
      nblock, zbits, numZ, stateOutPos, blockNo := 0, [], 0, 0, 1;
      blockCRC, combinedCRC := INITIAL, 0;
      bsBuff, bsLive, held := 0, 0, [];
      nextIn, nextOut, availOut := [], [], 0;
      consumed, emitted, blocks, runs, cuts := [], [], [], [], [];
      new;
      Starts();
    }

    /** Nothing has come and nothing has gone. */
    lemma Starts()
      requires 1 <= blockSize100k <= 9 && nblockMax == 100000 * blockSize100k - 19
      requires block.Length == 100000 * blockSize100k && inUse.Length == 256 && forall v :: 0 <= v < 256 ==> !inUse[v]
      requires mode == Running && state == Input && stateInCh == NONE && stateInLen == 0 && nblock == 0
      requires zbits == [] && numZ == stateOutPos == 0 && blockNo == 1 && blockCRC == INITIAL && combinedCRC == 0
      requires bsBuff == 0 && bsLive == 0 && held == [] && consumed == emitted == [] && blocks == [] && runs == []
      requires cuts == []
      ensures Valid() && Awaited()
    {
      hide Sound, UpdateAll, Encode;
      assert HeldAtTop(0, []) by { assert Value([]) == 0; }
      NoBytes();
      NothingYet(inUse[..], []);
      assert block[..0] == [] && runs + Pending() == [] && zbits[0..] == [];
      StartsSound();
      StartsUpdate();
    }

    lemma StartsSound()
      ensures Sound([], block.Length - 10)
    {
    }

    lemma StartsUpdate()
      ensures UpdateAll(INITIAL, []) == INITIAL
    {
    }

    method PutByte(b: Byte)
      requires 0 <= nblock < block.Length
      modifies this`nblock, block
      ensures nblock == old(nblock) + 1 && block[..nblock] == old(block[..nblock]) + [b]
    {
      block[nblock] := b;
      nblock := nblock + 1;
    }

    /** The checksum of the pending run. */
    method ChecksumRun(ch: Byte)
      requires 0 <= stateInLen
      modifies `blockCRC
      ensures blockCRC == UpdateAll(old(blockCRC), Repeat(ch, stateInLen))
    {
      hide Update;
      for i := 0 to stateInLen
        invariant blockCRC == UpdateAll(old(blockCRC), Repeat(ch, i))
      {
        assert Repeat(ch, i + 1)[..i] == Repeat(ch, i);
        blockCRC := Update(blockCRC, ch);
      }
    }

    /** The code of the pending run: the switch on its length. */
    method PutRun(ch: Byte)
      requires 0 <= nblock && nblock + 5 <= block.Length && inUse.Length == 256 && 1 <= stateInLen <= MAX_RUN
      modifies `nblock, block, inUse
      ensures old(nblock) < nblock <= old(nblock) + 5 <= block.Length
      ensures block[..nblock] == old(block[..nblock]) + Run.Run(ch, stateInLen).Code()
      ensures inUse[..] == if stateInLen < 4 then old(inUse[..]) else old(inUse[..])[stateInLen - 4 := true]
    {
      hide Run.Code;
      ghost var start := block[..nblock];
      CodeSpelled(Run.Run(ch, stateInLen));
      PutByte(ch);
      if stateInLen == 1 { return; }
      PutByte(ch);
      assert block[..nblock] == start + [ch, ch];
      if stateInLen == 2 { return; }
      PutByte(ch);
      assert block[..nblock] == start + [ch, ch, ch];
      if stateInLen == 3 { return; }
      PutByte(ch);
      assert block[..nblock] == start + [ch, ch, ch, ch];
      PutByte(stateInLen - 4);
      assert block[..nblock] == start + [ch, ch, ch, ch, stateInLen - 4];
      inUse[stateInLen - 4] := true;
    }

    /** add_pair_to_block: the pending run joins the block. */
    method AddPairToBlock()
      requires Shape() && Filling() && stateInCh != NONE && nblock + 5 <= block.Length - 10
      modifies `nblock, `blockCRC, `runs, block, inUse
      ensures runs == old(runs + Pending()) && old(nblock) < nblock <= old(nblock) + 5
      ensures block[..nblock] == Encode(runs) && blockCRC == UpdateAll(INITIAL, Flatten(runs))
      ensures Marked(inUse[..], block[..nblock])
    {
      hide Encode, Flatten, UpdateAll, Marked;
      var ch: Byte := stateInCh;
      ghost var r := Run.Run(ch, stateInLen);
      ghost var marks, bytes := inUse[..], block[..nblock];
      EncodeAppend(runs, r);
      FlattenAppend(runs, r);
      UpdateAllConcat(INITIAL, Flatten(runs), Repeat(ch, stateInLen));
      MarkRun(marks, bytes, r);
      ChecksumRun(ch);
      inUse[stateInCh] := true;
      assert inUse[..] == marks[stateInCh := true];
      PutRun(ch);
      runs := runs + [r];
    }

    /** flush_RL. */
    method FlushRL()
      requires Shape() && Filling() && Conserving() && nblock + 5 <= block.Length - 10
      modifies `nblock, `blockCRC, `runs, `stateInCh, `stateInLen, block, inUse
      ensures Shape() && Filling() && Conserving() && stateInCh == NONE && runs == old(runs + Pending())
    {
      hide Encode, Flatten, UpdateAll, Marked, Sound, Contents, Written, Decode;
      FlushedSame(runs, Pending());
      if stateInCh < 256 { AddPairToBlock(); }
      stateInCh, stateInLen := NONE, 0;
      assert runs + Pending() == runs;
    }

    /** The fast track: a pending run of one gives way to another byte. */
    method AddSingle(zchh: Byte)
      requires Shape() && Filling() && nblock + 5 <= block.Length - 10 && zchh != stateInCh && stateInLen == 1
      modifies `nblock, `blockCRC, `runs, `stateInCh, block, inUse
      ensures Shape() && Filling() && stateInCh != NONE && nblock <= old(nblock) + 5
      ensures Held() == old(Held()) + [zchh]
      ensures old(stateInCh) != NONE ==> Ahead() == old(Ahead())
      ensures nblock > old(nblock) ==> runs == old(runs + Pending()) && stateInLen == 1 && runs != [] &&
                                       runs[..|runs| - 1] == old(runs)
    {
      hide Encode, Flatten, UpdateAll, Marked, Separated;
      ghost var rs, ps := runs, Pending();
      AddShort(rs, block[..nblock], inUse[..], blockCRC, stateInCh);
      var ch: Byte := stateInCh;
      blockCRC := Update(blockCRC, ch);
      inUse[stateInCh] := true;
      assert inUse[..] == old(inUse[..])[stateInCh := true];
      PutByte(ch);
      runs := runs + [Run.Run(ch, 1)];
      stateInCh := zchh;
      CloseRun(rs, ps[0], zchh);
    }

    /** The pending run, if any, is complete; another one begins. */
    method AddPair(zchh: Byte)
      requires Shape() && Filling() && nblock + 5 <= block.Length - 10 && (stateInCh == NONE ==> runs == [])
      requires zchh != stateInCh || stateInLen == 255
      modifies `nblock, `blockCRC, `runs, `stateInCh, `stateInLen, block, inUse
      ensures Shape() && Filling() && stateInCh != NONE && nblock <= old(nblock) + 5
      ensures Held() == old(Held()) + [zchh]
      ensures old(stateInCh) != NONE ==> Ahead() == old(Ahead())
      ensures nblock > old(nblock) ==> runs == old(runs + Pending()) && stateInLen == 1 && runs != [] &&
                                       runs[..|runs| - 1] == old(runs)
    {
      hide Encode, Flatten, UpdateAll, Marked, Separated;
      ghost var rs, ps := runs, Pending();
      assert stateInCh != NONE ==> ps == [ps[0]];
      if stateInCh < 256 {
        AddPairToBlock();
        CloseRun(rs, ps[0], zchh);
      } else {
        FirstRun(rs, zchh);
      }
      stateInCh := zchh;
      stateInLen := 1;
      assert Pending() == [Run.Run(zchh, 1)];
    }

    /** ADD_CHAR_TO_BLOCK. */
    method AddCharToBlock(zchh: Byte)
      requires Shape() && Filling() && nblock + 5 <= block.Length - 10 && (stateInCh == NONE ==> runs == [])
      modifies `nblock, `blockCRC, `runs, `stateInCh, `stateInLen, block, inUse
      ensures Shape() && Filling() && stateInCh != NONE && nblock <= old(nblock) + 5
      ensures Held() == old(Held()) + [zchh]
      ensures old(stateInCh) != NONE ==> Ahead() == old(Ahead())
      ensures nblock > old(nblock) ==> runs == old(runs + Pending()) && stateInLen == 1 && runs != [] &&
                                       runs[..|runs| - 1] == old(runs)
    {
      hide Encode, Flatten, UpdateAll, Marked, Separated;
      if zchh != stateInCh && stateInLen == 1 {
        AddSingle(zchh);
      } else if zchh != stateInCh || stateInLen == 255 {
        AddPair(zchh);
      } else {
        GrowRun(runs, Pending()[0]);
        stateInLen := stateInLen + 1;
      }
    }

    // ---------- closing the block ----------

    lemma BlockFacts()
      requires Shape() && Filling()
      ensures 0 <= nblock <= block.Length - 10 && Separated(runs) && 1 <= blockSize100k <= 9
      ensures block[..nblock] == Encode(runs) && blockCRC == UpdateAll(INITIAL, Flatten(runs))
    {
    }

    /** Once block b is compressed, what the current block held is in it. */
    lemma BlockClosed(b: Block)
      requires Shape() && Conserving() && numZ == 0 && !Ended(blocks)
      requires Separated(runs) && b.data == Encode(runs) && |b.data| <= block.Length - 10
      requires b.data != [] ==> b.crc == Finalise(UpdateAll(INITIAL, Flatten(runs)))
      requires b.combined == if b.data == [] then combinedCRC else Combine(combinedCRC, b.crc)
      ensures Sound(blocks + [b], block.Length - 10) && Checksum(blocks + [b]) == b.combined &&
              Contents(blocks + [b]).Some?
      ensures consumed == Contents(blocks + [b]).value + (Flatten([]) + Flatten(Pending()))
      ensures Written(blocks + [b]) == emitted + b.bytes
      ensures Ended(blocks + [b]) <==> b.last
    {
      hide Encode, Decode, UpdateAll, Combine, Sound, Contents, Written, Separated;
      AppendBlock(blocks, b, runs, block.Length - 10);
      assert zbits[stateOutPos..] == [];
    }

    /** The bits of the stream once block b has been written. */
    lemma BitsClosed(b: Block, after: seq<int>, pad: nat)
      requires BitsKept() && !Ended(blocks) && Coded(b) && (b.last ==> after == [] && pad < 8)
      requires BytesBits(b.bytes) + after ==
               held + ((if blocks == [] then BytesBits(HeaderBytes(blockSize100k)) else []) + AddedBits(b)) +
               if b.last then Bits(0, pad) else []
      ensures AllCoded(blocks + [b]) && Written(blocks + [b]) == Written(blocks) + b.bytes
      ensures BytesBits(Written(blocks + [b])) + after == StreamBits(blockSize100k, blocks + [b]) +
              if b.last then Bits(0, pad) else []
    {
      hide Coded, AddedBits, BytesBits, Bits, HeldAtTop, StreamBits, AllCoded, Ended, Written;
      WrittenAppend(blocks, b);
      StreamBitsAppend(blockSize100k, blocks, b);
      BytesBitsConcat(Written(blocks), b.bytes);
      ghost var x := (if blocks == [] then BytesBits(HeaderBytes(blockSize100k)) else []) + AddedBits(b);
      ghost var y := if b.last then Bits(0, pad) else [];
      Associate(BytesBits(Written(blocks)), BytesBits(b.bytes), after);
      AssociateFour(BytesBits(Written(blocks)), held, x, y);
    }

    lemma RoomBehind(bytes: nat)
      requires Shape() && Filling() && 8 * bytes <= CodingSize.BESIDES + Huffman.LONGEST * (nblock + 1)
      ensures nblock + bytes <= 4 * (block.Length + 34)
    {
      hide Encode, Separated, Flatten, UpdateAll, Marked;
      CodingSize.FitsBehind(nblock, bytes, blockSize100k);
    }

    /** The bits that go out with the next block, and what stays in the buffer. */
    method CodeBlock(crc: bv32, combined: bv32, isLastBlock: bool)
      returns (bytes: seq<Byte>, buff: nat, live: int, ghost b: Block, ghost after: seq<int>, ghost pad: nat)
      requires Shape() && Filling() && BitsKept() && !Ended(blocks) && blockNo == |blocks| + 1
      ensures b == Block(block[..nblock], crc, combined, isLastBlock, b.coding, bytes)
      ensures (isLastBlock ==> bytes != []) && nblock + |bytes| <= 4 * (block.Length + 34)
      ensures AllCoded(blocks + [b]) && (isLastBlock ==> after == [] && pad < 8) &&
              (!isLastBlock ==> live == |after| && HeldAtTop(buff, after))
      ensures BytesBits(Written(blocks + [b])) + after == StreamBits(blockSize100k, blocks + [b]) +
              if isLastBlock then Bits(0, pad) else []
    {
      hide Filling, Ended, BitsKept, Coded, AddedBits, HeldAtTop, BytesBits, Bits, Written, StreamBits, AllCoded;
      BlockFacts();
      BitsFacts();
      ghost var coding;
      bytes, buff, live, after, coding, pad :=
        StreamFormat.CompressBlock(blockSize100k, blockNo == 1, block[..nblock], inUse[..], crc, combined, isLastBlock,
                                   bsBuff, bsLive, held);
      b := Block(block[..nblock], crc, combined, isLastBlock, coding, bytes);
      assert BytesBits(bytes) + [] == BytesBits(bytes);
      BitsClosed(b, after, pad);
      BytesFew(b, blockSize100k, blockNo == 1, bsBuff, held, after, pad);
      RoomBehind(|bytes|);
    }

    /** BZ2_compressBlock: the checksums, and the coded bits after those before them.  Block and
        coded bytes fit into arr2, which they share. */
    method CompressBlock(isLastBlock: bool, ghost cut: Cut)
      requires Shape() && Conserving() && Filling() && BitsKept() && numZ == 0 && !Ended(blocks) &&
               blockNo == |blocks| + 1
      requires Cuttable(cut)
      modifies `blockCRC, `combinedCRC, `zbits, `numZ, `blocks, `runs, `cuts, `bsBuff, `bsLive, `held
      ensures Cutting() && cuts == old(cuts) + [cut]
      ensures Shape() && Conserving() && BitsKept() && runs == [] && stateOutPos == old(stateOutPos) &&
              blockNo == |blocks|
      ensures Ended(blocks) <==> isLastBlock
      ensures isLastBlock ==> numZ > 0
      ensures nblock + numZ <= 4 * (block.Length + 34)
    {
      hide Shape, Filling, Encode, Flatten, Decode, UpdateAll, Combine, Separated, Ended, BitsKept, Conserving,
           AllCoded, HeldAtTop,
           BytesBits, Bits, Written, StreamBits, Finalise, Cuttable, Cutting;
      BlockFacts();
      var crc := if nblock > 0 then Finalise(blockCRC) else blockCRC;
      var combined := if nblock > 0 then Combine(combinedCRC, crc) else combinedCRC;
      var bytes, buff, live;
      ghost var b, after, pad;
      bytes, buff, live, b, after, pad := CodeBlock(crc, combined, isLastBlock);
      JoinBlock(bytes, crc, combined, b, cut);
      bsBuff, bsLive, held := buff, live, after;
      BitsMake(pad);
    }

    /** The current block may be ended, for the reason given. */
    ghost predicate Cuttable(cut: Cut)
      reads `blocks, `cuts, `runs, `stateInCh
    {
      && AllCut(blocks, cuts, nblockMax) && Open(cuts, FirstCh(runs)) && cut.runs == runs && cut.Fits(nblockMax)
      && (cut.Full? ==> stateInCh != NONE && Apart(runs, stateInCh))
    }

    /** What is known of the cuts once block b has joined. */
    lemma BlockCut(b: Block, cut: Cut)
      requires Cuttable(cut) && b.data == Encode(cut.runs)
      ensures AllCut(blocks + [b], cuts + [cut], nblockMax) && Open(cuts + [cut], stateInCh)
    {
      hide AllCut, Encode, Cut.Fits;
      AppendCut(blocks, cuts, b, cut, nblockMax);
    }

    /** The block joins those written. */
    method JoinBlock(bytes: seq<Byte>, crc: bv32, combined: bv32, ghost b: Block, ghost cut: Cut)
      requires Cuttable(cut)
      requires b.bytes == bytes && b.crc == crc && b.combined == combined
      requires Shape() && Conserving() && numZ == 0 && !Ended(blocks)
      requires Separated(runs) && b.data == Encode(runs) && |b.data| <= block.Length - 10
      requires b.data != [] ==> b.crc == Finalise(UpdateAll(INITIAL, Flatten(runs)))
      requires b.combined == if b.data == [] then combinedCRC else Combine(combinedCRC, b.crc)
      modifies `blockCRC, `combinedCRC, `zbits, `numZ, `blocks, `runs, `cuts
      ensures Shape() && Conserving() && runs == [] && blocks == old(blocks) + [b] && numZ == |bytes|
      ensures Cutting() && cuts == old(cuts) + [cut]
      ensures Ended(blocks) <==> b.last
    {
      hide Encode, Flatten, Decode, UpdateAll, Combine, Sound, Contents, Written, Separated, Ended, Conserving,
           AllCut, Open, Cut.Fits;
      BlockClosed(b);
      ConservingOpen();
      BlockCut(b, cut);
      assert stateOutPos == 0;
      blockCRC, combinedCRC := crc, combined;
      zbits, numZ := bytes, |bytes|;
      blocks, cuts := blocks + [b], cuts + [cut];
      runs := [];
      assert zbits[stateOutPos..] == zbits;
      ConservingMake();
    }

    lemma ConservingOpen()
      requires Shape() && Conserving()
      ensures Written(blocks) == emitted + zbits[stateOutPos..] && Contents(blocks).Some? &&
              consumed == Contents(blocks).value + Held()
      ensures Sound(blocks, block.Length - 10) && Checksum(blocks) == combinedCRC
    {
    }

    lemma ConservingMake()
      requires Shape() && Sound(blocks, block.Length - 10) && Checksum(blocks) == combinedCRC && Contents(blocks).Some?
      requires consumed == Contents(blocks).value + Held() && Written(blocks) == emitted + zbits[stateOutPos..]
      ensures Conserving()
    {
    }

    lemma BitsMake(pad: nat)
      requires 1 <= blockSize100k <= 9 && AllCoded(blocks) && blocks != []
      requires Ended(blocks) ==> held == [] && pad < 8
      requires !Ended(blocks) ==> bsLive == |held| && HeldAtTop(bsBuff, held)
      requires BytesBits(Written(blocks)) + held == StreamBits(blockSize100k, blocks) +
               if Ended(blocks) then Bits(0, pad) else []
      ensures BitsKept()
    {
      hide HeldAtTop, BytesBits, Bits, StreamBits, Ended, Written, AllCoded;
      assert BytesBits(Written(blocks)) + [] == BytesBits(Written(blocks));
      assert StreamBits(blockSize100k, blocks) + [] == StreamBits(blockSize100k, blocks);
    }

    /** What the coder needs. */
    lemma BitsFacts()
      requires Shape() && BitsKept() && Filling() && !Ended(blocks) && blockNo == |blocks| + 1
      ensures bsLive == |held| && HeldAtTop(bsBuff, held) && (blockNo == 1 ==> blocks == [] && held == [])
      ensures BlockCodec.Covers(inUse[..], block[..nblock]) && nblock <= BlockCodec.BLOCK_LIMIT
    {
      hide HeldAtTop, Encode, Separated;
    }

    /** prepare_new_block. */
    method PrepareNewBlock()
      requires Shape() && Conserving() && stateOutPos == numZ && runs == []
      modifies `nblock, `numZ, `zbits, `stateOutPos, `blockCRC, `blockNo, inUse
      ensures Shape() && Conserving() && Filling() && stateOutPos == numZ == 0 && nblock < nblockMax &&
              blockNo == old(blockNo) + 1
    {
      hide Decode, UpdateAll, Combine, Sound, Contents, Written;
      assert zbits[stateOutPos..] == [];
      nblock, zbits, numZ, stateOutPos := 0, [], 0, 0;
      blockCRC := INITIAL;
      blockNo := blockNo + 1;
      for i := 0 to 256
        modifies inUse
        invariant forall v :: 0 <= v < i ==> !inUse[v]
      {
        inUse[i] := false;
      }
      NothingYet(inUse[..], Pending());
      assert block[..nblock] == [] && runs + Pending() == Pending();
    }

    // ---------- moving bytes ----------

    /** If the block is full, its last run filled it, and one more byte has been taken. */
    ghost predicate Brimming()
      reads `nblock, `runs, `stateInLen
    {
      nblock >= nblockMax ==> stateInLen == 1 && Separated(runs) && Full(runs).Fits(nblockMax)
    }

    /** One byte goes from the input into the pending run. */
    method TakeByte()
      requires Shape() && Conserving() && Filling() && Cutting() && nblock < nblockMax && nextIn != []
      requires (stateInCh == NONE ==> runs == []) && (mode != Running ==> availInExpect == |nextIn|)
      modifies `nblock, `blockCRC, `runs, `stateInCh, `stateInLen, `consumed, `nextIn, `availInExpect, block, inUse
      ensures Shape() && Conserving() && Filling() && Cutting() && Brimming() && nblock < nblockMax + 5 &&
              stateInCh != NONE
      ensures consumed + nextIn == old(consumed + nextIn) && |nextIn| == old(|nextIn|) - 1
      ensures mode != Running ==> availInExpect == |nextIn|
    {
      hide Held, Pending, Encode, Flatten, Decode, UpdateAll, Combine, Sound, Contents, Written, Separated, Marked,
           AllCut;
      MoveOne(consumed, nextIn, Contents(blocks).value, Held());
      var zchh := nextIn[0];
      consumed, nextIn := consumed + [zchh], nextIn[1..];
      if mode != Running { availInExpect := availInExpect - 1; }
      AddCharToBlock(zchh);
    }

    /** copy_input_until_stop: stops when the block is full, the input is used up, or all
        that was promised to a flush has been taken. */
    method CopyInputUntilStop() returns (progress: bool)
      requires Valid() && state == Input && (mode != Running ==> availInExpect == |nextIn|)
      modifies `nblock, `blockCRC, `runs, `stateInCh, `stateInLen, `consumed, `nextIn, `availInExpect, block, inUse
      ensures Shape() && Conserving() && Filling() && Cutting() && Brimming() && nblock < nblockMax + 5
      ensures consumed + nextIn == old(consumed + nextIn) && (progress <==> |nextIn| < old(|nextIn|))
      ensures nblock >= nblockMax || nextIn == []
      ensures (progress ==> stateInCh != NONE) && (stateInCh == NONE ==> runs == [])
      ensures !progress ==> nextIn == old(nextIn) && nblock < nblockMax
      ensures mode != Running ==> availInExpect == |nextIn|
    {
      hide BitsKept, Filling, Conserving, Cutting;
      progress := false;
      ghost var all := consumed + nextIn;
      while nblock < nblockMax && nextIn != [] && (mode == Running || availInExpect > 0)
        invariant Shape() && Conserving() && Filling() && Cutting() && Brimming() && nblock < nblockMax + 5
        invariant consumed + nextIn == all && |nextIn| <= old(|nextIn|)
        invariant progress <==> |nextIn| < old(|nextIn|)
        invariant (progress ==> stateInCh != NONE) && (stateInCh == NONE ==> runs == [])
        invariant !progress ==> nextIn == old(nextIn) && nblock < nblockMax
        invariant mode != Running ==> availInExpect == |nextIn|
        decreases |nextIn|
      {
        progress := true;
        TakeByte();
      }
    }

    /** copy_output_until_stop. */
    method CopyOutputUntilStop(ghost given: seq<Byte>) returns (progress: bool)
      requires Shape() && Conserving() && emitted == given + nextOut
      modifies `stateOutPos, `emitted, `nextOut, `availOut
      ensures Shape() && Conserving() && emitted == given + nextOut
      ensures |nextOut| + availOut == old(|nextOut| + availOut) && |nextOut| >= old(|nextOut|)
      ensures progress <==> availOut < old(availOut)
      ensures stateOutPos - old(stateOutPos) == old(availOut) - availOut
      ensures stateOutPos == numZ || (stateOutPos < numZ && availOut == 0)
    {
      hide Conserving;
      progress := false;
      while availOut != 0 && stateOutPos < numZ
        invariant Shape() && Conserving() && emitted == given + nextOut
        invariant |nextOut| + availOut == old(|nextOut| + availOut) && (progress <==> availOut < old(availOut))
        invariant |nextOut| >= old(|nextOut|) && stateOutPos - old(stateOutPos) == old(availOut) - availOut
        decreases availOut
      {
        progress := true;
        GiveByte(given);
      }
    }

    /** One byte goes from the coded block to the caller. */
    method GiveByte(ghost given: seq<Byte>)
      requires Shape() && Conserving() && emitted == given + nextOut && availOut > 0 && stateOutPos < numZ
      modifies `stateOutPos, `emitted, `nextOut, `availOut
      ensures Shape() && Conserving() && emitted == given + nextOut
      ensures |nextOut| == old(|nextOut|) + 1 && availOut == old(availOut) - 1 && stateOutPos == old(stateOutPos) + 1
    {
      hide Conserving, Flatten, Sound, Contents, Written, Checksum;
      ConservingOpen();
      assert zbits[stateOutPos..] == [zbits[stateOutPos]] + zbits[stateOutPos + 1..];
      nextOut, emitted := nextOut + [zbits[stateOutPos]], emitted + [zbits[stateOutPos]];
      stateOutPos := stateOutPos + 1;
      availOut := availOut - 1;
      ConservingMake();
    }

    // ---------- the state machine ----------

    /** isempty_RL. */
    predicate IsEmptyRL()
      reads `stateInCh, `stateInLen
    {
      !(stateInCh < 256 && stateInLen > 0)
    }

    /** A block that has just become full still has room for the pending run. */
    lemma BlockRoom()
      requires Shape()
      ensures nblockMax + 9 == block.Length - 10 && (numZ == 0 ==> stateOutPos == 0)
    {
    }

    lemma EmptyMeansNone()
      requires Shape()
      ensures IsEmptyRL() <==> stateInCh == NONE
    {
    }

    /** The bytes coded and not yet given out. */
    ghost function Waiting(): int
      reads `numZ, `stateOutPos
    {
      numZ - stateOutPos
    }

    /** A stream being finished is not at its end between two calls. */
    ghost predicate Awaited()
      reads `mode, `blocks, `numZ, `stateOutPos
    {
      mode == Finishing && Ended(blocks) ==> Waiting() > 0
    }

    /** The end of the stream was coded, or all that changed is that output went out. */
    ghost predicate Nearer(ended: bool, waiting: int, out: nat)
      reads `blocks, `numZ, `stateOutPos
    {
      if Ended(blocks) && !ended then true else (Ended(blocks) <==> ended) && Waiting() + out == waiting
    }

    /** A flush or finish has handed everything to the coder. */
    ghost predicate HandedOver()
      reads `mode, `state, `availInExpect, `stateInCh
    {
      mode != Running && state == Output && availInExpect == 0 && stateInCh == NONE
    }

    /** Compresses the current block, whose bytes are then to go out. */
    method SendBlock(isLastBlock: bool, ghost cut: Cut)
      requires Cuttable(cut)
      requires Shape() && Conserving() && Filling() && BitsKept() && numZ == 0 && !Ended(blocks) &&
               blockNo == |blocks| + 1
      requires mode != Idle && (mode == Running ==> stateInCh != NONE)
      requires isLastBlock <==> mode == Finishing && availInExpect == 0 && stateInCh == NONE
      modifies `blockCRC, `combinedCRC, `zbits, `numZ, `blocks, `runs, `cuts, `bsBuff, `bsLive, `held, `state
      ensures Valid() && state == Output && cuts == old(cuts) + [cut]
      ensures Ended(blocks) ==> mode == Finishing && stateOutPos < numZ
    {
      hide BitsKept, Shape, Conserving, Filling, Ended, Cuttable, Cutting;
      BlockRoom();
      CompressBlock(isLastBlock, cut);
      state := Output;
    }

    /** A full block is ended with the run that filled it; the last byte is left pending. */
    lemma FullCut()
      requires Shape() && Filling() && Cutting() && Brimming() && nblock >= nblockMax
      ensures Cuttable(Full(runs))
    {
      hide Encode, AllCut, Open, Flatten, UpdateAll, Marked;
      assert runs != [] by { assert Full(runs).Fits(nblockMax); }
      var both := runs + Pending();
      assert both[|runs| - 1] == runs[|runs| - 1] && both[|runs|] == Pending()[0];
      assert both[|runs| - 1].ch != both[|runs|].ch || both[|runs| - 1].len == MAX_RUN;
    }

    /** What a flush or finish ends the block with, and why there. */
    lemma FlushedCut() returns (cut: Cut)
      requires Shape() && Filling() && Cutting() && Brimming() && (stateInCh == NONE ==> runs == [])
      ensures !cut.Full? && cut.runs == runs + Pending() && cut.Fits(nblockMax) && Open(cuts, FirstCh(cut.runs))
      ensures AllCut(blocks, cuts, nblockMax) && (cut.Late? ==> nblock >= nblockMax)
    {
      hide AllCut, Open, Flatten, UpdateAll, Marked;
      var both := runs + Pending();
      if stateInCh == NONE {
        cut := Early(both);
      } else {
        assert both[..|both| - 1] == runs && both[|both| - 1] == Pending()[0];
        if nblock < nblockMax {
          cut := Early(both);
        } else {
          assert both[..|both| - 2] == runs[..|runs| - 1];
          cut := Late(both);
        }
      }
    }

    lemma CuttableMake(cut: Cut)
      requires cut.runs == runs && !cut.Full? && cut.Fits(nblockMax) && Open(cuts, FirstCh(runs)) &&
               AllCut(blocks, cuts, nblockMax)
      ensures Cuttable(cut)
    {
    }

    /** The end of a flush or finish: the pending run joins the block, which is sent. */
    method FlushBlock() returns (ghost cut: Cut)
      requires Shape() && Conserving() && Filling() && BitsKept() && Cutting() && Brimming()
      requires numZ == 0 && !Ended(blocks) && blockNo == |blocks| + 1 && nblock + 5 <= block.Length - 10
      requires mode in {Flushing, Finishing} && availInExpect == 0 && (stateInCh == NONE ==> runs == [])
      modifies this, block, inUse
      ensures Valid() && HandedOver() && cuts == old(cuts) + [cut] && !cut.Full?
      ensures cut.Late? ==> old(nblock) >= nblockMax
      ensures mode == old(mode) && availInExpect == old(availInExpect) && consumed == old(consumed)
      ensures nextIn == old(nextIn) && emitted == old(emitted) && nextOut == old(nextOut) && availOut == old(availOut)
      ensures Ended(blocks) ==> mode == Finishing && stateOutPos < numZ
    {
      hide BitsKept, Shape, Conserving, Filling, Ended, Cuttable, Cutting, Brimming, AllCut, Open, Cut.Fits, Encode,
           Pending, Flatten;
      cut := FlushedCut();
      FlushRL();
      CuttableMake(cut);
      SendBlock(mode == Finishing, cut);
    }

    /** The part of handle_compress that takes input, up to the next block. */
    method FillBlock(ghost since: seq<Cut>, ghost took: bool) returns (progress: bool, stop: bool)
      requires NewCuts(since, cuts, false, took)
      requires Valid() && state == Input && (mode != Running ==> availInExpect == |nextIn|)
      modifies this, block, inUse
      ensures Valid() && mode == old(mode) && (mode != Running ==> availInExpect == |nextIn|)
      ensures consumed + nextIn == old(consumed + nextIn)
      ensures emitted == old(emitted) && nextOut == old(nextOut) && availOut == old(availOut)
      ensures (progress <==> |nextIn| < old(|nextIn|)) && (!progress ==> nextIn == old(nextIn))
      ensures stop <==> state == Input
      ensures stop ==> nextIn == [] && mode == Running && Waiting() == old(Waiting())
      ensures !stop && !progress ==> HandedOver()
      ensures Ended(blocks) ==> mode == Finishing && stateOutPos < numZ
      ensures NewCuts(since, cuts, HandedOver(), took || progress)
      ensures !old(Ended(blocks)) && (!progress && mode != Flushing ==> Nearer(false, old(Waiting()), 0))
    {
      hide BitsKept, Shape, Conserving, Filling, Held, Ended, Cuttable, Cutting, Brimming;
      BlockRoom();
      progress := CopyInputUntilStop();
      stop := false;
      if mode != Running && availInExpect == 0 {
        ghost var cut := FlushBlock();
      } else if nblock >= nblockMax {
        FullCut();
        SendBlock(false, Full(runs));
      } else if |nextIn| == 0 {
        stop := true;
      }
    }

    /** The part of handle_compress that gives output, up to where input is taken again. */
    method DrainBlock(ghost given: seq<Byte>, ghost since: seq<Cut>, ghost took: bool)
      returns (progress: bool, stop: bool)
      requires NewCuts(since, cuts, HandedOver(), took)
      requires Valid() && state == Output && mode != Idle && emitted == given + nextOut
      modifies this, block, inUse
      ensures Valid() && mode == old(mode) && emitted == given + nextOut
      ensures availInExpect == old(availInExpect) && nextIn == old(nextIn) && consumed == old(consumed)
      ensures |nextOut| + availOut == old(|nextOut| + availOut) && |nextOut| >= old(|nextOut|)
      ensures progress <==> availOut < old(availOut)
      ensures Waiting() - old(Waiting()) == availOut - old(availOut) && (Ended(blocks) <==> old(Ended(blocks)))
      ensures stop ==> (stateOutPos < numZ && availOut == 0) || (stateOutPos == numZ && HandedDown())
      ensures !stop ==> state == Input && !old(HandedOver())
      ensures NewCuts(since, cuts, if stop then Closing() else false, took) && cuts == old(cuts)
    {
      hide BitsKept, Shape, Conserving, Filling, Ended, Cutting;
      EmptyMeansNone();
      progress := CopyOutputUntilStop(given);
      stop := true;
      if stateOutPos < numZ { return; }
      if mode == Finishing && availInExpect == 0 && IsEmptyRL() { return; }
      PrepareNewBlock();
      state := Input;
      if mode == Flushing && availInExpect == 0 && IsEmptyRL() { return; }
      stop := false;
    }

    /** A flush or finish has taken all it was promised, and its last block is coded. */
    ghost predicate Closing()
      reads `mode, `availInExpect, `stateInCh, `blocks
    {
      mode != Running && availInExpect == 0 && stateInCh == NONE && (mode == Finishing ==> Ended(blocks))
    }

    /** A flush or finish is complete. */
    ghost predicate HandedDown()
      reads this
    {
      mode != Running && availInExpect == 0 && stateInCh == NONE && runs == [] &&
      (if mode == Finishing then Ended(blocks) else state == Input)
    }

    /** handle_compress: returns when the output space is used up, the input is used up, or
        a flush or finish is complete. */
    method HandleCompress() returns (progress: bool)
      requires Valid() && mode != Idle && (mode != Running ==> availInExpect == |nextIn|) && nextOut == []
      modifies this, block, inUse
      ensures Valid() && mode == old(mode) && (mode != Running ==> availInExpect == |nextIn|)
      ensures consumed + nextIn == old(consumed + nextIn) && |nextIn| <= old(|nextIn|)
      ensures emitted == old(emitted) + nextOut && |nextOut| + availOut == old(availOut)
      ensures progress <==> |nextIn| < old(|nextIn|) || nextOut != []
      ensures (stateOutPos < numZ && availOut == 0) || (mode == Running && nextIn == []) ||
              (stateOutPos == numZ && HandedDown())
      ensures mode != Flushing && |nextIn| == old(|nextIn|) ==> Nearer(old(Ended(blocks)), old(Waiting()), |nextOut|)
      ensures old(Awaited()) ==> Awaited() || nextOut != []
      ensures NewCuts(old(cuts), cuts, Closing(), |nextIn| < old(|nextIn|))
      ensures old(Ended(blocks)) ==> cuts == old(cuts) && Ended(blocks)
    {
      hide BitsKept, Shape, Conserving, Filling, Ended, Pending, Held, Cutting, NewCuts, Valid;
      NoNewCuts(cuts);
      progress := false;
      while true
        invariant Valid() && mode == old(mode) && (mode != Running ==> availInExpect == |nextIn|)
        invariant consumed + nextIn == old(consumed + nextIn) && |nextIn| <= old(|nextIn|)
        invariant emitted == old(emitted) + nextOut && |nextOut| + availOut == old(availOut)
        invariant progress <==> |nextIn| < old(|nextIn|) || nextOut != []
        invariant mode != Flushing && |nextIn| == old(|nextIn|) ==>
                    Nearer(old(Ended(blocks)), old(Waiting()), |nextOut|)
        invariant old(Awaited()) ==> Awaited() || nextOut != []
        invariant NewCuts(old(cuts), cuts, HandedOver(), |nextIn| < old(|nextIn|))
        invariant old(Ended(blocks)) ==> cuts == old(cuts) && Ended(blocks)
        decreases |nextIn|, if HandedOver() then 0 else 1
      {
        if state == Output {
          var progressOut, stop := DrainBlock(old(emitted), old(cuts), |nextIn| < old(|nextIn|));
          progress := progress || progressOut;
          if stop { break; }
        }
        if state == Input {
          var progressIn, stop := FillBlock(old(cuts), |nextIn| < old(|nextIn|));
          progress := progress || progressIn;
          if stop { break; }
        }
      }
    }

    /** All input taken so far is in the blocks, and all that was written for them is out. */
    ghost predicate CaughtUp()
      reads `blocks, `consumed, `emitted
    {
      Contents(blocks) == Some(consumed) && emitted == Written(blocks)
    }

    lemma AllOut()
      requires Valid() && stateOutPos == numZ && stateInCh == NONE && runs == []
      ensures CaughtUp()
    {
      hide Sound, Contents, Written, Filling;
      assert zbits[stateOutPos..] == [] && Pending() == [] && Held() == [];
      assert Contents(blocks).value + [] == Contents(blocks).value;
    }

    /** A finished stream: its bytes are the bits of its blocks, and these stand for all the
        input taken. */
    lemma Complete() returns (pad: nat)
      requires Valid() && CaughtUp() && Ended(blocks)
      ensures 1 <= blockSize100k <= 9 && pad < 8 && AllCoded(blocks) &&
              BytesBits(emitted) == StreamBits(blockSize100k, blocks) + Bits(0, pad)
      ensures Sound(blocks, 100000 * blockSize100k) && Contents(blocks) == Some(consumed)
    {
      hide BytesBits, Bits, StreamBits, AllCoded, Sound, Contents, Written, Filling, Ended;
      pad :| pad < 8 && BytesBits(Written(blocks)) == StreamBits(blockSize100k, blocks) + Bits(0, pad);
      SoundWiden(blocks, block.Length - 10, 100000 * blockSize100k);
    }

    /** BZ_FLUSH on a stream that is flushing. */
    method ContinueFlush() returns (status: Status)
      requires Valid() && mode == Flushing && availInExpect == |nextIn| && nextOut == []
      modifies this, block, inUse
      ensures Valid() && consumed + nextIn == old(consumed + nextIn) && |nextIn| <= old(|nextIn|)
      ensures emitted == old(emitted) + nextOut && |nextOut| + availOut == old(availOut)
      ensures status == FlushOk ==> mode == Flushing && availOut == 0
      ensures status == RunOk ==> mode == Running && nextIn == [] && CaughtUp()
      ensures status == FlushOk || status == RunOk
      ensures Awaited()
      ensures NewCuts(old(cuts), cuts, nextIn == [], |nextIn| < old(|nextIn|))
    {
      hide BitsKept, Conserving, Held, Pending, Encode, Flatten, UpdateAll, Marked, Separated, Contents, Written, Sound,
           Cutting, Filling;
      var progress := HandleCompress();
      if availInExpect > 0 || !IsEmptyRL() || stateOutPos < numZ { return FlushOk; }
      AllOut();
      mode := Running;
      return RunOk;
    }

    /** BZ_FINISH on a stream that is finishing. */
    method ContinueFinish() returns (status: Status)
      requires Valid() && Awaited() && mode == Finishing && availInExpect == |nextIn| && nextOut == []
      modifies this, block, inUse
      ensures Valid() && Awaited() && consumed + nextIn == old(consumed + nextIn) && |nextIn| <= old(|nextIn|)
      ensures emitted == old(emitted) + nextOut && |nextOut| + availOut == old(availOut)
      ensures status == FinishOk ==> mode == Finishing && availOut == 0 && availInExpect == |nextIn|
      ensures status == FinishOk && |nextIn| == old(|nextIn|) ==>
                Nearer(old(Ended(blocks)), old(Waiting()), |nextOut|) && nextOut != []
      ensures status == SequenceError ==> old(availOut) == 0
      ensures status == SequenceError ==> mode == Finishing && nextOut == [] && |nextIn| == old(|nextIn|)
      ensures status == StreamEnd ==> mode == Idle && nextIn == [] && CaughtUp() && Ended(blocks)
      ensures status == FinishOk || status == SequenceError || status == StreamEnd
      ensures NewCuts(old(cuts), cuts, nextIn == [] && Ended(blocks), |nextIn| < old(|nextIn|))
      ensures old(Ended(blocks)) ==> cuts == old(cuts) && Ended(blocks)
    {
      hide BitsKept, Conserving, Held, Pending, Encode, Flatten, UpdateAll, Marked, Separated, Contents, Written, Sound,
           Cutting, Filling;
      var progress := HandleCompress();
      if !progress { return SequenceError; }
      if availInExpect > 0 || !IsEmptyRL() || stateOutPos < numZ { return FinishOk; }
      AllOut();
      mode := Idle;
      return StreamEnd;
    }

    /** What the returned status tells a caller who offered given input bytes. */
    ghost predicate Answered(action: Action, status: Status, given: nat)
      reads this
    {
      && (status == RunOk ==> mode == Running)
      && (status == RunOk && action == Action.Run ==> |nextIn| < given || nextOut != [])
      && (status == SequenceError || status == ParamError ==> |nextIn| == given && nextOut == [])
      && (status == FinishOk ==> mode == Finishing && availInExpect == |nextIn|)
      && (status == RunOk && action == Action.Flush ==> mode == Running && nextIn == [] && CaughtUp())
      && (status == StreamEnd ==>
          action == Action.Finish && mode == Idle && nextIn == [] && CaughtUp() && Ended(blocks))
      && (status == FlushOk || status == FinishOk ==> availOut == 0)
    }

    /** A call that may end a block before it is full: a flush or finish that has taken all its
        input, the finish with the end of the stream. */
    ghost predicate Closes(action: Action, rest: seq<Byte>)
      reads `blocks
    {
      action in {Action.Flush, Action.Finish} && rest == [] && (action == Action.Finish ==> Ended(blocks))
    }

    /** BZ_RUN, BZ_FLUSH or BZ_FINISH on a running stream. */
    method StartAction(action: Action) returns (status: Status)
      requires Valid() && mode == Running && nextOut == []
      modifies this, block, inUse
      ensures Valid() && Awaited() && consumed + nextIn == old(consumed + nextIn) && |nextIn| <= old(|nextIn|)
      ensures emitted == old(emitted) + nextOut && |nextOut| + availOut == old(availOut)
      ensures Answered(action, status, old(|nextIn|))
      ensures action == Action.Run && old(nextIn) != [] && old(availOut) > 0 ==> status == RunOk
      ensures action == Action.Finish && old(availOut) > 0 ==> status == FinishOk || status == StreamEnd
      ensures action == Action.Run && status == RunOk && |nextIn| == old(|nextIn|) ==> Waiting() < old(Waiting())
      ensures status == FinishOk && |nextIn| == old(|nextIn|) ==>
                Nearer(old(Ended(blocks)), old(Waiting()), |nextOut|) && nextOut != []
      ensures NewCuts(old(cuts), cuts, Closes(action, nextIn), |nextIn| < old(|nextIn|))
    {
      hide BitsKept, Shape, Conserving, Filling, Ended, CaughtUp, Cutting, NewCuts;
      NoNewCuts(cuts);
      status := ParamError;
      if action == Action.Run {
        var progress := HandleCompress();
        status := if progress then RunOk else ParamError;
      } else if action == Action.Flush {
        availInExpect, mode := |nextIn|, Flushing;
        status := ContinueFlush();
      } else if action == Action.Finish {
        availInExpect, mode := |nextIn|, Finishing;
        status := ContinueFinish();
      }
    }

    /** A call that ends the stream, or goes on ending it with all the input announced before. */
    ghost predicate Finishable(action: Action, given: nat)
      reads `mode, `availInExpect
    {
      action == Action.Finish && (mode == Running || (mode == Finishing && availInExpect == given))
    }

    /** BZ2_bzCompress with input and output space as the caller provides them. */
    method Compress(action: Action, input: seq<Byte>, space: nat)
      returns (status: Status, rest: seq<Byte>, output: seq<Byte>)
      requires Valid() && Awaited()
      modifies this, block, inUse
      ensures Valid() && Awaited() && consumed + rest == old(consumed) + input && |rest| <= |input|
      ensures emitted == old(emitted) + output && |output| <= space
      ensures old(mode) == Idle ==> status == SequenceError && rest == input && output == []
      ensures status == RunOk && action == Action.Run ==> |rest| < |input| || output != []
      ensures status == RunOk && action == Action.Flush ==> mode == Running && rest == [] && CaughtUp()
      ensures status == StreamEnd ==>
                action == Action.Finish && mode == Idle && rest == [] && CaughtUp() && Ended(blocks)
      ensures status == FlushOk || status == FinishOk ==> |output| == space
      ensures status == SequenceError || status == ParamError ==> |rest| == |input| && output == []
      ensures status == RunOk ==> mode == Running
      ensures status == FinishOk ==> mode == Finishing && availInExpect == |rest|
      ensures old(mode) == Running && action == Action.Run && input != [] && space > 0 ==> status == RunOk
      ensures old(Finishable(action, |input|)) && space > 0 ==> status == FinishOk || status == StreamEnd
      ensures action == Action.Run && status == RunOk && |rest| == |input| ==> Waiting() < old(Waiting())
      ensures status == FinishOk && |rest| == |input| ==>
                Nearer(old(Ended(blocks)), old(Waiting()), |output|) && output != []
      ensures NewCuts(old(cuts), cuts, Closes(action, rest), |rest| < |input|)
      ensures old(Ended(blocks)) ==> cuts == old(cuts) && Ended(blocks)
    {
      hide BitsKept, Shape, Conserving, Filling, Ended, CaughtUp, Cutting, NewCuts, Nearer;
      NoNewCuts(cuts);
      nextIn, nextOut, availOut := input, [], space;
      status := SequenceError;
      if mode == Running {
        status := StartAction(action);
      } else if mode == Flushing {
        if action == Action.Flush && availInExpect == |nextIn| { status := ContinueFlush(); }
      } else if mode == Finishing {
        if action == Action.Finish && availInExpect == |nextIn| { status := ContinueFinish(); }
      }
      rest, output := nextIn, nextOut;
    }
  }
}
