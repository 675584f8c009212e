/** The compressor's pass from sorted rotations to move-to-front symbols. */
module MtfEncoder {
  import opened Common
  import opened Rotations
  import opened BurrowsWheeler
  import opened MoveToFront

  // ---------- the alphabet in use ----------

  /** How many bytes below b are in use. */
  function UsedBelow(inUse: seq<bool>, b: int): (k: nat)
    requires 0 <= b <= |inUse|
    ensures k <= b
  {
    if b == 0 then 0 else UsedBelow(inUse, b - 1) + if inUse[b - 1] then 1 else 0
  }

  lemma {:induction false} UsedBelowMonotone(inUse: seq<bool>, a: int, b: int)
    requires 0 <= a <= b <= |inUse|
    ensures UsedBelow(inUse, a) <= UsedBelow(inUse, b)
    decreases b
  {
    if a < b { UsedBelowMonotone(inUse, a, b - 1); }
  }

  /** makeMaps_e: the rank of every byte in use. */
  method MakeMapsE(inUse: seq<bool>) returns (unseqToSeq: array<int>, nInUse: int)
    requires |inUse| == 256
    ensures fresh(unseqToSeq) && unseqToSeq.Length == 256 && nInUse == UsedBelow(inUse, 256)
    ensures forall b :: 0 <= b < 256 && inUse[b] ==> unseqToSeq[b] == UsedBelow(inUse, b) < nInUse
  {
    unseqToSeq := new int[256];
    nInUse := 0;
    for i := 0 to 256
      invariant nInUse == UsedBelow(inUse, i)
      invariant forall b :: 0 <= b < i && inUse[b] ==> unseqToSeq[b] == UsedBelow(inUse, b) < nInUse
    {
      if inUse[i] {
        unseqToSeq[i] := nInUse;
        nInUse := nInUse + 1;
      }
    }
  }

  /** makeMaps_d: the bytes in use, in order, each at its rank. */
  method MakeMapsD(inUse: seq<bool>) returns (seqToUnseq: array<Byte>, nInUse: int)
    requires |inUse| == 256
    ensures fresh(seqToUnseq) && seqToUnseq.Length == 256 && nInUse == UsedBelow(inUse, 256)
    ensures forall b :: 0 <= b < 256 && inUse[b] ==> UsedBelow(inUse, b) < 256 && seqToUnseq[UsedBelow(inUse, b)] == b
  {
    seqToUnseq := new Byte[256];
    nInUse := 0;
    for i := 0 to 256
      invariant nInUse == UsedBelow(inUse, i)
      invariant forall b :: 0 <= b < i && inUse[b] ==>
                  UsedBelow(inUse, b) < nInUse && seqToUnseq[UsedBelow(inUse, b)] == b
    {
      if inUse[i] {
        seqToUnseq[nInUse] := i;
        nInUse := nInUse + 1;
      }
    }
  }

  // ---------- the move-to-front step in place ----------

  lemma IndexOfIs(yy: seq<int>, c: int, j: int)
    requires 0 <= j < |yy| && yy[j] == c && c !in yy[..j]
    ensures c in yy && IndexOf(yy, c) == j
  {
    if j > 0 {
      assert yy[0] == yy[..j][0];
      assert yy[1..][..j - 1] == yy[..j][1..];
      IndexOfIs(yy[1..], c, j - 1);
    }
  }

  lemma IndexOfNotFirst(yy: seq<int>, c: int)
    requires c in yy && yy[0] != c
    ensures 1 <= IndexOf(yy, c) && c !in yy[..1]
    ensures forall j :: 0 <= j < |yy| && c !in yy[..j] ==> j <= IndexOf(yy, c)
  {
    forall j | IndexOf(yy, c) < j < |yy| ensures c in yy[..j] { assert yy[..j][IndexOf(yy, c)] == c; }
  }

  lemma MoveFrontIs(was: seq<int>, now: seq<int>, j: int)
    requires |was| == |now| && 0 <= j < |was| && now[0] == was[j]
    requires forall k {:trigger now[k]} :: 1 <= k <= j ==> now[k] == was[k - 1]
    requires forall k {:trigger now[k]} :: j < k < |was| ==> now[k] == was[k]
    ensures now == MoveFront(was, j)
  {
    assert forall k :: 0 <= k < |was| ==> now[k] == MoveFront(was, j)[k];
  }

  /** Finds c, not at the front, moving every entry before it back by one on the way, and
      puts it at the front.  Returns where it was. */
  method MoveToFrontStep(yy: array<int>, n: int, c: int) returns (j: int)
    requires 1 < n <= yy.Length && c in yy[..n] && yy[0] != c
    modifies yy
    ensures 1 <= j < n && j == IndexOf(old(yy[..n]), c)
    ensures yy[..n] == MoveFront(old(yy[..n]), j)
  {
    hide MoveFront, IndexOf;
    ghost var was := yy[..n];
    IndexOfNotFirst(was, c);
    var rtmp := yy[1];
    yy[1] := yy[0];
    j := 1;
    while c != rtmp
      invariant 1 <= j < n && j <= IndexOf(was, c) && rtmp == was[j]
      invariant yy[0] == was[0]
      invariant forall k :: 1 <= k <= j ==> yy[k] == was[k - 1]
      invariant forall k :: j < k < n ==> yy[k] == was[k]
      invariant c !in was[..j]
      decreases n - j
    {
      j := j + 1;
      var rtmp2 := rtmp;
      rtmp := yy[j];
      yy[j] := rtmp2;
    }
    yy[0] := rtmp;
    IndexOfIs(was, c, j);
    MoveFrontIs(was, yy[..n], j);
  }

  // ---------- the pass over the block ----------

  /** The first n ranks in order: the list both sides start from. */
  function Identity(n: nat): (r: seq<int>)
    ensures |r| == n && forall k :: 0 <= k < n ==> r[k] == k
  {
    seq(n, k => k)
  }

  /** The ranks of a column of bytes. */
  function RanksOf(l: seq<Byte>, inUse: seq<bool>): (r: seq<int>)
    requires |inUse| == 256
    ensures |r| == |l| && forall i :: 0 <= i < |l| ==> r[i] == UsedBelow(inUse, l[i])
  {
    seq(|l|, i requires 0 <= i < |l| => UsedBelow(inUse, l[i]))
  }

  /** freq counts the symbols written so far. */
  ghost predicate Tallied(freq: array<int>, out: seq<int>)
    reads freq
  {
    freq.Length == 258 && forall v :: 0 <= v < 258 ==> freq[v] == multiset(out)[v]
  }

  /** One symbol is written and counted. */
  method Emit(mtfv: array<int>, freq: array<int>, wr0: int, v: int) returns (wr: int)
    requires 0 <= wr0 < mtfv.Length && 0 <= v < 258 && mtfv != freq && Tallied(freq, mtfv[..wr0])
    modifies mtfv, freq
    ensures wr == wr0 + 1 && mtfv[..wr] == old(mtfv[..wr0]) + [v] && Tallied(freq, mtfv[..wr])
    ensures forall k :: wr <= k < mtfv.Length ==> mtfv[k] == old(mtfv[k])
  {
    ghost var out := mtfv[..wr0];
    mtfv[wr0] := v;
    wr := wr0 + 1;
    assert mtfv[..wr] == out + [v];
    freq[v] := freq[v] + 1;
  }

  lemma {:induction false} RunCodeShort(z: nat)
    ensures |RunCode(z)| <= z + 1
  {
    if z >= 2 { RunCodeShort((z - 2) / 2); }
  }

  lemma FlushStep(so: seq<int>, code: seq<int>)
    requires code != []
    ensures so + [code[0]] + code[1..] == so + code
  {
    assert code == [code[0]] + code[1..];
  }

  /** Writes the numeral of a waiting run. */
  method FlushRun(mtfv: array<int>, freq: array<int>, wr0: int, zPend0: int) returns (wr: int)
    requires 0 < zPend0 && 0 <= wr0 && wr0 + zPend0 <= mtfv.Length && mtfv != freq && Tallied(freq, mtfv[..wr0])
    modifies mtfv, freq
    ensures wr0 <= wr <= wr0 + zPend0
    ensures mtfv[..wr] == old(mtfv[..wr0]) + RunCode(zPend0 - 1) && Tallied(freq, mtfv[..wr])
    ensures forall k :: wr <= k < mtfv.Length ==> mtfv[k] == old(mtfv[k])
  {
    hide Tallied;
    ghost var out := mtfv[..wr0];
    wr := wr0;
    var zPend := zPend0 - 1;
    RunCodeShort(zPend);
    assert out + RunCode(zPend) == mtfv[..wr] + RunCode(zPend);
    while true
      invariant 0 <= zPend && wr0 <= wr && wr + |RunCode(zPend)| == wr0 + |RunCode(zPend0 - 1)|
      invariant mtfv[..wr] + RunCode(zPend) == out + RunCode(zPend0 - 1)
      invariant Tallied(freq, mtfv[..wr])
      invariant forall k :: wr <= k < mtfv.Length ==> mtfv[k] == old(mtfv[k])
      decreases zPend
    {
      ghost var code, so := RunCode(zPend), mtfv[..wr];
      if zPend % 2 == 1 {
        wr := Emit(mtfv, freq, wr, RUNB);
      } else {
        wr := Emit(mtfv, freq, wr, RUNA);
      }
      FlushStep(so, code);
      if zPend < 2 { break; }
      zPend := (zPend - 2) / 2;
    }
  }

  /** The word ptr[i] as two halves of the array it shares with the output. */
  function PtrAt(half: array<int>, i: int): int
    requires 0 <= i && 2 * i + 1 < half.Length
    reads half
  {
    half[2 * i] + 0x1_0000 * half[2 * i + 1]
  }

  /** The numeral of the waiting run, if any. */
  ghost function Waiting(z: nat): seq<int> {
    if z > 0 then RunCode(z - 1) else []
  }

  /** Writes the waiting run and then the symbol for c, which is not at the front. */
  method CodeSymbol(mtfv: array<int>, freq: array<int>, yy: array<int>, wr0: int, zPend: int, n: int, c: int)
    returns (wr: int)
    requires 0 <= zPend && 0 <= wr0 && wr0 + zPend < mtfv.Length && mtfv != freq && Tallied(freq, mtfv[..wr0])
    requires 1 < n <= 256 == yy.Length && c in yy[..n] && yy[0] != c && yy != mtfv && yy != freq
    modifies mtfv, freq, yy
    ensures wr0 < wr <= wr0 + zPend + 1 && Tallied(freq, mtfv[..wr])
    ensures var j := IndexOf(old(yy[..n]), c);
            && mtfv[..wr] == old(mtfv[..wr0]) + (Waiting(zPend) + [j + 1])
            && yy[..n] == MoveFront(old(yy[..n]), j)
    ensures forall k :: wr <= k < mtfv.Length ==> mtfv[k] == old(mtfv[k])
  {
    hide Tallied, MoveFront, IndexOf;
    ghost var out := mtfv[..wr0];
    wr := wr0;
    if zPend > 0 { wr := FlushRun(mtfv, freq, wr, zPend); }
    assert mtfv[..wr] == out + Waiting(zPend);
    var j := MoveToFrontStep(yy, n, c);
    wr := Emit(mtfv, freq, wr, j + 1);
    assert out + (Waiting(zPend) + [j + 1]) == out + Waiting(zPend) + [j + 1];
  }

  /** Writes the last waiting run and the end-of-block symbol. */
  method CodeEnd(mtfv: array<int>, freq: array<int>, wr0: int, zPend: int, eob: int) returns (wr: int)
    requires 0 <= zPend && 0 <= wr0 && wr0 + zPend < mtfv.Length && mtfv != freq && Tallied(freq, mtfv[..wr0]) &&
             0 <= eob < 258
    modifies mtfv, freq
    ensures wr0 < wr <= wr0 + zPend + 1 && Tallied(freq, mtfv[..wr])
    ensures mtfv[..wr] == old(mtfv[..wr0]) + (Waiting(zPend) + [eob])
  {
    hide Tallied;
    ghost var out := mtfv[..wr0];
    wr := wr0;
    if zPend > 0 { wr := FlushRun(mtfv, freq, wr, zPend); }
    assert mtfv[..wr] == out + Waiting(zPend);
    wr := Emit(mtfv, freq, wr, eob);
    assert out + (Waiting(zPend) + [eob]) == out + Waiting(zPend) + [eob];
  }

  /** Where the pass stands: what is written and what is still to come make up the code. */
  ghost predicate Coding(written: seq<int>, rest: seq<int>, yy: seq<int>, z: nat, eob: int, all: seq<int>) {
    (forall k :: 0 <= k < |rest| ==> rest[k] in yy) && written + Encode(rest, yy, z, eob) == all
  }

  /** One list entry is coded: at the front of the list it makes the waiting run longer. */
  method EncodeOne(mtfv: array<int>, freq: array<int>, yy: array<int>, wr0: int, zPend0: int, n: int, c: int,
                   ghost rest: seq<int>, ghost all: seq<int>)
    returns (wr: int, zPend: int)
    requires 0 <= zPend0 && 0 <= wr0 && wr0 + zPend0 < mtfv.Length && mtfv != freq && yy != mtfv && yy != freq
    requires Tallied(freq, mtfv[..wr0]) && 1 <= n <= 256 == yy.Length
    requires rest != [] && rest[0] == c && Coding(mtfv[..wr0], rest, yy[..n], zPend0, n + 1, all)
    modifies mtfv, freq, yy
    ensures 0 <= zPend && wr0 <= wr && wr + zPend <= wr0 + zPend0 + 1
    ensures Tallied(freq, mtfv[..wr]) && Coding(mtfv[..wr], rest[1..], yy[..n], zPend, n + 1, all)
    ensures forall k :: wr0 + zPend0 < k < mtfv.Length ==> mtfv[k] == old(mtfv[k])
  {
    hide Tallied, Encode, MoveFront, IndexOf, Coding, Waiting;
    CodingStep(mtfv[..wr0], rest, yy[..n], zPend0, n + 1, all);
    wr, zPend := wr0, zPend0 + 1;
    if yy[0] != c {
      wr := CodeSymbol(mtfv, freq, yy, wr0, zPend0, n, c);
      zPend := 0;
    }
  }

  /** The list entry of the symbol before the i-th rotation. */
  method RankAt(ptr: int, block: seq<Byte>, ghost inUse: seq<bool>, unseqToSeq: seq<int>, ghost i: int,
                ghost f: seq<int>) returns (ll: int)
    requires |inUse| == 256 && |unseqToSeq| == 256 && IsPermutation(f, |block|) && 0 <= i < |block| && ptr == f[i]
    requires forall i :: 0 <= i < |block| ==> inUse[block[i]]
    requires forall b :: 0 <= b < 256 && inUse[b] ==> unseqToSeq[b] == UsedBelow(inUse, b)
    ensures ll == RanksOf(LastColumn(block, f), inUse)[i]
  {
    hide UsedBelow;
    var j := ptr - 1;
    if j < 0 { j := j + |block|; }
    ll := unseqToSeq[block[j]];
    assert block[j] == LastColumn(block, f)[i];
  }

  /** The pass over the sorted rotations. */
  method EncodePass(half: array<int>, block: seq<Byte>, ghost inUse: seq<bool>, mtfFreq: array<int>,
                    unseqToSeq: seq<int>, nInUse: int, ghost f: seq<int>)
    returns (nMTF: int)
    requires 0 < |block| && half.Length == 2 * |block| && |inUse| == 256 && mtfFreq.Length == 258 && half != mtfFreq &&
             IsPermutation(f, |block|)
    requires forall i :: 0 <= i < |block| ==> PtrAt(half, i) == f[i]
    requires forall i :: 0 <= i < |block| ==> inUse[block[i]]
    requires |unseqToSeq| == 256 && forall b :: 0 <= b < 256 && inUse[b] ==> unseqToSeq[b] == UsedBelow(inUse, b)
    requires nInUse == UsedBelow(inUse, 256) && Tallied(mtfFreq, [])
    modifies half, mtfFreq
    ensures 0 < nMTF <= |block| + 1
    ensures var ranks := RanksOf(LastColumn(block, f), inUse);
            && (forall k :: 0 <= k < |ranks| ==> ranks[k] in Identity(nInUse))
            && half[..nMTF] == Encode(ranks, Identity(nInUse), 0, nInUse + 1)
    ensures Tallied(mtfFreq, half[..nMTF])
  {
    hide Tallied, Encode, UsedBelow, MoveFront, IndexOf, Coding, Waiting, LastColumn, RanksOf;
    var nblock := |block|;
    ghost var ranks := RanksOf(LastColumn(block, f), inUse);
    RanksInUse(block, f, inUse, nInUse);
    assert half[..0] == [];
    var wr, zPend := 0, 0;
    var yy := new int[256];
    for i := 0 to nInUse
      modifies yy
      invariant yy[..i] == Identity(nInUse)[..i]
    {
      yy[i] := i;
    }
    assert yy[..nInUse] == Identity(nInUse);
    ghost var all := Encode(ranks, Identity(nInUse), 0, nInUse + 1);
    CodingStart(ranks, Identity(nInUse), nInUse + 1);
    for i := 0 to nblock
      invariant 0 <= zPend && 0 <= wr && wr + zPend <= i
      invariant forall k :: i <= k < |block| ==> PtrAt(half, k) == f[k]
      invariant Tallied(mtfFreq, half[..wr])
      invariant Coding(half[..wr], ranks[i..], yy[..nInUse], zPend, nInUse + 1, all)
    {
      var ll := RankAt(PtrAt(half, i), block, inUse, unseqToSeq, i, f);
      assert ranks[i..][0] == ranks[i] && ranks[i..][1..] == ranks[i + 1..];
      wr, zPend := EncodeOne(half, mtfFreq, yy, wr, zPend, nInUse, ll, ranks[i..], all);
    }
    assert ranks[nblock..] == [];
    CodingEnd(half[..wr], yy[..nInUse], zPend, nInUse + 1, all);
    nMTF := CodeEnd(half, mtfFreq, wr, zPend, nInUse + 1);
  }

  /** generateMTFValues.  The 16-bit output mtfv is written over the 32-bit row numbers ptr
      while they are still being read; at each step no more symbols than rows have been
      dealt with, so a row number is never overwritten before it is read. */
  method GenerateMtfValues(half: array<int>, block: seq<Byte>, inUse: seq<bool>, mtfFreq: array<int>, ghost f: seq<int>)
    returns (nMTF: int, nInUse: int)
    requires 0 < |block| && half.Length == 2 * |block| && |inUse| == 256 && mtfFreq.Length == 258
    requires half != mtfFreq && IsPermutation(f, |block|)
    requires forall i :: 0 <= i < |block| ==> PtrAt(half, i) == f[i]
    requires forall i :: 0 <= i < |block| ==> inUse[block[i]]
    modifies half, mtfFreq
    ensures nInUse == UsedBelow(inUse, 256) && 0 < nMTF <= |block| + 1
    ensures var ranks := RanksOf(LastColumn(block, f), inUse);
            && (forall k :: 0 <= k < |ranks| ==> ranks[k] in Identity(nInUse))
            && half[..nMTF] == Encode(ranks, Identity(nInUse), 0, nInUse + 1)
    ensures Tallied(mtfFreq, half[..nMTF])
  {
    hide Tallied, Encode, UsedBelow, LastColumn, RanksOf;
    var maps: array<int>;
    maps, nInUse := MakeMapsE(inUse);
    var unseqToSeq := maps[..];
    for i := 0 to 258
      modifies mtfFreq
      invariant forall v :: 0 <= v < i ==> mtfFreq[v] == 0
    {
      mtfFreq[i] := 0;
    }
    TalliedNone(mtfFreq);
    nMTF := EncodePass(half, block, inUse, mtfFreq, unseqToSeq, nInUse, f);
  }

  lemma CodingStart(ranks: seq<int>, yy: seq<int>, eob: int)
    requires forall k :: 0 <= k < |ranks| ==> ranks[k] in yy
    ensures Coding([], ranks[0..], yy, 0, eob, Encode(ranks, yy, 0, eob))
  {
    assert ranks[0..] == ranks;
    assert [] + Encode(ranks, yy, 0, eob) == Encode(ranks, yy, 0, eob);
  }

  lemma CodingStep(written: seq<int>, ll: seq<int>, yy: seq<int>, z: nat, eob: int, all: seq<int>)
    requires Coding(written, ll, yy, z, eob, all) && ll != []
    ensures ll[0] in yy
    ensures yy[0] == ll[0] ==> Coding(written, ll[1..], yy, z + 1, eob, all)
    ensures yy[0] != ll[0] ==>
              (var j := IndexOf(yy, ll[0]);
               |yy| > 1 && Coding(written + (Waiting(z) + [j + 1]), ll[1..], MoveFront(yy, j), 0, eob, all))
  {
    hide MoveFront, IndexOf, Encode, Waiting, Coding;
    CodingOpen(written, ll, yy, z, eob, all);
    EncodeStep(ll, yy, z, eob);
    if yy[0] != ll[0] {
      var j := IndexOf(yy, ll[0]);
      CodingOther(written, ll[1..], MoveFront(yy, j), Waiting(z) + [j + 1], Encode(ll, yy, z, eob), 0, eob, all);
    } else {
      assert [] + Encode(ll, yy, z, eob) == Encode(ll, yy, z, eob) && written + [] == written;
      CodingOther(written, ll[1..], yy, [], Encode(ll, yy, z, eob), z + 1, eob, all);
    }
  }

  lemma CodingOpen(written: seq<int>, ll: seq<int>, yy: seq<int>, z: nat, eob: int, all: seq<int>)
    requires Coding(written, ll, yy, z, eob, all)
    ensures (forall k :: 0 <= k < |ll| ==> ll[k] in yy) && written + Encode(ll, yy, z, eob) == all
  {
  }

  lemma CodingOther(written: seq<int>, rest: seq<int>, yy: seq<int>, code: seq<int>, todo: seq<int>, z: nat, eob: int,
                    all: seq<int>)
    requires (forall k :: 0 <= k < |rest| ==> rest[k] in yy)
    requires written + todo == all && todo == code + Encode(rest, yy, z, eob)
    ensures Coding(written + code, rest, yy, z, eob, all)
  {
    hide Encode;
    Associate(written, code, Encode(rest, yy, z, eob));
  }

  lemma EncodeStep(ll: seq<int>, yy: seq<int>, z: nat, eob: int)
    requires ll != [] && forall k :: 0 <= k < |ll| ==> ll[k] in yy
    ensures forall k :: 0 <= k < |ll[1..]| ==> ll[1..][k] in yy
    ensures yy[0] == ll[0] ==> Encode(ll, yy, z, eob) == Encode(ll[1..], yy, z + 1, eob)
    ensures yy[0] != ll[0] ==>
              (var j := IndexOf(yy, ll[0]);
               && |yy| > 1 && (forall k :: 0 <= k < |ll[1..]| ==> ll[1..][k] in MoveFront(yy, j))
               && Encode(ll, yy, z, eob) == Waiting(z) + [j + 1] + Encode(ll[1..], MoveFront(yy, j), 0, eob))
  {
    hide MoveFront, IndexOf, RunCode;
    var j := IndexOf(yy, ll[0]);
    MoveFrontSame(yy, j);
    forall k | 0 <= k < |ll[1..]| ensures ll[1..][k] in yy && ll[1..][k] in MoveFront(yy, j) {
      assert ll[1..][k] == ll[k + 1];
    }
  }

  lemma CodingEnd(written: seq<int>, yy: seq<int>, z: nat, eob: int, all: seq<int>)
    requires Coding(written, [], yy, z, eob, all)
    ensures written + (Waiting(z) + [eob]) == all
  {
  }

  lemma TalliedNone(freq: array<int>)
    requires freq.Length == 258 && forall v :: 0 <= v < 258 ==> freq[v] == 0
    ensures Tallied(freq, [])
  {
  }

  /** Every rank is below the number of bytes in use, and the block has at least one. */
  lemma RanksInUse(s: seq<Byte>, f: seq<int>, inUse: seq<bool>, nInUse: int)
    requires 0 < |s| && IsPermutation(f, |s|) && |inUse| == 256 && nInUse == UsedBelow(inUse, 256)
    requires forall i :: 0 <= i < |s| ==> inUse[s[i]]
    ensures 0 < nInUse <= 256
    ensures forall k :: 0 <= k < |s| ==> 0 <= RanksOf(LastColumn(s, f), inUse)[k] < nInUse
    ensures forall k :: 0 <= k < |s| ==> RanksOf(LastColumn(s, f), inUse)[k] in Identity(nInUse)
  {
    UsedBelowMonotone(inUse, s[0] as int + 1, 256);
    forall k | 0 <= k < |s|
      ensures 0 <= RanksOf(LastColumn(s, f), inUse)[k] < nInUse &&
              RanksOf(LastColumn(s, f), inUse)[k] in Identity(nInUse)
    {
      var b := LastColumn(s, f)[k];
      assert inUse[b];
      UsedBelowMonotone(inUse, b as int + 1, 256);
      assert Identity(nInUse)[UsedBelow(inUse, b)] == UsedBelow(inUse, b);
    }
  }
}
