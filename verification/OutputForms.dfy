/** The two forms of the decoder side by side, over any division of the output space. */
module OutputForms {
  import opened Common
  import opened BlockFormat
  import opened RunLengthOutput
  import opened BlockCrc
  import opened BlockDecode
  import opened BurrowsWheeler
  import InverseSmall
  import MoveToFront
  import MtfDecoder

  /** The output space of the first k calls. */
  function Space(splits: seq<nat>, k: nat): nat
    requires k <= |splits|
  {
    if k == 0 then 0 else Space(splits, k - 1) + splits[k - 1]
  }

  lemma {:induction false} SpaceGrows(splits: seq<nat>, a: nat, b: nat)
    requires a <= b <= |splits|
    ensures Space(splits, a) <= Space(splits, b)
  {
    if a < b { SpaceGrows(splits, a, b - 1); }
  }

  /** Two calls in a row take what one call with all their space takes. */
  lemma TakenTwice(todo: (seq<Byte>, bool), a: nat, b: nat)
    ensures Taken(todo, a + b) == Taken(todo, a) + Taken(Left(todo, a), b)
    ensures Left(todo, a + b) == Left(Left(todo, a), b)
    ensures |Left(todo, a).0| == if |todo.0| < a then 0 else |todo.0| - a
  {
  }

  lemma TakenNone(todo: (seq<Byte>, bool))
    ensures Taken(todo, 0) == [] && Left(todo, 0) == todo
  {
  }

  /** All that comes fits. */
  lemma TakenAll(todo: (seq<Byte>, bool), a: nat, b: nat)
    requires |todo.0| <= a <= b
    ensures Taken(todo, a) == Taken(todo, b)
  {
  }

  /** Calls of the word-per-symbol stage until the space or the block ends: together they
      write what one call with all the space would, and corruption is reported exactly when
      the bytes of a malformed block have all been written. */
  method WriteFast(o: FastOutput, splits: seq<nat>) returns (corrupt: bool, bytes: seq<Byte>)
    requires o.Valid()
    modifies o
    ensures bytes == Taken(old(o.Coming()), Space(splits, |splits|))
    ensures corrupt <==> splits != [] && !old(o.Coming()).1 && |old(o.Coming()).0| <= Space(splits, |splits|)
    ensures !corrupt ==> o.Valid() && o.Coming() == Left(old(o.Coming()), Space(splits, |splits|))
    ensures !corrupt ==> o.calculatedBlockCRC == UpdateAll(old(o.calculatedBlockCRC), bytes)
  {
    hide FastOutput.Valid, FastOutput.Coming, Taken, Left, Update;
    ghost var todo := o.Coming();
    TakenNone(todo);
    bytes, corrupt := [], false;
    for k := 0 to |splits|
      invariant o.Valid() && bytes == Taken(todo, Space(splits, k)) && o.Coming() == Left(todo, Space(splits, k))
      invariant k > 0 ==> todo.1 || Space(splits, k) < |todo.0|
      invariant o.calculatedBlockCRC == UpdateAll(old(o.calculatedBlockCRC), bytes)
      invariant o.Coming().1 == todo.1
    {
      TakenTwice(todo, Space(splits, k), splits[k]);
      SpaceGrows(splits, k + 1, |splits|);
      var chunk;
      corrupt, chunk := o.UnRleFast(splits[k]);
      UpdateAllConcat(old(o.calculatedBlockCRC), bytes, chunk);
      bytes := bytes + chunk;
      if corrupt {
        TakenAll(todo, Space(splits, k + 1), Space(splits, |splits|));
        return;
      }
      LeftFlag(todo, Space(splits, k + 1));
    }
  }

  lemma LeftFlag(todo: (seq<Byte>, bool), a: nat)
    ensures Left(todo, a).1 == todo.1
  {
  }

  /** The same of the 20-bit stage; but corruption is reported only once there is room for
      a byte more. */
  method WriteSmall(o: SmallOutput, splits: seq<nat>) returns (corrupt: bool, bytes: seq<Byte>)
    requires o.Valid()
    modifies o
    ensures bytes == Taken(old(o.Coming()), Space(splits, |splits|))
    ensures corrupt <==> !old(o.Coming()).1 && |old(o.Coming()).0| < Space(splits, |splits|)
    ensures o.Valid() && (!corrupt ==> o.Coming() == Left(old(o.Coming()), Space(splits, |splits|)))
    ensures o.calculatedBlockCRC == UpdateAll(old(o.calculatedBlockCRC), bytes)
  {
    hide SmallOutput.Valid, SmallOutput.Coming, Taken, Left, Update;
    ghost var todo := o.Coming();
    TakenNone(todo);
    bytes, corrupt := [], false;
    for k := 0 to |splits|
      invariant o.Valid() && bytes == Taken(todo, Space(splits, k)) && o.Coming() == Left(todo, Space(splits, k))
      invariant todo.1 || Space(splits, k) <= |todo.0|
      invariant o.calculatedBlockCRC == UpdateAll(old(o.calculatedBlockCRC), bytes)
      invariant o.Coming().1 == todo.1
    {
      TakenTwice(todo, Space(splits, k), splits[k]);
      SpaceGrows(splits, k + 1, |splits|);
      var chunk;
      corrupt, chunk := o.UnRleSmall(splits[k]);
      UpdateAllConcat(old(o.calculatedBlockCRC), bytes, chunk);
      bytes := bytes + chunk;
      if corrupt {
        TakenAll(todo, Space(splits, k + 1), Space(splits, |splits|));
        return;
      }
      LeftFlag(todo, Space(splits, k + 1));
    }
  }

  /** The small decoder and the fast one, fed the same symbols and the same output space:
      both accept or neither does, they write the same bytes with the same checksum, and they
      report the same corruption, except that a malformed block whose bytes fill the space to
      the last one is so far reported by the fast one only. */
  method SmallIsFast(syms: seq<int>, seqToUnseq: seq<Byte>, nInUse: int, origPtr: nat, blockSize100k: nat,
                     splits: seq<nat>)
    returns (ok: bool, fast: seq<Byte>, fastCorrupt: bool, fastCrc: bv32, small: seq<Byte>, smallCorrupt: bool,
             smallCrc: bv32)
    requires |seqToUnseq| == 256 && 0 < nInUse <= 256 && EndsOnce(syms, nInUse + 1) && 1 <= blockSize100k <= 9
    ensures ok <==> var l := Column(syms, seqToUnseq, nInUse, 100000 * blockSize100k); l.Some? && origPtr < |l.value|
    ensures fast == small && (!fastCorrupt ==> fastCrc == smallCrc)
    ensures ok ==> var todo := AllOf(SymbolsFrom(Column(syms, seqToUnseq, nInUse, 100000 * blockSize100k).value,
                                                 origPtr));
                   && fast == Taken(todo, Space(splits, |splits|)) && smallCrc == UpdateAll(INITIAL, small)
                   && (smallCorrupt <==> !todo.1 && |todo.0| < Space(splits, |splits|))
                   && (fastCorrupt <==> smallCorrupt || (!todo.1 && splits != [] &&
                                                         |todo.0| == Space(splits, |splits|)))
  {
    hide Column, SymbolsFrom, AllOf, Taken, Update, FastOutput.Valid, FastOutput.Coming, SmallOutput.Valid,
         SmallOutput.Coming, EndsOnce;
    ok, fast, fastCorrupt, fastCrc, small, smallCorrupt, smallCrc := false, [], false, 0, [], false, 0;
    var tt := new int[100000 * blockSize100k];
    var st := new InverseSmall.LinkStore(100000 * blockSize100k);
    ghost var l := Column(syms, seqToUnseq, nInUse, 100000 * blockSize100k);
    var cftab, nblock := DecodeColumn(syms, seqToUnseq, nInUse, origPtr, tt, tt.Length);
    if cftab.DataError? { return; }
    var o := StartFast(tt, cftab.value, origPtr, nblock, blockSize100k, l.value);
    var cftab20, nblock20 := DecodeColumn(syms, seqToUnseq, nInUse, origPtr, st.ll16, st.ll16.Length);
    var p := StartSmall(st, cftab20.value, origPtr, nblock20, blockSize100k, l.value);
    fastCorrupt, fast := WriteFast(o, splits);
    smallCorrupt, small := WriteSmall(p, splits);
    ok, fastCrc, smallCrc := true, o.calculatedBlockCRC, p.calculatedBlockCRC;
  }

  /** A column of one symbol spells nothing else. */
  lemma OneSymbol(l: seq<Byte>, x: Byte, origPtr: nat)
    requires origPtr < |l| && forall i :: 0 <= i < |l| ==> l[i] == x
    ensures SymbolsFrom(l, origPtr) == Repeat(x, |l| + 1)
  {
    hide Links;
    var tl := LinksOf(l);
    OnlyWalks(l, tl, tl[origPtr], x, |l| + 1);
  }

  lemma {:induction false} OnlyWalks(l: seq<Byte>, tl: seq<int>, t: int, x: Byte, k: nat)
    requires |tl| == |l| && 0 <= t < |l| && (forall i :: 0 <= i < |tl| ==> 0 <= tl[i] < |l|)
    requires forall i :: 0 <= i < |l| ==> l[i] == x
    ensures Walk(l, tl, t, k) == Repeat(x, k)
    decreases k
  {
    if k > 0 { OnlyWalks(l, tl, tl[t], x, k - 1); }
  }

  /** RUNB, RUNA and the end: a run of four. */
  lemma FourInARow(seqToUnseq: seq<Byte>, room: int)
    requires |seqToUnseq| == 256 && room >= 4
    ensures EndsOnce([1, 0, 2], 2) && Column([1, 0, 2], seqToUnseq, 1, room) == Some(Repeat(seqToUnseq[0], 4))
  {
    var yy := MtfDecoder.IdentityList();
    assert [1, 0, 2][1..] == [0, 2] && [0, 2][1..] == [2];
    assert MoveToFront.Decode([2], yy, 4, 4, room, 2) == Some(Repeat(0, 4));
    assert MoveToFront.Decode([0, 2], yy, 2, 2, room, 2) == Some(Repeat(0, 4));
    assert MoveToFront.Decode([1, 0, 2], yy, 0, 1, room, 2) == Some(Repeat(0, 4));
    assert MtfDecoder.BytesOf(Repeat(0, 4), seqToUnseq) == Repeat(seqToUnseq[0], 4);
  }

  /** Such a block: four equal symbols with no count behind them.  Read to its end it gives
      eleven bytes, the missing count being taken from the first symbol read again; with
      space for exactly those, only the fast decoder has noticed. */
  lemma NoticedLate(seqToUnseq: seq<Byte>, room: int)
    requires |seqToUnseq| == 256 && seqToUnseq[0] == 7 && room >= 4
    ensures EndsOnce([1, 0, 2], 2)
    ensures var l := Column([1, 0, 2], seqToUnseq, 1, room);
            l.Some? && |l.value| == 4 && AllOf(SymbolsFrom(l.value, 0)) == (Repeat<Byte>(7, 11), false)
  {
    hide Column, SymbolsFrom, EndsOnce;
    FourInARow(seqToUnseq, room);
    var l: seq<Byte>, y: seq<Byte> := Repeat(7, 4), [7, 7, 7, 7, 7];
    OneSymbol(l, 7, 0);
    assert SymbolsFrom(l, 0) == y;
    assert |y| == 5 && y[0] == 7 && y[1] == 7 && y[2] == 7 && y[3] == 7 && y[4] == 7;
    assert NextRun(y, 1) == (7 as Byte, 11 as nat, 6 as nat);
    StreamNext(y, 1, 0);
    assert Stream(y, 6, 7, 11) == (Repeat<Byte>(7, 11), false);
  }
}
