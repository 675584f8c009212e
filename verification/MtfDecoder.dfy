/** The decoder's pass from move-to-front symbols back to the last column. */
module MtfDecoder {
  import opened Common
  import opened Counting
  import opened MoveToFront
  import opened MtfList

  function PrependRanks(p: seq<int>, r: Option<seq<int>>): Option<seq<int>> {
    match r
    case None => None
    case Some(x) => Some(p + x)
  }

  lemma PrependRanksTwice(a: seq<int>, b: seq<int>, r: Option<seq<int>>)
    ensures PrependRanks(a, PrependRanks(b, r)) == PrependRanks(a + b, r)
  {
    if r.Some? { assert a + (b + r.value) == a + b + r.value; }
  }

  // ---------- how Decode reads one item ----------

  lemma DecodeAfterRun(syms: seq<int>, yy: seq<int>, run: nat, weight: nat, room: int, eob: int)
    requires yy != [] && (syms != [] ==> syms[0] != RUNA && syms[0] != RUNB)
    ensures Decode(syms, yy, run, weight, room, eob) ==
            if run > room then None else PrependRanks(Repeat(yy[0], run), Decode(syms, yy, 0, 1, room - run, eob))
  {
    if syms != [] && run <= room {
      if syms[0] == eob {
        assert Repeat(yy[0], run) + Repeat(yy[0], 0) == Repeat(yy[0], run);
      } else if run < room && 0 <= syms[0] - 1 < |yy| {
        var j := syms[0] - 1;
        var rest := Decode(syms[1..], MoveFront(yy, j), 0, 1, room - run - 1, eob);
        if rest.Some? {
          assert Repeat(yy[0], run) + (Repeat(yy[0], 0) + [yy[j]] + rest.value) ==
              Repeat(yy[0], run) + [yy[j]] + rest.value;
        }
      }
    }
  }

  lemma DecodeSymbolNext(syms: seq<int>, yy: seq<int>, room: int, eob: int)
    requires yy != [] && syms != [] && syms[0] != RUNA && syms[0] != RUNB && syms[0] != eob && 0 <= syms[0] - 1 < |yy|
    ensures Decode(syms, yy, 0, 1, room, eob) ==
            if room <= 0 then None
            else PrependRanks([yy[syms[0] - 1]], Decode(syms[1..], MoveFront(yy, syms[0] - 1), 0, 1, room - 1, eob))
  {
    var j := syms[0] - 1;
    var rest := Decode(syms[1..], MoveFront(yy, j), 0, 1, room - 1, eob);
    if rest.Some? { assert Repeat(yy[0], 0) + [yy[j]] + rest.value == [yy[j]] + rest.value; }
  }

  // ---------- which entries of the byte map are read ----------

  /** The first n entries of the list are numbers below n. */
  ghost predicate Below(yy: seq<int>, n: int) {
    0 < n <= |yy| && forall k :: 0 <= k < n ==> 0 <= yy[k] < n
  }

  lemma FrontBelow(yy: seq<int>, n: int, j: int)
    requires Below(yy, n) && 0 <= j < n
    ensures Below(MoveFront(yy, j), n)
  {
    var r := MoveFront(yy, j);
    forall k | 0 <= k < n ensures 0 <= r[k] < n {
      assert r[k] == yy[if k == 0 then j else if k <= j then k - 1 else k];
    }
  }

  /** Symbols below the end of block reach only the entries of the bytes in use. */
  lemma {:induction false} DecodeBelow(syms: seq<int>, yy: seq<int>, run: nat, weight: nat, room: int, eob: int)
    requires Below(yy, eob - 1) && forall i :: 0 <= i < |syms| ==> 0 <= syms[i] <= eob
    ensures var d := Decode(syms, yy, run, weight, room, eob); d.Some? ==>
              forall i :: 0 <= i < |d.value| ==> 0 <= d.value[i] < eob - 1
    decreases |syms|
  {
    if syms != [] {
      if syms[0] == RUNA || syms[0] == RUNB {
        DecodeBelow(syms[1..], yy, run + (syms[0] + 1) * weight, 2 * weight, room, eob);
      } else if syms[0] != eob {
        FrontBelow(yy, eob - 1, syms[0] - 1);
        DecodeBelow(syms[1..], MoveFront(yy, syms[0] - 1), 0, 1, room - run - 1, eob);
      }
    }
  }

  // ---------- writing ----------

  /** The words written so far are the bytes b, and their counts are up to date. */
  ghost predicate Written(words: array<int>, unzftab: array<int>, b: seq<Byte>)
    reads words, unzftab
  {
    && |b| <= words.Length && unzftab.Length == 256
    && (forall i :: 0 <= i < |b| ==> words[i] == b[i])
    && (forall c :: 0 <= c < 256 ==> unzftab[c] == Count(b, c, |b|))
  }

  lemma {:induction false} CountPrefix(b: seq<Byte>, x: Byte, c: int, i: nat)
    requires i <= |b|
    ensures Count(b + [x], c, i) == Count(b, c, i)
  {
    if i > 0 {
      CountPrefix(b, x, c, i - 1);
      assert (b + [x])[i - 1] == b[i - 1];
    }
  }

  /** One byte is written and counted. */
  method WriteByte(words: array<int>, unzftab: array<int>, nblock: int, uc: Byte, ghost b: seq<Byte>)
    requires Written(words, unzftab, b) && nblock == |b| < words.Length && words != unzftab
    modifies words, unzftab
    ensures Written(words, unzftab, b + [uc])
  {
    forall c | 0 <= c < 256 ensures Count(b + [uc], c, |b| + 1) == Count(b, c, |b|) + if c == uc then 1 else 0 {
      CountPrefix(b, uc, c, |b|);
    }
    unzftab[uc] := unzftab[uc] + 1;
    words[nblock] := uc;
  }

  lemma {:induction false} CountRun(b: seq<Byte>, x: Byte, k: nat, c: int)
    ensures Count(b + Repeat(x, k), c, |b| + k) == Count(b, c, |b|) + if c == x then k else 0
  {
    if k == 0 {
      assert b + Repeat(x, 0) == b;
    } else {
      CountRun(b, x, k - 1, c);
      var d := b + Repeat(x, k - 1);
      assert b + Repeat(x, k) == d + [x];
      CountPrefix(d, x, c, |d|);
    }
  }

  /** A run of es bytes is counted, then written as far as the block size allows. */
  method WriteRun(words: array<int>, unzftab: array<int>, nblock0: int, es0: int, uc: Byte, nblockMAX: int,
                  ghost b: seq<Byte>)
    returns (ok: bool, nblock: int)
    requires Written(words, unzftab, b) && nblock0 == |b| <= nblockMAX <= words.Length && words != unzftab && 0 <= es0
    modifies words, unzftab
    ensures ok <==> es0 <= nblockMAX - nblock0
    ensures ok ==> nblock == nblock0 + es0 && Written(words, unzftab, b + Repeat(uc, es0))
  {
    unzftab[uc] := unzftab[uc] + es0;
    var es := es0;
    nblock := nblock0;
    while es > 0
      invariant 0 <= es <= es0 && nblock == nblock0 + es0 - es <= nblockMAX
      invariant forall i :: 0 <= i < |b| ==> words[i] == b[i]
      invariant forall i :: |b| <= i < nblock ==> words[i] == uc
      invariant forall c :: 0 <= c < 256 ==> unzftab[c] == Count(b, c, |b|) + if c == uc then es0 else 0
    {
      if nblock >= nblockMAX { return false, nblock; }
      words[nblock] := uc;
      nblock := nblock + 1;
      es := es - 1;
    }
    forall c | 0 <= c < 256 ensures unzftab[c] == Count(b + Repeat(uc, es0), c, |b| + es0) { CountRun(b, uc, es0, c); }
    ok := true;
  }

  // ---------- the pass ----------

  /** The bytes of ranks. */
  function BytesOf(ranks: seq<int>, seqToUnseq: seq<Byte>): (b: seq<Byte>)
    requires |seqToUnseq| == 256 && forall i :: 0 <= i < |ranks| ==> 0 <= ranks[i] < 256
    ensures |b| == |ranks| && forall i :: 0 <= i < |b| ==> b[i] == seqToUnseq[ranks[i]]
  {
    seq(|ranks|, i requires 0 <= i < |ranks| => seqToUnseq[ranks[i]])
  }

  ghost predicate Ranks256(yy: seq<int>) {
    |yy| == 256 && forall k :: 0 <= k < 256 ==> 0 <= yy[k] < 256
  }

  /** Reads a numeral whose first digit has been fetched; stops at the first symbol that is
      not a digit.  (GET_MTF_VAL fails when the symbols run out.) */
  method ReadNumeral(syms: seq<int>, pos0: int, ghost yy: seq<int>, ghost room: int, ghost eob: int)
    returns (ok: bool, es: int, pos: int, ghost weight: nat)
    requires 0 < pos0 <= |syms| && (syms[pos0 - 1] == RUNA || syms[pos0 - 1] == RUNB) && yy != []
    ensures !ok ==> Decode(syms[pos0 - 1..], yy, 0, 1, room, eob) == None
    ensures ok ==> pos0 < pos <= |syms| && syms[pos - 1] != RUNA && syms[pos - 1] != RUNB && 0 < es
    ensures ok ==> Decode(syms[pos0 - 1..], yy, 0, 1, room, eob) == Decode(syms[pos - 1..], yy, es, weight, room, eob)
  {
    var n := 1;
    es, pos := -1, pos0;
    var nextSym := syms[pos0 - 1];
    while true
      invariant pos0 <= pos <= |syms| && 0 < n && -1 <= es && nextSym == syms[pos - 1]
      invariant nextSym == RUNA || nextSym == RUNB
      invariant Decode(syms[pos0 - 1..], yy, 0, 1, room, eob) == Decode(syms[pos - 1..], yy, es + 1, n, room, eob)
      decreases |syms| - pos
    {
      assert syms[pos - 1..][1..] == syms[pos..];
      if n >= WEIGHT_LIMIT { return false, es, pos, 0; }
      if nextSym == RUNA { es := es + (0 + 1) * n; } else if nextSym == RUNB { es := es + (1 + 1) * n; }
      n := n * 2;
      if pos == |syms| { return false, es, pos, 0; }
      nextSym := syms[pos];
      pos := pos + 1;
      if !(nextSym == RUNA || nextSym == RUNB) { break; }
    }
    ok, es, weight := true, es + 1, n;
  }

  /** Where the pass stands: the bytes written and what is still coded make up the whole. */
  ghost predicate Standing(syms: seq<int>, pos: int, yy: seq<int>, done: seq<int>, room: int, eob: int,
                           all: Option<seq<int>>) {
    && 0 < pos <= |syms| && Ranks256(yy) && (forall i :: 0 <= i < |done| ==> 0 <= done[i] < 256)
    && all == PrependRanks(done, Decode(syms[pos - 1..], yy, 0, 1, room - |done|, eob))
  }

  /** A run of the front symbol: its numeral is read and its bytes written. */
  method RunItem(syms: seq<int>, pos0: int, list: SegmentedList, seqToUnseq: seq<Byte>, words: array<int>,
                 unzftab: array<int>,
                 nblock0: int, nblockMAX: int, ghost eob: int, ghost done0: seq<int>, ghost all: Option<seq<int>>)
    returns (ok: bool, nblock: int, pos: int, ghost done: seq<int>)
    requires list.Valid() && |seqToUnseq| == 256 && words != unzftab && nblock0 == |done0| <= nblockMAX <= words.Length
    requires Standing(syms, pos0, list.List(), done0, nblockMAX, eob, all) &&
             (syms[pos0 - 1] == RUNA || syms[pos0 - 1] == RUNB)
    requires Written(words, unzftab, BytesOf(done0, seqToUnseq))
    modifies words, unzftab
    ensures !ok ==> all == None
    ensures ok ==> pos0 < pos && nblock == |done| <= nblockMAX && Standing(syms, pos, old(list.List()), done, nblockMAX,
                                                                           eob, all)
    ensures ok ==> Written(words, unzftab, BytesOf(done, seqToUnseq))
  {
    hide Written, Decode, SegmentedList.Laid;
    ghost var yy := list.List();
    done, pos, nblock := done0, pos0, nblock0;
    var fits, es, p, weight := ReadNumeral(syms, pos0, yy, nblockMAX - nblock0, eob);
    StandingRun(syms, pos0, yy, done0, nblockMAX, eob, all, fits, es, p, weight);
    if !fits { return false, nblock, pos, done; }
    var front := list.Front();
    var uc := seqToUnseq[front];
    fits, nblock := WriteRun(words, unzftab, nblock0, es, uc, nblockMAX, BytesOf(done0, seqToUnseq));
    if !fits { return false, nblock, pos, done; }
    done, pos := done0 + Repeat<int>(front, es), p;
    assert BytesOf(done, seqToUnseq) == BytesOf(done0, seqToUnseq) + Repeat(uc, es);
    ok := true;
  }

  /** A symbol naming a list position: its byte is written and the list updated. */
  method SymbolItem(syms: seq<int>, pos0: int, list: SegmentedList, seqToUnseq: seq<Byte>, words: array<int>,
                    unzftab: array<int>,
                    nblock0: int, nblockMAX: int, ghost eob: int, ghost done0: seq<int>, ghost all: Option<seq<int>>)
    returns (ok: bool, nblock: int, pos: int, ghost done: seq<int>)
    requires list.Valid() && |seqToUnseq| == 256 && words != unzftab && nblock0 == |done0| <= nblockMAX <= words.Length
    requires words != list.mtfbase && unzftab != list.mtfbase
    requires Standing(syms, pos0, list.List(), done0, nblockMAX, eob, all)
    requires var d := syms[pos0 - 1]; d != RUNA && d != RUNB && d != eob && 0 <= d - 1 < 256
    requires Written(words, unzftab, BytesOf(done0, seqToUnseq))
    modifies words, unzftab, list.mtfa, list.mtfbase
    ensures list.Valid()
    ensures !ok ==> all == None
    ensures ok ==> pos0 < pos && nblock == |done| <= nblockMAX && Standing(syms, pos, list.List(), done, nblockMAX, eob,
                                                                           all)
    ensures ok ==> Written(words, unzftab, BytesOf(done, seqToUnseq))
  {
    hide Written, Decode, SegmentedList.Laid, MoveFront;
    ghost var yy := list.List();
    done, pos, nblock := done0, pos0, nblock0;
    StandingSymbol(syms, pos0, yy, done0, nblockMAX, eob, all);
    if nblock0 >= nblockMAX { return false, nblock, pos, done; }
    var uc := list.Access(syms[pos0 - 1] - 1);
    WriteByte(words, unzftab, nblock0, seqToUnseq[uc], BytesOf(done0, seqToUnseq));
    done, nblock := done0 + [uc as int], nblock0 + 1;
    assert BytesOf(done, seqToUnseq) == BytesOf(done0, seqToUnseq) + [seqToUnseq[uc]];
    if pos == |syms| { return false, nblock, pos, done; }
    ok, pos := true, pos0 + 1;
  }

  /** The pass over one block.  It fails exactly when the symbols do not decode within the
      block size; otherwise words holds the last column and unzftab its symbol counts. */
  method DecodeBlock(syms: seq<int>, seqToUnseq: seq<Byte>, nInUse: int, words: array<int>, unzftab: array<int>,
                     nblockMAX: int)
    returns (ok: bool, nblock: int)
    requires |seqToUnseq| == 256 && 0 < nInUse <= 256 && unzftab.Length == 256 && 0 <= nblockMAX <= words.Length &&
             words != unzftab
    requires forall i :: 0 <= i < |syms| ==> 0 <= syms[i] <= nInUse + 1
    modifies words, unzftab
    ensures var d := Decode(syms, IdentityList(), 0, 1, nblockMAX, nInUse + 1);
            && (ok <==> d.Some?)
            && (ok ==> |d.value| == nblock <= nblockMAX && (forall i :: 0 <= i < nblock ==> 0 <= d.value[i] < nInUse)
                       && Written(words, unzftab, BytesOf(d.value, seqToUnseq)))
  {
    hide Written, Decode, SegmentedList.Laid;
    var eob := nInUse + 1;
    for i := 0 to 256
      invariant forall c :: 0 <= c < i ==> unzftab[c] == 0
    {
      unzftab[i] := 0;
    }
    WrittenNothing(words, unzftab);
    var list := new SegmentedList();
    assert list.List() == IdentityList();
    ghost var all, done := Decode(syms, IdentityList(), 0, 1, nblockMAX, eob), [];
    assert BytesOf(done, seqToUnseq) == [];
    nblock := 0;
    if |syms| == 0 { DecodeNothing(syms, eob, nblockMAX); return false, 0; }
    var pos := 1;
    StandingStart(syms, nblockMAX, eob);
    DecodeBelow(syms, IdentityList(), 0, 1, nblockMAX, eob);
    while true
      invariant list.Valid() && fresh(list.mtfa) && fresh(list.mtfbase)
      invariant nblock == |done| <= nblockMAX
      invariant Standing(syms, pos, list.List(), done, nblockMAX, eob, all)
      invariant Written(words, unzftab, BytesOf(done, seqToUnseq))
      decreases |syms| - pos
    {
      var nextSym := syms[pos - 1];
      if nextSym == eob { break; }
      if nextSym == RUNA || nextSym == RUNB {
        ok, nblock, pos, done := RunItem(syms, pos, list, seqToUnseq, words, unzftab, nblock, nblockMAX, eob, done,
                                         all);
        if !ok { return; }
      } else {
        ok, nblock, pos, done := SymbolItem(syms, pos, list, seqToUnseq, words, unzftab, nblock, nblockMAX, eob, done,
                                            all);
        if !ok { return; }
      }
    }
    StandingEnd(syms, pos, list.List(), done, nblockMAX, eob, all);
    ok := true;
  }

  /** The list both sides start from, all 256 entries of it. */
  function IdentityList(): (r: seq<int>)
    ensures |r| == 256 && forall k :: 0 <= k < 256 ==> r[k] == k
  {
    seq(256, k => k)
  }

  lemma DecodeNothing(syms: seq<int>, eob: int, room: int)
    requires |syms| == 0
    ensures Decode(syms, IdentityList(), 0, 1, room, eob) == None
  {
  }

  lemma WrittenNothing(words: array<int>, unzftab: array<int>)
    requires unzftab.Length == 256 && forall c :: 0 <= c < 256 ==> unzftab[c] == 0
    ensures Written(words, unzftab, [])
  {
  }

  lemma StandingStart(syms: seq<int>, room: int, eob: int)
    requires syms != []
    ensures Standing(syms, 1, IdentityList(), [], room, eob, Decode(syms, IdentityList(), 0, 1, room, eob))
  {
    assert syms[0..] == syms;
    var d := Decode(syms, IdentityList(), 0, 1, room, eob);
    if d.Some? { assert [] + d.value == d.value; }
  }

  lemma StandingEnd(syms: seq<int>, pos: int, yy: seq<int>, done: seq<int>, room: int, eob: int, all: Option<seq<int>>)
    requires Standing(syms, pos, yy, done, room, eob, all) && syms[pos - 1] == eob && eob > 1 && |done| <= room
    ensures all == Some(done)
  {
    assert done + Repeat(yy[0], 0) == done;
  }

  lemma StandingRun(syms: seq<int>, pos: int, yy: seq<int>, done: seq<int>, room: int, eob: int, all: Option<seq<int>>,
                    ok: bool, es: int, p: int, weight: nat)
    requires Standing(syms, pos, yy, done, room, eob, all) && |done| <= room
    requires !ok ==> Decode(syms[pos - 1..], yy, 0, 1, room - |done|, eob) == None
    requires ok ==> pos < p <= |syms| && syms[p - 1] != RUNA && syms[p - 1] != RUNB && 0 < es
    requires ok ==> Decode(syms[pos - 1..], yy, 0, 1, room - |done|, eob) == Decode(syms[p - 1..], yy, es, weight,
                                                                                    room - |done|, eob)
    ensures !ok ==> all == None
    ensures ok ==> if es > room - |done| then all == None else Standing(syms, p, yy, done + Repeat(yy[0], es), room,
                                                                        eob, all)
  {
    if ok {
      DecodeAfterRun(syms[p - 1..], yy, es, weight, room - |done|, eob);
      if es <= room - |done| {
        PrependRanksTwice(done, Repeat(yy[0], es), Decode(syms[p - 1..], yy, 0, 1, room - |done| - es, eob));
      }
    }
  }

  lemma StandingSymbol(syms: seq<int>, pos: int, yy: seq<int>, done: seq<int>, room: int, eob: int,
                       all: Option<seq<int>>)
    requires Standing(syms, pos, yy, done, room, eob, all) && |done| <= room
    requires var d := syms[pos - 1]; d != RUNA && d != RUNB && d != eob && 0 <= d - 1 < 256
    ensures room <= |done| ==> all == None
    ensures pos == |syms| ==> all == None
    ensures room > |done| && pos < |syms| ==>
              var j := syms[pos - 1] - 1;
              Standing(syms, pos + 1, MoveFront(yy, j), done + [yy[j]], room, eob, all)
  {
    var j := syms[pos - 1] - 1;
    DecodeSymbolNext(syms[pos - 1..], yy, room - |done|, eob);
    assert syms[pos - 1..][1..] == syms[pos..];
    if room > |done| {
      PrependRanksTwice(done, [yy[j]], Decode(syms[pos..], MoveFront(yy, j), 0, 1, room - |done| - 1, eob));
    }
  }
}
