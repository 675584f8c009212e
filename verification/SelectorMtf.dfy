/** Move-to-front coding of the selectors, which say for every group of fifty symbols which
    coding table it uses. */
module SelectorMtf {
  import opened MoveToFront
  import opened MtfEncoder

  /** The list positions of the selectors. */
  function Positions(sel: seq<int>, yy: seq<int>): (r: seq<int>)
    requires forall k :: 0 <= k < |sel| ==> sel[k] in yy
    ensures |r| == |sel| && forall k :: 0 <= k < |r| ==> 0 <= r[k] < |yy|
  {
    if sel == [] then []
    else
      var j := IndexOf(yy, sel[0]);
      MoveFrontSame(yy, j);
      [j] + Positions(sel[1..], MoveFront(yy, j))
  }

  /** The selectors at list positions. */
  function SelectorsAt(codes: seq<int>, yy: seq<int>): (r: seq<int>)
    requires forall k :: 0 <= k < |codes| ==> 0 <= codes[k] < |yy|
    ensures |r| == |codes|
  {
    if codes == [] then [] else [yy[codes[0]]] + SelectorsAt(codes[1..], MoveFront(yy, codes[0]))
  }

  lemma {:induction false} PositionsBack(sel: seq<int>, yy: seq<int>)
    requires forall k :: 0 <= k < |sel| ==> sel[k] in yy
    ensures SelectorsAt(Positions(sel, yy), yy) == sel
  {
    hide MoveFront, IndexOf;
    if sel != [] {
      var j := IndexOf(yy, sel[0]);
      PositionsStep(sel, yy);
      PositionsBack(sel[1..], MoveFront(yy, j));
      assert Positions(sel, yy)[1..] == Positions(sel[1..], MoveFront(yy, j));
    }
  }

  /** Finds a selector, moving the entries before it back by one on the way. */
  method FindSelector(pos: array<int>, ll: int) returns (j: int)
    requires ll in pos[..]
    modifies pos
    ensures 0 <= j < pos.Length && j == IndexOf(old(pos[..]), ll) && pos[..] == MoveFront(old(pos[..]), j)
  {
    hide MoveFront, IndexOf;
    ghost var was := pos[..];
    j := 0;
    var tmp := pos[j];
    while ll != tmp
      invariant 0 <= j < pos.Length && tmp == was[j] && ll !in was[..j]
      invariant forall k {:trigger pos[k]} :: 1 <= k <= j ==> pos[k] == was[k - 1]
      invariant forall k {:trigger pos[k]} :: j < k < pos.Length ==> pos[k] == was[k]
      decreases pos.Length - j
    {
      FurtherOn(was, ll, j);
      j := j + 1;
      var tmp2 := tmp;
      tmp := pos[j];
      pos[j] := tmp2;
    }
    pos[0] := tmp;
    IndexOfIs(was, ll, j);
    MoveFrontIs(was, pos[..], j);
  }

  lemma FurtherOn(yy: seq<int>, c: int, j: int)
    requires c in yy && 0 <= j < |yy| && c !in yy[..j] && yy[j] != c
    ensures j + 1 < |yy| && c !in yy[..j + 1]
  {
    var k :| 0 <= k < |yy| && yy[k] == c;
    assert forall i :: 0 <= i < j ==> yy[..j][i] == yy[i] && yy[i] != c;
    assert yy[..j + 1] == yy[..j] + [yy[j]];
  }

  /** The positions of all selectors, from a list in order. */
  method EncodeSelectors(selector: seq<int>, nGroups: nat) returns (selectorMtf: seq<int>)
    requires forall k :: 0 <= k < |selector| ==> 0 <= selector[k] < nGroups
    ensures forall k :: 0 <= k < |selector| ==> selector[k] in Identity(nGroups)
    ensures selectorMtf == Positions(selector, Identity(nGroups))
  {
    hide MoveFront, IndexOf, Positions;
    var pos := new int[nGroups](k => k);
    assert pos[..] == Identity(nGroups);
    forall k | 0 <= k < |selector| ensures selector[k] in Identity(nGroups) {
      assert Identity(nGroups)[selector[k]] == selector[k];
    }
    selectorMtf := [];
    assert selector[0..] == selector;
    for i := 0 to |selector|
      invariant forall k :: 0 <= k < |selector[i..]| ==> selector[i..][k] in pos[..]
      invariant selectorMtf + Positions(selector[i..], pos[..]) == Positions(selector, Identity(nGroups))
    {
      ghost var was := pos[..];
      assert selector[i..][0] == selector[i] && selector[i..][1..] == selector[i + 1..];
      var j := FindSelector(pos, selector[i]);
      PositionsStep(selector[i..], was);
      selectorMtf := selectorMtf + [j];
    }
    PositionsNone(selector[|selector|..], pos[..]);
  }

  lemma PositionsStep(sel: seq<int>, yy: seq<int>)
    requires sel != [] && forall k :: 0 <= k < |sel| ==> sel[k] in yy
    ensures var j := IndexOf(yy, sel[0]);
            && (forall k :: 0 <= k < |sel[1..]| ==> sel[1..][k] in MoveFront(yy, j))
            && Positions(sel, yy) == [j] + Positions(sel[1..], MoveFront(yy, j))
  {
    hide MoveFront, IndexOf;
    var j := IndexOf(yy, sel[0]);
    MoveFrontSame(yy, j);
    forall k | 0 <= k < |sel[1..]| ensures sel[1..][k] in MoveFront(yy, j) { assert sel[1..][k] == sel[k + 1]; }
  }

  lemma PositionsNone(sel: seq<int>, yy: seq<int>)
    requires sel == []
    ensures Positions(sel, yy) == []
  {
  }

  /** Moves the entry at a position to the front, from the back. */
  method TakeSelector(pos: array<int>, v0: int) returns (tmp: int)
    requires 0 <= v0 < pos.Length
    modifies pos
    ensures tmp == old(pos[v0]) && pos[..] == MoveFront(old(pos[..]), v0)
  {
    hide MoveFront;
    ghost var was := pos[..];
    var v := v0;
    tmp := pos[v];
    while v > 0
      invariant 0 <= v <= v0
      invariant forall k {:trigger pos[k]} :: 0 <= k <= v ==> v == v0 || k == v || pos[k] == was[k]
      invariant forall k {:trigger pos[k]} :: 0 <= k < v ==> pos[k] == was[k]
      invariant forall k {:trigger pos[k]} :: v < k <= v0 ==> pos[k] == was[k - 1]
      invariant forall k {:trigger pos[k]} :: v0 < k < pos.Length ==> pos[k] == was[k]
    {
      pos[v] := pos[v - 1];
      v := v - 1;
    }
    pos[0] := tmp;
    MoveFrontIs(was, pos[..], v0);
  }

  /** Undoes the coding, from one array to the other. */
  method DecodeSelectors(selectorMtf: seq<int>, nGroups: nat, nSelectors: nat, selector: array<int>)
    requires nSelectors <= |selectorMtf| && nSelectors <= selector.Length
    requires forall k :: 0 <= k < nSelectors ==> 0 <= selectorMtf[k] < nGroups
    modifies selector
    ensures selector[..nSelectors] == SelectorsAt(selectorMtf[..nSelectors], Identity(nGroups))
    ensures forall k :: 0 <= k < nSelectors ==> 0 <= selector[k] < nGroups
  {
    hide MoveFront, SelectorsAt;
    ghost var codes := selectorMtf[..nSelectors];
    var pos := new int[nGroups](k => k);
    assert pos[..] == Identity(nGroups);
    assert codes[0..] == codes;
    for i := 0 to nSelectors
      invariant forall k :: 0 <= k < pos.Length ==> 0 <= pos[k] < nGroups
      invariant forall k :: 0 <= k < i ==> 0 <= selector[k] < nGroups
      invariant selector[..i] + SelectorsAt(codes[i..], pos[..]) == SelectorsAt(codes, Identity(nGroups))
    {
      ghost var was := pos[..];
      assert codes[i..][0] == codes[i] && codes[i..][1..] == codes[i + 1..];
      var tmp := TakeSelector(pos, selectorMtf[i]);
      SelectorsAtStep(codes[i..], was);
      MovedIn(was, selectorMtf[i], nGroups);
      forall k | 0 <= k < pos.Length ensures 0 <= pos[k] < nGroups { assert pos[..][k] == pos[k]; }
      selector[i] := tmp;
      assert selector[..i + 1] == selector[..i] + [tmp];
    }
    SelectorsAtNone(codes[nSelectors..], pos[..]);
  }

  lemma MovedIn(yy: seq<int>, j: int, n: int)
    requires 0 <= j < |yy| && forall k :: 0 <= k < |yy| ==> 0 <= yy[k] < n
    ensures forall k :: 0 <= k < |MoveFront(yy, j)| ==> 0 <= MoveFront(yy, j)[k] < n
  {
  }

  lemma SelectorsAtStep(codes: seq<int>, yy: seq<int>)
    requires codes != [] && forall k :: 0 <= k < |codes| ==> 0 <= codes[k] < |yy|
    ensures SelectorsAt(codes, yy) == [yy[codes[0]]] + SelectorsAt(codes[1..], MoveFront(yy, codes[0]))
  {
  }

  lemma SelectorsAtNone(codes: seq<int>, yy: seq<int>)
    requires codes == []
    ensures SelectorsAt(codes, yy) == []
  {
  }
}
