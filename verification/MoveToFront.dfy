/** Move-to-front coding of the last column, with runs of the front symbol written as
    bijective base-two numerals over RUNA and RUNB. */
module MoveToFront {
  import opened Common

  const RUNA := 0
  const RUNB := 1
  const MAX_BLOCK := 900000
  /** The decoder refuses numerals whose next weight would reach this. */
  const WEIGHT_LIMIT := 2 * 1024 * 1024

  function MoveFront(yy: seq<int>, j: int): (r: seq<int>)
    requires 0 <= j < |yy|
    ensures |r| == |yy|
  {
    [yy[j]] + yy[..j] + yy[j + 1..]
  }

  // ---------- run numerals ----------

  /** The numeral the encoder writes for a run of z + 1. */
  function RunCode(z: nat): (r: seq<int>)
    ensures |r| > 0 && forall k :: 0 <= k < |r| ==> r[k] == RUNA || r[k] == RUNB
  {
    [z % 2] + if z < 2 then [] else RunCode((z - 2) / 2)
  }

  /** The run length a numeral stands for. */
  function RunValue(digits: seq<int>): int {
    if digits == [] then 0 else digits[0] + 1 + 2 * RunValue(digits[1..])
  }

  lemma {:induction false} RunCodeValue(z: nat)
    ensures RunValue(RunCode(z)) == z + 1
  {
    if z >= 2 {
      RunCodeValue((z - 2) / 2);
      assert RunCode(z)[1..] == RunCode((z - 2) / 2);
    } else {
      assert RunCode(z)[1..] == [];
    }
  }

  /** A numeral of k digits stands for at least 2^k - 1. */
  lemma {:induction false} RunCodeLength(z: nat)
    ensures Pow2(|RunCode(z)|) <= z + 2
  {
    if z >= 2 { RunCodeLength((z - 2) / 2); }
  }

  // ---------- coding and decoding, as functions ----------

  /** The position of c in yy. */
  function IndexOf(yy: seq<int>, c: int): (j: int)
    requires c in yy
    ensures 0 <= j < |yy| && yy[j] == c
  {
    if yy[0] == c then 0 else 1 + IndexOf(yy[1..], c)
  }

  /** The symbols for the ranks ll, with list yy and z front symbols waiting. */
  function Encode(ll: seq<int>, yy: seq<int>, z: nat, eob: int): seq<int>
    requires forall k :: 0 <= k < |ll| ==> ll[k] in yy
    decreases |ll|
  {
    var run := if z > 0 then RunCode(z - 1) else [];
    if ll == [] then run + [eob]
    else if yy[0] == ll[0] then Encode(ll[1..], yy, z + 1, eob)
    else
      var j := IndexOf(yy, ll[0]);
      MoveFrontSame(yy, j);
      run + [j + 1] + Encode(ll[1..], MoveFront(yy, j), 0, eob)
  }

  lemma MoveFrontSame(yy: seq<int>, j: int)
    requires 0 <= j < |yy|
    ensures forall c :: c in yy <==> c in MoveFront(yy, j)
  {
    forall c | c in yy ensures c in MoveFront(yy, j) {
      var k :| 0 <= k < |yy| && yy[k] == c;
      assert MoveFront(yy, j)[if k == j then 0 else if k < j then k + 1 else k] == c;
    }
  }

  /** What the symbols stand for, given list yy, a numeral read so far worth run whose next
      weight is weight, and room for so many more ranks. */
  function Decode(syms: seq<int>, yy: seq<int>, run: nat, weight: nat, room: int, eob: int): Option<seq<int>>
    requires yy != []
    decreases |syms|
  {
    if syms == [] then None
    else if syms[0] == RUNA || syms[0] == RUNB then
      if weight >= WEIGHT_LIMIT then None
      else Decode(syms[1..], yy, run + (syms[0] + 1) * weight, 2 * weight, room, eob)
    else if run > room then None
    else if syms[0] == eob then Some(Repeat(yy[0], run))
    else if run == room || !(0 <= syms[0] - 1 < |yy|) then None
    else
      var j := syms[0] - 1;
      match Decode(syms[1..], MoveFront(yy, j), 0, 1, room - run - 1, eob)
      case None => None
      case Some(rest) => Some(Repeat(yy[0], run) + [yy[j]] + rest)
  }

  // ---------- round trip ----------

  lemma NumeralStep(weight: int, d: int, v: int, p: int)
    requires weight > 0 && p > 0
    ensures weight * (2 * p) == (2 * weight) * p && weight < weight * (2 * p)
    ensures weight * (d + 1 + 2 * v) == (d + 1) * weight + (2 * weight) * v
  {
    MulDouble(weight, p);
    MulAssociative(2, weight, p);
    MulStrict(1, 2 * p, weight);
    MulDistributes(weight, d + 1, 2 * v);
    MulDouble(weight, v);
    MulAssociative(2, weight, v);
  }

  /** The decoder adds up a numeral to its value. */
  lemma {:induction false} DecodeNumeral(digits: seq<int>, rest: seq<int>, yy: seq<int>, run: nat, weight: nat,
                                         room: int, eob: int)
    requires yy != [] && forall k :: 0 <= k < |digits| ==> digits[k] == RUNA || digits[k] == RUNB
    requires weight * Pow2(|digits|) <= WEIGHT_LIMIT
    requires 0 < weight && 0 <= run + weight * RunValue(digits)
    ensures Decode(digits + rest, yy, run, weight, room, eob) ==
            Decode(rest, yy, run + weight * RunValue(digits), weight * Pow2(|digits|), room, eob)
    decreases |digits|
  {
    if digits == [] {
      assert digits + rest == rest;
    } else {
      var d, ds := digits[0], digits[1..];
      assert (digits + rest)[1..] == ds + rest;
      NumeralStep(weight, d, RunValue(ds), Pow2(|ds|));
      DecodeNumeral(ds, rest, yy, run + (d + 1) * weight, 2 * weight, room, eob);
    }
  }

  lemma RunFits(z: nat)
    requires z < MAX_BLOCK
    ensures 1 * Pow2(|RunCode(z)|) <= WEIGHT_LIMIT
  {
    RunCodeLength(z);
  }

  /** A waiting run is decoded in full, then the rest. */
  lemma DecodeRun(z: nat, rest: seq<int>, yy: seq<int>, room: int, eob: int) returns (weight: nat)
    requires yy != [] && z <= MAX_BLOCK
    ensures Decode((if z > 0 then RunCode(z - 1) else []) + rest, yy, 0, 1, room, eob) ==
            Decode(rest, yy, z, weight, room, eob)
  {
    if z > 0 {
      RunFits(z - 1);
      RunCodeValue(z - 1);
      DecodeNumeral(RunCode(z - 1), rest, yy, 0, 1, room, eob);
      weight := 1 * Pow2(|RunCode(z - 1)|);
    } else {
      weight := 1;
      assert [] + rest == rest;
    }
  }

  lemma MoveFrontPrefix(yy: seq<int>, zz: seq<int>, j: int)
    requires yy <= zz && 0 <= j < |yy|
    ensures MoveFront(yy, j) <= MoveFront(zz, j) && MoveFront(yy, j)[0] == yy[j]
  {
    assert zz[..j] == yy[..j];
    var y, z := MoveFront(yy, j), MoveFront(zz, j);
    assert forall k :: 0 <= k < |y| ==> y[k] == z[k];
  }

  /** The decoder takes one move-to-front symbol. */
  lemma DecodeSymbol(z: nat, weight: nat, j: int, rest: seq<int>, zz: seq<int>, room: int, eob: int)
    requires 1 <= j < |zz| && j + 1 != eob && z < room
    requires Decode(rest, MoveFront(zz, j), 0, 1, room - z - 1, eob).Some?
    ensures Decode([j + 1] + rest, zz, z, weight, room, eob) ==
            Some(Repeat(zz[0], z) + [zz[j]] + Decode(rest, MoveFront(zz, j), 0, 1, room - z - 1, eob).value)
  {
    assert ([j + 1] + rest)[1..] == rest;
  }

  /** The inductive step of the round trip at a symbol that is not at the front. */
  lemma RoundTripSymbol(ll: seq<int>, zz: seq<int>, z: nat, room: int, eob: int, j: int, rest: seq<int>)
    requires 1 <= j < |zz| && ll != [] && zz[j] == ll[0] && j + 1 != eob
    requires z < room && z <= MAX_BLOCK
    requires Decode(rest, MoveFront(zz, j), 0, 1, room - z - 1, eob) == Some(ll[1..])
    ensures Decode((if z > 0 then RunCode(z - 1) else []) + [j + 1] + rest, zz, 0, 1, room, eob) ==
            Some(Repeat(zz[0], z) + ll)
  {
    hide Decode, RunCode, MoveFront;
    var run := if z > 0 then RunCode(z - 1) else [];
    assert run + [j + 1] + rest == run + ([j + 1] + rest);
    var weight := DecodeRun(z, [j + 1] + rest, zz, room, eob);
    DecodeSymbol(z, weight, j, rest, zz, room, eob);
    assert Repeat(zz[0], z) + [zz[j]] + ll[1..] == Repeat(zz[0], z) + ll;
  }

  /** Decoding what was coded gives back the ranks, with nothing tripping the weight limit
      or running out of room.  The decoder's list may be longer than the coder's. */
  lemma {:induction false} RoundTrip(ll: seq<int>, yy: seq<int>, zz: seq<int>, z: nat, room: int, eob: int)
    requires yy != [] && yy <= zz && eob == |yy| + 1
    requires forall k :: 0 <= k < |ll| ==> ll[k] in yy
    requires z + |ll| <= room && z + |ll| <= MAX_BLOCK
    ensures Decode(Encode(ll, yy, z, eob), zz, 0, 1, room, eob) == Some(Repeat(yy[0], z) + ll)
    decreases |ll|
  {
    hide Decode, MoveFront, RunCode;
    if ll == [] {
      var weight := DecodeRun(z, [eob], zz, room, eob);
      DecodeEnd(z, weight, zz, room, eob);
      assert Repeat(yy[0], z) + ll == Repeat(zz[0], z);
    } else if yy[0] == ll[0] {
      RoundTrip(ll[1..], yy, zz, z + 1, room, eob);
      assert Repeat(yy[0], z + 1) + ll[1..] == Repeat(yy[0], z) + ll;
    } else {
      var j := IndexOf(yy, ll[0]);
      MoveFrontSame(yy, j);
      MoveFrontPrefix(yy, zz, j);
      forall k | 0 <= k < |ll[1..]| ensures ll[1..][k] in MoveFront(yy, j) { assert ll[1..][k] == ll[k + 1]; }
      RoundTrip(ll[1..], MoveFront(yy, j), MoveFront(zz, j), 0, room - z - 1, eob);
      assert Repeat(ll[0], 0) + ll[1..] == ll[1..];
      assert MoveFront(yy, j)[0] == ll[0];
      RoundTripSymbol(ll, zz, z, room, eob, j, Encode(ll[1..], MoveFront(yy, j), 0, eob));
    }
  }

  lemma DecodeEnd(z: nat, weight: nat, zz: seq<int>, room: int, eob: int)
    requires zz != [] && z <= room && eob > 1
    ensures Decode([eob], zz, z, weight, room, eob) == Some(Repeat(zz[0], z))
  {
  }
}
