/** A dynamic code from both ends: what build_tree makes of any frequencies, inflate_table
    accepts, and its table leads from every code back to its symbol. */
module CodeTables {
  import opened Common
  import opened CanonicalCode
  import opened BitReversal
  import opened TableSpec
  import opened InflateTable
  import GenCodes
  import BitLengths
  import BuildTree
  import TableRoom
  import TreeCost

  // ---------- reversed codes ----------

  lemma {:induction false} TopBit(b: nat, r: nat, n: nat)
    requires b < 2 && r < Pow2(n)
    ensures Bits(b * Pow2(n) + r, n + 1) == [b] + Bits(r, n)
    decreases n
  {
    if n == 0 {
      assert Bits(b / 2, 0) == [] && Bits(r, 0) == [] && b * 1 + r == b;
      assert Bits(b, 1) == Bits(b / 2, 0) + [b % 2];
    } else {
      HalfOf(b, Pow2(n - 1), r);
      TopBit(b, r / 2, n - 1);
      assert [b] + Bits(r / 2, n - 1) + [r % 2] == [b] + (Bits(r / 2, n - 1) + [r % 2]);
    }
  }

  /** Reversing as a number is reversing as a string. */
  lemma {:induction false} RevIsReversed(v: nat, n: nat)
    ensures Bits(Rev(v, n), n) == GenCodes.Reversed(Bits(v, n))
    decreases n
  {
    if n > 0 {
      RevIsReversed(v / 2, n - 1);
      TopBit(v % 2, Rev(v / 2, n - 1), n - 1);
    }
  }

  lemma CodeIsRev(c: nat, v: nat, n: nat)
    requires c < Pow2(n) && Bits(c, n) == GenCodes.Reversed(Bits(v, n))
    ensures c == Rev(v, n)
  {
    RevIsReversed(v, n);
    BitsValue(c, n);
    BitsValue(Rev(v, n), n);
  }

  // ---------- both ends ----------

  /** How deflate builds each kind of code: its symbols, its limit, and the bits of the root
      table that inflate makes for it. */
  function Elements(ty: CodeType): nat {
    match ty
    case Codes => 19
    case Lens => 286
    case Dists => 30
  }

  function Limit(ty: CodeType): nat { if ty == Codes then 7 else 15 }

  function RootBits(ty: CodeType): nat {
    match ty
    case Codes => 7
    case Lens => 9
    case Dists => 6
  }

  /** The table leads from each code, whatever bits come after it, to its symbol. */
  ghost predicate Meet(ty: CodeType, lens: seq<Byte>, codes: seq<int>, table: seq<Entry>, root: nat)
    requires |lens| <= MaxSymbols(ty)
  {
    && |codes| == |lens| && Pow2(root) <= |table|
    && forall i: nat, hold: nat {:trigger Lookup(table, root, hold), codes[i]} ::
         i < |lens| && lens[i] > 0 && Low(hold, lens[i]) == codes[i] ==>
           var r := Lookup(table, root, hold);
           r.0.op == SymbolOp(ty, i) && r.0.val == SymbolVal(ty, i) && r.1 == lens[i]
  }

  /** Every code is stored with its first bit lowest. */
  ghost predicate Stored(lens: seq<Byte>, codes: seq<int>) {
    && |codes| == |lens|
    && forall n :: 0 <= n < |lens| && 0 < lens[n] ==>
         0 <= codes[n] < Pow2(lens[n]) && Bits(codes[n], lens[n]) == GenCodes.Reversed(CodeBits(lens, n))
  }

  lemma StoredMake(lens: seq<Byte>, codes: seq<int>)
    requires |codes| == |lens|
    requires forall n :: 0 <= n < |lens| && 0 < lens[n] ==>
               0 <= codes[n] < Pow2(lens[n]) && Bits(codes[n], lens[n]) == GenCodes.Reversed(CodeBits(lens, n))
    ensures Stored(lens, codes)
  {
  }

  lemma DecodesMeet(ty: CodeType, lens: seq<Byte>, codes: seq<int>, table: seq<Entry>, root: nat)
    requires |lens| <= MaxSymbols(ty) && Decodes(table, ty, lens, root) && Stored(lens, codes)
    ensures Meet(ty, lens, codes, table, root)
  {
    hide Lookup, Low, Rev, Code, Bits, SymbolOp, SymbolVal;
    forall i: nat, hold: nat | i < |lens| && lens[i] > 0 && Low(hold, lens[i]) == codes[i]
      ensures var r := Lookup(table, root, hold);
              r.0.op == SymbolOp(ty, i) && r.0.val == SymbolVal(ty, i) && r.1 == lens[i]
    {
      CodeOpen(lens, i);
      CodeIsRev(codes[i], Code(lens, i), lens[i]);
    }
  }

  lemma CodeOpen(lens: seq<Byte>, i: int)
    requires 0 <= i < |lens|
    ensures CodeBits(lens, i) == Bits(Code(lens, i), lens[i])
  {
  }

  /** build_tree on frequencies of its own. */
  method MakeCode(freqs: seq<nat>, limit: nat) returns (lens: seq<Byte>, codes: seq<int>)
    requires 3 <= |freqs| <= BuildTree.L_CODES && 1 <= limit <= 15 && |freqs| <= Pow2(limit)
    ensures |lens| <= |freqs| && (forall n :: 0 <= n < |lens| ==> lens[n] <= limit)
    ensures forall n :: 0 <= n < |freqs| && freqs[n] > 0 ==> n < |lens| && lens[n] > 0
    ensures KraftSum(lens, 15, |lens|) == Pow2(15) && Stored(lens, codes)
  {
    hide Pow2, Bits, KraftSum, CodeBits, BuildTree.Bytes, BuildTree.Several, TreeCost.CheapestCode, Stored;
    var freq := new int[2 * |freqs| + 1](i => if 0 <= i < |freqs| then freqs[i] else 0);
    var dl := new int[freq.Length];
    var depth, heap := new int[BuildTree.HEAP_SIZE](_ => 0), new int[BuildTree.HEAP_SIZE];
    var blCount := new int[BitLengths.MAX_BITS + 1];
    BuildTree.CloseBytes(depth[..freq.Length]);
    ghost var given := freq[..];
    assert forall n :: 0 <= n < |freqs| ==> given[n] == freqs[n];
    var made;
    lens, made := BuildTree.Build(freq, dl, depth, heap, blCount, |freqs|, limit);
    codes := made[..];
    StoredMake(lens, codes);
  }

  /** Any frequencies: the code that build_tree makes of them is never refused by
      inflate_table and never out of its room; every symbol that occurs has a code, and
      looking up any bits that begin with it gives the symbol and the length of its code. */
  method ThereAndBack(ty: CodeType, freqs: seq<nat>)
    returns (lens: seq<Byte>, codes: seq<int>, table: array<Entry>, root: nat)
    requires |freqs| == Elements(ty)
    ensures |lens| <= |freqs| && fresh(table) && table.Length == Room(ty)
    ensures forall n :: 0 <= n < |freqs| && freqs[n] > 0 ==> n < |lens| && lens[n] > 0
    ensures Stored(lens, codes) && Meet(ty, lens, codes, table[..], root)
  {
    hide Meet, Decodes, Refused, Request, Pow2, KraftSum, Stored, TableRoom.AsInflated;
    Sizes(ty);
    lens, codes := MakeCode(freqs, Limit(ty));
    table := new Entry[Room(ty)];
    var ret, used;
    Accepted(ty, lens);
    if ty == Codes {
      ghost var order;
      ret, root, used, order := InflateTable.Build(ty, lens, table, RootBits(ty));
    } else {
      ret, root, used := TableRoom.BuildInRoom(ty, lens, table, RootBits(ty));
    }
    DecodesMeet(ty, lens, codes, table[..], root);
  }

  lemma Sizes(ty: CodeType)
    ensures Elements(ty) <= Pow2(Limit(ty)) && Elements(ty) <= BuildTree.L_CODES && Elements(ty) <= MaxSymbols(ty)
  {
    assert Pow2(7) == 128;
    Pow2Monotone(7, 15);
    Pow2Add(7, 8);
    assert Pow2(8) == 256;
  }

  lemma {:induction false} SomeLength(lens: seq<Byte>, n: nat, k: nat)
    requires k <= |lens| && KraftSum(lens, n, k) > 0
    ensures exists i :: 0 <= i < k && lens[i] > 0
  {
    if !(1 <= lens[k - 1] <= n) { SomeLength(lens, n, k - 1); }
  }

  /** A complete code within the limits is what inflate_table accepts. */
  lemma Accepted(ty: CodeType, lens: seq<Byte>)
    requires |lens| <= Elements(ty) && (forall n :: 0 <= n < |lens| ==> lens[n] <= Limit(ty))
    requires KraftSum(lens, 15, |lens|) == Pow2(15)
    ensures !Refused(ty, lens) && NonEmpty(lens) && Request(ty, lens, RootBits(ty))
    ensures ty != Codes ==> TableRoom.AsInflated(ty, lens, RootBits(ty))
  {
    hide KraftSum, Pow2;
    SomeLength(lens, 15, |lens|);
  }
}
