/** build_tree of zlib: a Huffman tree for the symbols in use, its lengths and its codes. */
module BuildTree {
  import opened Common
  import opened Rotations
  import opened Counting
  import opened CanonicalCode
  import opened WeightHeap
  import opened LimitedTree
  import opened BitLengths
  import opened GenCodes
  import opened HuffmanCost
  import opened TreeCost
  import opened TreeHeap

  const L_CODES := 286
  const HEAP_SIZE := 2 * L_CODES + 1

  // ---------- the growing tree ----------

  /** How many of the listed nodes have parent x. */
  ghost function Children(s: seq<int>, dad: seq<int>, x: int): nat
    requires forall i :: 0 <= i < |s| ==> 0 <= s[i] < |dad|
  {
    if s == [] then 0 else Children(s[..|s| - 1], dad, x) + if dad[s[|s| - 1]] == x then 1 else 0
  }

  /** The nodes taken out of the heap, latest first, in s; those still in it, in live.
      Every node taken out has a parent, which comes before it or is live; a node made has
      two children; frequencies fall along the list. */
  ghost predicate Grown(s: seq<int>, live: multiset<int>, dad: seq<int>, freq: seq<int>, leaves: set<int>, elems: int,
                        node: int) {
    && 0 < elems <= node <= |dad| == |freq| && Distinct(s) && (forall x :: x in leaves ==> 0 <= x < elems)
    && (forall x :: x in live || x in s <==> x in leaves || elems <= x < node)
    && (forall x :: x in live ==> live[x] == 1 && x !in s)
    && (forall i :: 0 <= i < |s| ==> 0 <= s[i] < node)
    && (forall i :: 0 <= i < |s| ==> elems <= dad[s[i]] < node && (dad[s[i]] in live || dad[s[i]] in s[..i]))
    && (forall x :: elems <= x < node ==> Children(s, dad, x) == 2)
    && Falling(s, live, freq, node)
  }

  /** Frequencies are positive, and no node taken out is more frequent than one taken out
      later or still live. */
  ghost predicate Falling(s: seq<int>, live: multiset<int>, freq: seq<int>, node: int)
    requires node <= |freq|
  {
    && (forall i :: 0 <= i < |s| ==> 0 <= s[i] < node && 0 < freq[s[i]])
    && (forall x :: x in live ==> 0 <= x < node && 0 < freq[x])
    && (forall i, j :: 0 <= i < j < |s| ==> freq[s[j]] <= freq[s[i]])
    && (forall x, i :: x in live && 0 <= i < |s| ==> freq[s[i]] <= freq[x])
  }

  /** The nodes taken out came in pairs, and a pair's parent is as frequent as both. */
  ghost predicate Siblings(s: seq<int>, dad: seq<int>, freq: seq<int>) {
    |s| % 2 == 0 && forall i {:trigger PairedUp(s, dad, freq, i)} :: 0 <= i < |s| ==> PairedUp(s, dad, freq, i)
  }

  ghost predicate PairedUp(s: seq<int>, dad: seq<int>, freq: seq<int>, i: nat) {
    var j := Mate(i + 1) - 1;
    && i < |s| && j < |s| && 0 <= s[i] < |dad| && 0 <= s[j] < |dad| && |dad| == |freq|
    && 0 <= dad[s[i]] < |freq| && dad[s[j]] == dad[s[i]] && freq[dad[s[i]]] == freq[s[i]] + freq[s[j]]
  }

  lemma {:induction false} ChildrenConcat(a: seq<int>, b: seq<int>, dad: seq<int>, x: int)
    requires forall i :: 0 <= i < |a| ==> 0 <= a[i] < |dad|
    requires forall i :: 0 <= i < |b| ==> 0 <= b[i] < |dad|
    ensures (forall i :: 0 <= i < |a + b| ==> 0 <= (a + b)[i] < |dad|) &&
            Children(a + b, dad, x) == Children(a, dad, x) + Children(b, dad, x)
  {
    if b == [] {
      assert a + b == a;
    } else {
      ChildrenConcat(a, b[..|b| - 1], dad, x);
      assert (a + b)[..|a + b| - 1] == a + b[..|b| - 1];
    }
  }

  lemma {:induction false} ChildrenSame(s: seq<int>, dad: seq<int>, dad': seq<int>, x: int)
    requires forall i :: 0 <= i < |s| ==> 0 <= s[i] < |dad| == |dad'| && dad'[s[i]] == dad[s[i]]
    ensures Children(s, dad', x) == Children(s, dad, x)
  {
    if s != [] { ChildrenSame(s[..|s| - 1], dad, dad', x); }
  }

  lemma {:induction false} NoChildren(s: seq<int>, dad: seq<int>, x: int)
    requires forall i :: 0 <= i < |s| ==> 0 <= s[i] < |dad| && dad[s[i]] != x
    ensures Children(s, dad, x) == 0
  {
    if s != [] { NoChildren(s[..|s| - 1], dad, x); }
  }

  lemma TwoChildren(n: int, m: int, dad: seq<int>, node: int, x: int)
    requires 0 <= n < |dad| && 0 <= m < |dad| && dad[n] == dad[m] == node
    ensures Children([m, n], dad, x) == if x == node then 2 else 0
  {
    assert [m, n][..1] == [m] && [m][..0] == [];
    assert Children([m], dad, x) == if x == node then 1 else 0;
  }

  /** Joining the two least frequent live nodes under a new one. */
  lemma Join(s: seq<int>, live: multiset<int>, dad: seq<int>, freq: seq<int>, leaves: set<int>, elems: int, node: int,
             n: int, m: int)
    requires Grown(s, live, dad, freq, leaves, elems, node) && node < |dad|
    requires n in live && m in live - multiset{n}
    requires forall x :: x in live ==> freq[n] <= freq[x]
    requires forall x :: x in live - multiset{n} ==> freq[m] <= freq[x]
    ensures Grown([m, n] + s, live - multiset{n} - multiset{m} + multiset{node}, dad[n := node][m := node],
                  freq[node := freq[n] + freq[m]], leaves, elems, node + 1)
  {
    var s', live' := [m, n] + s, live - multiset{n} - multiset{m} + multiset{node};
    var dad', freq' := dad[n := node][m := node], freq[node := freq[n] + freq[m]];
    JoinLists(s, live, dad, freq, leaves, elems, node, n, m);
    JoinFalling(s, live, freq, node, n, m);
    forall x | elems <= x < node + 1 ensures Children(s', dad', x) == 2 {
      JoinChildren(s, live, dad, freq, leaves, elems, node, n, m, x);
    }
  }

  lemma JoinLists(s: seq<int>, live: multiset<int>, dad: seq<int>, freq: seq<int>, leaves: set<int>, elems: int,
                  node: int, n: int, m: int)
    requires Grown(s, live, dad, freq, leaves, elems, node) && node < |dad|
    requires n in live && m in live - multiset{n}
    ensures n != m && 0 <= n < node && 0 <= m < node && n !in s && m !in s
    ensures var s', live' := [m, n] + s, live - multiset{n} - multiset{m} + multiset{node};
            var dad' := dad[n := node][m := node];
            && Distinct(s')
            && (forall x :: x in live' || x in s' <==> x in leaves || elems <= x < node + 1)
            && (forall x :: x in live' ==> live'[x] == 1 && x !in s')
            && (forall i :: 0 <= i < |s'| ==> 0 <= s'[i] < node + 1)
            && (forall i :: 0 <= i < |s'| ==>
                elems <= dad'[s'[i]] < node + 1 && (dad'[s'[i]] in live' || dad'[s'[i]] in s'[..i]))
  {
    hide Children, Falling;
    assert live[n] == 1 && live[m] == 1;
    var s', live' := [m, n] + s, live - multiset{n} - multiset{m} + multiset{node};
    var dad' := dad[n := node][m := node];
    assert node !in live && node !in s;
    forall i | 0 <= i < |s'|
      ensures elems <= dad'[s'[i]] < node + 1 && (dad'[s'[i]] in live' || dad'[s'[i]] in s'[..i])
    {
      if i < 2 {
        assert dad'[s'[i]] == node;
      } else {
        assert s'[i] == s[i - 2] && dad'[s'[i]] == dad[s[i - 2]];
        assert s'[..i] == [m, n] + s[..i - 2];
      }
    }
  }

  lemma JoinFalling(s: seq<int>, live: multiset<int>, freq: seq<int>, node: int, n: int, m: int)
    requires 0 <= node < |freq| && Falling(s, live, freq, node) && n in live && m in live - multiset{n}
    requires forall x :: x in live ==> freq[n] <= freq[x]
    requires forall x :: x in live - multiset{n} ==> freq[m] <= freq[x]
    ensures Falling([m, n] + s, live - multiset{n} - multiset{m} + multiset{node}, freq[node := freq[n] + freq[m]],
                    node + 1)
  {
    var s', live' := [m, n] + s, live - multiset{n} - multiset{m} + multiset{node};
    var freq' := freq[node := freq[n] + freq[m]];
    assert forall i :: 0 <= i < |s'| ==> s'[i] == if i == 0 then m else if i == 1 then n else s[i - 2];
    assert forall x :: x in live' ==> x == node || (x in live - multiset{n} && x in live);
  }

  /** The pair joined last comes first. */
  lemma JoinSiblings(s: seq<int>, dad: seq<int>, freq: seq<int>, node: int, n: int, m: int)
    requires Siblings(s, dad, freq) && 0 <= n < node < |dad| == |freq| && 0 <= m < node && n != m && n !in s && m !in s
    requires forall i :: 0 <= i < |s| ==> 0 <= s[i] < node && dad[s[i]] < node
    ensures Siblings([m, n] + s, dad[n := node][m := node], freq[node := freq[n] + freq[m]])
  {
    hide PairedUp;
    var s', dad', freq' := [m, n] + s, dad[n := node][m := node], freq[node := freq[n] + freq[m]];
    forall i {:trigger PairedUp(s', dad', freq', i)} | 0 <= i < |s'| ensures PairedUp(s', dad', freq', i) {
      if i < 2 {
        NewPair(s, dad, freq, node, n, m, i);
      } else {
        assert PairedUp(s, dad, freq, i - 2);
        OldPair(s, dad, freq, node, n, m, i - 2);
      }
    }
  }

  lemma NewPair(s: seq<int>, dad: seq<int>, freq: seq<int>, node: int, n: int, m: int, i: nat)
    requires 0 <= n < node < |dad| == |freq| && 0 <= m < node && n != m && i < 2
    ensures PairedUp([m, n] + s, dad[n := node][m := node], freq[node := freq[n] + freq[m]], i)
  {
  }

  lemma OldPair(s: seq<int>, dad: seq<int>, freq: seq<int>, node: int, n: int, m: int, i: nat)
    requires PairedUp(s, dad, freq, i) && 0 <= n < node < |dad| && 0 <= m < node && n !in s && m !in s
    requires forall i :: 0 <= i < |s| ==> 0 <= s[i] < node && dad[s[i]] < node
    ensures PairedUp([m, n] + s, dad[n := node][m := node], freq[node := freq[n] + freq[m]], i + 2)
  {
    var j := Mate(i + 1) - 1;
    var s' := [m, n] + s;
    assert s'[i + 2] == s[i] && s'[j + 2] == s[j] && Mate(i + 3) - 1 == j + 2;
    assert s[i] in s && s[j] in s;
  }

  lemma JoinChildren(s: seq<int>, live: multiset<int>, dad: seq<int>, freq: seq<int>, leaves: set<int>, elems: int,
                     node: int, n: int, m: int, x: int)
    requires Grown(s, live, dad, freq, leaves, elems, node) && node < |dad| && elems <= x < node + 1
    requires 0 <= n < node && 0 <= m < node && n !in s && m !in s
    ensures (forall i :: 0 <= i < |[m, n] + s| ==> 0 <= ([m, n] + s)[i] < |dad|) &&
            Children([m, n] + s, dad[n := node][m := node], x) == 2
  {
    hide Children, Falling;
    var dad' := dad[n := node][m := node];
    ChildrenConcat([m, n], s, dad', x);
    TwoChildren(n, m, dad', node, x);
    forall i | 0 <= i < |s| ensures dad'[s[i]] == dad[s[i]] { assert s[i] in s; }
    ChildrenSame(s, dad, dad', x);
    if x == node { NoChildren(s, dad, x); }
  }

  // ---------- the finished tree ----------

  function IndexIn(s: seq<int>, x: int): (i: nat)
    ensures x in s ==> i < |s| && s[i] == x
  {
    if s == [] || s[0] == x then 0 else 1 + IndexIn(s[1..], x)
  }

  /** The position of each node's parent. */
  ghost function ParentPositions(order: seq<int>, dad: seq<int>): (par: seq<int>)
    requires forall i :: 0 <= i < |order| ==> 0 <= order[i] < |dad|
    ensures |par| == |order| && forall i :: 0 <= i < |par| ==> par[i] == IndexIn(order, dad[order[i]])
  {
    seq(|order|, i requires 0 <= i < |order| => IndexIn(order, dad[order[i]]))
  }

  /** With one live node left, the list that starts with it is a tree in gen_bitlen's sense,
      most frequent nodes first. */
  lemma TreeBuilt(s: seq<int>, root: int, dad: seq<int>, freq: seq<int>, leaves: set<int>, elems: int, node: int,
                  maxCode: int)
    requires Grown(s, multiset{root}, dad, freq, leaves, elems, node) && elems <= root < node
    requires maxCode < elems && forall x :: x in leaves ==> x <= maxCode
    ensures var order := [root] + s;
            && (forall i :: 0 <= i < |order| ==> 0 <= order[i] < |dad|)
            && Built(order, dad, maxCode, ParentPositions(order, dad))
            && forall i, j :: 0 <= i < j < |order| ==> freq[order[j]] <= freq[order[i]]
  {
    hide Grown, Kids, Distinct, Parents;
    OrderIsList(s, root, dad, freq, leaves, elems, node);
    OrderParents(s, root, dad, freq, leaves, elems, node);
    var order := [root] + s;
    var par := ParentPositions(order, dad);
    var leaf := Leaves(order, maxCode);
    forall k | 0 <= k < |par| ensures Kids(par, k, |par|) == if leaf[k] then 0 else 2 {
      OrderKids(s, root, dad, freq, leaves, elems, node, maxCode, k);
    }
  }

  lemma OrderIsList(s: seq<int>, root: int, dad: seq<int>, freq: seq<int>, leaves: set<int>, elems: int, node: int)
    requires Grown(s, multiset{root}, dad, freq, leaves, elems, node) && elems <= root < node
    ensures var order := [root] + s;
            && (forall i :: 0 <= i < |order| ==> 0 <= order[i] < |dad|) && Distinct(order) && |dad| == |freq|
            && forall i, j :: 0 <= i < j < |order| ==> freq[order[j]] <= freq[order[i]]
  {
    hide Children;
    var order := [root] + s;
    assert root in multiset{root};
    assert forall i :: 0 < i < |order| ==> order[i] == s[i - 1];
  }

  lemma OrderParents(s: seq<int>, root: int, dad: seq<int>, freq: seq<int>, leaves: set<int>, elems: int, node: int)
    requires Grown(s, multiset{root}, dad, freq, leaves, elems, node) && elems <= root < node
    requires forall i :: 0 <= i < |[root] + s| ==> 0 <= ([root] + s)[i] < |dad|
    ensures var order := [root] + s; var par := ParentPositions(order, dad);
            Parents(par) && forall i {:trigger par[i]} :: 0 < i < |order| ==>
                0 <= par[i] < i && order[par[i]] == dad[order[i]]
  {
    hide Grown;
    var order := [root] + s;
    var par := ParentPositions(order, dad);
    forall i {:trigger par[i]} | 0 < i < |order| ensures 0 <= par[i] < i && order[par[i]] == dad[order[i]] {
      ParentBefore(s, root, dad, freq, leaves, elems, node, i);
    }
  }

  lemma OrderKids(s: seq<int>, root: int, dad: seq<int>, freq: seq<int>, leaves: set<int>, elems: int, node: int,
                  maxCode: int, k: nat)
    requires Grown(s, multiset{root}, dad, freq, leaves, elems, node) && elems <= root < node
    requires maxCode < elems && (forall x :: x in leaves ==> x <= maxCode) && k <= |s|
    requires forall i :: 0 <= i < |[root] + s| ==> 0 <= ([root] + s)[i] < |dad|
    ensures var order := [root] + s; Kids(ParentPositions(order, dad), k,
                                          |order|) == if order[k] <= maxCode then 0 else 2
  {
    hide Grown, Kids, Children, Distinct, Parents;
    var order := [root] + s;
    OrderIsList(s, root, dad, freq, leaves, elems, node);
    OrderParents(s, root, dad, freq, leaves, elems, node);
    KidsAreChildren(order, dad, ParentPositions(order, dad), k, |order|);
    assert order[1..|order|] == s;
    assert order[k] == if k == 0 then root else s[k - 1];
    GrownChildren(s, multiset{root}, dad, freq, leaves, elems, node, order[k]);
  }

  /** Nodes made have two children, symbols none. */
  lemma GrownChildren(s: seq<int>, live: multiset<int>, dad: seq<int>, freq: seq<int>, leaves: set<int>, elems: int,
                      node: int, x: int)
    requires Grown(s, live, dad, freq, leaves, elems, node) && (x in live || x in s)
    ensures forall i :: 0 <= i < |s| ==> 0 <= s[i] < |dad|
    ensures Children(s, dad, x) == if x in leaves then 0 else 2
    ensures x in leaves ==> x < elems
    ensures x !in leaves ==> elems <= x
  {
    hide Children, Falling;
    if x in leaves { NoChildren(s, dad, x); }
  }

  lemma ParentBefore(s: seq<int>, root: int, dad: seq<int>, freq: seq<int>, leaves: set<int>, elems: int, node: int,
                     i: int)
    requires Grown(s, multiset{root}, dad, freq, leaves, elems, node)
    requires 0 < i <= |s|
    ensures var order := [root] + s;
            && 0 <= order[i] < |dad| && dad[order[i]] in order && IndexIn(order, dad[order[i]]) < i
  {
    hide Grown, IndexIn;
    var order := [root] + s;
    ParentListed(s, root, dad, freq, leaves, elems, node, i - 1);
    assert order[i] == s[i - 1];
    var d := dad[order[i]];
    var k := if d == root then 0 else IndexIn(s[..i - 1], d) + 1;
    assert order[k] == d;
    IndexFirst(order, d, k);
  }

  lemma ParentListed(s: seq<int>, root: int, dad: seq<int>, freq: seq<int>, leaves: set<int>, elems: int, node: int,
                     i: nat)
    requires Grown(s, multiset{root}, dad, freq, leaves, elems, node) && i < |s|
    ensures 0 <= s[i] < |dad| && (dad[s[i]] == root || dad[s[i]] in s[..i])
  {
    hide Children, Falling, Distinct;
  }

  lemma {:induction false} IndexFirst(s: seq<int>, x: int, k: nat)
    requires k < |s| && s[k] == x
    ensures x in s && IndexIn(s, x) <= k
  {
    if k > 0 && s[0] != x { IndexFirst(s[1..], x, k - 1); }
  }

  lemma {:induction false} KidsAreChildren(order: seq<int>, dad: seq<int>, par: seq<int>, k: nat, j: nat)
    requires Distinct(order) && |par| == |order| && k < |order| && 1 <= j <= |order|
    requires forall i :: 0 <= i < |order| ==> 0 <= order[i] < |dad|
    requires forall i {:trigger par[i]} :: 0 < i < |order| ==> 0 <= par[i] < |order| && order[par[i]] == dad[order[i]]
    ensures (forall i :: 0 <= i < |order[1..j]| ==> 0 <= order[1..j][i] < |dad|) &&
            Kids(par, k, j) == Children(order[1..j], dad, order[k])
  {
    hide Children;
    if j > 1 {
      KidsAreChildren(order, dad, par, k, j - 1);
      assert order[1..j] == order[1..j - 1] + [order[j - 1]];
      ChildrenPush(order[1..j - 1], order[j - 1], dad, order[k]);
      assert par[j - 1] == k <==> dad[order[j - 1]] == order[k];
    } else {
      assert order[1..j] == [];
      NoneChildren(dad, order[k]);
    }
  }

  lemma NoneChildren(dad: seq<int>, x: int)
    ensures Children([], dad, x) == 0
  {
  }

  lemma ChildrenPush(s: seq<int>, y: int, dad: seq<int>, x: int)
    requires 0 <= y < |dad| && forall i :: 0 <= i < |s| ==> 0 <= s[i] < |dad|
    ensures (forall i :: 0 <= i < |s + [y]| ==> 0 <= (s + [y])[i] < |dad|)
    ensures Children(s + [y], dad, x) == Children(s, dad, x) + if dad[y] == x then 1 else 0
  {
    assert (s + [y])[..|s + [y]| - 1] == s;
  }

  /** The frequencies of the listed nodes. */
  ghost function Frequencies(order: seq<int>, freq: seq<int>): (w: seq<int>)
    requires forall i :: 0 <= i < |order| ==> 0 <= order[i] < |freq|
    ensures |w| == |order| && forall i :: 0 <= i < |w| ==> w[i] == freq[order[i]]
  {
    seq(|order|, i requires 0 <= i < |order| => freq[order[i]])
  }

  /** Brothers stand side by side, and their parent is as frequent as both. */
  lemma OrderMated(s: seq<int>, root: int, dad: seq<int>, freq: seq<int>, leaves: set<int>, elems: int, node: int,
                   i: nat)
    requires Grown(s, multiset{root}, dad, freq, leaves, elems, node) && elems <= root < node && Siblings(s, dad, freq)
    requires (forall i :: 0 <= i < |[root] + s| ==> 0 <= ([root] + s)[i] < |dad| == |freq|) && 0 < i < |s| + 1
    ensures Mated(ParentPositions([root] + s, dad), Frequencies([root] + s, freq), i)
  {
    hide Grown, Parents;
    OrderParents(s, root, dad, freq, leaves, elems, node);
    var order := [root] + s;
    var par := ParentPositions(order, dad);
    assert PairedUp(s, dad, freq, i - 1);
    assert order[i] == s[i - 1] && order[Mate(i)] == s[Mate(i) - 1];
    assert order[par[i]] == dad[order[i]];
  }

  /** The list is a Huffman tree for the symbols up to maxCode. */
  lemma TreeHuffman(s: seq<int>, root: int, dad: seq<int>, freq: seq<int>, leaves: set<int>, elems: int, node: int,
                    maxCode: int)
    requires Grown(s, multiset{root}, dad, freq, leaves, elems, node) && elems <= root < node && Siblings(s, dad, freq)
    requires -1 <= maxCode < elems && forall x :: x in leaves ==> x <= maxCode
    ensures var order := [root] + s;
            && (forall i :: 0 <= i < |order| ==> 0 <= order[i] < |dad| == |freq|) && maxCode < |freq|
            && TreeFor(order, ParentPositions(order, dad), Frequencies(order, freq), freq[..maxCode + 1])
  {
    hide Grown, Built, TreeFor, Mated, Siblings, Distinct;
    TreeBuilt(s, root, dad, freq, leaves, elems, node, maxCode);
    OrderIsList(s, root, dad, freq, leaves, elems, node);
    Positive(s, root, dad, freq, leaves, elems, node);
    var order := [root] + s;
    var par, w := ParentPositions(order, dad), Frequencies(order, freq);
    assert |s| % 2 == 0 by { SiblingsEven(s, dad, freq); }
    forall i: nat | 0 < i < |par| ensures Mated(par, w, i) { OrderMated(s, root, dad, freq, leaves, elems, node, i); }
    MakeTreeFor(order, dad, par, w, freq, maxCode);
  }

  lemma SiblingsEven(s: seq<int>, dad: seq<int>, freq: seq<int>)
    requires Siblings(s, dad, freq)
    ensures |s| % 2 == 0
  {
  }

  lemma MakeTreeFor(order: seq<int>, dad: seq<int>, par: seq<int>, w: seq<int>, freq: seq<int>, maxCode: int)
    requires Built(order, dad, maxCode, par) && |order| % 2 == 1 && -1 <= maxCode < |freq|
    requires (forall i :: 0 <= i < |order| ==> 0 <= order[i] < |freq| && 0 < freq[order[i]]) &&
             w == Frequencies(order, freq)
    requires forall i, j :: 0 <= i < j < |order| ==> freq[order[j]] <= freq[order[i]]
    requires forall i: nat :: 0 < i < |par| ==> Mated(par, w, i)
    ensures TreeFor(order, par, w, freq[..maxCode + 1])
  {
    hide Kids, Distinct, Mated;
    assert Leaves(order, |freq[..maxCode + 1]| - 1) == Leaves(order, maxCode);
  }

  lemma Positive(s: seq<int>, root: int, dad: seq<int>, freq: seq<int>, leaves: set<int>, elems: int, node: int)
    requires Grown(s, multiset{root}, dad, freq, leaves, elems, node)
    ensures |dad| == |freq| && elems <= |freq| && forall i :: 0 <= i < |[root] + s| ==>
              0 <= ([root] + s)[i] < |freq| && 0 < freq[([root] + s)[i]]
  {
    hide Children;
    assert root in multiset{root};
  }

  // ---------- the leaves ----------

  /** The heap holds each leaf once. */
  ghost predicate Holding(live: multiset<int>, leaves: set<int>) {
    forall x :: live[x] == if x in leaves then 1 else 0
  }

  /** The symbols in use, and the greatest of them. */
  ghost predicate InUse(leaves: set<int>, maxCode: int, count: int, elems: int) {
    && |leaves| == count && -1 <= maxCode < elems && (forall x :: x in leaves ==> 0 <= x <= maxCode)
    && (maxCode >= 0 ==> maxCode in leaves)
  }

  lemma OneMore(live: multiset<int>, leaves: set<int>, x: int)
    requires Holding(live, leaves) && x !in leaves
    ensures Holding(live + multiset{x}, leaves + {x}) && |leaves + {x}| == |leaves| + 1
  {
  }

  /** A symbol not yet in use, as build_tree chooses it when fewer than two are. */
  lemma Unused(leaves: set<int>, maxCode: int, count: int, elems: int)
    requires InUse(leaves, maxCode, count, elems) && count < 2
    ensures (if maxCode < 2 then maxCode + 1 else 0) !in leaves
  {
    if maxCode >= 2 {
      SubsetSize({maxCode}, leaves);
      assert |{maxCode}| == 1;
      assert leaves == {maxCode};
    }
  }

  /** Puts all symbols of nonzero frequency into the heap. */
  method CollectLeaves(freq: seq<int>, dl: array<int>, depth: array<int>, heap: array<int>, elems: int)
    returns (heapLen: int, maxCode: int, ghost leaves: set<int>)
    requires 0 < elems <= L_CODES && elems <= |freq| && elems <= dl.Length && depth.Length == heap.Length == HEAP_SIZE
    requires dl != depth && dl != heap && depth != heap && forall n :: 0 <= n < elems ==> 0 <= freq[n]
    modifies dl, depth, heap
    ensures 0 <= heapLen <= elems && InUse(leaves, maxCode, heapLen, elems) &&
            Holding(Content(heap[..], heapLen), leaves)
    ensures forall n :: n in leaves <==> 0 <= n < elems && freq[n] > 0
    ensures forall n :: n in leaves ==> depth[n] == 0
    ensures forall n :: 0 <= n < elems && n !in leaves ==> dl[n] == 0
    ensures forall i :: 0 <= i < depth.Length ==> depth[i] == 0 || depth[i] == old(depth[i])
  {
    hide Content, Holding, InUse;
    heapLen, maxCode, leaves := 0, -1, {};
    NoLeaves(heap[..], elems);
    for n := 0 to elems
      invariant 0 <= heapLen <= n && maxCode < n && InUse(leaves, maxCode, heapLen, elems) &&
                Holding(Content(heap[..], heapLen), leaves)
      invariant forall i :: i in leaves <==> 0 <= i < n && 0 < freq[i]
      invariant forall i :: i in leaves ==> depth[i] == 0
      invariant forall i :: 0 <= i < n && i !in leaves ==> dl[i] == 0
      invariant forall i :: 0 <= i < depth.Length ==> depth[i] == 0 || depth[i] == old(depth[i])
    {
      if freq[n] != 0 {
        OneMore(Content(heap[..], heapLen), leaves, n);
        UseMore(leaves, maxCode, heapLen, elems, n, n);
        heapLen := Enter(heap, heapLen, n);
        maxCode, leaves := n, leaves + {n};
        depth[n] := 0;
      } else {
        dl[n] := 0;
      }
    }
  }

  /** Forces at least two codes, giving unused symbols the frequency one. */
  method ForceTwo(freq: array<int>, depth: array<int>, heap: array<int>, elems: int, heapLen0: int, maxCode0: int,
                  ghost leaves0: set<int>)
    returns (heapLen: int, maxCode: int, ghost leaves: set<int>)
    requires 3 <= elems <= L_CODES && elems <= freq.Length && depth.Length == heap.Length == HEAP_SIZE
    requires freq != depth && freq != heap && depth != heap && 0 <= heapLen0 <= elems
    requires InUse(leaves0, maxCode0, heapLen0, elems) && Holding(Content(heap[..], heapLen0), leaves0)
    requires forall n :: n in leaves0 ==> 0 <= n < elems && 0 < freq[n] && depth[n] == 0
    modifies freq, depth, heap
    ensures 2 <= heapLen <= elems && InUse(leaves, maxCode, heapLen, elems) &&
            Holding(Content(heap[..], heapLen), leaves)
    ensures leaves0 <= leaves && forall n :: n in leaves0 ==> freq[n] == old(freq[n])
    ensures forall n :: n in leaves ==> 0 <= n < elems && 0 < freq[n] && depth[n] == 0
    ensures heapLen0 >= 2 ==> leaves == leaves0 && forall i :: 0 <= i < freq.Length ==> freq[i] == old(freq[i])
    ensures forall i :: 0 <= i < depth.Length ==> depth[i] == 0 || depth[i] == old(depth[i])
  {
    hide Content, Holding, InUse;
    heapLen, maxCode, leaves := heapLen0, maxCode0, leaves0;
    while heapLen < 2
      invariant heapLen0 <= heapLen <= elems && InUse(leaves, maxCode, heapLen, elems) &&
                Holding(Content(heap[..], heapLen), leaves)
      invariant leaves0 <= leaves && forall i :: i in leaves0 ==> freq[i] == old(freq[i])
      invariant forall i :: i in leaves ==> 0 <= i < elems && 0 < freq[i] && depth[i] == 0
      invariant heapLen0 >= 2 ==> leaves == leaves0 && forall i :: 0 <= i < freq.Length ==> freq[i] == old(freq[i])
      invariant forall i :: 0 <= i < depth.Length ==> depth[i] == 0 || depth[i] == old(depth[i])
    {
      Unused(leaves, maxCode, heapLen, elems);
      InUseRange(leaves, maxCode, heapLen, elems);
      ghost var before := maxCode;
      var node := 0;
      if maxCode < 2 {
        maxCode := maxCode + 1;
        node := maxCode;
      }
      OneMore(Content(heap[..], heapLen), leaves, node);
      UseMore(leaves, before, heapLen, elems, node, maxCode);
      heapLen := Enter(heap, heapLen, node);
      leaves := leaves + {node};
      freq[node] := 1;
      depth[node] := 0;
    }
  }

  lemma InUseRange(leaves: set<int>, maxCode: int, count: int, elems: int)
    requires InUse(leaves, maxCode, count, elems)
    ensures -1 <= maxCode < elems && count == |leaves|
  {
  }

  lemma NoLeaves(heap: seq<int>, elems: int)
    requires |heap| > 0 && 0 < elems
    ensures InUse({}, -1, 0, elems) && Holding(Content(heap, 0), {})
  {
  }

  lemma UseMore(leaves: set<int>, maxCode: int, count: int, elems: int, x: int, max: int)
    requires InUse(leaves, maxCode, count, elems) && 0 <= x < elems && x !in leaves && max == Max(x, maxCode)
    ensures InUse(leaves + {x}, max, count + 1, elems)
  {
  }

  /** heap[++heap_len] = n. */
  method Enter(heap: array<int>, heapLen0: int, n: int) returns (heapLen: int)
    requires 0 <= heapLen0 && heapLen0 + 1 < heap.Length
    modifies heap
    ensures heapLen == heapLen0 + 1 && Content(heap[..], heapLen) == old(Content(heap[..], heapLen0)) + multiset{n}
  {
    ghost var f := heap[..];
    heapLen := heapLen0 + 1;
    heap[heapLen] := n;
    LastContent(heap[..], heapLen);
    assert heap[..][1..heapLen] == f[1..heapLen];
  }

  // ---------- the merging loop ----------

  /** All there is to know between two merges. */
  ghost predicate Merging(heap: array<int>, freq: array<int>, dl: array<int>, depth: array<int>, heapLen: int,
                          heapMax: int,
                          s: seq<int>, leaves: set<int>, elems: int, node: int)
    reads heap, freq, dl, depth
  {
    && 3 <= elems <= L_CODES && 2 * elems <= freq.Length == dl.Length <= HEAP_SIZE &&
       depth.Length == heap.Length == HEAP_SIZE
    && freq != dl && freq != depth && freq != heap && dl != depth && dl != heap && depth != heap
    && 1 <= heapLen && |s| % 2 == 0 && heapLen + |s| / 2 == |leaves| <= elems && node == elems + |s| / 2
    && heapMax == HEAP_SIZE - |s| && heap[heapMax..] == s
    && Bytes(depth[..freq.Length])
    && Grown(s, Content(heap[..], heapLen), dl[..], freq[..], leaves, elems, node)
    && Siblings(s, dl[..], freq[..])
    && HeapFrom(heap[..], Keys(freq[..], depth[..freq.Length]), heapLen, 1)
  }

  ghost predicate Bytes(depth: seq<int>) {
    forall i :: 0 <= i < |depth| ==> 0 <= depth[i] < 256
  }

  /** The least node by key is least by frequency, and of those equally frequent the
      shallowest. */
  lemma KeyFrequency(freq: seq<int>, depth: seq<int>, n: int, x: int)
    requires |freq| == |depth| && Bytes(depth) && 0 <= n < |freq| && 0 <= x < |freq|
    requires Keys(freq, depth)[n] <= Keys(freq, depth)[x]
    ensures freq[n] <= freq[x] && (freq[n] == freq[x] ==> depth[n] <= depth[x])
  {
  }

  /** pqremove. */
  method PqRemove(heap: array<int>, freq: seq<int>, depth: seq<int>, heapLen0: int) returns (n: int, heapLen: int)
    requires |freq| == |depth| && Bytes(depth) && 2 <= heapLen0 < heap.Length &&
             HeapFrom(heap[..], Keys(freq, depth), heapLen0, 1)
    modifies heap
    ensures heapLen == heapLen0 - 1 && HeapFrom(heap[..], Keys(freq, depth), heapLen, 1)
    ensures n in old(Content(heap[..], heapLen0)) && 0 <= n < |freq|
    ensures forall x :: x in old(Content(heap[..], heapLen0)) ==> 0 <= x < |freq| && freq[n] <= freq[x]
    ensures forall x :: x in old(Content(heap[..], heapLen0)) && freq[x] == freq[n] ==> depth[n] <= depth[x]
    ensures Content(heap[..], heapLen) == old(Content(heap[..], heapLen0)) - multiset{n}
    ensures forall i :: heapLen0 < i < heap.Length ==> heap[i] == old(heap[i])
  {
    hide Content, Keys, HeapFrom;
    ghost var f, wt := heap[..], Keys(freq, depth);
    LeastOfContent(f, wt, heapLen0);
    n := heap[1];
    forall x | x in Content(f, heapLen0)
      ensures 0 <= x < |freq| && freq[n] <= freq[x] && (freq[n] == freq[x] ==> depth[n] <= depth[x])
    {
      KeyFrequency(freq, depth, n, x);
    }
    var last := heap[heapLen0];
    HeapRange(f, wt, heapLen0);
    Shorter(f, wt, heapLen0);
    heapLen := heapLen0 - 1;
    NewRoot(f, wt, wt, heapLen, last);
    RemoveRoot(f, heapLen0);
    heap[1] := last;
    assert heap[..] == f[1 := last];
    PqDownHeap(heap, freq, depth, heapLen, 1);
  }

  lemma RemoveRoot(f: seq<int>, n: int)
    requires 2 <= n < |f|
    ensures Content(f[1 := f[n]], n - 1) == Content(f, n) - multiset{f[1]}
  {
    assert f[1..n + 1] == [f[1]] + f[2..n] + [f[n]];
    assert f[1 := f[n]][1..n] == [f[n]] + f[2..n];
  }

  lemma HeapRange(f: seq<int>, wt: seq<int>, n: int)
    requires HeapFrom(f, wt, n, 1)
    ensures 0 <= n < |f| && forall j :: 1 <= j <= n ==> 0 <= f[j] < |wt|
  {
  }

  lemma HeapifyStep(f: seq<int>, wt: seq<int>, n: int, k: int)
    requires HeapFrom(f, wt, n, k + 1) && 1 <= k <= n
    ensures DownFrom(f, wt, n, k, k)
  {
  }

  lemma HeapifyStart(f: seq<int>, wt: seq<int>, n: int)
    requires 0 <= n < |f| && forall j :: 1 <= j <= n ==> 0 <= f[j] < |wt|
    ensures HeapFrom(f, wt, n, n / 2 + 1)
  {
  }

  /** Makes a heap of heap[1..heapLen]. */
  method Heapify(heap: array<int>, freq: seq<int>, depth: seq<int>, heapLen: int)
    requires |freq| == |depth| && Bytes(depth) && 1 <= heapLen < heap.Length && forall j :: 1 <= j <= heapLen ==>
               0 <= heap[j] < |freq|
    modifies heap
    ensures HeapFrom(heap[..], Keys(freq, depth), heapLen, 1) &&
            Content(heap[..], heapLen) == old(Content(heap[..], heapLen))
  {
    hide Content, Keys, HeapFrom, DownFrom;
    HeapifyStart(heap[..], Keys(freq, depth), heapLen);
    var n := heapLen / 2;
    while n >= 1
      invariant 0 <= n <= heapLen / 2
      invariant HeapFrom(heap[..], Keys(freq, depth), heapLen, n + 1) &&
                Content(heap[..], heapLen) == old(Content(heap[..], heapLen))
    {
      HeapifyStep(heap[..], Keys(freq, depth), heapLen, n);
      PqDownHeap(heap, freq, depth, heapLen, n);
      n := n - 1;
    }
  }

  /** Live nodes are among those made so far, so the entry of a new node is not theirs. */
  lemma NewKeys(f: seq<int>, freq: seq<int>, depth: seq<int>, freq': seq<int>, depth': seq<int>, n: int, node: int)
    requires |freq| == |depth| == |freq'| == |depth'| && HeapFrom(f, Keys(freq, depth), n, 1) && 1 <= n
    requires forall x :: x in Content(f, n) ==> 0 <= x < node
    requires 0 <= node < |freq| && forall x :: 0 <= x < node ==> freq'[x] == freq[x] && depth'[x] == depth[x]
    ensures DownFrom(f[1 := node], Keys(freq', depth'), n, 1, 1)
  {
    hide Content;
    forall j | 2 <= j <= n ensures Keys(freq', depth')[f[j]] == Keys(freq, depth)[f[j]] {
      ContentHas(f, n, f[j]);
      assert f[j] in Content(f, n);
    }
    NewRoot(f, Keys(freq, depth), Keys(freq', depth'), n, node);
  }

  lemma LiveBelow(s: seq<int>, live: multiset<int>, dad: seq<int>, freq: seq<int>, leaves: set<int>, elems: int,
                  node: int)
    requires Grown(s, live, dad, freq, leaves, elems, node)
    ensures (forall x :: x in live ==> 0 <= x < node) && node <= |dad| == |freq|
  {
  }

  /** What lies beyond the heap does not matter to it. */
  lemma SamePrefix(f: seq<int>, g: seq<int>, wt: seq<int>, n: int)
    requires 0 <= n < |f| == |g| && forall j :: 0 <= j <= n ==> f[j] == g[j]
    ensures Content(f, n) == Content(g, n) && (HeapFrom(f, wt, n, 1) <==> HeapFrom(g, wt, n, 1))
  {
    assert f[1..n + 1] == g[1..n + 1];
  }

  lemma LeastFrequent(f: seq<int>, freq: seq<int>, depth: seq<int>, n: int)
    requires |freq| == |depth| && Bytes(depth) && HeapFrom(f, Keys(freq, depth), n, 1) && 1 <= n
    ensures f[1] in Content(f, n) && 0 <= f[1] < |freq|
    ensures forall x :: x in Content(f, n) ==> 0 <= x < |freq| && freq[f[1]] <= freq[x]
    ensures forall x :: x in Content(f, n) && freq[x] == freq[f[1]] ==> depth[f[1]] <= depth[x]
  {
    hide Content, Keys;
    LeastOfContent(f, Keys(freq, depth), n);
    forall x | x in Content(f, n)
      ensures freq[f[1]] <= freq[x] && (freq[x] == freq[f[1]] ==> depth[f[1]] <= depth[x])
    {
      KeyFrequency(freq, depth, f[1], x);
    }
  }

  /** Moves the two least frequent nodes, of equally frequent ones the shallowest, from the
      heap to the sorted list; the second is still at the root of the heap. */
  method TakeTwo(heap: array<int>, freq: seq<int>, depth: seq<int>, heapLen0: int, heapMax0: int)
    returns (n: int, m: int, heapLen: int, heapMax: int)
    requires |freq| == |depth| && Bytes(depth) && 2 <= heapLen0 && heapLen0 + 2 < heapMax0 <= heap.Length
    requires HeapFrom(heap[..], Keys(freq, depth), heapLen0, 1)
    modifies heap
    ensures heapLen == heapLen0 - 1 && heapMax == heapMax0 - 2 && heap[heapMax..] == [m, n] + old(heap[heapMax0..])
    ensures HeapFrom(heap[..], Keys(freq, depth), heapLen, 1) && heap[1] == m
    ensures Content(heap[..], heapLen) == old(Content(heap[..], heapLen0)) - multiset{n}
    ensures n in old(Content(heap[..], heapLen0)) && m in old(Content(heap[..], heapLen0)) - multiset{n}
    ensures 0 <= n < |freq| && 0 <= m < |freq|
    ensures forall x :: x in old(Content(heap[..], heapLen0)) ==> 0 <= x < |freq| && freq[n] <= freq[x]
    ensures forall x :: x in old(Content(heap[..], heapLen0)) - multiset{n} ==> 0 <= x < |freq| && freq[m] <= freq[x]
    ensures forall x :: x in old(Content(heap[..], heapLen0)) && freq[x] == freq[n] ==> depth[n] <= depth[x]
    ensures forall x :: x in old(Content(heap[..], heapLen0)) - multiset{n} && freq[x] == freq[m] ==>
              depth[m] <= depth[x]
  {
    hide Content, Keys, HeapFrom, Bytes;
    ghost var sorted := heap[heapMax0..];
    n, heapLen := PqRemove(heap, freq, depth, heapLen0);
    LeastFrequent(heap[..], freq, depth, heapLen);
    m := heap[1];
    assert heap[heapMax0..] == sorted;
    ghost var f := heap[..];
    heap[heapMax0 - 1] := n;
    heap[heapMax0 - 2] := m;
    heapMax := heapMax0 - 2;
    assert forall j :: 0 <= j <= heapLen ==> heap[j] == f[j];
    SamePrefix(f, heap[..], Keys(freq, depth), heapLen);
    assert heap[heapMax..] == [m, n] + sorted;
  }

  /** The new node goes to the root of the heap and sinks to its place. */
  method PutNode(heap: array<int>, freq: seq<int>, depth: seq<int>, heapLen: int, heapMax: int, node: int,
                 ghost freq0: seq<int>, ghost depth0: seq<int>)
    requires |freq| == |depth| == |freq0| == |depth0| && Bytes(depth) && 1 <= heapLen < heapMax <= heap.Length
    requires HeapFrom(heap[..], Keys(freq0, depth0), heapLen, 1) && 0 <= node < |freq|
    requires forall x :: x in Content(heap[..], heapLen) ==> 0 <= x < node
    requires forall x :: 0 <= x < node ==> freq[x] == freq0[x] && depth[x] == depth0[x]
    modifies heap
    ensures HeapFrom(heap[..], Keys(freq, depth), heapLen, 1) && heap[heapMax..] == old(heap[heapMax..])
    ensures Content(heap[..], heapLen) == old(Content(heap[..], heapLen) - multiset{heap[1]} + multiset{node})
  {
    hide Content, Keys, HeapFrom, DownFrom, Bytes;
    ghost var f := heap[..];
    NewKeys(f, freq0, depth0, freq, depth, heapLen, node);
    RootContent(f, heapLen, node);
    heap[1] := node;
    assert heap[..] == f[1 := node];
    OpenBytes(depth);
    PqDownHeap(heap, freq, depth, heapLen, 1);
    assert heap[heapMax..] == f[heapMax..];
  }

  lemma OpenBytes(depth: seq<int>)
    requires Bytes(depth)
    ensures forall i :: 0 <= i < |depth| ==> 0 <= depth[i] < 256
  {
  }

  lemma DepthBytes(depth: seq<int>, n: int, m: int, node: int)
    requires Bytes(depth) && 0 <= n < |depth| && 0 <= m < |depth| && 0 <= node < |depth|
    ensures Bytes(depth[node := (Max(depth[n], depth[m]) + 1) % 256])
  {
  }

  /** The new node is as frequent as its children together and one deeper than the deeper. */
  method NewNode(freq: array<int>, dl: array<int>, depth: array<int>, n: int, m: int, node: int)
    requires freq != dl && freq != depth && dl != depth && freq.Length == dl.Length <= depth.Length
    requires 0 <= n < node < freq.Length && 0 <= m < node && n != m
    modifies freq, dl, depth
    ensures freq[..] == old(freq[..])[node := old(freq[n] + freq[m])]
    ensures dl[..] == old(dl[..])[n := node][m := node]
    ensures depth[..freq.Length] == old(depth[..freq.Length])[node := (Max(old(depth[n]), old(depth[m])) + 1) % 256]
  {
    freq[node] := freq[n] + freq[m];
    depth[node] := (Max(depth[n], depth[m]) + 1) % 256;
    dl[n], dl[m] := node, node;
  }

  /** Between two merges, what the next one needs. */
  lemma MergingOpen(heap: array<int>, freq: array<int>, dl: array<int>, depth: array<int>, heapLen: int, heapMax: int,
                    s: seq<int>, leaves: set<int>, elems: int, node: int)
    requires Merging(heap, freq, dl, depth, heapLen, heapMax, s, leaves, elems, node)
    ensures 2 * elems <= freq.Length == dl.Length <= HEAP_SIZE && depth.Length == heap.Length == HEAP_SIZE
    ensures freq != dl && freq != depth && freq != heap && dl != depth && dl != heap && depth != heap
    ensures 3 <= elems <= L_CODES && 1 <= heapLen && heapLen + |s| / 2 == |leaves| <= elems &&
            node == elems + |s| / 2 && heapMax == HEAP_SIZE - |s|
    ensures heapMax <= heap.Length && heap[heapMax..] == s && |s| % 2 == 0 && Bytes(depth[..freq.Length])
    ensures heapLen < heap.Length && Grown(s, Content(heap[..], heapLen), dl[..], freq[..], leaves, elems, node) &&
            Siblings(s, dl[..], freq[..])
    ensures HeapFrom(heap[..], Keys(freq[..], depth[..freq.Length]), heapLen, 1)
  {
    hide Bytes, Grown, Siblings, HeapFrom, Keys, Content;
  }

  /** Takes the two least frequent nodes out of the heap and puts their new parent in. */
  method MergeTwo(heap: array<int>, freq: array<int>, dl: array<int>, depth: array<int>, heapLen0: int, heapMax0: int,
                  node: int,
                  ghost s: seq<int>, ghost leaves: set<int>, ghost elems: int)
    returns (heapLen: int, heapMax: int, ghost s': seq<int>)
    requires Merging(heap, freq, dl, depth, heapLen0, heapMax0, s, leaves, elems, node) && heapLen0 >= 2
    modifies heap, freq, dl, depth
    ensures Merging(heap, freq, dl, depth, heapLen, heapMax, s', leaves, elems, node + 1) && heapLen == heapLen0 - 1
    ensures forall x :: 0 <= x < elems && x !in leaves ==> dl[x] == old(dl[x])
    ensures forall x :: 0 <= x < elems ==> freq[x] == old(freq[x])
  {
    hide Content, Keys, HeapFrom, DownFrom, Grown, Bytes, Siblings, Merging;
    MergingOpen(heap, freq, dl, depth, heapLen0, heapMax0, s, leaves, elems, node);
    ghost var live, dad, fr, de := Content(heap[..], heapLen0), dl[..], freq[..], depth[..freq.Length];
    LiveBelow(s, live, dad, fr, leaves, elems, node);
    var n, m;
    n, m, heapLen, heapMax := TakeTwo(heap, freq[..], depth[..freq.Length], heapLen0, heapMax0);
    JoinPair(s, live, dad, fr, de, leaves, elems, node, n, m);
    NewNode(freq, dl, depth, n, m, node);
    PutNode(heap, freq[..], depth[..freq.Length], heapLen, heapMax, node, fr, de);
    s' := [m, n] + s;
    MergingMake(heap, freq, dl, depth, heapLen, heapMax, s', leaves, elems, node + 1);
  }

  lemma MergingMake(heap: array<int>, freq: array<int>, dl: array<int>, depth: array<int>, heapLen: int, heapMax: int,
                    s: seq<int>, leaves: set<int>, elems: int, node: int)
    requires 3 <= elems <= L_CODES && 2 * elems <= freq.Length == dl.Length <= HEAP_SIZE &&
             depth.Length == heap.Length == HEAP_SIZE
    requires freq != dl && freq != depth && freq != heap && dl != depth && dl != heap && depth != heap
    requires 1 <= heapLen && |s| % 2 == 0 && heapLen + |s| / 2 == |leaves| <= elems && node == elems + |s| / 2
    requires heapMax == HEAP_SIZE - |s| && heap[heapMax..] == s && Bytes(depth[..freq.Length])
    requires Grown(s, Content(heap[..], heapLen), dl[..], freq[..], leaves, elems, node) &&
             Siblings(s, dl[..], freq[..])
    requires HeapFrom(heap[..], Keys(freq[..], depth[..freq.Length]), heapLen, 1)
    ensures Merging(heap, freq, dl, depth, heapLen, heapMax, s, leaves, elems, node)
  {
    hide Bytes, Grown, Siblings, HeapFrom, Keys, Content;
  }

  /** All that is known of the two nodes taken out and of what comes of them. */
  lemma JoinPair(s: seq<int>, live: multiset<int>, dad: seq<int>, freq: seq<int>, depth: seq<int>, leaves: set<int>,
                 elems: int, node: int, n: int, m: int)
    requires Grown(s, live, dad, freq, leaves, elems, node) && Siblings(s, dad, freq) && Bytes(depth) &&
             node < |dad| == |freq| == |depth|
    requires n in live && m in live - multiset{n} && (forall x :: x in live ==> 0 <= x < node && freq[n] <= freq[x])
    requires forall x :: x in live - multiset{n} ==> 0 <= x < node && freq[m] <= freq[x]
    ensures 0 <= n < node && 0 <= m < node && n != m && (n < elems ==> n in leaves) && (m < elems ==> m in leaves)
    ensures forall x :: x in live - multiset{n} ==> 0 <= x < node
    ensures Grown([m, n] + s, live - multiset{n} - multiset{m} + multiset{node}, dad[n := node][m := node],
                  freq[node := freq[n] + freq[m]], leaves, elems, node + 1)
    ensures Siblings([m, n] + s, dad[n := node][m := node], freq[node := freq[n] + freq[m]])
    ensures Bytes(depth[node := (Max(depth[n], depth[m]) + 1) % 256])
  {
    hide Grown, Bytes, Siblings;
    LiveLess(live, n, node);
    LiveNode(s, live, dad, freq, leaves, elems, node, n);
    LiveNode(s, live, dad, freq, leaves, elems, node, m);
    Join(s, live, dad, freq, leaves, elems, node, n, m);
    JoinsSiblings(s, live, dad, freq, leaves, elems, node, n, m);
    DepthBytes(depth, n, m, node);
  }

  lemma JoinsSiblings(s: seq<int>, live: multiset<int>, dad: seq<int>, freq: seq<int>, leaves: set<int>, elems: int,
                      node: int, n: int, m: int)
    requires Grown(s, live, dad, freq, leaves, elems, node) && node < |dad| && Siblings(s, dad, freq)
    requires n in live && m in live - multiset{n}
    ensures Siblings([m, n] + s, dad[n := node][m := node], freq[node := freq[n] + freq[m]])
  {
    hide Siblings, Falling, Children;
    assert n != m by { assert live[n] == 1; }
    JoinSiblings(s, dad, freq, node, n, m);
  }

  lemma LiveLess(live: multiset<int>, n: int, node: int)
    requires forall x :: x in live ==> 0 <= x < node
    ensures forall x :: x in live - multiset{n} ==> 0 <= x < node && x in live
  {
  }

  /** A live node below elems is a leaf. */
  lemma LiveNode(s: seq<int>, live: multiset<int>, dad: seq<int>, freq: seq<int>, leaves: set<int>, elems: int,
                 node: int, n: int)
    requires Grown(s, live, dad, freq, leaves, elems, node) && n in live
    ensures n < elems ==> n in leaves
    ensures live[n] == 1
  {
  }

  // ---------- the whole construction ----------

  lemma GrownStart(live: multiset<int>, dad: seq<int>, freq: seq<int>, leaves: set<int>, elems: int)
    requires 0 < elems <= |dad| == |freq| && Holding(live, leaves) && forall x :: x in leaves ==>
               0 <= x < elems && 0 < freq[x]
    ensures Grown([], live, dad, freq, leaves, elems, elems)
  {
  }

  lemma HeldInRange(f: seq<int>, n: int, leaves: set<int>, elems: int)
    requires 0 <= n < |f| && Holding(Content(f, n), leaves) && forall x :: x in leaves ==> 0 <= x < elems
    ensures forall j :: 1 <= j <= n ==> 0 <= f[j] < elems
  {
    hide Content;
    forall j | 1 <= j <= n ensures 0 <= f[j] < elems { ContentHas(f, n, f[j]); }
  }

  /** The nodes of the finished tree, most frequent first. */
  method SortNodes(heap: array<int>, freq: array<int>, dl: array<int>, depth: array<int>, heapLen0: int, elems: int,
                   ghost leaves: set<int>)
    returns (order: seq<int>, ghost node: int)
    requires 3 <= elems <= L_CODES && 2 * elems <= freq.Length == dl.Length <= HEAP_SIZE &&
             depth.Length == heap.Length == HEAP_SIZE
    requires freq != dl && freq != depth && freq != heap && dl != depth && dl != heap && depth != heap
    requires 2 <= heapLen0 <= elems && |leaves| == heapLen0 && Holding(Content(heap[..], heapLen0), leaves)
    requires (forall x :: x in leaves ==> 0 <= x < elems && 0 < freq[x]) && Bytes(depth[..freq.Length])
    modifies heap, freq, dl, depth
    ensures order != [] && elems <= order[0] < node
    ensures Grown(order[1..], multiset{order[0]}, dl[..], freq[..], leaves, elems, node) &&
            Siblings(order[1..], dl[..], freq[..])
    ensures forall x :: 0 <= x < elems && x !in leaves ==> dl[x] == old(dl[x])
    ensures forall x :: 0 <= x < elems ==> freq[x] == old(freq[x])
  {
    hide Content, HeapFrom, Grown, Bytes, Holding, Keys, PairedUp;
    HeldInRange(heap[..], heapLen0, leaves, elems);
    GrownStart(Content(heap[..], heapLen0), dl[..], freq[..], leaves, elems);
    Heapify(heap, freq[..], depth[..freq.Length], heapLen0);
    var heapLen, heapMax := heapLen0, HEAP_SIZE;
    ghost var s: seq<int> := [];
    node := elems;
    var next := elems;
    assert heap[HEAP_SIZE..] == [];
    while true
      invariant Merging(heap, freq, dl, depth, heapLen, heapMax, s, leaves, elems, next) && next == node && heapLen >= 2
      invariant forall x :: 0 <= x < elems && x !in leaves ==> dl[x] == old(dl[x])
      invariant forall x :: 0 <= x < elems ==> freq[x] == old(freq[x])
      decreases heapLen
    {
      heapLen, heapMax, s := MergeTwo(heap, freq, dl, depth, heapLen, heapMax, next, s, leaves, elems);
      next, node := next + 1, node + 1;
      if heapLen < 2 { break; }
    }
    OneLeft(heap[..], s, dl[..], freq[..], leaves, elems, next);
    var root := heap[1];
    heapMax := heapMax - 1;
    heap[heapMax] := root;
    order := heap[heapMax..];
    assert order == [root] + s;
  }

  /** The last node is one that was made, not a symbol. */
  lemma OneLeft(f: seq<int>, s: seq<int>, dad: seq<int>, freq: seq<int>, leaves: set<int>, elems: int, node: int)
    requires |f| > 1 && Grown(s, Content(f, 1), dad, freq, leaves, elems, node) && elems < node
    ensures Content(f, 1) == multiset{f[1]} && elems <= f[1] < node
  {
    hide Falling;
    assert f[1..2] == [f[1]];
    assert Children(s, dad, elems) == 2;
    assert s[..0] == [];
    assert dad[s[0]] in Content(f, 1);
  }

  // ---------- lengths and codes ----------

  lemma {:induction false} LeafCountBound(order: seq<int>, maxCode: int, n: nat)
    requires n <= |order| && Distinct(order) && -1 <= maxCode && forall i :: 0 <= i < |order| ==> 0 <= order[i]
    ensures LeafCount(Leaves(order, maxCode), n) == |LeafSet(order, maxCode, n)| <= maxCode + 1
  {
    LeafSetSize(order, maxCode, n);
    assert forall x :: x in LeafSet(order, maxCode, n) ==> 0 <= x < maxCode + 1;
    SubsetSize(LeafSet(order, maxCode, n), Below(maxCode + 1));
  }

  ghost function LeafSet(order: seq<int>, maxCode: int, n: nat): set<int>
    requires n <= |order|
  {
    set x | x in order[..n] && x <= maxCode
  }

  lemma {:induction false} LeafSetSize(order: seq<int>, maxCode: int, n: nat)
    requires n <= |order| && Distinct(order)
    ensures LeafCount(Leaves(order, maxCode), n) == |LeafSet(order, maxCode, n)|
  {
    hide LeafSet;
    if n == 0 {
      LeafSetNone(order, maxCode);
    } else {
      LeafSetSize(order, maxCode, n - 1);
      LeafSetNext(order, maxCode, n);
    }
  }

  lemma LeafSetNone(order: seq<int>, maxCode: int)
    ensures LeafSet(order, maxCode, 0) == {}
  {
  }

  lemma LeafSetNext(order: seq<int>, maxCode: int, n: nat)
    requires 0 < n <= |order| && Distinct(order)
    ensures order[n - 1] !in LeafSet(order, maxCode, n - 1)
    ensures LeafSet(order, maxCode, n) == LeafSet(order, maxCode, n - 1) +
            if order[n - 1] <= maxCode then {order[n - 1]} else {}
  {
    assert order[..n] == order[..n - 1] + [order[n - 1]];
    assert forall k :: 0 <= k < n - 1 ==> order[..n - 1][k] == order[k] != order[n - 1];
  }

  /** Beyond the longest code no string is added to those used. */
  lemma {:induction false} UsedBeyond(lens: seq<Byte>, m: nat, n: nat)
    requires m <= n && forall i :: 0 <= i < |lens| ==> lens[i] <= m
    ensures Used(lens, n) == Used(lens, m) * Pow2(n - m)
  {
    if m < n {
      UsedBeyond(lens, m, n - 1);
      NoneAbove(lens, n, |lens|);
      MulDouble(Used(lens, m), Pow2(n - 1 - m));
    }
  }

  /** What the lengths of all symbols amount to, given the lengths of the tree's leaves. */
  lemma SymbolsComplete(lens: seq<Byte>, dl: seq<int>, order: seq<int>, maxCode: int, l: nat, blCount: seq<int>)
    requires SymbolLengths(lens, dl, order, maxCode) && 1 <= l <= MAX_BITS && |blCount| == MAX_BITS + 1
    requires forall i :: 0 <= i < |lens| ==> lens[i] <= l
    requires forall d :: 1 <= d <= l ==> blCount[d] == LenIn(dl, order, maxCode, 0, |order|, d)
    requires forall d :: (d == 0 || l < d <= MAX_BITS) ==> blCount[d] == 0
    requires CountedKraft(blCount, l, l) == Pow2(l)
    ensures KraftSum(lens, l, |lens|) == Pow2(l) && Counted(lens, blCount)
    ensures KraftSum(lens, MAX_BITS, |lens|) == Pow2(MAX_BITS) && Kraft(lens, MAX_BITS)
  {
    hide CountedKraft, LenIn, Count, Pow2, KraftSum;
    forall d | 1 <= d <= MAX_BITS ensures blCount[d] == Count(lens, d, |lens|) {
      CountsAgree(lens, dl, order, maxCode, d);
      if d > l { NoneAbove(lens, d, |lens|); }
    }
    UsedIsCounted(lens, blCount, l, l);
    One(Used(lens, l));
    UsedIsKraftSum(lens, l);
    UsedBeyond(lens, l, MAX_BITS);
    Pow2Add(l, MAX_BITS - l);
    UsedIsKraftSum(lens, MAX_BITS);
  }

  lemma One(u: int)
    ensures u * Pow2(0) == u
  {
  }

  /** gen_bitlen and gen_codes on a finished tree. */
  method LengthsAndCodes(dl: array<int>, order: seq<int>, maxCode: int, maxLength: nat, blCount: array<int>,
                         ghost par: seq<int>)
    returns (lens: seq<Byte>, codes: array<int>)
    requires Built(order, dl[..], maxCode, par) && dl != blCount && 1 <= maxLength <= MAX_BITS &&
             blCount.Length == MAX_BITS + 1
    requires LeafCount(Leaves(order, maxCode), |order|) <= Pow2(maxLength) && -1 <= maxCode < dl.Length
    requires forall n :: 0 <= n <= maxCode && n !in order ==> dl[n] == 0
    modifies dl, blCount
    ensures |lens| == maxCode + 1 && forall n :: 0 <= n < |lens| ==>
              lens[n] <= maxLength && (0 < lens[n] <==> n in order)
    ensures KraftSum(lens, maxLength, |lens|) == Pow2(maxLength) && KraftSum(lens, MAX_BITS, |lens|) == Pow2(MAX_BITS)
    ensures (forall n :: 0 <= n < |lens| ==> lens[n] == dl[n]) &&
            (forall i :: 0 <= i < |order| ==> 0 <= order[i] < dl.Length)
    ensures |par| == |order| && Parents(par) && DeepOrOrdered(dl[..], order, maxCode, maxLength, par)
    ensures codes.Length == |lens|
    ensures forall n :: 0 <= n < |lens| && 0 < lens[n] ==>
              0 <= codes[n] < Pow2(lens[n]) && Bits(codes[n], lens[n]) == Reversed(CodeBits(lens, n))
  {
    hide Built, LenIn, CountedKraft, Count, Pow2, KraftSum, Bits, Kraft, LeafCount, Counted, DeepOrOrdered;
    BuiltDistinct(order, dl[..], maxCode, par);
    GenBitlen(dl, order, maxCode, maxLength, blCount, par);
    forall n | 0 <= n <= maxCode ensures 0 <= dl[n] <= maxLength && (0 < dl[n] <==> n in order) {
      assert n in order ==> exists k :: 0 <= k < |order| && order[k] == n;
    }
    lens := seq(maxCode + 1, i requires 0 <= i <= maxCode && 0 <= dl[i] < 256 reads dl => dl[i]);
    SymbolsComplete(lens, dl[..], order, maxCode, maxLength, blCount[..]);
    codes := AssignCodes(lens, blCount[..]);
  }

  lemma BuiltDistinct(order: seq<int>, dad: seq<int>, maxCode: int, par: seq<int>)
    requires Built(order, dad, maxCode, par)
    ensures Distinct(order) && |par| == |order| && Parents(par) && forall i :: 0 <= i < |order| ==>
              0 <= order[i] < |dad|
  {
  }

  /** The finished tree and the symbols it is for. */
  ghost predicate Ready(order: seq<int>, par: seq<int>, w: seq<int>, f: seq<int>, leaves: set<int>) {
    && TreeFor(order, par, w, f) && Parents(par) && Distinct(order) && (forall k :: 0 <= k < |order| ==> 0 <= order[k])
    && (forall x :: x in leaves ==> 0 <= x < |f| && 0 < f[x]) && forall x :: 0 <= x < |f| ==>
         (x in order <==> x in leaves)
  }

  lemma TreeReady(s: seq<int>, root: int, dad: seq<int>, freq: seq<int>, leaves: set<int>, elems: int, node: int,
                  maxCode: int)
    requires Grown(s, multiset{root}, dad, freq, leaves, elems, node) && elems <= root < node && Siblings(s, dad, freq)
    requires -1 <= maxCode < elems && forall x :: x in leaves ==> 0 <= x <= maxCode
    ensures var order := [root] + s;
            && (forall i :: 0 <= i < |order| ==> 0 <= order[i] < |dad| == |freq|) && maxCode < |freq|
            && Ready(order, ParentPositions(order, dad), Frequencies(order, freq), freq[..maxCode + 1], leaves)
  {
    hide Grown, Siblings, TreeFor, Parents, Distinct, Children;
    var order := [root] + s;
    TreeHuffman(s, root, dad, freq, leaves, elems, node, maxCode);
    LeavesListed(s, root, dad, freq, leaves, elems, node, maxCode);
    OrderIsList(s, root, dad, freq, leaves, elems, node);
    OrderParents(s, root, dad, freq, leaves, elems, node);
    Positive(s, root, dad, freq, leaves, elems, node);
    forall x | x in leaves ensures 0 <= x < |freq[..maxCode + 1]| && 0 < freq[..maxCode + 1][x] {
      assert x in order && order[IndexIn(order, x)] == x;
    }
  }

  /** Rarer symbols have no shorter codes. */
  lemma RarerNoShorter(order: seq<int>, par: seq<int>, w: seq<int>, f: seq<int>, leaves: set<int>, dl: seq<int>,
                       lens: seq<int>, l: nat)
    requires Ready(order, par, w, f, leaves) && |par| == |order| && Parents(par) && forall k :: 0 <= k < |order| ==>
               0 <= order[k] < |dl|
    requires DeepOrOrdered(dl, order, |f| - 1, l, par) && |lens| == |f| <= |dl| && forall n :: 0 <= n < |lens| ==>
               lens[n] == dl[n]
    ensures forall i, j :: i in leaves && j in leaves && f[i] < f[j] ==> lens[i] >= lens[j]
  {
    hide DeepOrOrdered, Parents, Distinct, TreeFor;
    forall i, j | i in leaves && j in leaves && f[i] < f[j] ensures lens[i] >= lens[j] {
      var a, b := IndexIn(order, i), IndexIn(order, j);
      Weights(order, par, w, f, a);
      Weights(order, par, w, f, b);
      RarerLonger(order, par, w, f, dl, l, a, b);
    }
  }

  lemma Weights(order: seq<int>, par: seq<int>, w: seq<int>, f: seq<int>, k: nat)
    requires TreeFor(order, par, w, f) && k < |order| && order[k] < |f|
    ensures |w| == |order| && 0 <= order[k] && w[k] == f[order[k]]
  {
  }

  /** If no length reaches the limit, no code is cheaper. */
  lemma NoCheaperCode(order: seq<int>, par: seq<int>, w: seq<int>, f: seq<int>, leaves: set<int>, dl: seq<int>,
                      lens: seq<int>, l: nat)
    requires Ready(order, par, w, f, leaves) && |par| == |order| && Parents(par) && forall k :: 0 <= k < |order| ==>
               0 <= order[k] < |dl|
    requires DeepOrOrdered(dl, order, |f| - 1, l, par) && |lens| == |f| <= |dl| && forall n :: 0 <= n < |lens| ==>
               lens[n] == dl[n]
    requires (forall n :: n in leaves ==> lens[n] < l) && forall n :: 0 <= n < |f| && n !in leaves ==> f[n] == 0
    ensures CheapestCode(f, lens)
  {
    hide DeepOrOrdered, Parents, Distinct, TreeFor, CheapestCode;
    NoneCheaper(order, par, w, f, dl, lens, l);
  }

  /** Rarer symbols have no shorter codes; and if no length reaches the limit and f counts
      nothing but the leaves, no code is cheaper. */
  ghost predicate WellCoded(f: seq<int>, leaves: set<int>, lens: seq<int>, l: nat)
    requires |lens| == |f| && forall x :: x in leaves ==> 0 <= x < |f|
  {
    && (forall i, j :: i in leaves && j in leaves && f[i] < f[j] ==> lens[i] >= lens[j])
    && ((forall n :: n in leaves ==> lens[n] < l) && (forall n :: 0 <= n < |f| && n !in leaves ==> f[n] == 0) ==>
        CheapestCode(f, lens))
  }

  lemma CodedWell(order: seq<int>, par: seq<int>, w: seq<int>, f: seq<int>, leaves: set<int>, dl: seq<int>,
                  lens: seq<int>, l: nat)
    requires Ready(order, par, w, f, leaves) && |par| == |order| && Parents(par) && forall k :: 0 <= k < |order| ==>
               0 <= order[k] < |dl|
    requires DeepOrOrdered(dl, order, |f| - 1, l, par) && |lens| == |f| <= |dl| && forall n :: 0 <= n < |lens| ==>
               lens[n] == dl[n]
    ensures (forall x :: x in leaves ==> 0 <= x < |f|) && WellCoded(f, leaves, lens, l)
  {
    hide DeepOrOrdered, Parents, Distinct, TreeFor, CheapestCode;
    RarerNoShorter(order, par, w, f, leaves, dl, lens, l);
    if (forall n :: n in leaves ==> lens[n] < l) && forall n :: 0 <= n < |f| && n !in leaves ==> f[n] == 0 {
      NoCheaperCode(order, par, w, f, leaves, dl, lens, l);
    }
  }

  /** The tree for at least two leaves. */
  method MakeTree(freq: array<int>, dl: array<int>, depth: array<int>, heap: array<int>, elems: int,
                  heapLen: int, maxCode: int, ghost leaves: set<int>)
    returns (order: seq<int>, ghost par: seq<int>, ghost w: seq<int>)
    requires 3 <= elems <= L_CODES && 2 * elems <= freq.Length == dl.Length <= HEAP_SIZE &&
             depth.Length == heap.Length == HEAP_SIZE
    requires freq != dl && freq != depth && freq != heap && dl != depth && dl != heap && depth != heap
    requires Bytes(depth[..freq.Length])
    requires 2 <= heapLen <= elems && |leaves| == heapLen && Holding(Content(heap[..], heapLen), leaves)
    requires -1 <= maxCode < elems && (forall x :: x in leaves ==> 0 <= x <= maxCode && 0 < freq[x])
    requires forall x :: 0 <= x < elems && x !in leaves ==> dl[x] == 0
    modifies freq, dl, depth, heap
    ensures Built(order, dl[..], maxCode, par) && LeafCount(Leaves(order, maxCode), |order|) <= elems
    ensures forall n :: 0 <= n <= maxCode ==> (n in order <==> n in leaves) && (n !in order ==> dl[n] == 0)
    ensures Ready(order, par, w, old(freq[..])[..maxCode + 1], leaves)
  {
    hide Content, Grown, Bytes, Holding, Built, LeafCount, Siblings, Ready, Children, Falling, Frequencies,
         ParentPositions;
    ghost var freq0 := freq[..];
    ghost var node;
    order, node := SortNodes(heap, freq, dl, depth, heapLen, elems, leaves);
    ghost var dad, fr := dl[..], freq[..];
    TreeFacts(order, dad, fr, leaves, elems, node, maxCode);
    par, w := ParentPositions(order, dad), Frequencies(order, fr);
    assert fr[..maxCode + 1] == freq0[..maxCode + 1];
  }

  lemma TreeFacts(order: seq<int>, dad: seq<int>, freq: seq<int>, leaves: set<int>, elems: int, node: int, maxCode: int)
    requires order != [] && elems <= order[0] < node &&
             Grown(order[1..], multiset{order[0]}, dad, freq, leaves, elems, node)
    requires Siblings(order[1..], dad, freq) && -1 <= maxCode < elems && forall x :: x in leaves ==> 0 <= x <= maxCode
    ensures (forall i :: 0 <= i < |order| ==> 0 <= order[i] < |dad| == |freq|) && maxCode < |freq|
    ensures Built(order, dad, maxCode, ParentPositions(order, dad)) &&
            LeafCount(Leaves(order, maxCode), |order|) <= elems
    ensures forall n :: 0 <= n <= maxCode ==> (n in order <==> n in leaves)
    ensures Ready(order, ParentPositions(order, dad), Frequencies(order, freq), freq[..maxCode + 1], leaves)
  {
    hide Grown, Built, LeafCount, Siblings, Parents, Ready, Distinct;
    var s, root := order[1..], order[0];
    assert order == [root] + s;
    TreeBuilt(s, root, dad, freq, leaves, elems, node, maxCode);
    OrderIsList(s, root, dad, freq, leaves, elems, node);
    LeafCountBound(order, maxCode, |order|);
    LeavesListed(s, root, dad, freq, leaves, elems, node, maxCode);
    TreeReady(s, root, dad, freq, leaves, elems, node, maxCode);
  }

  /** The tree, the lengths and the codes, for at least two leaves. */
  method MakeCode(freq: array<int>, dl: array<int>, depth: array<int>, heap: array<int>, blCount: array<int>,
                  elems: int, maxLength: nat,
                  heapLen: int, maxCode: int, ghost leaves: set<int>)
    returns (lens: seq<Byte>, codes: array<int>)
    requires 3 <= elems <= L_CODES && 2 * elems <= freq.Length == dl.Length <= HEAP_SIZE &&
             depth.Length == heap.Length == HEAP_SIZE
    requires freq != dl && freq != depth && freq != heap && dl != depth && dl != heap && depth != heap
    requires blCount != freq && blCount != dl && blCount != depth && blCount != heap && blCount.Length == MAX_BITS + 1
    requires 1 <= maxLength <= MAX_BITS && elems <= Pow2(maxLength) && Bytes(depth[..freq.Length])
    requires 2 <= heapLen <= elems && |leaves| == heapLen && Holding(Content(heap[..], heapLen), leaves)
    requires -1 <= maxCode < elems && (forall x :: x in leaves ==> 0 <= x <= maxCode && 0 < freq[x])
    requires forall x :: 0 <= x < elems && x !in leaves ==> dl[x] == 0
    modifies freq, dl, depth, heap, blCount
    ensures |lens| == maxCode + 1 && forall n :: 0 <= n < |lens| ==>
              lens[n] <= maxLength && (0 < lens[n] <==> n in leaves)
    ensures WellCoded(old(freq[..])[..maxCode + 1], leaves, lens, maxLength)
    ensures KraftSum(lens, maxLength, |lens|) == Pow2(maxLength) && KraftSum(lens, MAX_BITS, |lens|) == Pow2(MAX_BITS)
    ensures codes.Length == |lens|
    ensures forall n :: 0 <= n < |lens| && 0 < lens[n] ==>
              0 <= codes[n] < Pow2(lens[n]) && Bits(codes[n], lens[n]) == Reversed(CodeBits(lens, n))
  {
    hide Content, Bytes, Holding, Built, Pow2, KraftSum, Bits, LeafCount, DeepOrOrdered, Parents, Ready, WellCoded;
    ghost var f := freq[..][..maxCode + 1];
    var order;
    ghost var par, w;
    order, par, w := MakeTree(freq, dl, depth, heap, elems, heapLen, maxCode, leaves);
    lens, codes := LengthsAndCodes(dl, order, maxCode, maxLength, blCount, par);
    CodedWell(order, par, w, f, leaves, dl[..], lens, maxLength);
  }

  /** build_tree: every symbol that occurs gets a code of at most maxLength bits, and the
      codes are a complete prefix code, each stored with its first bit lowest.  A rarer
      symbol's code is no shorter, and unless a length reaches the limit no prefix code
      has fewer bits in all. */
  method Build(freq: array<int>, dl: array<int>, depth: array<int>, heap: array<int>, blCount: array<int>, elems: int,
               maxLength: nat)
    returns (lens: seq<Byte>, codes: array<int>)
    requires 3 <= elems <= L_CODES && 2 * elems <= freq.Length == dl.Length <= HEAP_SIZE &&
             depth.Length == heap.Length == HEAP_SIZE
    requires freq != dl && freq != depth && freq != heap && dl != depth && dl != heap && depth != heap
    requires blCount != freq && blCount != dl && blCount != depth && blCount != heap && blCount.Length == MAX_BITS + 1
    requires 1 <= maxLength <= MAX_BITS && elems <= Pow2(maxLength) && Bytes(depth[..freq.Length])
    requires forall n :: 0 <= n < elems ==> 0 <= freq[n]
    modifies freq, dl, depth, heap, blCount
    ensures |lens| <= elems && forall n :: 0 <= n < |lens| ==> lens[n] <= maxLength
    ensures forall n :: 0 <= n < elems && old(freq[n]) > 0 ==> n < |lens| && 0 < lens[n]
    ensures Several(old(freq[..]), elems) ==>
              forall n :: 0 <= n < |lens| && 0 < lens[n] ==> old(freq[n]) > 0
    ensures forall i, j :: 0 <= i < |lens| && 0 <= j < |lens| && 0 < old(freq[i]) < old(freq[j]) ==> lens[i] >= lens[j]
    ensures Several(old(freq[..]), elems) && (forall n :: 0 <= n < |lens| ==> lens[n] < maxLength) ==>
              CheapestCode(old(freq[..])[..|lens|], lens)
    ensures KraftSum(lens, maxLength, |lens|) == Pow2(maxLength) && KraftSum(lens, MAX_BITS, |lens|) == Pow2(MAX_BITS)
    ensures codes.Length == |lens|
    ensures forall n :: 0 <= n < |lens| && 0 < lens[n] ==>
              0 <= codes[n] < Pow2(lens[n]) && Bits(codes[n], lens[n]) == Reversed(CodeBits(lens, n))
  {
    hide Content, Bytes, Holding, InUse, Pow2, KraftSum, Bits, Several, CheapestCode, WellCoded;
    ghost var freq0 := freq[..];
    OpenBytes(depth[..freq.Length]);
    assert forall i :: 0 <= i < freq.Length ==> depth[i] == depth[..freq.Length][i];
    var heapLen, maxCode;
    ghost var leaves0, leaves;
    heapLen, maxCode, leaves0 := CollectLeaves(freq[..], dl, depth, heap, elems);
    InUseRange(leaves0, maxCode, heapLen, elems);
    InUseMax(leaves0, maxCode, heapLen, elems);
    heapLen, maxCode, leaves := ForceTwo(freq, depth, heap, elems, heapLen, maxCode, leaves0);
    InUseRange(leaves, maxCode, heapLen, elems);
    InUseMax(leaves, maxCode, heapLen, elems);
    CloseBytes(depth[..freq.Length]);
    ghost var f := freq[..][..maxCode + 1];
    assert forall n :: n in leaves0 ==> f[n] == freq0[n];
    assert |leaves0| >= 2 ==> leaves == leaves0 && f == freq0[..maxCode + 1];
    lens, codes := MakeCode(freq, dl, depth, heap, blCount, elems, maxLength, heapLen, maxCode, leaves);
    Outcome(freq0, f, elems, leaves0, leaves, lens, maxLength);
  }

  /** What the code means for the frequencies given, in which unused symbols may not yet
      have been forced into use. */
  lemma Outcome(freq: seq<int>, f: seq<int>, elems: int, leaves0: set<int>, leaves: set<int>, lens: seq<int>, l: nat)
    requires |lens| == |f| <= elems <= |freq| && leaves0 <= leaves && forall x :: x in leaves ==> 0 <= x < |f|
    requires forall n :: n in leaves0 <==> 0 <= n < elems && freq[n] > 0
    requires forall n :: n in leaves0 ==> f[n] == freq[n]
    requires forall n :: 0 <= n < elems ==> 0 <= freq[n]
    requires |leaves0| >= 2 ==> leaves == leaves0 && f == freq[..|f|]
    requires WellCoded(f, leaves, lens, l) && (forall n :: 0 <= n < |lens| ==> (0 < lens[n] <==> n in leaves))
    ensures forall n :: 0 <= n < elems && freq[n] > 0 ==> n < |lens| && 0 < lens[n]
    ensures Several(freq, elems) ==> forall n :: 0 <= n < |lens| && 0 < lens[n] ==> freq[n] > 0
    ensures forall i, j :: 0 <= i < |lens| && 0 <= j < |lens| && 0 < freq[i] < freq[j] ==> lens[i] >= lens[j]
    ensures Several(freq, elems) && (forall n :: 0 <= n < |lens| ==> lens[n] < l) ==> CheapestCode(freq[..|lens|], lens)
  {
    hide Several, CheapestCode;
    TwoInUse(freq, elems, leaves0);
  }

  /** At least two symbols occur. */
  ghost predicate Several(freq: seq<int>, elems: int) {
    exists i, j :: 0 <= i < j < elems && j < |freq| && freq[i] > 0 && freq[j] > 0
  }

  lemma TwoInUse(freq: seq<int>, elems: int, leaves: set<int>)
    requires elems <= |freq| && forall n :: n in leaves <==> 0 <= n < elems && freq[n] > 0
    ensures Several(freq, elems) ==> |leaves| >= 2
  {
    if Several(freq, elems) {
      var i, j :| 0 <= i < j < elems && j < |freq| && freq[i] > 0 && freq[j] > 0;
      SubsetSize({i, j}, leaves);
    }
  }

  lemma CloseBytes(depth: seq<int>)
    requires forall i :: 0 <= i < |depth| ==> 0 <= depth[i] < 256
    ensures Bytes(depth)
  {
  }

  lemma InUseMax(leaves: set<int>, maxCode: int, count: int, elems: int)
    requires InUse(leaves, maxCode, count, elems)
    ensures forall x :: x in leaves ==> 0 <= x <= maxCode
  {
  }

  /** The symbols in the list of nodes are the leaves. */
  lemma LeavesListed(s: seq<int>, root: int, dad: seq<int>, freq: seq<int>, leaves: set<int>, elems: int, node: int,
                     maxCode: int)
    requires Grown(s, multiset{root}, dad, freq, leaves, elems, node) && elems <= root < node && maxCode < elems
    ensures forall x :: 0 <= x <= maxCode ==> (x in [root] + s <==> x in leaves)
  {
  }
}
