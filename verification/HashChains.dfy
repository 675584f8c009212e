/** deflate's dictionary: for each hash the chain of strings with that hash, kept as window
    indices in head and prev, of which prev remembers only the last w_size strings. Strings
    are identified here by their absolute position in the input; base is the position of
    window index 0. */
module HashChains {
  import opened Common
  import opened StringHash

  function HashAt(k: Hasher, text: seq<Byte>, p: int): nat
    requires 0 <= p && p + MIN_MATCH <= |text|
  {
    Hash(k, text[p], text[p + 1], text[p + 2])
  }

  /** The string at p has been inserted under hash h. */
  ghost predicate Known(k: Hasher, text: seq<Byte>, ins: set<int>, p: int, h: nat) {
    p in ins && 0 <= p && p + MIN_MATCH <= |text| && HashAt(k, text, p) == h
  }

  /** Window index q is that of the last string with hash h known before position p; it is NIL
      if there is none, or only strings at or before window index 0. */
  ghost predicate Leads(k: Hasher, text: seq<Byte>, ins: set<int>, base: nat, q: nat, p: int, h: nat) {
    && (q == 0 || (base + q < p && Known(k, text, ins, base + q, h)))
    && forall r {:trigger Known(k, text, ins, r, h)} :: base + q < r < p ==> !Known(k, text, ins, r, h)
  }

  function Link(prev: seq<nat>, base: nat, p: int): nat
    requires base <= p && |prev| > 0
  {
    prev[(p - base) % |prev|]
  }

  /** Every head leads to a string of its hash inserted before next, and the link of every
      inserted string that is not too old leads to an earlier string of the same hash. */
  ghost predicate Chained(k: Hasher, text: seq<Byte>, ins: set<int>, base: nat, next: int, head: seq<nat>,
                          prev: seq<nat>) {
    && |head| == Pow2(k.bits) && |prev| > 0
    && (forall p :: p in ins ==> 0 <= p < next && p + MIN_MATCH <= |text|)
    && (forall h :: 0 <= h < |head| ==> Leads(k, text, ins, base, head[h], next, h))
    && (forall p {:trigger Link(prev, base, p)} :: p in ins && base <= p && next <= p + |prev| ==>
          Leads(k, text, ins, base, Link(prev, base, p), p, HashAt(k, text, p)))
  }

  // ---------- what the search may rely on ----------

  lemma HeadLeads(k: Hasher, text: seq<Byte>, ins: set<int>, base: nat, next: int, head: seq<nat>, prev: seq<nat>,
                  h: nat)
    requires Chained(k, text, ins, base, next, head, prev) && h < |head|
    ensures Leads(k, text, ins, base, head[h], next, h)
  {
    hide Leads;
  }

  /** Following a link from a string of hash h gives a string of hash h. */
  lemma LinkLeads(k: Hasher, text: seq<Byte>, ins: set<int>, base: nat, next: int, head: seq<nat>, prev: seq<nat>,
                  cur: nat, h: nat)
    requires Chained(k, text, ins, base, next, head, prev) && Known(k, text, ins, base + cur, h) &&
             next <= base + cur + |prev|
    ensures Leads(k, text, ins, base, prev[cur % |prev|], base + cur, h)
  {
    hide Leads, HashAt;
    assert Link(prev, base, base + cur) == prev[cur % |prev|];
  }

  /** Strings of equal hash that agree in two bytes agree in the third. */
  lemma KnownThird(k: Hasher, text: seq<Byte>, ins: set<int>, p: int, s: int)
    requires 0 <= s && s + MIN_MATCH <= |text| && Known(k, text, ins, p, HashAt(k, text, s))
    requires text[p] == text[s] && text[p + 1] == text[s + 1]
    ensures text[p + 2] == text[s + 2]
  {
    hide Hash;
    ThirdByte(k, text[p], text[p + 1], text[p + 2], text[s + 2]);
  }

  // ---------- inserting, growing, sliding, forgetting ----------

  lemma LeadsMore(k: Hasher, text: seq<Byte>, ins: set<int>, base: nat, q: nat, p: int, h: nat, text': seq<Byte>,
                  ins': set<int>, p': int)
    requires Leads(k, text, ins, base, q, p, h) && text <= text' && ins <= ins' && p <= p'
    requires forall r :: r in ins ==> 0 <= r && r + MIN_MATCH <= |text|
    requires forall r {:trigger Known(k, text', ins', r, h)} ::
               Known(k, text', ins', r, h) && r < p' ==> r in ins && r < p
    ensures Leads(k, text', ins', base, q, p', h)
  {
    hide Hash;
    forall r {:trigger Known(k, text', ins', r, h)} | base + q < r < p' ensures !Known(k, text', ins', r, h) {
      assert !Known(k, text, ins, r, h) || r >= p;
    }
  }

  lemma SlotsDiffer(a: nat, b: nat, w: nat)
    requires a < b < a + w
    ensures a % w != b % w
  {
    var qa, qb := a / w, b / w;
    assert a == qa * w + a % w && b == qb * w + b % w;
    if a % w == b % w {
      assert (qb - qa) * w == b - a;
      if qb > qa { MulMonotone(1, qb - qa, w); } else { MulMonotone(qb - qa, 0, w); }
    }
  }

  lemma LinkUpdated(prev: seq<nat>, base: nat, p: int, s: int, v: nat)
    requires base <= p <= s < p + |prev|
    ensures Link(prev[(s - base) % |prev| := v], base, p) == if p == s then v else Link(prev, base, p)
  {
    if p < s { SlotsDiffer(p - base, s - base, |prev|); }
  }

  /** INSERT_STRING at s keeps the dictionary right, though its slot may have held an older
      string's link. */
  lemma InsertChain(k: Hasher, text: seq<Byte>, ins: set<int>, base: nat, next: int, head: seq<nat>, prev: seq<nat>,
                    s: int, h: nat)
    requires Chained(k, text, ins, base, next, head, prev) && next <= s && base <= s && s + MIN_MATCH <= |text|
    requires h == HashAt(k, text, s) && h < Pow2(k.bits)
    ensures Chained(k, text, ins + {s}, base, s + 1, head[h := s - base], prev[(s - base) % |prev| := head[h]])
  {
    hide Leads, HashAt;
    var ins', head', prev' := ins + {s}, head[h := s - base], prev[(s - base) % |prev| := head[h]];
    forall g | 0 <= g < |head| ensures Leads(k, text, ins', base, head'[g], s + 1, g) {
      if g == h {
        NewHead(k, text, ins', base, s, h);
      } else {
        LeadsMore(k, text, ins, base, head[g], next, g, text, ins', s + 1);
      }
    }
    forall p | p in ins' && base <= p && s + 1 <= p + |prev'|
      ensures Leads(k, text, ins', base, Link(prev', base, p), p, HashAt(k, text, p))
    {
      LinkUpdated(prev, base, p, s, head[h]);
      if p == s {
        LeadsMore(k, text, ins, base, head[h], next, h, text, ins', s);
      } else {
        LeadsMore(k, text, ins, base, Link(prev, base, p), p, HashAt(k, text, p), text, ins', p);
      }
    }
  }

  lemma NewHead(k: Hasher, text: seq<Byte>, ins: set<int>, base: nat, s: int, h: nat)
    requires s in ins && 0 <= s && s + MIN_MATCH <= |text| && h == HashAt(k, text, s) && base <= s
    ensures Leads(k, text, ins, base, s - base, s + 1, h)
  {
  }

  /** More input, and strings passed over without being inserted. */
  lemma GrowChain(k: Hasher, text: seq<Byte>, ins: set<int>, base: nat, next: int, head: seq<nat>, prev: seq<nat>,
                  text': seq<Byte>, next': int)
    requires Chained(k, text, ins, base, next, head, prev) && text <= text' && next <= next'
    ensures Chained(k, text', ins, base, next', head, prev)
  {
    hide Leads, HashAt;
    forall h | 0 <= h < |head| ensures Leads(k, text', ins, base, head[h], next', h) {
      LeadsMore(k, text, ins, base, head[h], next, h, text', ins, next');
    }
    forall p | p in ins && base <= p && next' <= p + |prev|
      ensures Leads(k, text', ins, base, Link(prev, base, p), p, HashAt(k, text', p))
    {
      SameHash(k, text, text', p);
      LeadsMore(k, text, ins, base, Link(prev, base, p), p, HashAt(k, text, p), text', ins, p);
    }
  }

  lemma SameHash(k: Hasher, text: seq<Byte>, text': seq<Byte>, p: int)
    requires text <= text' && 0 <= p && p + MIN_MATCH <= |text|
    ensures HashAt(k, text', p) == HashAt(k, text, p)
  {
  }

  /** Every index less by w; those that leave the window become NIL. */
  function Slid(a: seq<nat>, w: nat): (r: seq<nat>)
    ensures |r| == |a| && forall i :: 0 <= i < |a| ==> r[i] == if a[i] >= w then a[i] - w else 0
  {
    seq(|a|, i requires 0 <= i < |a| => if a[i] >= w then a[i] - w else 0)
  }

  lemma LeadsSlid(k: Hasher, text: seq<Byte>, ins: set<int>, base: nat, q: nat, p: int, h: nat, w: nat)
    requires Leads(k, text, ins, base, q, p, h)
    ensures Leads(k, text, ins, base + w, if q >= w then q - w else 0, p, h)
  {
    hide HashAt;
  }

  lemma LinkSlid(prev: seq<nat>, base: nat, p: int)
    requires |prev| > 0 && base + |prev| <= p
    ensures Link(Slid(prev, |prev|), base + |prev|, p) ==
            (var q := Link(prev, base, p); if q >= |prev| then q - |prev| else 0)
  {
    hide Slid;
    var w, a := |prev|, p - base;
    var q := a / w;
    assert a == q * w + a % w;
    MulDistributes(w, q, -1);
    QuotientUnique(a - w, w, q - 1, a % w);
  }

  /** Sliding the window keeps the dictionary right. */
  lemma SlideChain(k: Hasher, text: seq<Byte>, ins: set<int>, base: nat, next: int, head: seq<nat>, prev: seq<nat>)
    requires Chained(k, text, ins, base, next, head, prev)
    ensures Chained(k, text, ins, base + |prev|, next, Slid(head, |prev|), Slid(prev, |prev|))
  {
    hide Leads, HashAt;
    var w := |prev|;
    forall h | 0 <= h < |head| ensures Leads(k, text, ins, base + w, Slid(head, w)[h], next, h) {
      LeadsSlid(k, text, ins, base, head[h], next, h, w);
    }
    forall p | p in ins && base + w <= p && next <= p + w
      ensures Leads(k, text, ins, base + w, Link(Slid(prev, w), base + w, p), p, HashAt(k, text, p))
    {
      LinkSlid(prev, base, p);
      LeadsSlid(k, text, ins, base, Link(prev, base, p), p, HashAt(k, text, p), w);
    }
  }

  /** CLEAR_HASH forgets everything. */
  lemma ClearChain(k: Hasher, text: seq<Byte>, base: nat, next: int, head: seq<nat>, prev: seq<nat>)
    requires |head| == Pow2(k.bits) && |prev| > 0 && forall h :: 0 <= h < |head| ==> head[h] == 0
    ensures Chained(k, text, {}, base, next, head, prev)
  {
  }
}
