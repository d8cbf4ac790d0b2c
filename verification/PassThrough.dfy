/**
 The search for the interface that handles an operation, along pass-through
 interfaces, and when it comes to an end.
 */
module PassThrough {
  import opened Words
  import opened Interface

  // The interface has no operation of its own and passes it on.
  predicate PassesOn(s: Net, x: Intf) {
    x < |s.desc| && s.desc[x].NoHandler? && s.desc[x].passthru.Some?
  }

  function NextInChain(s: Net, x: Intf): Intf {
    if PassesOn(s, x) && s.desc[x].passthru.value < |s.dest| then s.dest[s.desc[x].passthru.value] else x
  }

  // The n-th interface that a search from d looks at.
  function ChainAt(s: Net, d: Intf, n: nat): Intf {
    if n == 0 then d else NextInChain(s, ChainAt(s, d, n - 1))
  }

  // The search reaches x at step n, having found no operation before.
  ghost predicate ChainTo(s: Net, d: Intf, n: nat, x: Intf) {
    x == ChainAt(s, d, n) && forall k: nat :: k < n ==> PassesOn(s, ChainAt(s, d, k))
  }

  // The search comes to an end.
  ghost predicate Ends(s: Net, d: Intf) {
    exists n: nat :: !PassesOn(s, ChainAt(s, d, n))
  }

  // What the search finds within n steps
  function Search(s: Net, d: Intf, n: nat): Option<Intf>
    decreases n
  {
    if !PassesOn(s, d) then Some(d)
    else if n == 0 then None
    else Search(s, NextInChain(s, d), n - 1)
  }

  // What it finds at all: it visits no interface twice
  function Found(s: Net, d: Intf): Option<Intf> {
    Search(s, d, |s.desc|)
  }

  lemma {:induction false} ChainShift(s: Net, d: Intf, n: nat)
    ensures ChainAt(s, NextInChain(s, d), n) == ChainAt(s, d, n + 1)
  {
    if n > 0 {
      ChainShift(s, d, n - 1);
    }
  }

  // A search of n steps looks at the first n + 1 interfaces of the chain.
  lemma {:induction false} SearchChain(s: Net, d: Intf, n: nat)
    ensures Search(s, d, n).Some? ==>
              exists k: nat :: k <= n && ChainTo(s, d, k, Search(s, d, n).value) && !PassesOn(s, Search(s, d, n).value)
    ensures Search(s, d, n).None? ==> forall k: nat :: k <= n ==> PassesOn(s, ChainAt(s, d, k))
    decreases n
  {
    if !PassesOn(s, d) {
      assert ChainTo(s, d, 0, d);
    } else if n > 0 {
      var next := NextInChain(s, d);
      SearchChain(s, next, n - 1);
      forall k: nat
        ensures ChainAt(s, next, k) == ChainAt(s, d, k + 1)
      {
        ChainShift(s, d, k);
      }
      match Search(s, next, n - 1)
      case Some(x) =>
        var k: nat :| k <= n - 1 && ChainTo(s, next, k, x);
        ChainLonger(s, d, k, x);
      case None =>
        forall k: nat | k <= n
          ensures PassesOn(s, ChainAt(s, d, k))
        {
          if k > 0 {
            assert PassesOn(s, ChainAt(s, next, k - 1));
          }
        }
    }
  }

  lemma ChainLonger(s: Net, d: Intf, k: nat, x: Intf)
    requires PassesOn(s, d) && ChainTo(s, NextInChain(s, d), k, x)
    ensures ChainTo(s, d, k + 1, x)
  {
    ChainShift(s, d, k);
    forall j: nat | j < k + 1
      ensures PassesOn(s, ChainAt(s, d, j))
    {
      if j > 0 {
        ChainShift(s, d, j - 1);
        assert PassesOn(s, ChainAt(s, NextInChain(s, d), j - 1));
      }
    }
  }

  // ---- Rings --------------------------------------------------------------

  // A ring of m pass-through interfaces, of any length
  ghost predicate Ring(s: Net, x: Intf, m: nat) {
    m > 0 && ChainTo(s, x, m, x)
  }

  // The chain of a ring repeats.
  lemma {:induction false} Repeats(s: Net, x: Intf, m: nat, n: nat)
    requires Ring(s, x, m)
    ensures ChainAt(s, x, m + n) == ChainAt(s, x, n)
  {
    if n > 0 {
      Repeats(s, x, m, n - 1);
    }
  }

  // A search that enters a ring never ends.
  lemma {:induction false} RingNeverEnds(s: Net, x: Intf, m: nat, n: nat)
    requires Ring(s, x, m)
    ensures PassesOn(s, ChainAt(s, x, n))
    decreases n
  {
    if n >= m {
      RingNeverEnds(s, x, m, n - m);
      Repeats(s, x, m, n - m);
    }
  }

  lemma {:induction false} ChainFrom(s: Net, d: Intf, i: nat, n: nat)
    ensures ChainAt(s, ChainAt(s, d, i), n) == ChainAt(s, d, i + n)
  {
    if n > 0 {
      ChainFrom(s, d, i, n - 1);
    }
  }

  // The chain of d leads into a ring.
  ghost predicate MeetsRing(s: Net, d: Intf) {
    exists i: nat, m: nat :: (forall k: nat :: k < i ==> PassesOn(s, ChainAt(s, d, k))) && Ring(s, ChainAt(s, d, i), m)
  }

  lemma RingBlocks(s: Net, d: Intf)
    requires MeetsRing(s, d)
    ensures !Ends(s, d)
  {
    var i: nat, m: nat :|
      (forall k: nat :: k < i ==> PassesOn(s, ChainAt(s, d, k))) && Ring(s, ChainAt(s, d, i), m);
    forall n: nat
      ensures PassesOn(s, ChainAt(s, d, n))
    {
      if n >= i {
        RingNeverEnds(s, ChainAt(s, d, i), m, n - i);
        ChainFrom(s, d, i, n - i);
      }
    }
  }

  ghost predicate Distinct(v: seq<nat>) {
    forall i, j :: 0 <= i < j < |v| ==> v[i] != v[j]
  }

  ghost function Elements(v: seq<nat>): set<nat> {
    if v == [] then {} else Elements(v[..|v| - 1]) + {v[|v| - 1]}
  }

  lemma {:induction false} ElementsAre(v: seq<nat>, m: nat)
    requires Distinct(v) && forall i :: 0 <= i < |v| ==> v[i] < m
    ensures |Elements(v)| == |v| && Elements(v) <= Below(m)
    ensures forall x :: x in Elements(v) ==> x in v
  {
    if v != [] {
      ElementsAre(v[..|v| - 1], m);
      BelowHas(m, v[|v| - 1]);
      assert v[|v| - 1] !in v[..|v| - 1];
    }
  }

  ghost function Below(m: nat): set<nat> {
    if m == 0 then {} else Below(m - 1) + {m - 1}
  }

  lemma {:induction false} BelowHas(m: nat, x: nat)
    ensures |Below(m)| == m && (x in Below(m) <==> x < m)
  {
    if m > 0 {
      BelowHas(m - 1, x);
      BelowHas(m - 1, m - 1);
    }
  }

  // More numbers below m than there are must repeat.
  lemma Pigeonhole(v: seq<nat>, m: nat)
    requires |v| > m && forall i :: 0 <= i < |v| ==> v[i] < m
    ensures !Distinct(v)
  {
    if Distinct(v) {
      ElementsAre(v, m);
      BelowHas(m, 0);
      SubsetCard(Elements(v), Below(m));
      assert false;
    }
  }

  // A search that has looked at more interfaces than there are is in a ring.
  lemma LongIsRing(s: Net, d: Intf)
    requires forall k: nat :: k <= |s.desc| ==> PassesOn(s, ChainAt(s, d, k))
    ensures MeetsRing(s, d)
  {
    var v := seq(|s.desc| + 1, (k: nat) => ChainAt(s, d, k));
    forall k | 0 <= k < |v|
      ensures v[k] < |s.desc|
    {
      assert PassesOn(s, ChainAt(s, d, k));
    }
    Pigeonhole(v, |s.desc|);
    var i, j :| 0 <= i < j < |v| && v[i] == v[j];
    var x, m := ChainAt(s, d, i), j - i;
    ChainFrom(s, d, i, m);
    forall k: nat | k < m
      ensures PassesOn(s, ChainAt(s, x, k))
    {
      ChainFrom(s, d, i, k);
    }
    assert Ring(s, x, m);
  }

  // The search finds something, or it never ends, which is if and only if it
  // enters a ring of pass-through interfaces.
  lemma FoundExactly(s: Net, d: Intf)
    ensures Found(s, d).Some? <==> Ends(s, d)
    ensures Ends(s, d) <==> !MeetsRing(s, d)
    ensures Found(s, d).Some? ==>
              exists k: nat :: ChainTo(s, d, k, Found(s, d).value) && !PassesOn(s, Found(s, d).value)
  {
    hide ChainAt, MeetsRing, ChainTo;
    SearchChain(s, d, |s.desc|);
    if Found(s, d).Some? {
      var k: nat :| k <= |s.desc| && ChainTo(s, d, k, Found(s, d).value);
      ChainEnd(s, d, k, Found(s, d).value);
      if MeetsRing(s, d) {
        RingBlocks(s, d);
        assert false;
      }
    } else {
      LongIsRing(s, d);
      RingBlocks(s, d);
    }
  }

  lemma ChainEnd(s: Net, d: Intf, k: nat, x: Intf)
    requires ChainTo(s, d, k, x) && !PassesOn(s, x)
    ensures Ends(s, d)
  {
  }

  // ---- Ranks --------------------------------------------------------------

  // Passing on leads to a smaller rank.
  ghost predicate Descends(s: Net, rank: seq<nat>) {
    && |rank| == |s.desc|
    && forall x :: 0 <= x < |s.desc| && PassesOn(s, x) && PassesOn(s, NextInChain(s, x)) ==>
                     rank[NextInChain(s, x)] < rank[x]
  }

  lemma {:induction false} DescentEnds(s: Net, rank: seq<nat>, d: Intf)
    requires Descends(s, rank)
    ensures Ends(s, d)
    decreases if PassesOn(s, d) then rank[d] + 1 else 0
  {
    if !PassesOn(s, d) {
      assert !PassesOn(s, ChainAt(s, d, 0));
    } else {
      var next := NextInChain(s, d);
      DescentEnds(s, rank, next);
      var n: nat :| !PassesOn(s, ChainAt(s, next, n));
      ChainShift(s, d, n);
      assert !PassesOn(s, ChainAt(s, d, n + 1));
    }
  }

  // The number of steps of a search, up to n
  function Steps(s: Net, d: Intf, n: nat): nat
    decreases n
  {
    if !PassesOn(s, d) || n == 0 then 0 else 1 + Steps(s, NextInChain(s, d), n - 1)
  }

  lemma {:induction false} StepsStable(s: Net, d: Intf, n: nat)
    requires Search(s, d, n).Some?
    ensures Steps(s, d, n + 1) == Steps(s, d, n)
    decreases n
  {
    if PassesOn(s, d) {
      StepsStable(s, NextInChain(s, d), n - 1);
    }
  }

  lemma StepsDescend(s: Net, x: Intf, n: nat)
    requires PassesOn(s, x) && Search(s, x, n).Some?
    ensures Steps(s, NextInChain(s, x), n) < Steps(s, x, n)
  {
    StepsStable(s, NextInChain(s, x), n - 1);
  }

  // Interfaces can be ranked if and only if every search ends.
  lemma RankExactly(s: Net)
    ensures (exists rank :: Descends(s, rank)) <==> forall d :: 0 <= d < |s.desc| ==> Ends(s, d)
  {
    hide Ends, Steps, Search;
    if rank :| Descends(s, rank) {
      forall d | 0 <= d < |s.desc|
        ensures Ends(s, d)
      {
        DescentEnds(s, rank, d);
      }
    }
    if forall d :: 0 <= d < |s.desc| ==> Ends(s, d) {
      var n := |s.desc|;
      var rank := seq(n, (x: nat) => Steps(s, x, n));
      forall x | 0 <= x < |s.desc| && PassesOn(s, x) && PassesOn(s, NextInChain(s, x))
        ensures rank[NextInChain(s, x)] < rank[x]
      {
        FoundExactly(s, x);
        StepsDescend(s, x, n);
      }
      assert Descends(s, rank);
    }
  }

  // ---- Fewer plugs and fewer descriptors ----------------------------------

  // b is a with some interfaces unplugged and some descriptors nullified.
  ghost predicate Fewer(a: Net, b: Net) {
    && |b.dest| == |a.dest| && |b.desc| == |a.desc|
    && (forall j :: 0 <= j < |a.dest| ==> b.dest[j] == a.dest[j] || b.dest[j] == NULL_INTF)
    && (forall j :: 0 <= j < |a.desc| ==> b.desc[j] == a.desc[j] || b.desc[j] == NullDesc)
    && (NULL_INTF < |b.desc| ==> b.desc[NULL_INTF] == NullDesc)
  }

  lemma {:induction false} EndsWithin(a: Net, b: Net, d: Intf, n: nat)
    requires Fewer(a, b) && !PassesOn(a, ChainAt(a, d, n))
    ensures Ends(b, d)
    decreases n
  {
    if !PassesOn(b, d) {
      assert !PassesOn(b, ChainAt(b, d, 0));
    } else {
      var next := NextInChain(b, d);
      if next == NULL_INTF {
        assert !PassesOn(b, ChainAt(b, next, 0));
      } else {
        assert PassesOn(a, d) && next == NextInChain(a, d);
        assert n > 0;
        ChainShift(a, d, n - 1);
        EndsWithin(a, b, next, n - 1);
      }
      var k: nat :| !PassesOn(b, ChainAt(b, next, k));
      ChainShift(b, d, k);
      assert !PassesOn(b, ChainAt(b, d, k + 1));
    }
  }

  // What ended goes on ending.
  lemma EndsFewer(a: Net, b: Net, d: Intf)
    requires Fewer(a, b) && Ends(a, d)
    ensures Ends(b, d)
  {
    var n: nat :| !PassesOn(a, ChainAt(a, d, n));
    EndsWithin(a, b, d, n);
  }
}
