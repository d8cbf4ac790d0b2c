/**
 Whole runs of the allocator, and where leaked fragments can lie.
 */
module HeapRuns {
  import opened Words
  import opened FreeList
  import opened Pool

  /** An operation of a client: add memory, allocate, free the k-th live block,
      or make the k-th live block available to a cache discarder. */
  datatype Op =
    | Populating(start: int, len: int)
    | Allocating(size: int, align: int, offset: int)
    | Freeing(k: int)
    | Caching(k: int)

  ghost predicate Legal(c: Config, p: Pool, op: Op) {
    match op
    case Populating(start, len) => CanPopulate(c, p, start, len)
    case Allocating(size, align, offset) => Request(c, size, align, offset)
    case Freeing(k) => 0 <= k < |p.live| && p.live[k] !in p.cached
    case Caching(k) => 0 <= k < |p.live| && p.live[k] !in p.cached
  }

  ghost function Step(c: Config, p: Pool, op: Op): Pool
    requires ValidConfig(c) && Legal(c, p, op)
  {
    match op
    case Populating(start, len) => Populate(c, p, start, len)
    case Allocating(size, align, offset) => Allocate(c, p, size, align, offset).0
    case Freeing(k) => Give(p, k)
    case Caching(k) => p.(cached := p.cached + [p.live[k]])
  }

  lemma StepKeeps(c: Config, p: Pool, op: Op)
    requires ValidConfig(c) && Inv(c, p) && Legal(c, p, op)
    ensures Inv(c, Step(c, p, op))
  {
    match op
    case Populating(start, len) => PopulateKeeps(c, p, start, len);
    case Allocating(size, align, offset) => AllocateKeeps(c, p, size, align, offset);
    case Freeing(k) => GiveKeeps(c, p, k);
    case Caching(k) =>
      assert forall a :: OneOwner(p, a) ==> OneOwner(Step(c, p, op), a);
  }

  // Every operation of the run is legal when its turn comes.
  ghost predicate LegalRun(c: Config, p: Pool, ops: seq<Op>)
    requires ValidConfig(c)
    decreases |ops|
  {
    ops == [] || (Legal(c, p, ops[0]) && LegalRun(c, Step(c, p, ops[0]), ops[1..]))
  }

  ghost function Run(c: Config, p: Pool, ops: seq<Op>): Pool
    requires ValidConfig(c) && LegalRun(c, p, ops)
    decreases |ops|
  {
    if ops == [] then p else Run(c, Step(c, p, ops[0]), ops[1..])
  }

  lemma EmptyKeeps(c: Config)
    ensures Inv(c, EMPTY)
  {
    assert forall a :: OneOwner(EMPTY, a);
  }

  // After any run, the invariant holds and the counters add up to the memory
  // that was populated.
  lemma {:induction false} RunKeeps(c: Config, p: Pool, ops: seq<Op>)
    requires ValidConfig(c) && Inv(c, p) && LegalRun(c, p, ops)
    ensures Inv(c, Run(c, p, ops))
    ensures Run(c, p, ops).freemem + Run(c, p, ops).usedmem == Sum(Run(c, p, ops).regions) < c.space
    decreases |ops|
  {
    if ops == [] {
      Conservation(c, p);
    } else {
      StepKeeps(c, p, ops[0]);
      RunKeeps(c, Step(c, p, ops[0]), ops[1..]);
    }
  }

  // ---- Leaks --------------------------------------------------------------

  ghost predicate Boundary(c: Config, x: int)
    requires c.space > 0 && c.min > 0
  {
    Phys(c, x) % c.min == 0
  }

  ghost predicate RegionStart(p: Pool, x: int) {
    exists i :: 0 <= i < |p.regions| && p.regions[i].addr == x
  }

  ghost predicate RegionEnd(p: Pool, x: int) {
    exists i :: 0 <= i < |p.regions| && End(p.regions[i]) == x
  }

  ghost predicate StartsWell(c: Config, p: Pool, b: Block)
    requires c.space > 0 && c.min > 0
  {
    Boundary(c, b.addr) || RegionStart(p, b.addr)
  }

  ghost predicate EndsWell(c: Config, p: Pool, b: Block)
    requires c.space > 0 && c.min > 0
  {
    Boundary(c, End(b)) || RegionEnd(p, End(b))
  }

  ghost predicate WellBounded(c: Config, p: Pool, s: seq<Block>)
    requires c.space > 0 && c.min > 0
  {
    forall i :: 0 <= i < |s| ==> StartsWell(c, p, s[i]) && EndsWell(c, p, s[i])
  }

  // Blocks begin and end at minimum-size boundaries or at region ends.
  ghost predicate Tidy(c: Config, p: Pool)
    requires c.space > 0 && c.min > 0
  {
    WellBounded(c, p, p.free) && WellBounded(c, p, p.live) && WellBounded(c, p, p.leaked)
  }

  lemma BoundaryMeans(c: Config, x: int)
    requires ValidConfig(c)
    ensures c.min > 0 && c.space > 0
    ensures Boundary(c, x) <==> (x + c.delta) % c.min == 0
  {
    ConfigFacts(c, 0);
    ModMod(x + c.delta, c.space, c.min);
  }

  lemma BoundaryShift(c: Config, x: int, n: int)
    requires ValidConfig(c) && c.min > 0 && c.space > 0 && Boundary(c, x)
    ensures Boundary(c, x + n) <==> n % c.min == 0
  {
    BoundaryMeans(c, x);
    BoundaryMeans(c, x + n);
    FromZero(x + c.delta, n, c.min);
    assert x + n + c.delta == x + c.delta + n;
  }

  lemma FromZero(y: int, n: int, m: int)
    requires m > 0 && y % m == 0
    ensures (y + n) % m == n % m
  {
    ModAdd(y, n, m);
  }

  lemma ShortBlock(c: Config, b: Block)
    requires ValidConfig(c) && c.min > 0 && c.space > 0 && 0 < b.size < c.min
    ensures !(Boundary(c, b.addr) && Boundary(c, End(b)))
  {
    if Boundary(c, b.addr) {
      BoundaryShift(c, b.addr, b.size);
      DivModUnique(b.size, c.min, 0, b.size);
    }
  }

  // With an offset that is a multiple of the minimum size, allocations start
  // at boundaries.
  lemma AlignedIsBoundary(c: Config, x: int, align: int, offset: int)
    requires ValidConfig(c) && ValidAlign(c, align)
    ensures Modulus(c, align) > 0 && c.min > 0 && c.space > 0
    ensures offset % c.min == 0 && Aligned(c, x, Modulus(c, align), offset) ==> Boundary(c, x)
  {
    ConfigFacts(c, align);
    var m := Modulus(c, align);
    if offset % c.min == 0 && Aligned(c, x, m, offset) {
      AlignedMeans(c, x, m, offset);
      ModMod(x + c.delta - offset, m, c.min);
      DivModUnique(0, c.min, 0, 0);
      ModAdd(x + c.delta - offset, offset, c.min);
      BoundaryMeans(c, x);
    }
  }

  lemma GiveTidy(c: Config, p: Pool, k: int)
    requires ValidConfig(c) && c.space > 0 && c.min > 0 && Tidy(c, p) && 0 <= k < |p.live|
    ensures Tidy(c, Give(p, k))
  {
    var q := Give(p, k);
    assert forall x :: RegionStart(p, x) == RegionStart(q, x);
    assert forall x :: RegionEnd(p, x) == RegionEnd(q, x);
    forall i | 0 <= i < |q.free|
      ensures StartsWell(c, q, q.free[i]) && EndsWell(c, q, q.free[i])
    {
      InsertEnds(p.free, p.live[k], i);
    }
    assert forall i :: 0 <= i < |q.live| ==> q.live[i] == p.live[if i < k then i else i + 1];
  }

  lemma TakeTidy(c: Config, p: Pool, i: int, actual: int, align: int, offset: int)
    requires ValidConfig(c) && ValidAlign(c, align) && Modulus(c, align) > 0 && c.space > 0 && c.min > 0
    requires Tidy(c, p) && 0 <= i < |p.free| && offset % c.min == 0 && actual % c.min == 0
    requires Fits(c, p.free[i], actual, Modulus(c, align), offset)
    ensures Tidy(c, Take(c, p, i, actual, Modulus(c, align), offset))
  {
    var m := Modulus(c, align);
    var q := Take(c, p, i, actual, m, offset);
    var b := p.free[i];
    var pre := PreSize(c, b.addr, m, offset);
    var x := b.addr + pre;
    ConfigFacts(c, align);
    PreSizeLeast(c, b.addr, x, m, offset);
    AlignedIsBoundary(c, x, align, offset);
    BoundaryShift(c, x, actual);
    assert forall y :: RegionStart(p, y) == RegionStart(q, y);
    assert forall y :: RegionEnd(p, y) == RegionEnd(q, y);
    var before, after := Before(b, pre), After(b, pre, actual);
    assert End(before) == x && after.addr == x + actual && End(after) == End(b);
    assert StartsWell(c, p, b) && EndsWell(c, p, b);
    var kept := Keep(before, c.min) + Keep(after, c.min);
    forall j | 0 <= j < |q.free|
      ensures StartsWell(c, q, q.free[j]) && EndsWell(c, q, q.free[j])
    {
      assert q.free[j] == if j < i then p.free[j] else if j < i + |kept| then kept[j - i]
                          else p.free[j - |kept| + 1];
      assert i <= j < i + |kept| ==> kept[j - i] == before || kept[j - i] == after;
    }
    var ls := Leaks(b, pre, actual, c.min);
    assert forall j :: 0 <= j < |ls| ==> ls[j] == before || ls[j] == after;
  }

  ghost predicate OffsetOk(c: Config, op: Op)
    requires c.min > 0
  {
    op.Allocating? ==> op.offset % c.min == 0
  }

  lemma {:induction false} AllocateTidy(c: Config, p: Pool, size: int, align: int, offset: int)
    requires ValidConfig(c) && Inv(c, p) && Request(c, size, align, offset)
    requires c.space > 0 && c.min > 0 && Tidy(c, p) && offset % c.min == 0
    ensures Tidy(c, Allocate(c, p, size, align, offset).0)
    decreases |p.cached|
  {
    ConfigFacts(c, align);
    ActualMeaning(c, size);
    var actual, m := Actual(c, size), Modulus(c, align);
    if actual != 0 {
      var i := FirstFit(c, p.free, 0, actual, m, offset);
      if i < |p.free| {
        TakeTidy(c, p, i, actual, align, offset);
      } else if p.cached != [] {
        DiscardKeeps(c, p);
        var q := p.(cached := p.cached[1..]);
        assert forall y :: RegionStart(p, y) == RegionStart(q, y);
        assert forall y :: RegionEnd(p, y) == RegionEnd(q, y);
        assert Tidy(c, q);
        GiveTidy(c, q, IndexIn(p.live, p.cached[0]));
        AllocateTidy(c, Discard(p), size, align, offset);
      }
    }
  }

  lemma PopulateTidy(c: Config, p: Pool, start: int, len: int)
    requires ValidConfig(c) && c.space > 0 && c.min > 0 && Tidy(c, p)
    ensures Tidy(c, Populate(c, p, start, len))
  {
    var b := Region(c, start, len);
    var q := p.(regions := p.regions + [b]);
    assert q.regions[|p.regions|] == b;
    assert RegionStart(q, b.addr) && RegionEnd(q, End(b));
    forall y
      ensures RegionStart(p, y) ==> RegionStart(q, y)
      ensures RegionEnd(p, y) ==> RegionEnd(q, y)
    {
      if RegionStart(p, y) {
        var i :| 0 <= i < |p.regions| && p.regions[i].addr == y;
        assert q.regions[i].addr == y;
      }
      if RegionEnd(p, y) {
        var i :| 0 <= i < |p.regions| && End(p.regions[i]) == y;
        assert End(q.regions[i]) == y;
      }
    }
    var r := q.(live := q.live + [b]);
    forall y
      ensures RegionStart(q, y) == RegionStart(r, y) && RegionEnd(q, y) == RegionEnd(r, y)
    {}
    assert Tidy(c, r);
    var k := |p.live|;
    GiveTidy(c, r, k);
    var t := Populate(c, p, start, len);
    assert Give(r, k).free == t.free && Give(r, k).regions == t.regions;
    assert Remove(r.live, k) == t.live;
    forall y
      ensures RegionStart(t, y) == RegionStart(r, y) && RegionEnd(t, y) == RegionEnd(r, y)
      ensures RegionStart(Give(r, k), y) == RegionStart(r, y) && RegionEnd(Give(r, k), y) == RegionEnd(r, y)
    {}
    assert WellBounded(c, t, t.free);
  }

  lemma StepTidy(c: Config, p: Pool, op: Op)
    requires ValidConfig(c) && Inv(c, p) && Legal(c, p, op) && Tidy(c, p) && OffsetOk(c, op)
    ensures Tidy(c, Step(c, p, op))
  {
    match op
    case Populating(start, len) => PopulateTidy(c, p, start, len);
    case Allocating(size, align, offset) => AllocateTidy(c, p, size, align, offset);
    case Freeing(k) => GiveTidy(c, p, k);
    case Caching(k) =>
      forall y
        ensures RegionStart(Step(c, p, op), y) == RegionStart(p, y)
        ensures RegionEnd(Step(c, p, op), y) == RegionEnd(p, y)
      {}
  }

  // In a run whose offsets are all multiples of the minimum block size, memory
  // is leaked only at the very start or the very end of a region.
  lemma LeaksOnlyAtRegionEnds(c: Config, ops: seq<Op>, k: int)
    requires ValidConfig(c) && LegalRun(c, EMPTY, ops)
    requires forall i :: 0 <= i < |ops| ==> OffsetOk(c, ops[i])
    requires 0 <= k < |Run(c, EMPTY, ops).leaked|
    ensures var p := Run(c, EMPTY, ops);
            RegionStart(p, p.leaked[k].addr) || RegionEnd(p, End(p.leaked[k]))
  {
    EmptyKeeps(c);
    RunKeeps(c, EMPTY, ops);
    RunTidy(c, EMPTY, ops);
    ShortBlock(c, Run(c, EMPTY, ops).leaked[k]);
  }

  lemma {:induction false} RunTidy(c: Config, p: Pool, ops: seq<Op>)
    requires ValidConfig(c) && Inv(c, p) && Tidy(c, p) && LegalRun(c, p, ops)
    requires forall i :: 0 <= i < |ops| ==> OffsetOk(c, ops[i])
    ensures Tidy(c, Run(c, p, ops))
    decreases |ops|
  {
    if ops != [] {
      StepKeeps(c, p, ops[0]);
      StepTidy(c, p, ops[0]);
      RunTidy(c, Step(c, p, ops[0]), ops[1..]);
    }
  }

  lemma NegMod(x: int, m: int)
    requires m > 0
    ensures x % m == 0 ==> (-x) % m == 0
  {
    if x % m == 0 {
      DivModUnique(-x, m, -(x / m), 0);
    }
  }

  // Before an allocation from a block that starts on a boundary there is a gap
  // exactly when the offset is not a multiple of the minimum block size.
  lemma GapFromBoundary(c: Config, x: int, offset: int)
    requires ValidConfig(c) && Boundary(c, x)
    ensures PreSize(c, x, c.min, offset) == 0 <==> offset % c.min == 0
  {
    ConfigFacts(c, 0);
    BoundaryMeans(c, x);
    PreSizeMeans(c, x, c.min, offset);
    NegMod(x + c.delta, c.min);
    FromZero(-(x + c.delta), offset, c.min);
  }

  // The k-th leaked fragment touches neither end of a region.
  ghost predicate LeaksInside(p: Pool, k: int)
    requires 0 <= k < |p.leaked|
  {
    !RegionStart(p, p.leaked[k].addr) && !RegionEnd(p, End(p.leaked[k]))
  }

  // For every other offset the restriction on offsets is needed: in a heap of
  // one region whose remaining free block starts on a boundary after the start
  // of the region, a small allocation with that offset leaks a fragment that
  // touches neither end of the region.
  lemma UnalignedOffsetLeaksInside(c: Config, p: Pool, size: int, align: int, offset: int)
    requires ValidConfig(c) && Inv(c, p) && Request(c, size, align, offset)
    requires 0 < size <= c.min && 0 < align <= c.min && offset % c.min != 0
    requires |p.free| == |p.regions| == 1 && p.cached == []
    requires p.regions[0].addr < p.free[0].addr && Boundary(c, p.free[0].addr) && p.free[0].size >= 3 * c.min
    ensures var q := Allocate(c, p, size, align, offset).0;
            q.leaked != [] && LeaksInside(q, |q.leaked| - 1)
  {
    hide Actual, Modulus, PreSize, Allocate, Boundary, Canonical, Disjoint, Sizes, CachedLive, Sum;
    var b := p.free[0];
    LeakBefore(c, p, b, size, align, offset);
    assert Covers(p.free, End(b) - 1) by { assert Inside(b, End(b) - 1); }
    assert OneOwner(p, End(b) - 1);
  }

  // The fragment is the gap before the allocation.
  lemma LeakBefore(c: Config, p: Pool, b: Block, size: int, align: int, offset: int)
    requires ValidConfig(c) && Request(c, size, align, offset)
    requires 0 < size <= c.min && 0 < align <= c.min && offset % c.min != 0
    requires p.free == [b] && Boundary(c, b.addr) && b.size >= 3 * c.min
    ensures var q := Allocate(c, p, size, align, offset).0;
            exists pre :: 0 < pre < c.min && q.leaked == p.leaked + [Block(b.addr, pre)] && q.regions == p.regions
  {
    hide Actual, Boundary, PreSize;
    var pre := PreSize(c, b.addr, c.min, offset);
    ConfigFacts(c, align);
    ActualMeaning(c, size);
    MinMultiple(Actual(c, size), c.min);
    TwiceMin(Actual(c, size), c.min);
    PreSizeLeast(c, b.addr, b.addr, c.min, offset);
    GapFromBoundary(c, b.addr, offset);
    assert FirstFit(c, p.free, 0, c.min, c.min, offset) == 0;
    assert Leaks(b, pre, c.min, c.min) == [Before(b, pre)];
  }

  // The heap after a region of six minimum blocks was added and one of them
  // allocated: the rest is one free block, on a boundary inside the region.
  lemma OneTaken(c: Config, start: int)
    requires ValidConfig(c) && InWindow(c, Block(start, 6 * c.min))
    ensures var ops := [Populating(start, 6 * c.min), Allocating(c.min, 1, 0)];
            LegalRun(c, EMPTY, ops)
            && var p := Run(c, EMPTY, ops);
               |p.free| == |p.regions| == 1 && p.cached == [] && p.regions[0].addr < p.free[0].addr
               && Boundary(c, p.free[0].addr) && p.free[0].size >= 3 * c.min
  {
    hide Boundary, Allocate, PreSize;
    var b, add, get := Block(start, 6 * c.min), Populating(start, 6 * c.min), Allocating(c.min, 1, 0);
    MultipleMod(6, c.min);
    assert Legal(c, EMPTY, add);
    var p := Step(c, EMPTY, add);
    assert p == Pool([b], [], [], [b], [], 6 * c.min, 0);
    OneIsPow2();
    assert Legal(c, p, get);
    TakenFromOne(c, p, b);
    var q := Step(c, p, get);
    var ops := [add, get];
    assert ops[1..] == [get] && [get][1..] == [];
    assert LegalRun(c, q, []) && LegalRun(c, p, [get]);
    assert Run(c, p, [get]) == q && Run(c, EMPTY, ops) == Run(c, p, [get]);
  }

  lemma TakenFromOne(c: Config, p: Pool, b: Block)
    requires ValidConfig(c) && p.free == [b] && b.size == 6 * c.min && p.cached == [] && ValidAlign(c, 1)
    ensures var q := Allocate(c, p, c.min, 1, 0).0;
            |q.free| == 1 && q.regions == p.regions && q.cached == [] && b.addr < q.free[0].addr
            && Boundary(c, q.free[0].addr) && q.free[0].size >= 3 * c.min
  {
    var pre := PreSize(c, b.addr, c.min, 0);
    ConfigFacts(c, 1);
    ActualMeaning(c, c.min);
    MinMultiple(Actual(c, c.min), c.min);
    TwiceMin(Actual(c, c.min), c.min);
    PreSizeLeast(c, b.addr, b.addr, c.min, 0);
    assert FirstFit(c, p.free, 0, c.min, c.min, 0) == 0;
    assert Carve(p.free, 0, pre, c.min, c.min) == [After(b, pre, c.min)];
    BoundaryMeans(c, b.addr + pre);
    BoundaryMeans(c, b.addr + pre + c.min);
    ModShift(b.addr + pre + c.delta, 1, c.min);
    assert Boundary(c, b.addr + pre + c.min);
  }

  // Allocations with the offset, or with none
  ghost predicate OffsetsFrom(ops: seq<Op>, offset: int) {
    forall i :: 0 <= i < |ops| && ops[i].Allocating? ==> ops[i].offset == 0 || ops[i].offset == offset
  }

  ghost predicate LeaksAtEnds(c: Config, ops: seq<Op>)
    requires ValidConfig(c) && LegalRun(c, EMPTY, ops)
  {
    var p := Run(c, EMPTY, ops);
    forall k :: 0 <= k < |p.leaked| ==> !LeaksInside(p, k)
  }

  // Where six minimum blocks fit, all runs that use an offset leak memory at
  // the ends of regions only, exactly if it is a multiple of the minimum size.
  lemma OffsetsExactly(c: Config, start: int, offset: int)
    requires ValidConfig(c) && InWindow(c, Block(start, 6 * c.min)) && 0 <= offset < c.space
    ensures offset % c.min == 0 <==>
            forall ops :: LegalRun(c, EMPTY, ops) && OffsetsFrom(ops, offset) ==> LeaksAtEnds(c, ops)
  {
    if offset % c.min == 0 {
      forall ops | LegalRun(c, EMPTY, ops) && OffsetsFrom(ops, offset)
        ensures LeaksAtEnds(c, ops)
      {
        forall k | 0 <= k < |Run(c, EMPTY, ops).leaked|
          ensures !LeaksInside(Run(c, EMPTY, ops), k)
        {
          LeaksOnlyAtRegionEnds(c, ops, k);
        }
      }
    } else {
      LeakingRun(c, start, offset);
    }
  }

  lemma LeakingRun(c: Config, start: int, offset: int)
    requires ValidConfig(c) && InWindow(c, Block(start, 6 * c.min)) && 0 <= offset < c.space && offset % c.min != 0
    ensures var ops := [Populating(start, 6 * c.min), Allocating(c.min, 1, 0), Allocating(c.min, 1, offset)];
            LegalRun(c, EMPTY, ops) && OffsetsFrom(ops, offset) && !LeaksAtEnds(c, ops)
  {
    var ops := [Populating(start, 6 * c.min), Allocating(c.min, 1, 0)];
    var last := Allocating(c.min, 1, offset);
    OneTaken(c, start);
    EmptyKeeps(c);
    RunKeeps(c, EMPTY, ops);
    OneIsPow2();
    var p := Run(c, EMPTY, ops);
    UnalignedOffsetLeaksInside(c, p, c.min, 1, offset);
    RunSnoc(c, EMPTY, ops, last);
    assert ops + [last] == [ops[0], ops[1], last];
  }

  lemma {:induction false} RunSnoc(c: Config, p: Pool, ops: seq<Op>, op: Op)
    requires ValidConfig(c) && LegalRun(c, p, ops) && Legal(c, Run(c, p, ops), op)
    ensures LegalRun(c, p, ops + [op]) && Run(c, p, ops + [op]) == Step(c, Run(c, p, ops), op)
    decreases |ops|
  {
    if ops == [] {
      assert [op][1..] == [];
      assert Run(c, Step(c, p, op), []) == Step(c, p, op);
      assert ops + [op] == [op];
    } else {
      RunSnoc(c, Step(c, p, ops[0]), ops[1..], op);
      assert (ops + [op])[1..] == ops[1..] + [op];
    }
  }

  lemma TwiceMin(x: int, m: int)
    requires m > 0 && x % m == 0 && 0 < x < 2 * m
    ensures x == m
  {
    if x > m { DivModUnique(x, m, 1, x - m); }
    if x < m { DivModUnique(x, m, 0, x); }
  }
}
