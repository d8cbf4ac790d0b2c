/**
 The allocation pool of malloc.c as a value: the free list, the blocks handed
 out, the fragments leaked, and the two usage counters, with the operations
 alloc_memblock(), free_memblock() and mpopulate() as functions on it.
 */
module Pool {
  import opened Words
  import opened FreeList

  /** The machine: number of addresses, MIN_MEMBLOCK_SIZE, the constant
      difference between a physical and a virtual address, and the start of the
      half of the address space that holds the pool. */
  datatype Config = Config(space: int, min: int, delta: int, base: int)

  ghost predicate ValidConfig(c: Config) {
    && c.space > 0 && c.min > 0
    && IsPow2(c.space) && IsPow2(c.min) && 2 * c.min <= c.space
    && c.base >= 1 && c.delta >= 0
  }

  // Signed pointer differences are exact inside the window.
  predicate InWindow(c: Config, b: Block) {
    c.base <= b.addr && End(b) <= c.base + c.space / 2 && End(b) < c.space
  }

  function Phys(c: Config, addr: int): int
    requires c.space > 0
  {
    (addr + c.delta) % c.space
  }

  // ( size + MIN_MEMBLOCK_SIZE - 1 ) & ~( MIN_MEMBLOCK_SIZE - 1 ), as size_t.
  function Actual(c: Config, size: int): int
    requires c.space > 0 && c.min > 0
  {
    (size + c.min - 1) % c.space / c.min * c.min
  }

  // One more than ( align - 1 ) | ( MIN_MEMBLOCK_SIZE - 1 ).
  function Modulus(c: Config, align: int): int {
    if align == 0 then c.space else if align < c.min then c.min else align
  }

  // ( offset - virt_to_phys ( block ) ) & align_mask
  function PreSize(c: Config, addr: int, modulus: int, offset: int): int
    requires c.space > 0 && modulus > 0
  {
    (offset - Phys(c, addr)) % c.space % modulus
  }

  ghost predicate Aligned(c: Config, addr: int, modulus: int, offset: int)
    requires c.space > 0 && modulus > 0
  {
    (Phys(c, addr) - offset) % modulus == 0
  }

  ghost predicate ValidAlign(c: Config, align: int) {
    align == 0 || (IsPow2(align) && align < c.space)
  }

  // ---- Word arithmetic of a request ---------------------------------------

  lemma ConfigFacts(c: Config, align: int)
    requires ValidConfig(c) && ValidAlign(c, align)
    ensures c.min > 0 && c.space > 0
    ensures Modulus(c, align) > 0
    ensures c.space % Modulus(c, align) == 0
    ensures Modulus(c, align) % c.min == 0 && c.space % c.min == 0
  {
    Pow2Divides(c.min, c.space);
    if align != 0 {
      if align < c.min {
        Pow2Divides(c.min, c.min);
      } else {
        Pow2Divides(align, c.space);
        Pow2Divides(c.min, align);
      }
    }
  }

  lemma RoundDown(x: int, m: int)
    requires m > 0
    ensures x == x / m * m + x % m && x / m * m % m == 0
  {
    MultipleMod(x / m, m);
  }

  lemma RoundDownSmall(x: int, m: int)
    requires 0 <= x < m
    ensures x / m * m == 0
  {
    DivModUnique(x, m, 0, x);
  }

  // Rounding yields zero exactly for size zero and for sizes that wrap;
  // otherwise it is the least multiple of the minimum that holds the request.
  lemma ActualMeaning(c: Config, size: int)
    requires ValidConfig(c) && 0 <= size < c.space
    ensures Actual(c, size) % c.min == 0
    ensures Actual(c, size) == 0 <==> size == 0 || size > c.space - c.min
    ensures Actual(c, size) != 0 ==> size <= Actual(c, size) < size + c.min
  {
    var x := (size + c.min - 1) % c.space;
    RoundDown(x, c.min);
    if size > c.space - c.min {
      DivModUnique(size + c.min - 1, c.space, 1, size + c.min - 1 - c.space);
      RoundDownSmall(x, c.min);
    } else {
      DivModUnique(size + c.min - 1, c.space, 0, size + c.min - 1);
      if size == 0 { RoundDownSmall(x, c.min); }
    }
  }

  // The gap before an allocation leads to the least aligned address.
  lemma PreSizeLeast(c: Config, addr: int, x: int, m: int, offset: int)
    requires c.space > 0 && m > 0 && c.space % m == 0
    ensures 0 <= PreSize(c, addr, m, offset) < m
    ensures Aligned(c, addr + PreSize(c, addr, m, offset), m, offset)
    ensures x >= addr && Aligned(c, x, m, offset) ==> x >= addr + PreSize(c, addr, m, offset)
  {
    var y := addr + c.delta - offset;
    PreSizeMeans(c, addr, m, offset);
    AlignedMeans(c, x, m, offset);
    AlignedMeans(c, addr + (-y) % m, m, offset);
    LeastAligned(y, x - addr, m);
    assert addr + (-y) % m + c.delta - offset == y + (-y) % m;
    assert x + c.delta - offset == y + (x - addr);
  }

  lemma PreSizeMeans(c: Config, addr: int, m: int, offset: int)
    requires c.space > 0 && m > 0 && c.space % m == 0
    ensures PreSize(c, addr, m, offset) == (-(addr + c.delta - offset)) % m
  {
    ModMod(offset - Phys(c, addr), c.space, m);
    ModMod(addr + c.delta, c.space, m);
    ModSub(offset, Phys(c, addr), m);
    ModSub(offset, addr + c.delta, m);
  }

  // (-y) mod m is the least k >= 0 for which y + k is a multiple of m.
  lemma LeastAligned(y: int, k: int, m: int)
    requires m > 0
    ensures (y + (-y) % m) % m == 0
    ensures k >= 0 && (y + k) % m == 0 ==> k >= (-y) % m
  {
    ModAdd(-y, y, m);
    ModAdd(y + k, -y, m);
    if k >= 0 && (y + k) % m == 0 {
      assert k % m == (-y) % m;
      RoundDown(k, m);
      assert k / m >= 0;
      MulMono(0, k / m, m);
    }
  }

  lemma AlignedMeans(c: Config, x: int, m: int, offset: int)
    requires c.space > 0 && m > 0 && c.space % m == 0
    ensures Aligned(c, x, m, offset) <==> (x + c.delta - offset) % m == 0
  {
    ModMod(x + c.delta, c.space, m);
    ModAdd(Phys(c, x), -offset, m);
    ModAdd(x + c.delta, -offset, m);
  }

  // ---- The pool -----------------------------------------------------------

  /** `cached` lists the live blocks that a cache discarder can give back;
      `leaked` and `regions` record history that the C code does not store. */
  datatype Pool = Pool(free: seq<Block>, live: seq<Block>, leaked: seq<Block>,
                       regions: seq<Block>, cached: seq<Block>,
                       freemem: int, usedmem: int)

  const EMPTY := Pool([], [], [], [], [], 0, 0)

  // A pool address is free, live or leaked, and only one of these.
  ghost predicate OneOwner(p: Pool, a: int) {
    && (Covers(p.regions, a) <==> Covers(p.free, a) || Covers(p.live, a) || Covers(p.leaked, a))
    && !(Covers(p.free, a) && Covers(p.live, a))
    && !(Covers(p.free, a) && Covers(p.leaked, a))
    && !(Covers(p.live, a) && Covers(p.leaked, a))
  }

  ghost predicate Partition(p: Pool) {
    && Disjoint(p.live) && Positive(p.live)
    && Disjoint(p.leaked) && Positive(p.leaked)
    && Disjoint(p.regions) && Positive(p.regions)
    && forall a :: OneOwner(p, a)
  }

  // A multiple of the minimum block size.
  ghost predicate Whole(c: Config, size: int) {
    c.min > 0 && size % c.min == 0
  }

  ghost predicate Sizes(c: Config, p: Pool) {
    && (forall i :: 0 <= i < |p.free| ==> p.free[i].size >= c.min)
    && (forall i :: 0 <= i < |p.live| ==> p.live[i].size >= c.min && Whole(c, p.live[i].size))
    && (forall i :: 0 <= i < |p.leaked| ==> p.leaked[i].size < c.min)
    && (forall i :: 0 <= i < |p.regions| ==> InWindow(c, p.regions[i]))
  }

  ghost predicate Distinct(s: seq<Block>) {
    forall i, j :: 0 <= i < j < |s| ==> s[i] != s[j]
  }

  ghost predicate CachedLive(p: Pool) {
    Distinct(p.cached) && forall i :: 0 <= i < |p.cached| ==> p.cached[i] in p.live
  }

  /** What every reachable heap satisfies. */
  ghost predicate Inv(c: Config, p: Pool) {
    && Canonical(p.free)
    && Partition(p)
    && Sizes(c, p)
    && CachedLive(p)
    && p.usedmem == Sum(p.live)
    && p.freemem == Sum(p.free) + Sum(p.leaked)
  }

  lemma BytesPartition(p: Pool)
    requires Partition(p)
    ensures Bytes(p.regions) == Bytes(p.free) + Bytes(p.live) + Bytes(p.leaked)
    ensures Bytes(p.free) !! Bytes(p.live)
    ensures Bytes(p.free) + Bytes(p.live) !! Bytes(p.leaked)
  {
    forall a
      ensures OneOwner(p, a)
      ensures a in Bytes(p.free) <==> Covers(p.free, a)
      ensures a in Bytes(p.live) <==> Covers(p.live, a)
      ensures a in Bytes(p.leaked) <==> Covers(p.leaked, a)
      ensures a in Bytes(p.regions) <==> Covers(p.regions, a)
    {
      BytesAreCovered(p.free, a);
      BytesAreCovered(p.live, a);
      BytesAreCovered(p.leaked, a);
      BytesAreCovered(p.regions, a);
    }
  }

  lemma RegionsFit(c: Config, p: Pool)
    requires ValidConfig(c) && Partition(p) && Sizes(c, p)
    ensures Sum(p.regions) <= c.space / 2
  {
    forall a | Covers(p.regions, a)
      ensures c.base <= a < c.base + c.space / 2
    {
      var i :| 0 <= i < |p.regions| && Inside(p.regions[i], a);
      assert InWindow(c, p.regions[i]);
    }
    SumWithin(p.regions, c.base, c.base + c.space / 2);
  }

  // No byte is lost or counted twice: the two counters always add up to the
  // memory that was ever populated, and neither can wrap.
  lemma Conservation(c: Config, p: Pool)
    requires ValidConfig(c) && Inv(c, p)
    ensures p.freemem + p.usedmem == Sum(p.regions)
    ensures 0 <= p.freemem && 0 <= p.usedmem && Sum(p.regions) < c.space
  {
    hide Sum, Bytes, Covers;
    BytesPartition(p);
    CanonicalDisjoint(p.free);
    SumCountsBytes(p.free);
    SumCountsBytes(p.live);
    SumCountsBytes(p.leaked);
    SumCountsBytes(p.regions);
    RegionsFit(c, p);
  }

  lemma CanonicalDisjoint(s: seq<Block>)
    requires Canonical(s)
    ensures Disjoint(s)
  {
    forall i, j | 0 <= i < j < |s|
      ensures Apart(s[i], s[j])
    {}
  }

  // ---- Giving memory back -------------------------------------------------

  function Remove(s: seq<Block>, k: int): seq<Block>
    requires 0 <= k < |s|
  {
    s[..k] + s[k + 1..]
  }

  // free_memblock() on the k-th live block.
  function Give(p: Pool, k: int): Pool
    requires 0 <= k < |p.live|
  {
    p.(free := Insert(p.free, p.live[k]), live := Remove(p.live, k),
       freemem := p.freemem + p.live[k].size, usedmem := p.usedmem - p.live[k].size)
  }

  lemma OwnersApart(p: Pool, b: Block, s: seq<Block>)
    requires Positive(s) && b.size > 0
    requires forall a :: Inside(b, a) ==> !Covers(s, a)
    ensures forall i :: 0 <= i < |s| ==> Apart(s[i], b) && Apart(b, s[i])
  {
    forall i | 0 <= i < |s|
      ensures Apart(s[i], b) && Apart(b, s[i])
    {
      forall a
        ensures !(Inside(s[i], a) && Inside(b, a))
      {
        assert Inside(s[i], a) ==> Covers(s, a);
      }
      ApartIfNoCommonByte(s[i], b);
    }
  }

  lemma LiveNotFree(p: Pool, k: int)
    requires Canonical(p.free) && Partition(p) && 0 <= k < |p.live|
    ensures Clear(p.free, p.live[k])
  {
    forall a | Inside(p.live[k], a)
      ensures !Covers(p.free, a)
    {
      assert OneOwner(p, a);
      assert Covers(p.live, a);
    }
    OwnersApart(p, p.live[k], p.free);
  }

  function Lower(x: int, y: int): int {
    if x < y then x else y
  }

  // An address below all blocks.
  function Floor(s: seq<Block>, b: Block): int {
    if s == [] then b.addr - 1 else Lower(b.addr, s[0].addr) - 1
  }

  lemma GiveFreeList(p: Pool, k: int)
    requires Canonical(p.free) && Partition(p) && 0 <= k < |p.live|
    ensures Canonical(Insert(p.free, p.live[k]))
    ensures forall a :: Covers(Insert(p.free, p.live[k]), a) <==>
                        Covers(p.free, a) || Inside(p.live[k], a)
  {
    var b := p.live[k];
    LiveNotFree(p, k);
    InsertCanonical(p.free, b, Floor(p.free, b));
    forall a
      ensures Covers(Insert(p.free, b), a) <==> Covers(p.free, a) || Inside(b, a)
    {
      InsertCovers(p.free, b, a);
    }
  }

  lemma GivePartition(p: Pool, k: int)
    requires Canonical(p.free) && Partition(p) && 0 <= k < |p.live|
    ensures Partition(Give(p, k))
  {
    var q := Give(p, k);
    GiveFreeList(p, k);
    assert forall i :: 0 <= i < |q.live| ==> q.live[i] == p.live[if i < k then i else i + 1];
    forall a
      ensures OneOwner(q, a)
    {
      assert OneOwner(p, a);
      RemoveCovers(p.live, k, a);
      assert Inside(p.live[k], a) ==> Covers(p.live, a);
    }
  }

  lemma GiveKeeps(c: Config, p: Pool, k: int)
    requires ValidConfig(c) && Inv(c, p) && 0 <= k < |p.live| && p.live[k] !in p.cached
    ensures Inv(c, Give(p, k))
  {
    hide Insert, Partition, Canonical, Sum, Covers;
    var q := Give(p, k);
    GiveFreeList(p, k);
    GivePartition(p, k);
    LiveNotFree(p, k);
    InsertSum(p.free, p.live[k]);
    SumRemove(p.live, k);
    InsertAtLeast(p.free, p.live[k], c.min);
    assert forall i :: 0 <= i < |q.live| ==> q.live[i] == p.live[if i < k then i else i + 1];
    forall i | 0 <= i < |q.cached|
      ensures q.cached[i] in q.live
    {
      StillIn(p.live, k, q.cached[i]);
    }
  }

  lemma StillIn(s: seq<Block>, k: int, b: Block)
    requires 0 <= k < |s| && b in s && b != s[k]
    ensures b in Remove(s, k)
  {
    var i :| 0 <= i < |s| && s[i] == b;
    assert Remove(s, k)[if i < k then i else i - 1] == b;
  }

  // ---- Handing memory out -------------------------------------------------

  predicate Fits(c: Config, b: Block, actual: int, m: int, offset: int)
    requires c.space > 0 && m > 0
  {
    var pre := PreSize(c, b.addr, m, offset);
    pre <= b.size && actual <= b.size - pre
  }

  // The first block of the list, from index i on, with enough space.
  function FirstFit(c: Config, s: seq<Block>, i: int, actual: int, m: int, offset: int): (r: int)
    requires c.space > 0 && m > 0 && 0 <= i <= |s|
    ensures i <= r <= |s|
    ensures forall j :: i <= j < r ==> !Fits(c, s[j], actual, m, offset)
    ensures r < |s| ==> Fits(c, s[r], actual, m, offset)
    decreases |s| - i
  {
    if i == |s| || Fits(c, s[i], actual, m, offset) then i
    else FirstFit(c, s, i + 1, actual, m, offset)
  }

  function Take(c: Config, p: Pool, i: int, actual: int, m: int, offset: int): Pool
    requires c.space > 0 && m > 0 && 0 <= i < |p.free|
  {
    var pre := PreSize(c, p.free[i].addr, m, offset);
    p.(free := Carve(p.free, i, pre, actual, c.min),
       live := p.live + [Block(p.free[i].addr + pre, actual)],
       leaked := p.leaked + Leaks(p.free[i], pre, actual, c.min),
       freemem := p.freemem - actual, usedmem := p.usedmem + actual)
  }

  lemma LeaksFacts(b: Block, pre: int, size: int, min: int)
    requires 0 <= pre && 0 < size && pre + size <= b.size && min > 0
    ensures Disjoint(Leaks(b, pre, size, min)) && Positive(Leaks(b, pre, size, min))
    ensures forall i :: 0 <= i < |Leaks(b, pre, size, min)| ==> Leaks(b, pre, size, min)[i].size < min
    ensures forall a :: Covers(Leaks(b, pre, size, min), a) ==>
                          Inside(b, a) && !Inside(Block(b.addr + pre, size), a)
  {
    var s := Leaks(b, pre, size, min);
    var before, after := Before(b, pre), After(b, pre, size);
    assert forall i :: 0 <= i < |s| ==> s[i] == before || s[i] == after;
    forall i, j | 0 <= i < j < |s|
      ensures Apart(s[i], s[j])
    {
      assert s[i] == before && s[j] == after;
    }
  }

  lemma TakePartition(c: Config, p: Pool, i: int, actual: int, m: int, offset: int)
    requires c.space > 0 && c.min > 0 && m > 0 && 0 <= i < |p.free| && actual > 0
    requires Canonical(p.free) && Partition(p) && Fits(c, p.free[i], actual, m, offset)
    ensures Canonical(Take(c, p, i, actual, m, offset).free)
    ensures Partition(Take(c, p, i, actual, m, offset))
  {
    var q := Take(c, p, i, actual, m, offset);
    var b := p.free[i];
    var pre := PreSize(c, b.addr, m, offset);
    var x, ls := Block(b.addr + pre, actual), Leaks(b, pre, actual, c.min);
    CarveCanonical(p.free, i, pre, actual, c.min);
    LeaksFacts(b, pre, actual, c.min);
    forall a | Inside(b, a)
      ensures Covers(p.free, a) && !Covers(p.live, a) && !Covers(p.leaked, a)
    {
      assert OneOwner(p, a);
    }
    OwnersApart(p, x, p.live);
    forall k | 0 <= k < |ls|
      ensures forall j :: 0 <= j < |p.leaked| ==> Apart(p.leaked[j], ls[k])
    {
      forall a | Inside(ls[k], a)
        ensures !Covers(p.leaked, a)
      {
        assert Covers(ls, a);
      }
      OwnersApart(p, ls[k], p.leaked);
    }
    forall a
      ensures OneOwner(q, a)
    {
      assert OneOwner(p, a);
      TakeCovers(c, p, i, actual, m, offset, a);
    }
  }

  // Where each byte of the carved block goes.
  lemma TakeCovers(c: Config, p: Pool, i: int, actual: int, m: int, offset: int, a: int)
    requires c.space > 0 && c.min > 0 && m > 0 && 0 <= i < |p.free| && actual > 0
    requires Canonical(p.free) && Fits(c, p.free[i], actual, m, offset)
    ensures var q := Take(c, p, i, actual, m, offset);
            var x := Block(p.free[i].addr + PreSize(c, p.free[i].addr, m, offset), actual);
            var ls := Leaks(p.free[i], PreSize(c, p.free[i].addr, m, offset), actual, c.min);
            && (Covers(q.live, a) <==> Covers(p.live, a) || Inside(x, a))
            && (Covers(q.leaked, a) <==> Covers(p.leaked, a) || Covers(ls, a))
            && (Covers(q.free, a) <==> Covers(p.free, a) && !Inside(x, a) && !Covers(ls, a))
  {
    var b := p.free[i];
    var pre := PreSize(c, b.addr, m, offset);
    var x, ls := Block(b.addr + pre, actual), Leaks(b, pre, actual, c.min);
    CoversConcat(p.live, [x], a);
    CoversOne(x, a);
    CoversConcat(p.leaked, ls, a);
    CarveCovers(p.free, i, pre, actual, c.min, a);
    CarveExcludes(p.free, i, pre, actual, c.min, a);
  }

  lemma CarveExcludes(s: seq<Block>, i: int, pre: int, size: int, min: int, a: int)
    requires Canonical(s) && 0 <= i < |s| && min > 0
    requires 0 <= pre && 0 < size && pre + size <= s[i].size
    ensures Inside(Block(s[i].addr + pre, size), a) || Covers(Leaks(s[i], pre, size, min), a)
            ==> !Covers(Carve(s, i, pre, size, min), a)
  {
    var m := Keep(Before(s[i], pre), min) + Keep(After(s[i], pre, size), min);
    var c := Carve(s, i, pre, size, min);
    forall k | 0 <= k < |c| && (Inside(Block(s[i].addr + pre, size), a) || Covers(Leaks(s[i], pre, size, min), a))
      ensures !Inside(c[k], a)
    {
      assert c[k] == if k < i then s[k] else if k < i + |m| then m[k - i] else s[k - |m| + 1];
    }
  }

  lemma TakeKeeps(c: Config, p: Pool, i: int, actual: int, m: int, offset: int)
    requires ValidConfig(c) && Inv(c, p) && m > 0 && c.space % m == 0
    requires 0 <= i < |p.free| && actual >= c.min && Whole(c, actual)
    requires Fits(c, p.free[i], actual, m, offset)
    ensures Inv(c, Take(c, p, i, actual, m, offset))
  {
    PreSizeLeast(c, p.free[i].addr, p.free[i].addr, m, offset);
    TakePartition(c, p, i, actual, m, offset);
    TakeSums(c, p, i, actual, m, offset);
    TakeSizes(c, p, i, actual, m, offset);
  }

  lemma TakeSizes(c: Config, p: Pool, i: int, actual: int, m: int, offset: int)
    requires c.space > 0 && m > 0 && c.min > 0 && 0 <= i < |p.free| && actual >= c.min && Whole(c, actual)
    requires Fits(c, p.free[i], actual, m, offset) && Sizes(c, p) && CachedLive(p)
    ensures Sizes(c, Take(c, p, i, actual, m, offset)) && CachedLive(Take(c, p, i, actual, m, offset))
  {
    var pre := PreSize(c, p.free[i].addr, m, offset);
    LeaksFacts(p.free[i], pre, actual, c.min);
    KeepsSizes(p.free, i, pre, actual, c.min);
  }

  lemma TakeSums(c: Config, p: Pool, i: int, actual: int, m: int, offset: int)
    requires c.space > 0 && m > 0 && c.min > 0 && 0 <= i < |p.free| && actual > 0
    requires Fits(c, p.free[i], actual, m, offset)
    ensures var q := Take(c, p, i, actual, m, offset);
            && Sum(q.live) == Sum(p.live) + actual
            && Sum(q.free) + Sum(q.leaked) == Sum(p.free) + Sum(p.leaked) - actual
  {
    var b := p.free[i];
    var pre := PreSize(c, b.addr, m, offset);
    CarveSum(p.free, i, pre, actual, c.min);
    SumConcat(p.live, [Block(b.addr + pre, actual)]);
    SumOne(Block(b.addr + pre, actual));
    SumConcat(p.leaked, Leaks(b, pre, actual, c.min));
  }

  lemma KeepsSizes(s: seq<Block>, i: int, pre: int, size: int, min: int)
    requires 0 <= i < |s| && forall j :: 0 <= j < |s| ==> s[j].size >= min
    ensures forall j :: 0 <= j < |Carve(s, i, pre, size, min)| ==> Carve(s, i, pre, size, min)[j].size >= min
  {
  }

  // ---- alloc_memblock() ---------------------------------------------------

  function IndexIn(s: seq<Block>, b: Block): (k: int)
    requires b in s
    ensures 0 <= k < |s| && s[k] == b
  {
    if s[0] == b then 0 else 1 + IndexIn(s[1..], b)
  }

  // discard_cache(): the cheapest cached item is freed.
  function Discard(p: Pool): Pool
    requires p.cached != []
  {
    var q := p.(cached := p.cached[1..]);
    if p.cached[0] in p.live then Give(q, IndexIn(p.live, p.cached[0])) else q
  }

  lemma DiscardKeeps(c: Config, p: Pool)
    requires ValidConfig(c) && Inv(c, p) && p.cached != []
    ensures Inv(c, Discard(p))
  {
    var q := p.(cached := p.cached[1..]);
    assert forall a :: OneOwner(p, a) ==> OneOwner(q, a);
    assert forall i :: 0 <= i < |q.cached| ==> q.cached[i] == p.cached[i + 1];
    GiveKeeps(c, q, IndexIn(p.live, p.cached[0]));
  }

  ghost predicate Request(c: Config, size: int, align: int, offset: int) {
    0 <= size < c.space && ValidAlign(c, align) && 0 <= offset < c.space
  }

  // One pass over the free list.
  function AllocateNow(c: Config, p: Pool, actual: int, m: int, offset: int): (Pool, Option<int>)
    requires c.space > 0 && m > 0
  {
    var i := FirstFit(c, p.free, 0, actual, m, offset);
    if i == |p.free| then (p, None)
    else (Take(c, p, i, actual, m, offset), Some(p.free[i].addr + PreSize(c, p.free[i].addr, m, offset)))
  }

  // Passes over the free list, with one item of cached data discarded after
  // each pass that finds no space.
  function Allocate(c: Config, p: Pool, size: int, align: int, offset: int): (Pool, Option<int>)
    requires c.space > 0 && c.min > 0 && align >= 0
    decreases |p.cached|
  {
    var actual := Actual(c, size);
    if actual == 0 then (p, None)
    else
      var r := AllocateNow(c, p, actual, Modulus(c, align), offset);
      if r.1.Some? || p.cached == [] then r
      else Allocate(c, Discard(p), size, align, offset)
  }

  lemma {:induction false} AllocateKeeps(c: Config, p: Pool, size: int, align: int, offset: int)
    requires ValidConfig(c) && Inv(c, p) && Request(c, size, align, offset)
    ensures Inv(c, Allocate(c, p, size, align, offset).0)
    decreases |p.cached|
  {
    ConfigFacts(c, align);
    ActualMeaning(c, size);
    var actual, m := Actual(c, size), Modulus(c, align);
    if actual != 0 {
      MinMultiple(actual, c.min);
      var i := FirstFit(c, p.free, 0, actual, m, offset);
      if i < |p.free| {
        TakeKeeps(c, p, i, actual, m, offset);
      } else if p.cached != [] {
        DiscardKeeps(c, p);
        AllocateKeeps(c, Discard(p), size, align, offset);
      }
    }
  }

  lemma MinMultiple(x: int, m: int)
    requires m > 0 && x % m == 0 && x > 0
    ensures x >= m
  {
    if x < m { DivModUnique(x, m, 0, x); }
  }

  // ---- Which address is returned ------------------------------------------

  // x is aligned as requested and all bytes of [x, x + actual) are free.
  ghost predicate Room(c: Config, p: Pool, x: int, actual: int, m: int, offset: int)
    requires c.space > 0 && m > 0
  {
    Aligned(c, x, m, offset) && CoversAll(p.free, x, x + actual)
  }

  // Only one block of the list can hold a given room, and it then fits.
  lemma RoomInBlock(c: Config, p: Pool, x: int, actual: int, m: int, offset: int) returns (i: int)
    requires c.space > 0 && m > 0 && c.space % m == 0 && actual > 0 && Canonical(p.free)
    requires Room(c, p, x, actual, m, offset)
    ensures 0 <= i < |p.free| && Fits(c, p.free[i], actual, m, offset)
    ensures p.free[i].addr + PreSize(c, p.free[i].addr, m, offset) <= x < End(p.free[i])
  {
    i := IntervalInOneBlock(p.free, x, x + actual);
    PreSizeLeast(c, p.free[i].addr, x, m, offset);
  }

  lemma FitsIsRoom(c: Config, p: Pool, i: int, actual: int, m: int, offset: int)
    requires c.space > 0 && m > 0 && c.space % m == 0 && Canonical(p.free)
    requires 0 <= i < |p.free| && Fits(c, p.free[i], actual, m, offset)
    ensures Room(c, p, p.free[i].addr + PreSize(c, p.free[i].addr, m, offset), actual, m, offset)
  {
    var x := p.free[i].addr + PreSize(c, p.free[i].addr, m, offset);
    PreSizeLeast(c, p.free[i].addr, x, m, offset);
    assert forall a :: x <= a < x + actual ==> Inside(p.free[i], a);
  }

  // A pass over the free list finds the lowest suitable address of the whole
  // pool, and fails only when there is none.
  lemma LowestAddress(c: Config, p: Pool, actual: int, m: int, offset: int)
    requires c.space > 0 && m > 0 && c.space % m == 0 && actual > 0 && Canonical(p.free)
    ensures var r := AllocateNow(c, p, actual, m, offset).1;
            && (r.None? <==> forall x :: !Room(c, p, x, actual, m, offset))
            && (r.Some? ==> Room(c, p, r.value, actual, m, offset))
            && (r.Some? ==> forall x :: Room(c, p, x, actual, m, offset) ==> r.value <= x)
  {
    var k := FirstFit(c, p.free, 0, actual, m, offset);
    if k < |p.free| {
      FitsIsRoom(c, p, k, actual, m, offset);
    }
    forall x | Room(c, p, x, actual, m, offset)
      ensures k < |p.free| && p.free[k].addr + PreSize(c, p.free[k].addr, m, offset) <= x
    {
      var i := RoomInBlock(c, p, x, actual, m, offset);
      assert k <= i;
      PreSizeLeast(c, p.free[i].addr, x, m, offset);
      if k < i {
        assert End(p.free[k]) < p.free[i].addr;
      }
    }
  }

  // With nothing left to discard, allocation returns NULL exactly when the
  // rounded size wraps to zero or no suitably aligned room is free, and
  // otherwise the lowest such room.
  lemma AllocateResult(c: Config, p: Pool, size: int, align: int, offset: int)
    requires ValidConfig(c) && Inv(c, p) && Request(c, size, align, offset) && p.cached == []
    ensures Modulus(c, align) > 0 && c.space > 0
    ensures var (q, r) := Allocate(c, p, size, align, offset);
            var actual, m := Actual(c, size), Modulus(c, align);
            && (r.None? <==> size == 0 || size > c.space - c.min ||
                             forall x :: !Room(c, p, x, actual, m, offset))
            && (r.None? ==> q == p)
            && (r.Some? ==> Room(c, p, r.value, actual, m, offset))
            && (r.Some? ==> forall x :: Room(c, p, x, actual, m, offset) ==> r.value <= x)
            && (r.Some? ==> q.live == p.live + [Block(r.value, actual)])
  {
    hide Actual, Modulus, Room, Inv, AllocateNow;
    ConfigFacts(c, align);
    ActualMeaning(c, size);
    InvFree(c, p);
    var actual, m := Actual(c, size), Modulus(c, align);
    if actual != 0 {
      LowestAddress(c, p, actual, m, offset);
      assert Allocate(c, p, size, align, offset) == AllocateNow(c, p, actual, m, offset);
      NowLive(c, p, actual, m, offset);
    }
  }

  lemma InvFree(c: Config, p: Pool)
    requires Inv(c, p)
    ensures Canonical(p.free)
  {
  }

  lemma NowLive(c: Config, p: Pool, actual: int, m: int, offset: int)
    requires c.space > 0 && m > 0
    ensures var (q, r) := AllocateNow(c, p, actual, m, offset);
            if r.None? then q == p else q.live == p.live + [Block(r.value, actual)]
  {
    hide PreSize, Carve;
  }

  // A failed allocation has first discarded everything that was cached.
  lemma {:induction false} FailureIsExhaustion(c: Config, p: Pool, size: int, align: int, offset: int)
    requires ValidConfig(c) && Inv(c, p) && Request(c, size, align, offset)
    ensures Modulus(c, align) > 0 && c.space > 0
    ensures var (q, r) := Allocate(c, p, size, align, offset);
            r.None? && 0 < size <= c.space - c.min ==>
              q.cached == [] && forall x :: !Room(c, q, x, Actual(c, size), Modulus(c, align), offset)
    decreases |p.cached|
  {
    ConfigFacts(c, align);
    ActualMeaning(c, size);
    var actual, m := Actual(c, size), Modulus(c, align);
    if actual != 0 {
      LowestAddress(c, p, actual, m, offset);
      if AllocateNow(c, p, actual, m, offset).1.None? && p.cached != [] {
        DiscardKeeps(c, p);
        FailureIsExhaustion(c, Discard(p), size, align, offset);
      }
    }
  }

  // ---- What is discarded --------------------------------------------------

  // There is an aligned room at x among the free bytes and those of the first k
  // cached items.
  ghost predicate RoomAfter(c: Config, p: Pool, k: nat, x: int, actual: int, m: int, offset: int)
    requires c.space > 0 && m > 0 && k <= |p.cached|
  {
    && Aligned(c, x, m, offset)
    && forall a :: x <= a < x + actual ==> Covers(p.free, a) || Covers(p.cached[..k], a)
  }

  ghost predicate NoRoomAfter(c: Config, p: Pool, k: nat, actual: int, m: int, offset: int)
    requires c.space > 0 && m > 0 && k <= |p.cached|
  {
    forall x :: !RoomAfter(c, p, k, x, actual, m, offset)
  }

  // k items were discarded, the least number after which there is room, in
  // order; the block is the lowest room there is then.
  ghost predicate Outcome(c: Config, p: Pool, k: nat, actual: int, m: int, offset: int, q: Pool, x: int)
    requires c.space > 0 && m > 0 && k <= |p.cached|
  {
    && RoomAfter(c, p, k, x, actual, m, offset)
    && (forall y :: RoomAfter(c, p, k, y, actual, m, offset) ==> x <= y)
    && (forall j: nat :: j < k ==> NoRoomAfter(c, p, j, actual, m, offset))
    && q.cached == p.cached[k..] && Gone(p, k, q, [Block(x, actual)])
  }

  // The live blocks are those of p, without the first k cached items, and then
  // the given ones; both counters have followed.
  ghost predicate Gone(p: Pool, k: nat, q: Pool, new_: seq<Block>)
    requires k <= |p.cached|
  {
    && |p.live| - k + |new_| == |q.live|
    && (forall b :: b in q.live <==> b in new_ || (b in p.live && b !in p.cached[..k]))
    && q.usedmem == p.usedmem - Sum(p.cached[..k]) + Sum(new_)
    && q.freemem == p.freemem + Sum(p.cached[..k]) - Sum(new_)
    && (k == 0 ==> q.live == p.live + new_)
  }

  // What discarding the first item leads to
  lemma DiscardOne(c: Config, p: Pool)
    requires ValidConfig(c) && Inv(c, p) && p.cached != []
    ensures var d := Discard(p);
            && Inv(c, d) && d.cached == p.cached[1..] && |d.live| == |p.live| - 1
            && d.usedmem == p.usedmem - p.cached[0].size && d.freemem == p.freemem + p.cached[0].size
            && (forall b :: b in d.live <==> b in p.live && b != p.cached[0])
            && (forall a :: Covers(d.free, a) <==> Covers(p.free, a) || Inside(p.cached[0], a))
  {
    hide Insert;
    var d, b := Discard(p), p.cached[0];
    var k := IndexIn(p.live, b);
    DiscardKeeps(c, p);
    GiveFreeList(p, k);
    assert d.live == Remove(p.live, k);
    RemovedIs(p.live, k);
  }

  lemma RemovedIs(s: seq<Block>, k: int)
    requires Disjoint(s) && Positive(s) && 0 <= k < |s|
    ensures forall b :: b in Remove(s, k) <==> b in s && b != s[k]
  {
    var r := Remove(s, k);
    forall b
      ensures b in r <==> b in s && b != s[k]
    {
      if b in r {
        var i := IndexIn(r, b);
        var j := if i < k then i else i + 1;
        assert r[i] == s[j];
        assert j < k ==> Apart(s[j], s[k]);
        assert k < j ==> Apart(s[k], s[j]);
      }
      if b in s && b != s[k] {
        StillIn(s, k, b);
      }
    }
  }

  // Room after k discards is room after k - 1 more from the pool with one
  // discarded.
  lemma RoomShift(c: Config, p: Pool, k: nat, x: int, actual: int, m: int, offset: int)
    requires ValidConfig(c) && Inv(c, p) && m > 0 && 1 <= k <= |p.cached|
    ensures Discard(p).cached == p.cached[1..]
    ensures RoomAfter(c, p, k, x, actual, m, offset) <==> RoomAfter(c, Discard(p), k - 1, x, actual, m, offset)
  {
    hide Inv, Discard, Aligned, Covers;
    var d := Discard(p);
    DiscardOne(c, p);
    assert p.cached[..k] == [p.cached[0]] + d.cached[..k - 1];
    forall a
      ensures Covers(p.free, a) || Covers(p.cached[..k], a) <==> Covers(d.free, a) || Covers(d.cached[..k - 1], a)
    {
      CoversConcat([p.cached[0]], d.cached[..k - 1], a);
      CoversOne(p.cached[0], a);
    }
  }

  lemma NoRoomShift(c: Config, p: Pool, k: nat, actual: int, m: int, offset: int)
    requires ValidConfig(c) && Inv(c, p) && m > 0 && 1 <= k <= |p.cached|
    ensures Discard(p).cached == p.cached[1..]
    ensures NoRoomAfter(c, Discard(p), k - 1, actual, m, offset) ==> NoRoomAfter(c, p, k, actual, m, offset)
  {
    hide Inv, Discard, RoomAfter;
    DiscardOne(c, p);
    forall x
      ensures RoomAfter(c, p, k, x, actual, m, offset) ==> !NoRoomAfter(c, Discard(p), k - 1, actual, m, offset)
    {
      RoomShift(c, p, k, x, actual, m, offset);
    }
  }

  lemma RoomNow(c: Config, p: Pool, x: int, actual: int, m: int, offset: int)
    requires c.space > 0 && m > 0
    ensures RoomAfter(c, p, 0, x, actual, m, offset) <==> Room(c, p, x, actual, m, offset)
  {
    assert forall a :: !Covers(p.cached[..0], a);
  }

  // Discarding one more item first
  lemma OutcomeLater(c: Config, p: Pool, k: nat, actual: int, m: int, offset: int, q: Pool, x: int)
    requires ValidConfig(c) && Inv(c, p) && m > 0 && p.cached != [] && k < |p.cached|
    requires NoRoomAfter(c, p, 0, actual, m, offset)
    requires Discard(p).cached == p.cached[1..] && Outcome(c, Discard(p), k, actual, m, offset, q, x)
    ensures Outcome(c, p, k + 1, actual, m, offset, q, x)
  {
    hide Inv, Discard, RoomAfter, NoRoomAfter, Gone;
    var d := Discard(p);
    RoomShift(c, p, k + 1, x, actual, m, offset);
    var n := k + 1;
    forall y
      ensures RoomAfter(c, p, n, y, actual, m, offset) ==> x <= y
    {
      RoomShift(c, p, n, y, actual, m, offset);
    }
    forall j: nat | j < n
      ensures NoRoomAfter(c, p, j, actual, m, offset)
    {
      if j > 0 {
        assert NoRoomAfter(c, d, j - 1, actual, m, offset);
        NoRoomShift(c, p, j, actual, m, offset);
      }
    }
    assert d.cached[k..] == p.cached[k + 1..];
    GoneLater(c, p, k, q, [Block(x, actual)]);
  }

  lemma GoneLater(c: Config, p: Pool, k: nat, q: Pool, new_: seq<Block>)
    requires ValidConfig(c) && Inv(c, p) && p.cached != [] && k < |p.cached|
    requires Discard(p).cached == p.cached[1..] && Gone(Discard(p), k, q, new_)
    ensures Gone(p, k + 1, q, new_)
  {
    hide Inv, Discard, Sum;
    var d := Discard(p);
    DiscardOne(c, p);
    assert p.cached[..k + 1] == [p.cached[0]] + d.cached[..k];
    SumConcat([p.cached[0]], d.cached[..k]);
    SumOne(p.cached[0]);
  }

  lemma SumOne(b: Block)
    ensures Sum([b]) == b.size
  {
    assert [b][1..] == [];
  }

  // Cached data is discarded only for lack of room, and no more of it than
  // needed: an allocation succeeds exactly if there is room once everything
  // cached is discarded.
  lemma {:induction false} DiscardsOnlyForRoom(c: Config, p: Pool, size: int, align: int, offset: int)
    requires ValidConfig(c) && Inv(c, p) && Request(c, size, align, offset)
    ensures Modulus(c, align) > 0
    ensures var (q, r) := Allocate(c, p, size, align, offset);
            var actual, m := Actual(c, size), Modulus(c, align);
            && (r.Some? ==>
                  actual > 0 && exists k: nat :: k <= |p.cached| && Outcome(c, p, k, actual, m, offset, q, r.value))
            && (r.None? ==> actual == 0 || NoRoomAfter(c, p, |p.cached|, actual, m, offset))
            && (r.None? && actual == 0 ==> q == p)
            && (r.None? && actual > 0 ==> q.cached == [] && Gone(p, |p.cached|, q, []))
    decreases |p.cached|
  {
    hide Inv, Actual, Modulus, Discard, NoRoomAfter, Outcome, Gone, AllocateNow;
    ConfigFacts(c, align);
    ActualMeaning(c, size);
    var actual, m := Actual(c, size), Modulus(c, align);
    if actual != 0 {
      MinMultiple(actual, c.min);
      NowOutcome(c, p, actual, m, offset);
      if AllocateNow(c, p, actual, m, offset).1.None? && p.cached != [] {
        DiscardOne(c, p);
        DiscardsOnlyForRoom(c, Discard(p), size, align, offset);
        DiscardThen(c, p, size, align, offset, actual, m);
      }
    }
  }

  // An allocation succeeds if and only if discarding everything would make room.
  lemma AllocatesExactly(c: Config, p: Pool, size: int, align: int, offset: int)
    requires ValidConfig(c) && Inv(c, p) && Request(c, size, align, offset)
    ensures Modulus(c, align) > 0
    ensures Allocate(c, p, size, align, offset).1.Some? <==>
              && Actual(c, size) > 0
              && exists x :: RoomAfter(c, p, |p.cached|, x, Actual(c, size), Modulus(c, align), offset)
  {
    hide Inv, Actual, Modulus, Allocate, Gone;
    DiscardsOnlyForRoom(c, p, size, align, offset);
    var (q, r) := Allocate(c, p, size, align, offset);
    if r.Some? {
      var actual, m := Actual(c, size), Modulus(c, align);
      var k: nat :| k <= |p.cached| && Outcome(c, p, k, actual, m, offset, q, r.value);
      RoomGrows(c, p, k, r.value, actual, m, offset);
    }
  }

  lemma RoomGrows(c: Config, p: Pool, k: nat, x: int, actual: int, m: int, offset: int)
    requires c.space > 0 && m > 0 && k <= |p.cached| && RoomAfter(c, p, k, x, actual, m, offset)
    ensures RoomAfter(c, p, |p.cached|, x, actual, m, offset)
  {
    forall a | Covers(p.cached[..k], a)
      ensures Covers(p.cached[..|p.cached|], a)
    {
      var i :| 0 <= i < |p.cached[..k]| && Inside(p.cached[..k][i], a);
      assert Inside(p.cached[..|p.cached|][i], a);
    }
  }

  lemma DiscardThen(c: Config, p: Pool, size: int, align: int, offset: int, actual: int, m: int)
    requires ValidConfig(c) && Inv(c, p) && p.cached != [] && m > 0 && align >= 0
    requires Discard(p).cached == p.cached[1..] && NoRoomAfter(c, p, 0, actual, m, offset)
    requires var (q, r) := Allocate(c, Discard(p), size, align, offset);
             && (r.Some? ==>
                   exists k: nat :: k < |p.cached| && Outcome(c, Discard(p), k, actual, m, offset, q, r.value))
             && (r.None? ==> NoRoomAfter(c, Discard(p), |p.cached| - 1, actual, m, offset))
             && (r.None? ==> Gone(Discard(p), |p.cached| - 1, q, []))
    ensures var (q, r) := Allocate(c, Discard(p), size, align, offset);
            && (r.Some? ==> exists k: nat :: k <= |p.cached| && Outcome(c, p, k, actual, m, offset, q, r.value))
            && (r.None? ==> NoRoomAfter(c, p, |p.cached|, actual, m, offset))
            && (r.None? ==> Gone(p, |p.cached|, q, []))
  {
    hide Inv, Discard, NoRoomAfter, Outcome, Gone, Allocate;
    var (q, r) := Allocate(c, Discard(p), size, align, offset);
    match r
    case Some(x) =>
      var k: nat :| k < |p.cached| && Outcome(c, Discard(p), k, actual, m, offset, q, x);
      OutcomeLater(c, p, k, actual, m, offset, q, x);
      assert k + 1 <= |p.cached| && Outcome(c, p, k + 1, actual, m, offset, q, x);
    case None =>
      GoneLater(c, p, |p.cached| - 1, q, []);
      NoRoomShift(c, p, |p.cached|, actual, m, offset);
  }

  // One pass
  lemma NowOutcome(c: Config, p: Pool, actual: int, m: int, offset: int)
    requires ValidConfig(c) && Inv(c, p) && m > 0 && c.space % m == 0 && actual > 0
    ensures var (q, r) := AllocateNow(c, p, actual, m, offset);
            && (r.None? ==> q == p && NoRoomAfter(c, p, 0, actual, m, offset))
            && (r.None? && p.cached == [] ==> Gone(p, 0, q, []))
            && (r.Some? ==> Outcome(c, p, 0, actual, m, offset, q, r.value))
  {
    hide Inv, RoomAfter, Room, Gone;
    InvFree(c, p);
    LowestAddress(c, p, actual, m, offset);
    var (q, r) := AllocateNow(c, p, actual, m, offset);
    forall x
      ensures RoomAfter(c, p, 0, x, actual, m, offset) <==> Room(c, p, x, actual, m, offset)
    {
      RoomNow(c, p, x, actual, m, offset);
    }
    NowGone(c, p, actual, m, offset);
    assert p.cached[0..] == p.cached;
  }

  lemma NowGone(c: Config, p: Pool, actual: int, m: int, offset: int)
    requires c.space > 0 && m > 0
    ensures var (q, r) := AllocateNow(c, p, actual, m, offset);
            && q.cached == p.cached && Gone(p, 0, q, if r.None? then [] else [Block(r.value, actual)])
  {
    hide Carve, PreSize, Leaks;
    var (q, r) := AllocateNow(c, p, actual, m, offset);
    assert Sum(p.cached[..0]) == 0 && Sum([]) == 0;
    if r.Some? {
      SumOne(Block(r.value, actual));
    }
  }

  // ---- Freeing undoes allocating ------------------------------------------

  // Giving back the block just taken restores the live blocks and the counters
  // in any case. It restores the free list, and with it the whole pool, if and
  // only if the allocation did not leak a fragment.
  lemma GiveUndoesTake(c: Config, p: Pool, actual: int, m: int, offset: int)
    requires ValidConfig(c) && Inv(c, p) && m > 0 && c.space % m == 0 && actual >= c.min
    ensures var (q, r) := AllocateNow(c, p, actual, m, offset);
            r.Some? ==>
              0 < |q.live| &&
              var g := Give(q, |q.live| - 1);
              && g.live == p.live && g.freemem == p.freemem && g.usedmem == p.usedmem
              && (q.leaked == p.leaked <==> g.free == p.free)
              && (q.leaked == p.leaked <==> g == p)
  {
    hide Insert, Partition, Canonical, Sum, Carve, PreSize, Covers, Sizes, Leaks;
    var i := FirstFit(c, p.free, 0, actual, m, offset);
    var (q, r) := AllocateNow(c, p, actual, m, offset);
    if i < |p.free| {
      var k := |p.live|;
      var ls := Leaks(p.free[i], PreSize(c, p.free[i].addr, m, offset), actual, c.min);
      assert |q.leaked| == |p.leaked| + |ls|;
      assert Remove(q.live, k) == p.live;
      if ls == [] {
        FreeRestored(c, p, i, actual, m, offset);
      } else {
        FreeNotRestored(c, p, i, actual, m, offset);
      }
    }
  }

  // A leaked byte was free, and is not free again.
  lemma FreeNotRestored(c: Config, p: Pool, i: int, actual: int, m: int, offset: int)
    requires c.space > 0 && c.min > 0 && m > 0 && c.space % m == 0 && 0 <= i < |p.free| && actual > 0
    requires Canonical(p.free) && Partition(p) && Fits(c, p.free[i], actual, m, offset)
    requires Leaks(p.free[i], PreSize(c, p.free[i].addr, m, offset), actual, c.min) != []
    ensures var q := Take(c, p, i, actual, m, offset);
            |q.live| == |p.live| + 1 && Insert(q.free, q.live[|p.live|]) != p.free
  {
    hide Insert, Partition, Canonical, Carve, PreSize, Leaks;
    var q := Take(c, p, i, actual, m, offset);
    var b, k := p.free[i], |p.live|;
    var pre := PreSize(c, b.addr, m, offset);
    var ls := Leaks(b, pre, actual, c.min);
    PreSizeLeast(c, b.addr, b.addr, m, offset);
    LeaksFacts(b, pre, actual, c.min);
    TakePartition(c, p, i, actual, m, offset);
    GiveFreeList(q, k);
    var a := ls[0].addr;
    assert Inside(ls[0], a);
    assert Covers(ls, a);
    TakeCovers(c, p, i, actual, m, offset, a);
    assert Covers(p.free, a) && !Covers(Insert(q.free, q.live[k]), a);
  }

  // Without a leak, the block given back fills the gap that it left.
  lemma FreeRestored(c: Config, p: Pool, i: int, actual: int, m: int, offset: int)
    requires c.space > 0 && c.min > 0 && m > 0 && c.space % m == 0 && 0 <= i < |p.free| && actual > 0
    requires Canonical(p.free) && Partition(p) && Fits(c, p.free[i], actual, m, offset)
    requires Leaks(p.free[i], PreSize(c, p.free[i].addr, m, offset), actual, c.min) == []
    ensures var q := Take(c, p, i, actual, m, offset);
            |q.live| == |p.live| + 1 && Insert(q.free, q.live[|p.live|]) == p.free
  {
    hide Insert, Partition, Canonical, Carve, PreSize;
    var q := Take(c, p, i, actual, m, offset);
    var b, k := p.free[i], |p.live|;
    PreSizeLeast(c, b.addr, b.addr, m, offset);
    TakePartition(c, p, i, actual, m, offset);
    GiveFreeList(q, k);
    forall a
      ensures Covers(Insert(q.free, q.live[k]), a) <==> Covers(p.free, a)
    {
      TakeCovers(c, p, i, actual, m, offset, a);
      assert Inside(q.live[k], a) ==> Inside(b, a);
    }
    CanonicalUnique(Insert(q.free, q.live[k]), p.free);
  }

  // ---- mpopulate() --------------------------------------------------------

  // The region that mpopulate ( start, len ) adds.
  function Region(c: Config, start: int, len: int): Block
    requires c.min > 0
  {
    Block(start, len / c.min * c.min)
  }

  ghost predicate CanPopulate(c: Config, p: Pool, start: int, len: int) {
    && c.min > 0 && len >= c.min && InWindow(c, Region(c, start, len))
    && forall a :: Inside(Region(c, start, len), a) ==> !Covers(p.regions, a)
  }

  function Populate(c: Config, p: Pool, start: int, len: int): Pool
    requires c.min > 0
  {
    var b := Region(c, start, len);
    p.(free := Insert(p.free, b), regions := p.regions + [b], freemem := p.freemem + b.size)
  }

  // Adding a region is giving back a block that was live for an instant.
  lemma PopulateKeeps(c: Config, p: Pool, start: int, len: int)
    requires ValidConfig(c) && Inv(c, p) && CanPopulate(c, p, start, len)
    ensures Inv(c, Populate(c, p, start, len))
  {
    hide Insert, Inv, CanPopulate;
    var b, k := Region(c, start, len), |p.live|;
    RegionSize(c, p, start, len);
    var q := WithRegion(p, b);
    WithRegionKeeps(c, p, b);
    GiveKeeps(c, q, k);
    assert Remove(q.live, k) == p.live;
    assert Give(q, k) == Populate(c, p, start, len);
  }

  lemma RegionSize(c: Config, p: Pool, start: int, len: int)
    requires CanPopulate(c, p, start, len)
    ensures var b := Region(c, start, len);
            && b.size >= c.min && Whole(c, b.size) && InWindow(c, b)
            && forall a :: Inside(b, a) ==> !Covers(p.regions, a)
  {
    RoundDown(len, c.min);
    if len / c.min <= 0 {
      MulMono(len / c.min, 0, c.min);
    }
    MulMono(1, len / c.min, c.min);
  }

  // The region as one live block
  function WithRegion(p: Pool, b: Block): Pool {
    p.(live := p.live + [b], regions := p.regions + [b], usedmem := p.usedmem + b.size)
  }

  lemma WithRegionKeeps(c: Config, p: Pool, b: Block)
    requires Inv(c, p) && c.min > 0 && b.size >= c.min && Whole(c, b.size) && InWindow(c, b)
    requires forall a :: Inside(b, a) ==> !Covers(p.regions, a)
    ensures Inv(c, WithRegion(p, b)) && b !in p.live && b !in p.cached
  {
    hide Sum, Covers;
    WithRegionPartition(p, b);
    SumConcat(p.live, [b]);
    SumOne(b);
  }

  lemma WithRegionPartition(p: Pool, b: Block)
    requires Partition(p) && b.size > 0 && forall a :: Inside(b, a) ==> !Covers(p.regions, a)
    ensures Partition(WithRegion(p, b)) && b !in p.live
  {
    hide Covers;
    var q := WithRegion(p, b);
    forall a | Inside(b, a)
      ensures !Covers(p.live, a) && !Covers(p.free, a) && !Covers(p.leaked, a) && !Covers(p.regions, a)
    {
      assert OneOwner(p, a);
    }
    OwnersApart(p, b, p.live);
    OwnersApart(p, b, p.regions);
    forall a
      ensures OneOwner(q, a)
    {
      assert OneOwner(p, a);
      CoversConcat(p.live, [b], a);
      CoversConcat(p.regions, [b], a);
      CoversOne(b, a);
    }
    assert Inside(b, b.addr);
  }
}
