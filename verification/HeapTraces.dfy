/**
 Programs that use the heap: whatever other parts of a program allocate, free,
 resize, cache or store, a block keeps its contents until its owner gives it up.
 */
module HeapTraces {
  import opened Words
  import opened Memory
  import opened FreeList
  import opened FreeLinks
  import opened Pool
  import opened Heap

  /** The pool and all of memory */
  datatype Snapshot = Snapshot(pool: Pool, mem: int -> byte)

  /** What a program does: it adds memory, allocates, frees, resizes, lets a
      cache discarder have a block, or stores into a block of its own. */
  datatype Call =
    | Adding(start: int, len: int)
    | Allocating(size: int, align: int, offset: int)
    | Freeing(ptr: int, size: int)
    | Resizing(ptr: int, size: int)
    | Caching(b: Block)
    | Storing(b: Block, at: int, bytes: seq<byte>)

  // What the allocator asks of its callers.
  ghost predicate Legal(c: Config, word: int, s: Snapshot, call: Call) {
    && ValidConfig(c) && word > 0 && c.space == Pow256(word)
    && match call
       case Adding(start, len) => CanPopulate(c, s.pool, start, len)
       case Allocating(size, align, offset) => Request(c, size, align, offset)
       case Freeing(ptr, size) => ptr != 0 && 0 <= size < c.space && Owns(s.pool, Block(ptr, Actual(c, size)))
       case Resizing(ptr, size) =>
         && 0 <= size < c.space
         && (HasBlock(c, ptr) ==> Malloced(c, word, s.pool, s.mem, ptr, LoadWord(s.mem, ptr - word, word)))
       case Caching(b) => Owns(s.pool, b)
       case Storing(b, at, bytes) => Owns(s.pool, b) && b.addr <= at && at + |bytes| <= End(b)
  }

  // What a call leads to.
  ghost predicate Next(c: Config, word: int, s: Snapshot, call: Call, t: Snapshot)
    requires Legal(c, word, s, call)
  {
    match call
    case Adding(start, len) =>
      t.pool == Populate(c, s.pool, start, len) && forall a :: Held(t.pool, a) ==> t.mem(a) == s.mem(a)
    case Allocating(size, align, offset) =>
      t.pool == Allocate(c, s.pool, size, align, offset).0 && Preserved(s.pool, s.mem, t.pool, t.mem)
    case Freeing(ptr, size) =>
      && t.pool == Give(s.pool, IndexIn(s.pool.live, Block(ptr, Actual(c, size))))
      && forall a :: Held(t.pool, a) ==> t.mem(a) == s.mem(a)
    case Resizing(ptr, size) => exists r :: Resized(c, word, s, ptr, size, r, t)
    case Caching(b) => t.pool == s.pool.(cached := s.pool.cached + [b]) && t.mem == s.mem
    case Storing(b, at, bytes) => t.pool == s.pool && forall a :: !(at <= a < at + |bytes|) ==> t.mem(a) == s.mem(a)
  }

  ghost predicate Resized(c: Config, word: int, s: Snapshot, ptr: int, size: int, r: int, t: Snapshot)
    requires c.space > 0 && c.min > 0
  {
    if r == 0 then
      && Preserved(s.pool, s.mem, t.pool, t.mem) && size > 0
      && t.pool == if size + word >= c.space then s.pool else Allocate(c, s.pool, size + word, 1, 0).0
    else Reallocated(c, word, s.pool, s.mem, t.pool, t.mem, r, ptr, size) && size + word < c.space
  }

  // The call is made by the owner of b, about b.
  ghost predicate Concerns(c: Config, word: int, s: Snapshot, call: Call, b: Block)
    requires c.space > 0 && c.min > 0
  {
    match call
    case Adding(_, _) => false
    case Allocating(_, _, _) => false
    case Freeing(ptr, size) => b == Block(ptr, Actual(c, size))
    case Resizing(ptr, size) => HasBlock(c, ptr) && b == SizedBlock(c, word, ptr, LoadWord(s.mem, ptr - word, word))
    case Caching(d) => b == d
    case Storing(d, _, _) => b == d
  }

  // ---- The methods do this ------------------------------------------------

  method Perform(h: Heap, call: Call)
    requires h.Valid() && Legal(h.c, h.word, Snapshot(h.State(), h.mem), call)
    modifies h
    ensures h.Valid()
    ensures Next(h.c, h.word, Snapshot(old(h.State()), old(h.mem)), call, Snapshot(h.State(), h.mem))
  {
    hide Allocate, Actual, LoadWord, Inv, Insert;
    match call {
      case Adding(start, len) =>
        h.Mpopulate(start, len);
      case Allocating(size, align, offset) =>
        var ptr := h.AllocMemblock(size, align, offset);
      case Freeing(ptr, size) =>
        h.Release(ptr, size);
      case Resizing(ptr, size) =>
        var r := h.Realloc(ptr, size);
        WordSmall(h.word);
        assert Resized(h.c, h.word, Snapshot(old(h.State()), old(h.mem)), ptr, size, r, Snapshot(h.State(), h.mem));
      case Caching(b) =>
        CachingKeeps(h.c, h.State(), b);
        h.cached := h.cached + [b];
      case Storing(b, at, bytes) =>
        h.Write(at, bytes, b);
    }
  }

  lemma CachingKeeps(c: Config, p: Pool, b: Block)
    requires Inv(c, p) && Owns(p, b)
    ensures Inv(c, p.(cached := p.cached + [b]))
  {
    var q := p.(cached := p.cached + [b]);
    assert forall a :: OneOwner(p, a) ==> OneOwner(q, a);
  }

  // ---- One call -----------------------------------------------------------

  // The block is still its owner's, with the same contents.
  ghost predicate Intact(s: Snapshot, b: Block, t: Snapshot) {
    Owns(t.pool, b) && forall a :: Inside(b, a) ==> t.mem(a) == s.mem(a)
  }

  lemma NextKeeps(c: Config, word: int, s: Snapshot, call: Call, t: Snapshot)
    requires Legal(c, word, s, call) && Inv(c, s.pool) && Next(c, word, s, call, t)
    ensures Inv(c, t.pool)
  {
    hide Inv, Allocate, Actual, Insert, LoadWord;
    match call
    case Adding(start, len) => PopulateKeeps(c, s.pool, start, len);
    case Allocating(size, align, offset) => AllocateKeeps(c, s.pool, size, align, offset);
    case Freeing(ptr, size) => GiveKeeps(c, s.pool, IndexIn(s.pool.live, Block(ptr, Actual(c, size))));
    case Resizing(ptr, size) =>
      var r :| Resized(c, word, s, ptr, size, r, t);
      ResizedKeeps(c, word, s, ptr, size, r, t);
    case Caching(b) => CachingKeeps(c, s.pool, b);
    case Storing(_, _, _) =>
  }

  lemma ResizedKeeps(c: Config, word: int, s: Snapshot, ptr: int, size: int, r: int, t: Snapshot)
    requires Legal(c, word, s, Resizing(ptr, size)) && Inv(c, s.pool) && Resized(c, word, s, ptr, size, r, t)
    ensures Inv(c, t.pool)
  {
    hide Inv, Allocate, Actual, LoadWord;
    OneIsPow2();
    if size > 0 && size + word < c.space {
      AllocateKeeps(c, s.pool, size + word, 1, 0);
      if HasBlock(c, ptr) {
        AllocateOwns(c, s.pool, size + word, 1, 0, SizedBlock(c, word, ptr, LoadWord(s.mem, ptr - word, word)));
      }
    }
    if r != 0 && HasBlock(c, ptr) {
      var mid := if size == 0 then s.pool else Allocate(c, s.pool, size + word, 1, 0).0;
      GiveKeeps(c, mid, IndexIn(mid.live, SizedBlock(c, word, ptr, LoadWord(s.mem, ptr - word, word))));
    }
  }

  lemma NextIntact(c: Config, word: int, s: Snapshot, call: Call, t: Snapshot, b: Block)
    requires Legal(c, word, s, call) && Inv(c, s.pool) && Next(c, word, s, call, t)
    requires Owns(s.pool, b) && !Concerns(c, word, s, call, b)
    ensures Intact(s, b, t)
  {
    hide Inv, Allocate, Actual, Insert, LoadWord;
    match call
    case Adding(start, len) => HeldIntact(s, b, t);
    case Allocating(size, align, offset) =>
      AllocateOwns(c, s.pool, size, align, offset, b);
      HeldIntact(s, b, t);
    case Freeing(ptr, size) =>
      StillOwns(s.pool, IndexIn(s.pool.live, Block(ptr, Actual(c, size))), b);
      HeldIntact(s, b, t);
    case Resizing(ptr, size) =>
      var r :| Resized(c, word, s, ptr, size, r, t);
      ResizedIntact(c, word, s, ptr, size, r, t, b);
    case Caching(_) =>
    case Storing(d, at, bytes) =>
      StoredApart(c, s.pool, b, d);
  }

  lemma HeldIntact(s: Snapshot, b: Block, t: Snapshot)
    requires Owns(t.pool, b) && forall a :: Held(t.pool, a) && Owns(t.pool, b) && Inside(b, a) ==> t.mem(a) == s.mem(a)
    ensures Intact(s, b, t)
  {
    forall a | Inside(b, a)
      ensures t.mem(a) == s.mem(a)
    {
      OwnsHolds(t.pool, b, a);
    }
  }

  lemma StoredApart(c: Config, p: Pool, b: Block, d: Block)
    requires Inv(c, p) && Owns(p, b) && Owns(p, d) && b != d
    ensures forall a :: Inside(b, a) ==> !Inside(d, a)
  {
    LiveApart(p, b, d);
  }

  lemma ResizedIntact(c: Config, word: int, s: Snapshot, ptr: int, size: int, r: int, t: Snapshot, b: Block)
    requires Legal(c, word, s, Resizing(ptr, size)) && Inv(c, s.pool) && Resized(c, word, s, ptr, size, r, t)
    requires Owns(s.pool, b) && !Concerns(c, word, s, Resizing(ptr, size), b)
    ensures Intact(s, b, t)
  {
    hide Inv, Allocate, Actual, LoadWord;
    OneIsPow2();
    var old_ := SizedBlock(c, word, ptr, LoadWord(s.mem, ptr - word, word));
    if size > 0 && size + word < c.space {
      AllocateOwns(c, s.pool, size + word, 1, 0, b);
    }
    if r != 0 && HasBlock(c, ptr) {
      var mid := if size == 0 then s.pool else Allocate(c, s.pool, size + word, 1, 0).0;
      StillOwns(mid, IndexIn(mid.live, old_), b);
      StoredApart(c, s.pool, b, old_);
    }
    forall a | Inside(b, a)
      ensures t.mem(a) == s.mem(a)
    {
      OwnsHolds(s.pool, b, a);
    }
  }

  // ---- Whole runs ---------------------------------------------------------

  ghost predicate Trace(c: Config, word: int, snaps: seq<Snapshot>, calls: seq<Call>) {
    && |snaps| == |calls| + 1
    && forall i :: 0 <= i < |calls| ==>
                     Legal(c, word, snaps[i], calls[i]) && Next(c, word, snaps[i], calls[i], snaps[i + 1])
  }

  // Every call is legal when its turn comes, whatever the calls before it have
  // left in memory that nobody owns.
  ghost predicate LegalRun(c: Config, word: int, s: Snapshot, calls: seq<Call>)
    decreases |calls|
  {
    calls == [] ||
    (Legal(c, word, s, calls[0]) && forall t :: Next(c, word, s, calls[0], t) ==> LegalRun(c, word, t, calls[1..]))
  }

  // The links and sizes in memory are the free list, and the invariant holds.
  ghost predicate Sound(h: Heap, s: Snapshot) {
    Inv(h.c, s.pool) && Encodes(h.links, s.mem, s.pool.free)
  }

  // A whole run, stores by the owners of blocks included, on the real list
  method PerformAll(h: Heap, calls: seq<Call>) returns (ghost snaps: seq<Snapshot>)
    requires h.Valid() && LegalRun(h.c, h.word, Snapshot(h.State(), h.mem), calls)
    modifies h
    ensures h.Valid() && Trace(h.c, h.word, snaps, calls)
    ensures snaps[0] == Snapshot(old(h.State()), old(h.mem)) && snaps[|calls|] == Snapshot(h.State(), h.mem)
    ensures forall i :: 0 <= i < |snaps| ==> Sound(h, snaps[i])
  {
    hide Inv, Encodes, Legal, Next;
    snaps := [Snapshot(h.State(), h.mem)];
    var k := 0;
    assert calls[0..] == calls;
    while k < |calls|
      invariant 0 <= k <= |calls| && h.Valid() && |snaps| == k + 1
      invariant snaps[0] == Snapshot(old(h.State()), old(h.mem)) && snaps[k] == Snapshot(h.State(), h.mem)
      invariant LegalRun(h.c, h.word, snaps[k], calls[k..])
      invariant forall i :: 0 <= i < k ==>
                  Legal(h.c, h.word, snaps[i], calls[i]) && Next(h.c, h.word, snaps[i], calls[i], snaps[i + 1])
      invariant forall i :: 0 <= i <= k ==> Sound(h, snaps[i])
    {
      assert calls[k..][0] == calls[k] && calls[k..][1..] == calls[k + 1..];
      Perform(h, calls[k]);
      snaps := snaps + [Snapshot(h.State(), h.mem)];
      k := k + 1;
    }
  }

  // Until its owner frees, resizes, caches or stores into it, a block belongs
  // to its owner and keeps every byte, in every run of the program.
  lemma {:induction false} Isolation(c: Config, word: int, snaps: seq<Snapshot>, calls: seq<Call>, b: Block, n: nat)
    requires Trace(c, word, snaps, calls) && n <= |calls|
    requires Inv(c, snaps[0].pool) && Owns(snaps[0].pool, b)
    requires forall i :: 0 <= i < n ==> Legal(c, word, snaps[i], calls[i]) && !Concerns(c, word, snaps[i], calls[i], b)
    ensures Inv(c, snaps[n].pool) && Intact(snaps[0], b, snaps[n])
    decreases n
  {
    hide Inv, Legal, Next, Concerns;
    if n > 0 {
      Isolation(c, word, snaps, calls, b, n - 1);
      NextKeeps(c, word, snaps[n - 1], calls[n - 1], snaps[n]);
      NextIntact(c, word, snaps[n - 1], calls[n - 1], snaps[n], b);
    }
  }
}
