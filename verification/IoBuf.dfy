/**
 I/O buffers on top of the heap: a descriptor is placed right behind its data
 when that keeps the whole within the alignment, and allocated separately
 otherwise.
 */
module IoBuf {
  import opened Words
  import opened Memory
  import opened FreeList
  import opened FreeLinks
  import opened Pool
  import opened Heap

  /** Size and alignment of struct io_buffer, and the place in it of the fields
      head, data, tail and end, which follow one another. */
  datatype Layout = Layout(size: int, align: int, fields: int)

  /** A descriptor at address `addr`, with the values of its fields. */
  datatype IoBuffer = IoBuffer(addr: int, head: int, data: int, tail: int, end: int)

  ghost predicate ValidLayout(c: Config, l: Layout) {
    l.size > 0 && IsPow2(l.align) && l.size % l.align == 0 && l.align < c.space && l.fields >= 0
  }

  // The number of the highest bit set, counted from one.
  function Fls(n: int): (k: nat)
    requires n >= 0
    ensures n < Pow2(k) && (n > 0 ==> k > 0 && Pow2(k - 1) <= n)
  {
    if n == 0 then 0 else 1 + Fls(n / 2)
  }

  // Space below an alignment boundary in which an aligned descriptor fits.
  function Padding(l: Layout): int {
    l.size + l.align - 1
  }

  // The requested alignment, raised to the padding and to a power of two.
  function RoundedAlign(l: Layout, align: int): int
    requires Padding(l) > 0
  {
    var a := if align < Padding(l) then Padding(l) else align;
    Pow2(Fls(a - 1))
  }

  // The buffer length that puts an inline descriptor on its alignment.
  function InlineLen(l: Layout, len: int, offset: int): int
    requires l.align > 0
  {
    len + (-len - offset) % l.align
  }

  lemma {:induction false} FlsTight(n: int, k: nat)
    requires n >= 0 && n < Pow2(k)
    ensures Pow2(Fls(n)) <= Pow2(k)
    decreases k
  {
    if n > 0 {
      assert k > 0;
      FlsTight(n / 2, k - 1);
    }
  }

  lemma RoundedAlignFacts(l: Layout, align: int)
    requires l.size > 0 && l.align > 0
    ensures RoundedAlign(l, align) >= Padding(l) && RoundedAlign(l, align) >= align
    ensures IsPow2(RoundedAlign(l, align))
    ensures forall n :: IsPow2(n) && n >= Padding(l) && n >= align ==> RoundedAlign(l, align) <= n
  {
    var a := if align < Padding(l) then Padding(l) else align;
    forall n | IsPow2(n) && n >= Padding(l) && n >= align
      ensures RoundedAlign(l, align) <= n
    {
      var k: nat :| n == Pow2(k);
      FlsTight(a - 1, k);
    }
  }

  // An inline descriptor is aligned, follows the requested data, and keeps the
  // whole allocation within one alignment unit.
  lemma InlineFits(c: Config, l: Layout, len: int, align: int, offset: int, data: int)
    requires ValidConfig(c) && ValidLayout(c, l) && 0 <= len <= RoundedAlign(l, align) - Padding(l)
    requires RoundedAlign(l, align) < c.space && l.align > 0
    requires Modulus(c, RoundedAlign(l, align)) > 0
    requires Aligned(c, data, Modulus(c, RoundedAlign(l, align)), offset)
    ensures len <= InlineLen(l, len, offset) < len + l.align
    ensures InlineLen(l, len, offset) + l.size <= RoundedAlign(l, align)
    ensures Phys(c, data + InlineLen(l, len, offset)) % l.align == 0
  {
    var a, n := RoundedAlign(l, align), InlineLen(l, len, offset);
    RoundedAlignFacts(l, align);
    ConfigFacts(c, a);
    var m := Modulus(c, a);
    Pow2Divides(l.align, c.space);
    assert l.align <= a;
    assert m % l.align == 0 by {
      if a < c.min { Pow2Divides(l.align, c.min); } else { Pow2Divides(l.align, a); }
    }
    AlignedMeans(c, data, m, offset);
    ModMod(data + c.delta - offset, m, l.align);
    DivModUnique(0, l.align, 0, 0);
    LeastAligned(len + offset, 0, l.align);
    assert (len + offset + (-(len + offset)) % l.align) % l.align == 0;
    ModAdd(data + c.delta - offset, n + offset, l.align);
    ModMod(data + n + c.delta, c.space, l.align);
    assert (data + c.delta - offset) + (n + offset) == data + n + c.delta;
  }

  // ---- What a buffer owns -------------------------------------------------

  function Len(b: IoBuffer): int {
    b.end - b.head
  }

  // The heap blocks behind a buffer.
  function Blocks(c: Config, word: int, l: Layout, b: IoBuffer, inline: bool): set<Block>
    requires c.space > 0 && c.min > 0
  {
    if inline then {Block(b.head, Actual(c, Len(b) + l.size))}
    else {Block(b.head, Actual(c, Len(b))), SizedBlock(c, word, b.addr, l.size + word)}
  }

  // The memory that holds the fields
  ghost predicate InFields(word: int, l: Layout, b: IoBuffer, a: int) {
    b.addr + l.fields <= a < b.addr + l.fields + 4 * word
  }

  // All of the fields are stored in the descriptor.
  ghost predicate Stored(word: int, l: Layout, m: int -> byte, b: IoBuffer) {
    && LoadWord(m, b.addr + l.fields, word) == b.head
    && LoadWord(m, b.addr + l.fields + word, word) == b.data
    && LoadWord(m, b.addr + l.fields + 2 * word, word) == b.tail
    && LoadWord(m, b.addr + l.fields + 3 * word, word) == b.end
  }

  // The buffer was obtained from alloc_iob_raw() and has not been freed; its
  // owner may have moved the start and the end of the data.
  ghost predicate Obtained(c: Config, word: int, l: Layout, p: Pool, m: int -> byte, b: IoBuffer, inline: bool)
    requires c.space > 0 && c.min > 0
  {
    && LoadWord(m, b.addr + l.fields, word) == b.head && LoadWord(m, b.addr + l.fields + 3 * word, word) == b.end
    && Kept(c, word, l, p, m, b, inline)
  }

  // The heap has the blocks of the buffer.
  ghost predicate Kept(c: Config, word: int, l: Layout, p: Pool, m: int -> byte, b: IoBuffer, inline: bool)
    requires c.space > 0 && c.min > 0
  {
    if inline then
      && b.addr == b.end && 0 <= Len(b) && Len(b) + l.size < c.space
      && Owns(p, Block(b.head, Actual(c, Len(b) + l.size)))
    else
      && 0 < Len(b) < c.space && Owns(p, Block(b.head, Actual(c, Len(b))))
      && Malloced(c, word, p, m, b.addr, l.size + word)
      && Block(b.head, Actual(c, Len(b))) != SizedBlock(c, word, b.addr, l.size + word)
  }

  // A separately allocated descriptor never sits at the end of its data, so
  // comparing the two addresses tells the two kinds of buffer apart.
  lemma DetachedNotAtEnd(c: Config, word: int, l: Layout, p: Pool, m: int -> byte, b: IoBuffer)
    requires ValidConfig(c) && Inv(c, p) && word > 0 && l.size > 0
    requires Kept(c, word, l, p, m, b, false)
    ensures b.addr != b.end
  {
    var data, desc := Block(b.head, Actual(c, Len(b))), SizedBlock(c, word, b.addr, l.size + word);
    OwnedBlock(c, p, data);
    OwnedBlock(c, p, desc);
    LiveApart(p, data, desc);
    ActualMeaning(c, Len(b));
    ActualMeaning(c, l.size + word);
  }

  ghost predicate SameOwned(p: Pool, q: Pool) {
    forall b :: Owns(p, b) <==> Owns(q, b)
  }

  // q owns what p owns, and the blocks of s besides.
  ghost predicate OwnsMore(p: Pool, q: Pool, s: set<Block>) {
    && (forall b :: b in s ==> !Owns(p, b))
    && (forall b :: Owns(q, b) <==> Owns(p, b) || b in s)
  }

  lemma {:induction false} AllocateOwnsNoOther(c: Config, p: Pool, size: int, align: int, offset: int, b: Block)
    requires ValidConfig(c) && Inv(c, p) && Request(c, size, align, offset)
    requires Owns(Allocate(c, p, size, align, offset).0, b)
    ensures Owns(p, b) || (Allocate(c, p, size, align, offset).1.Some? &&
                           b == Block(Allocate(c, p, size, align, offset).1.value, Actual(c, size)))
    decreases |p.cached|
  {
    var actual, m := Actual(c, size), Modulus(c, align);
    if actual != 0 && AllocateNow(c, p, actual, m, offset).1.None? && p.cached != [] {
      DiscardKeeps(c, p);
      AllocateOwnsNoOther(c, Discard(p), size, align, offset, b);
      var k := IndexIn(p.live, p.cached[0]);
      if Owns(Discard(p), b) {
        GiveOwns(c, p.(cached := p.cached[1..]), k, b);
      }
    }
  }

  // Freeing takes exactly one block out of what is owned.
  lemma GiveOwns(c: Config, p: Pool, k: int, b: Block)
    requires Disjoint(p.live) && Positive(p.live) && 0 <= k < |p.live|
    ensures Owns(Give(p, k), b) <==> Owns(p, b) && b != p.live[k]
  {
    var q := Give(p, k);
    if Owns(q, b) {
      var i := IndexIn(q.live, b);
      var j := if i < k then i else i + 1;
      assert q.live[i] == p.live[j];
      assert j < k ==> Apart(p.live[j], p.live[k]);
      assert k < j ==> Apart(p.live[k], p.live[j]);
    }
    if Owns(p, b) && b != p.live[k] {
      StillOwns(p, k, b);
    }
  }

  lemma AllocateOwnsExactly(c: Config, p: Pool, size: int, align: int, offset: int)
    requires ValidConfig(c) && Inv(c, p) && Request(c, size, align, offset)
    ensures var (q, r) := Allocate(c, p, size, align, offset);
            if r.None? then SameOwned(p, q) else OwnsMore(p, q, {Block(r.value, Actual(c, size))})
  {
    hide Allocate, Actual, Inv;
    var (q, r) := Allocate(c, p, size, align, offset);
    AllocateFresh(c, p, size, align, offset);
    forall b
      ensures Owns(p, b) ==> Owns(q, b)
      ensures Owns(q, b) ==> Owns(p, b) || (r.Some? && b == Block(r.value, Actual(c, size)))
    {
      if Owns(p, b) { AllocateOwns(c, p, size, align, offset, b); }
      if Owns(q, b) { AllocateOwnsNoOther(c, p, size, align, offset, b); }
    }
    if r.Some? && Owns(p, Block(r.value, Actual(c, size))) {
      FreshNotOwned(c, p, Block(r.value, Actual(c, size)));
      assert false;
    }
  }

  lemma FreshNotOwned(c: Config, p: Pool, b: Block)
    requires ValidConfig(c) && Inv(c, p) && Fresh(p, b)
    ensures !Owns(p, b)
  {
    if Owns(p, b) {
      OwnedBlock(c, p, b);
      OwnsHolds(p, b, b.addr);
      assert false;
    }
  }

  lemma {:induction false} AllocateAligned(c: Config, p: Pool, size: int, align: int, offset: int)
    requires ValidConfig(c) && Inv(c, p) && Request(c, size, align, offset)
    ensures Modulus(c, align) > 0
    ensures var r := Allocate(c, p, size, align, offset).1;
            r.Some? ==> Aligned(c, r.value, Modulus(c, align), offset)
    decreases |p.cached|
  {
    ConfigFacts(c, align);
    var actual, m := Actual(c, size), Modulus(c, align);
    if actual != 0 {
      var i := FirstFit(c, p.free, 0, actual, m, offset);
      if i < |p.free| {
        PreSizeLeast(c, p.free[i].addr, p.free[i].addr, m, offset);
      } else if p.cached != [] {
        DiscardKeeps(c, p);
        AllocateAligned(c, Discard(p), size, align, offset);
      }
    }
  }

  // ---- alloc_iob_raw() and free_iob() -------------------------------------

  ghost predicate Ready(h: Heap, l: Layout)
    reads h
  {
    && h.Valid() && ValidLayout(h.c, l) && l.align > 0
    && l.size + h.word < h.c.space && l.fields + 4 * h.word <= l.size
  }

  // malloc_dma_offset()
  method AllocDma(h: Heap, size: int, align: int, offset: int) returns (ptr: int)
    requires h.Valid() && Request(h.c, size, align, offset)
    modifies h
    ensures h.Valid() && Modulus(h.c, align) > 0
    ensures Allocate(h.c, old(h.State()), size, align, offset) == (h.State(), if ptr == 0 then None else Some(ptr))
    ensures Preserved(old(h.State()), old(h.mem), h.State(), h.mem)
    ensures ptr == 0 ==> SameOwned(old(h.State()), h.State())
    ensures ptr != 0 ==> OwnsMore(old(h.State()), h.State(), {Block(ptr, Actual(h.c, size))})
    ensures ptr != 0 ==> Aligned(h.c, ptr, Modulus(h.c, align), offset)
  {
    hide Allocate, Actual, Inv;
    AllocateOwnsExactly(h.c, h.State(), size, align, offset);
    AllocateAligned(h.c, h.State(), size, align, offset);
    ptr := h.AllocMemblock(size, align, offset);
  }

  // free_dma()
  method FreeDma(h: Heap, ptr: int, size: int)
    requires h.Valid() && 0 <= size < h.c.space && Owns(h.State(), Block(ptr, Actual(h.c, size)))
    modifies h
    ensures h.Valid()
    ensures OwnsMore(h.State(), old(h.State()), {Block(ptr, Actual(h.c, size))})
    ensures forall a :: Held(h.State(), a) ==> Held(old(h.State()), a) && h.mem(a) == old(h.mem)(a)
  {
    hide Actual, Sum, Insert;
    ghost var p := h.State();
    ghost var k := IndexIn(h.live, Block(ptr, Actual(h.c, size)));
    OwnedBlock(h.c, p, h.live[k]);
    forall b
      ensures Owns(Give(p, k), b) <==> Owns(p, b) && b != p.live[k]
    {
      GiveOwns(h.c, p, k, b);
    }
    HeldBefore(p, k);
    h.Release(ptr, size);
  }

  lemma HeldBefore(p: Pool, k: int)
    requires 0 <= k < |p.live|
    ensures forall a :: Held(Give(p, k), a) ==> Held(p, a)
  {
    var q := Give(p, k);
    forall a | Held(q, a)
      ensures Held(p, a)
    {
      var i :| 0 <= i < |q.live| && q.live[i] !in q.cached && Inside(q.live[i], a);
      assert q.live[i] == p.live[if i < k then i else i + 1];
    }
  }

  // malloc(): no block for size zero and for sizes that wrap
  method Malloc(h: Heap, size: int) returns (ptr: int)
    requires h.Valid() && 0 <= size < h.c.space
    modifies h
    ensures h.Valid() && Preserved(old(h.State()), old(h.mem), h.State(), h.mem)
    ensures size == 0 <==> ptr == h.c.space - 1
    ensures ptr == 0 <==>
            size > 0 && (size + h.word >= h.c.space || Allocate(h.c, old(h.State()), size + h.word, 1, 0).1.None?)
    ensures !HasBlock(h.c, ptr) ==> SameOwned(old(h.State()), h.State())
    ensures HasBlock(h.c, ptr) ==> Malloced(h.c, h.word, h.State(), h.mem, ptr, size + h.word)
    ensures HasBlock(h.c, ptr) ==> OwnsMore(old(h.State()), h.State(), {SizedBlock(h.c, h.word, ptr, size + h.word)})
  {
    hide Allocate, Actual, Inv, LoadWord;
    OneIsPow2();
    if 0 < size && size + h.word < h.c.space {
      AllocateOwnsExactly(h.c, h.State(), size + h.word, 1, 0);
    }
    ptr := h.Realloc(0, size);
  }

  // free(), which accepts NULL and what malloc() returned for size zero
  method Free(h: Heap, ptr: int, ghost total: int)
    requires h.Valid()
    requires HasBlock(h.c, ptr) ==> Malloced(h.c, h.word, h.State(), h.mem, ptr, total)
    modifies h
    ensures h.Valid()
    ensures !HasBlock(h.c, ptr) ==> h.State() == old(h.State())
    ensures HasBlock(h.c, ptr) ==> OwnsMore(h.State(), old(h.State()), {SizedBlock(h.c, h.word, ptr, total)})
    ensures forall a :: Held(h.State(), a) ==> Held(old(h.State()), a) && h.mem(a) == old(h.mem)(a)
  {
    hide Actual, LoadWord, Sum, Insert;
    ghost var p := h.State();
    if HasBlock(h.c, ptr) {
      ghost var k := IndexIn(h.live, SizedBlock(h.c, h.word, ptr, total));
      forall b
        ensures Owns(Give(p, k), b) <==> Owns(p, b) && b != p.live[k]
      {
        GiveOwns(h.c, p, k, b);
      }
      HeldOutside(h.c, p, k);
    }
    var nowhere := h.Realloc(ptr, 0);
  }

  lemma HeldOutside(c: Config, p: Pool, k: int)
    requires Inv(c, p) && 0 <= k < |p.live|
    ensures forall a :: Held(Give(p, k), a) ==> Held(p, a) && !Inside(p.live[k], a)
  {
    var q := Give(p, k);
    forall a | Held(q, a)
      ensures Held(p, a) && !Inside(p.live[k], a)
    {
      var i :| 0 <= i < |q.live| && q.live[i] !in q.cached && Inside(q.live[i], a);
      var j := if i < k then i else i + 1;
      assert q.live[i] == p.live[j];
      assert j < k ==> Apart(p.live[j], p.live[k]);
      assert k < j ==> Apart(p.live[k], p.live[j]);
    }
  }

  // There is room for the buffer with its descriptor, or for the one and then
  // the other.
  ghost predicate CanAllocate(c: Config, word: int, l: Layout, p: Pool, len: int, align: int, offset: int)
    requires c.space > 0 && c.min > 0 && Padding(l) > 0 && l.align > 0
  {
    var rounded := RoundedAlign(l, align);
    rounded < c.space &&
    if len <= rounded - Padding(l)
    then Allocate(c, p, InlineLen(l, len, offset) + l.size, rounded, offset).1.Some?
    else
      var (q, data) := Allocate(c, p, len, rounded, offset);
      data.Some? && Allocate(c, q, l.size + word, 1, 0).1.Some?
  }

  // There is room for `size` bytes, on the alignment, once every cached item has
  // been discarded.
  ghost predicate Room(c: Config, p: Pool, size: int, align: int, offset: int)
    requires c.space > 0 && c.min > 0 && Modulus(c, align) > 0
  {
    Actual(c, size) > 0 && exists x :: RoomAfter(c, p, |p.cached|, x, Actual(c, size), Modulus(c, align), offset)
  }

  // A buffer whose descriptor is to follow its data needs room for both in one
  // piece, and any other buffer room first for the data and then, in what is
  // left, for the descriptor and its size.
  lemma AllocatedExactly(c: Config, word: int, l: Layout, p: Pool, len: int, align: int, offset: int)
    requires ValidConfig(c) && ValidLayout(c, l) && l.align > 0 && Inv(c, p) && word > 0 && l.size + word < c.space
    requires 0 <= len < c.space && 0 <= align < c.space && 0 <= offset < c.space && RoundedAlign(l, align) < c.space
    ensures Modulus(c, RoundedAlign(l, align)) > 0 && Modulus(c, 1) > 0
    ensures len <= RoundedAlign(l, align) - Padding(l) ==>
              (CanAllocate(c, word, l, p, len, align, offset) <==>
               Room(c, p, InlineLen(l, len, offset) + l.size, RoundedAlign(l, align), offset))
    ensures len > RoundedAlign(l, align) - Padding(l) ==>
              (CanAllocate(c, word, l, p, len, align, offset) <==>
               && Room(c, p, len, RoundedAlign(l, align), offset)
               && Room(c, Allocate(c, p, len, RoundedAlign(l, align), offset).0, l.size + word, 1, 0))
  {
    hide Inv, Allocate, RoundedAlign, Actual, Modulus, RoomAfter;
    var rounded := RoundedAlign(l, align);
    RoundedAlignFacts(l, align);
    OneIsPow2();
    ConfigFacts(c, rounded);
    ConfigFacts(c, 1);
    if len <= rounded - Padding(l) {
      AllocatesExactly(c, p, InlineLen(l, len, offset) + l.size, rounded, offset);
    } else {
      AllocatesExactly(c, p, len, rounded, offset);
      AllocateKeeps(c, p, len, rounded, offset);
      AllocatesExactly(c, Allocate(c, p, len, rounded, offset).0, l.size + word, 1, 0);
    }
  }

  // alloc_iob_raw()
  method AllocIobRaw(h: Heap, l: Layout, len: int, align: int, offset: int)
    returns (r: Option<IoBuffer>, ghost inline: bool)
    requires Ready(h, l) && 0 <= len < h.c.space && 0 <= align < h.c.space && 0 <= offset < h.c.space
    modifies h
    ensures Ready(h, l) && Preserved(old(h.State()), old(h.mem), h.State(), h.mem)
    ensures r.Some? <==> CanAllocate(h.c, h.word, l, old(h.State()), len, align, offset)
    ensures r.None? ==> SameOwned(old(h.State()), h.State())
    ensures r.Some? ==> Obtained(h.c, h.word, l, h.State(), h.mem, r.value, inline)
    ensures r.Some? ==> Stored(h.word, l, h.mem, r.value)
    ensures r.Some? ==> OwnsMore(old(h.State()), h.State(), Blocks(h.c, h.word, l, r.value, inline))
    ensures r.Some? ==> Shaped(h.c, l, len, align, offset, r.value, inline)
  {
    hide Actual, Inv, LoadWord, Fls, Encodes, OwnsMore, Owns, Kept, Shaped, Blocks, Held, Allocate;
    var rounded := RoundedAlign(l, align);
    RoundedAlignFacts(l, align);
    if rounded >= h.c.space {
      return None, false;
    }
    inline := len <= rounded - Padding(l);
    if len <= rounded - Padding(l) {
      r := AllocInline(h, l, len, align, offset);
    } else {
      r := AllocDetached(h, l, len, align, offset);
    }
    if r.Some? {
      Populate(h, l, r.value, inline, old(h.State()), old(h.mem));
    }
  }

  // Populate the descriptor of a new buffer.
  method Populate(h: Heap, l: Layout, b: IoBuffer, ghost inline: bool, ghost p: Pool, ghost m: int -> byte)
    requires Ready(h, l) && Made(h.c, h.word, l, p, h.State(), h.mem, b, inline)
    requires Preserved(p, m, h.State(), h.mem)
    modifies h`mem
    ensures Ready(h, l) && Preserved(p, m, h.State(), h.mem)
    ensures Obtained(h.c, h.word, l, h.State(), h.mem, b, inline) && Stored(h.word, l, h.mem, b)
  {
    hide Actual, LoadWord, Inv, Kept, InFields, Blocks, Holder;
    ghost var was, n := h.mem, Holder(h.c, h.word, l, b, inline);
    FieldsInBlock(h.c, h.word, l, h.State(), h.mem, b, inline);
    StoreFields(h, b.addr + l.fields, b.head, b.data, b.tail, b.end, n);
    FieldsAre(h.word, l, b);
    FieldsKept(h.c, h.word, l, h.State(), was, h.mem, b, inline);
    NewUnheld(h.c, h.word, l, p, m, h.State(), was, h.mem, b, inline);
  }

  // Four words one after another, in a block that is owned
  method StoreFields(h: Heap, at: int, v0: int, v1: int, v2: int, v3: int, ghost n: Block)
    requires h.Valid() && Owns(h.State(), n) && n.addr <= at && at + 4 * h.word <= End(n)
    requires 0 <= v0 < h.c.space && 0 <= v1 < h.c.space && 0 <= v2 < h.c.space && 0 <= v3 < h.c.space
    modifies h`mem
    ensures h.Valid()
    ensures LoadWord(h.mem, at, h.word) == v0 && LoadWord(h.mem, at + h.word, h.word) == v1
    ensures LoadWord(h.mem, at + 2 * h.word, h.word) == v2 && LoadWord(h.mem, at + 3 * h.word, h.word) == v3
    ensures forall a :: !(at <= a < at + 4 * h.word) ==> h.mem(a) == old(h.mem)(a)
  {
    hide LoadWord, Inv, Encodes, Owns;
    h.Write(at, WordBytes(v0, h.word), n);
    ghost var m0 := h.mem;
    h.Write(at + h.word, WordBytes(v1, h.word), n);
    ghost var m1 := h.mem;
    h.Write(at + 2 * h.word, WordBytes(v2, h.word), n);
    ghost var m2 := h.mem;
    h.Write(at + 3 * h.word, WordBytes(v3, h.word), n);
    WordLoads(m0, at, v0, h.word);
    WordLoads(m1, at + h.word, v1, h.word);
    WordLoads(m2, at + 2 * h.word, v2, h.word);
    WordLoads(h.mem, at + 3 * h.word, v3, h.word);
    LoadSame(m0, h.mem, at, h.word);
    LoadSame(m1, h.mem, at + h.word, h.word);
    LoadSame(m2, h.mem, at + 2 * h.word, h.word);
  }

  lemma FieldsAre(word: int, l: Layout, b: IoBuffer)
    ensures forall a :: InFields(word, l, b, a) <==> b.addr + l.fields <= a < b.addr + l.fields + 4 * word
  {
  }

  lemma WordLoads(m: int -> byte, at: int, v: int, n: int)
    requires 0 <= n && 0 <= v < Pow256(n)
    requires var w := WordBytes(v, n); forall a :: at <= a < at + n ==> m(a) == w[a - at]
    ensures LoadWord(m, at, n) == v
  {
    LoadStored(m, at, v, n);
  }

  // The block that holds the descriptor
  ghost function Holder(c: Config, word: int, l: Layout, b: IoBuffer, inline: bool): Block
    requires c.space > 0 && c.min > 0
  {
    if inline then Block(b.head, Actual(c, Len(b) + l.size)) else SizedBlock(c, word, b.addr, l.size + word)
  }

  lemma FieldsInBlock(c: Config, word: int, l: Layout, p: Pool, m: int -> byte, b: IoBuffer, inline: bool)
    requires ValidConfig(c) && Inv(c, p) && ValidLayout(c, l) && word > 0 && l.fields + 4 * word <= l.size
    requires l.size + word < c.space && Kept(c, word, l, p, m, b, inline)
    ensures Holder(c, word, l, b, inline) in Blocks(c, word, l, b, inline)
    ensures forall a :: InFields(word, l, b, a) ==> Inside(Holder(c, word, l, b, inline), a) && a >= b.addr
    ensures 0 < b.head <= b.end < c.space && b.addr > 0
    ensures var n := Holder(c, word, l, b, inline);
            Owns(p, n) && n.addr <= b.addr + l.fields && b.addr + l.fields + 4 * word <= End(n)
  {
    var n := Holder(c, word, l, b, inline);
    OwnedFits(c, p, n);
    if inline {
      ActualMeaning(c, Len(b) + l.size);
    } else {
      ActualMeaning(c, l.size + word);
      ActualMeaning(c, Len(b));
      OwnedFits(c, p, Block(b.head, Actual(c, Len(b))));
    }
  }

  lemma OwnedFits(c: Config, p: Pool, b: Block)
    requires ValidConfig(c) && Inv(c, p) && b in p.live
    ensures 0 < b.addr && 0 < b.size && End(b) < c.space
  {
    LiveInWindow(c, p, IndexIn(p.live, b));
  }

  // Writing the fields does not change the size field in front of a detached
  // descriptor.
  lemma FieldsKept(c: Config, word: int, l: Layout, p: Pool, m: int -> byte, m': int -> byte, b: IoBuffer, inline: bool)
    requires c.space > 0 && c.min > 0 && word > 0 && Kept(c, word, l, p, m, b, inline) && l.fields >= 0
    requires forall a :: !InFields(word, l, b, a) ==> m'(a) == m(a)
    ensures Kept(c, word, l, p, m', b, inline)
  {
    hide LoadWord, Actual;
    LoadSame(m, m', b.addr - word, word);
  }

  // No byte of a new block was held before.
  lemma NewUnheld(c: Config, word: int, l: Layout, p: Pool, m: int -> byte, q: Pool, m1: int -> byte, m2: int -> byte,
                  b: IoBuffer, inline: bool)
    requires ValidConfig(c) && Inv(c, q) && Preserved(p, m, q, m1)
    requires OwnsMore(p, q, Blocks(c, word, l, b, inline))
    requires Holder(c, word, l, b, inline) in Blocks(c, word, l, b, inline)
    requires forall a :: InFields(word, l, b, a) ==> Inside(Holder(c, word, l, b, inline), a)
    requires forall a :: !InFields(word, l, b, a) ==> m2(a) == m1(a)
    ensures Preserved(p, m, q, m2)
  {
    hide Actual, Inv, InFields, Blocks, Holder;
    var n := Holder(c, word, l, b, inline);
    forall a | Held(p, a)
      ensures Held(q, a) && m2(a) == m(a)
    {
      NotInNew(c, p, q, Blocks(c, word, l, b, inline), n, a);
    }
  }

  lemma NotInNew(c: Config, p: Pool, q: Pool, s: set<Block>, n: Block, a: int)
    requires Inv(c, q) && OwnsMore(p, q, s) && n in s && Held(p, a)
    ensures !Inside(n, a)
  {
    HeldByOwned(p, a);
    var d :| Owns(p, d) && Inside(d, a);
    assert Owns(q, d) && Owns(q, n) && d != n;
    LiveApart(q, n, d);
  }

  // What the caller of alloc_iob_raw() gets.
  ghost predicate Shaped(c: Config, l: Layout, len: int, align: int, offset: int, b: IoBuffer, inline: bool)
    requires c.space > 0 && Padding(l) > 0 && l.align > 0
  {
    && b.head == b.data == b.tail && len <= Len(b) < len + l.align
    && Modulus(c, RoundedAlign(l, align)) > 0
    && Aligned(c, b.head, Modulus(c, RoundedAlign(l, align)), offset)
    && (inline <==> len <= RoundedAlign(l, align) - Padding(l))
    && (inline ==> Phys(c, b.addr) % l.align == 0 && Len(b) + l.size <= RoundedAlign(l, align))
    && (!inline ==> Len(b) == len)
  }

  // Either kind of buffer, before its descriptor is populated
  ghost predicate Made(c: Config, word: int, l: Layout, p: Pool, q: Pool, m: int -> byte, b: IoBuffer, inline: bool)
    requires c.space > 0 && c.min > 0
  {
    Kept(c, word, l, q, m, b, inline) && OwnsMore(p, q, Blocks(c, word, l, b, inline)) && b.data == b.tail == b.head
  }

  // The buffer and its descriptor as a single unit
  method AllocInline(h: Heap, l: Layout, len: int, align: int, offset: int) returns (r: Option<IoBuffer>)
    requires Ready(h, l) && RoundedAlign(l, align) < h.c.space && 0 <= len <= RoundedAlign(l, align) - Padding(l)
    requires 0 <= offset < h.c.space
    modifies h
    ensures Ready(h, l) && Preserved(old(h.State()), old(h.mem), h.State(), h.mem)
    ensures r.Some? <==> CanAllocate(h.c, h.word, l, old(h.State()), len, align, offset)
    ensures r.None? ==> SameOwned(old(h.State()), h.State())
    ensures r.Some? ==> Made(h.c, h.word, l, old(h.State()), h.State(), h.mem, r.value, true)
    ensures r.Some? ==> Shaped(h.c, l, len, align, offset, r.value, true)
  {
    hide Actual, Inv, Encodes, Preserved, SameOwned, Aligned, Phys, RoundedAlign, LoadWord, Held, Allocate;
    RoundedAlignFacts(l, align);
    var n := InlineLen(l, len, offset);
    var ptr := AllocDma(h, n + l.size, RoundedAlign(l, align), offset);
    if ptr == 0 {
      return None;
    }
    InlineFits(h.c, l, len, align, offset, ptr);
    r := Some(IoBuffer(ptr + n, ptr, ptr, ptr, ptr + n));
  }

  // The buffer and its descriptor apart
  method AllocDetached(h: Heap, l: Layout, len: int, align: int, offset: int) returns (r: Option<IoBuffer>)
    requires Ready(h, l) && RoundedAlign(l, align) < h.c.space && RoundedAlign(l, align) - Padding(l) < len < h.c.space
    requires 0 <= offset < h.c.space
    modifies h
    ensures Ready(h, l) && Preserved(old(h.State()), old(h.mem), h.State(), h.mem)
    ensures r.Some? <==> CanAllocate(h.c, h.word, l, old(h.State()), len, align, offset)
    ensures r.None? ==> SameOwned(old(h.State()), h.State())
    ensures r.Some? ==> Made(h.c, h.word, l, old(h.State()), h.State(), h.mem, r.value, false)
    ensures r.Some? ==> Shaped(h.c, l, len, align, offset, r.value, false)
  {
    hide Actual, Inv, Encodes, Aligned, Phys, RoundedAlign, LoadWord, Held, Allocate;
    RoundedAlignFacts(l, align);
    var data := AllocDma(h, len, RoundedAlign(l, align), offset);
    if data == 0 {
      return None;
    }
    ghost var p, m := h.State(), h.mem;
    var desc := Malloc(h, l.size);
    PreservedThen(old(h.State()), old(h.mem), p, m, h.State(), h.mem);
    if desc == 0 {
      ghost var q, mid := h.State(), h.mem;
      FreeDma(h, data, len);
      KeptAfterFree(h.c, old(h.State()), old(h.mem), q, mid, h.State(), h.mem);
      return None;
    }
    r := Some(IoBuffer(desc, data, data, data, data + len));
  }

  lemma PreservedThen(p: Pool, m: int -> byte, q: Pool, m1: int -> byte, r: Pool, m2: int -> byte)
    requires Preserved(p, m, q, m1) && Preserved(q, m1, r, m2)
    ensures Preserved(p, m, r, m2)
  {
  }

  // What is held is a matter of what is owned.
  lemma HeldByOwned(p: Pool, a: int)
    ensures Held(p, a) <==> exists b :: Owns(p, b) && Inside(b, a)
  {
    if Held(p, a) {
      var i :| 0 <= i < |p.live| && p.live[i] !in p.cached && Inside(p.live[i], a);
      assert Owns(p, p.live[i]);
    }
    if b :| Owns(p, b) && Inside(b, a) {
      OwnsHolds(p, b, a);
    }
  }

  lemma KeptAfterFree(c: Config, p: Pool, m: int -> byte, q: Pool, m1: int -> byte, r: Pool, m2: int -> byte)
    requires Preserved(p, m, q, m1) && SameOwned(p, r)
    requires forall a :: Held(r, a) ==> Held(q, a) && m2(a) == m1(a)
    ensures Preserved(p, m, r, m2)
  {
    forall a | Held(p, a)
      ensures Held(r, a) && m2(a) == m(a)
    {
      HeldByOwned(p, a);
      HeldByOwned(r, a);
    }
  }

  // free_iob(), of an address, which accepts NULL
  method FreeIob(h: Heap, l: Layout, iobuf: int, ghost b: IoBuffer, ghost inline: bool)
    requires Ready(h, l)
    requires iobuf != 0 ==> Obtained(h.c, h.word, l, h.State(), h.mem, b, inline) && b.addr == iobuf
    modifies h
    ensures Ready(h, l)
    ensures iobuf == 0 ==> h.State() == old(h.State()) && h.mem == old(h.mem)
    ensures iobuf != 0 ==> OwnsMore(h.State(), old(h.State()), Blocks(h.c, h.word, l, b, inline))
    ensures forall a :: Held(h.State(), a) ==> Held(old(h.State()), a) && h.mem(a) == old(h.mem)(a)
  {
    hide Actual, LoadWord, Sum, Insert, Inv, Encodes, Held;
    if iobuf == 0 {
      return;
    }
    var head := LoadWord(h.mem, iobuf + l.fields, h.word);
    var end := LoadWord(h.mem, iobuf + l.fields + 3 * h.word, h.word);
    if !inline {
      DetachedNotAtEnd(h.c, h.word, l, h.State(), h.mem, b);
    }
    var len := end - head;
    if end == iobuf {
      FreeDma(h, head, len + l.size);
    } else {
      ghost var p, m := h.State(), h.mem;
      DescriptorAddress(h.c, h.word, l, p, m, b);
      FreeDma(h, head, len);
      DescriptorIntact(h.c, h.word, l, p, m, h.State(), h.mem, b);
      Free(h, iobuf, l.size + h.word);
    }
  }

  lemma DescriptorAddress(c: Config, word: int, l: Layout, p: Pool, m: int -> byte, b: IoBuffer)
    requires ValidConfig(c) && Inv(c, p) && word > 0 && l.size > 0
    requires Kept(c, word, l, p, m, b, false)
    ensures HasBlock(c, b.addr)
  {
    var desc := SizedBlock(c, word, b.addr, l.size + word);
    LiveInWindow(c, p, IndexIn(p.live, desc));
    ActualMeaning(c, l.size + word);
  }

  // Freeing the data leaves the size field of the descriptor's block alone.
  lemma DescriptorIntact(c: Config, word: int, l: Layout, p: Pool, m: int -> byte, q: Pool, m': int -> byte,
                         b: IoBuffer)
    requires ValidConfig(c) && Inv(c, q) && word > 0 && l.size > 0
    requires Kept(c, word, l, p, m, b, false)
    requires OwnsMore(q, p, {Block(b.head, Actual(c, Len(b)))})
    requires forall a :: Held(q, a) ==> m'(a) == m(a)
    ensures Malloced(c, word, q, m', b.addr, l.size + word)
  {
    hide LoadWord;
    var desc := SizedBlock(c, word, b.addr, l.size + word);
    assert Owns(q, desc);
    ActualMeaning(c, l.size + word);
    OwnedBlock(c, q, desc);
    forall a | b.addr - word <= a < b.addr
      ensures m(a) == m'(a)
    {
      OwnsHolds(q, desc, a);
    }
    LoadSame(m, m', b.addr - word, word);
  }

  // Allocating a buffer, filling it with any data, reading that and freeing the
  // buffer leaves exactly the same blocks owned, and every byte of theirs as it
  // was.
  method AllocFillFree(h: Heap, l: Layout, len: int, align: int, offset: int, contents: seq<byte>)
      returns (r: Option<IoBuffer>, data: seq<byte>, ghost inline: bool)
    requires Ready(h, l) && 0 <= len < h.c.space && 0 <= align < h.c.space && 0 <= offset < h.c.space
    requires |contents| <= len
    modifies h
    ensures Ready(h, l) && SameOwned(old(h.State()), h.State())
    ensures Preserved(old(h.State()), old(h.mem), h.State(), h.mem)
    ensures r.Some? ==> data == contents && Shaped(h.c, l, len, align, offset, r.value, inline)
  {
    hide Actual, Inv, LoadWord, Shaped, Blocks, Kept, Stored, InFields, DataBlock, Encodes;
    ghost var p, m := h.State(), h.mem;
    data := [];
    r, inline := AllocIobRaw(h, l, len, align, offset);
    if r.None? {
      return;
    }
    var b := r.value;
    ghost var q, bytes := h.State(), h.mem;
    FieldsInBlock(h.c, h.word, l, q, bytes, b, inline);
    assert b.data == b.head && len <= Len(b) by { ShapedLen(h.c, l, len, align, offset, b, inline); }
    DataOwned(h.c, h.word, l, q, bytes, b, inline);
    h.Write(b.data, contents, DataBlock(h.c, l, b, inline));
    DataWritten(h.c, h.word, l, p, m, q, bytes, h.mem, b, inline, |contents|);
    var filled := h.mem;
    data := seq(|contents|, k => filled(b.data + k));
    FreeIob(h, l, b.addr, b, inline);
    OwnsBack(p, q, h.State(), Blocks(h.c, h.word, l, b, inline));
    KeptAfterFree(h.c, p, m, q, filled, h.State(), h.mem);
  }

  lemma OwnsBack(p: Pool, q: Pool, r: Pool, s: set<Block>)
    requires OwnsMore(p, q, s) && OwnsMore(r, q, s)
    ensures SameOwned(p, r)
  {
    forall b
      ensures Owns(p, b) <==> Owns(r, b)
    {
      assert Owns(q, b) <==> Owns(p, b) || b in s;
    }
  }

  lemma ShapedLen(c: Config, l: Layout, len: int, align: int, offset: int, b: IoBuffer, inline: bool)
    requires c.space > 0 && Padding(l) > 0 && l.align > 0 && Shaped(c, l, len, align, offset, b, inline)
    ensures b.data == b.head && len <= Len(b)
  {
  }

  // The block that holds the data
  ghost function DataBlock(c: Config, l: Layout, b: IoBuffer, inline: bool): Block
    requires c.space > 0 && c.min > 0
  {
    Block(b.head, Actual(c, if inline then Len(b) + l.size else Len(b)))
  }

  ghost predicate InData(b: IoBuffer, len: int, a: int) {
    b.head <= a < b.head + len
  }

  // Neither a field of the descriptor nor the size field in front of it
  ghost predicate NotDescriptor(word: int, l: Layout, b: IoBuffer, inline: bool, a: int) {
    !InFields(word, l, b, a) && (!inline ==> !(b.addr - word <= a < b.addr))
  }

  // The data of a buffer is memory of its own, apart from its descriptor.
  lemma DataLies(c: Config, word: int, l: Layout, p: Pool, m: int -> byte, b: IoBuffer, inline: bool, len: int, a: int)
    requires ValidConfig(c) && Inv(c, p) && word > 0 && 0 <= l.fields && l.fields + 4 * word <= l.size
    requires l.size + word < c.space && Kept(c, word, l, p, m, b, inline)
    requires 0 <= len <= Len(b) && InData(b, len, a)
    ensures Inside(DataBlock(c, l, b, inline), a) && NotDescriptor(word, l, b, inline, a)
  {
    hide LoadWord, Inv;
    if inline {
      ActualMeaning(c, Len(b) + l.size);
      OwnedFits(c, p, DataBlock(c, l, b, inline));
    } else {
      DetachedData(c, word, l, p, m, b);
    }
  }

  lemma DataOwned(c: Config, word: int, l: Layout, p: Pool, m: int -> byte, b: IoBuffer, inline: bool)
    requires ValidConfig(c) && Inv(c, p) && word > 0 && l.size > 0 && Kept(c, word, l, p, m, b, inline)
    ensures var n := DataBlock(c, l, b, inline); Owns(p, n) && n.addr == b.head && Len(b) <= n.size
  {
    hide LoadWord, Inv;
    OwnedFits(c, p, DataBlock(c, l, b, inline));
    ActualMeaning(c, if inline then Len(b) + l.size else Len(b));
  }

  lemma DetachedData(c: Config, word: int, l: Layout, p: Pool, m: int -> byte, b: IoBuffer)
    requires ValidConfig(c) && Inv(c, p) && word > 0 && l.size > 0 && Kept(c, word, l, p, m, b, false)
    ensures Len(b) <= Actual(c, Len(b))
    ensures b.addr + l.size <= b.head || b.head + Actual(c, Len(b)) <= b.addr - word
  {
    hide LoadWord;
    var d, e := Block(b.head, Actual(c, Len(b))), SizedBlock(c, word, b.addr, l.size + word);
    OwnedFits(c, p, d);
    OwnedFits(c, p, e);
    ActualMeaning(c, Len(b));
    ActualMeaning(c, l.size + word);
    LiveApart(p, d, e);
  }

  // Filling the buffer keeps it whole, and everything that was held before.
  lemma DataWritten(c: Config, word: int, l: Layout, p: Pool, m: int -> byte, q: Pool, m1: int -> byte, m2: int -> byte,
                    b: IoBuffer, inline: bool, len: int)
    requires ValidConfig(c) && Inv(c, q) && word > 0 && 0 <= l.fields && l.fields + 4 * word <= l.size
    requires l.size + word < c.space && 0 <= len <= Len(b)
    requires Preserved(p, m, q, m1) && OwnsMore(p, q, Blocks(c, word, l, b, inline))
    requires Obtained(c, word, l, q, m1, b, inline)
    requires forall a :: !InData(b, len, a) ==> m2(a) == m1(a)
    ensures Preserved(p, m, q, m2) && Obtained(c, word, l, q, m2, b, inline)
  {
    hide LoadWord, Actual, Inv, InData, NotDescriptor, InFields;
    forall a | !NotDescriptor(word, l, b, inline, a)
      ensures m2(a) == m1(a)
    {
      if InData(b, len, a) {
        DataLies(c, word, l, q, m1, b, inline, len, a);
        assert false;
      }
    }
    FieldsUntouched(c, word, l, q, m1, m2, b, inline);
    forall a | Held(p, a)
      ensures Held(q, a) && m2(a) == m(a)
    {
      if InData(b, len, a) {
        DataLies(c, word, l, q, m1, b, inline, len, a);
        NotInNew(c, p, q, Blocks(c, word, l, b, inline), DataBlock(c, l, b, inline), a);
        assert false;
      }
    }
  }

  lemma FieldsUntouched(c: Config, word: int, l: Layout, q: Pool, m1: int -> byte, m2: int -> byte, b: IoBuffer,
                        inline: bool)
    requires c.space > 0 && c.min > 0 && word > 0 && Obtained(c, word, l, q, m1, b, inline)
    requires forall a :: !NotDescriptor(word, l, b, inline, a) ==> m2(a) == m1(a)
    ensures Obtained(c, word, l, q, m2, b, inline)
  {
    hide LoadWord, Actual;
    LoadSame(m1, m2, b.addr + l.fields, word);
    LoadSame(m1, m2, b.addr + l.fields + 3 * word, word);
    if !inline {
      LoadSame(m1, m2, b.addr - word, word);
    }
  }
}
