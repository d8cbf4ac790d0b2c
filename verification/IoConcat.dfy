/**
 Concatenation of I/O buffers: iob_concatenate() of iobuf.c, on descriptors and
 data in the heap.
 */
module IoConcat {
  import opened Words
  import opened Memory
  import opened FreeList
  import opened FreeLinks
  import opened Pool
  import opened Heap
  import opened IoBuf

  /** A buffer, and whether its descriptor is inline */
  datatype Buffer = Buffer(b: IoBuffer, inline: bool)

  ghost function Own(c: Config, word: int, l: Layout, e: Buffer): set<Block>
    requires c.space > 0 && c.min > 0
  {
    Blocks(c, word, l, e.b, e.inline)
  }

  ghost predicate InBlocks(s: set<Block>, a: int) {
    exists x :: x in s && Inside(x, a)
  }

  ghost predicate Fitting(c: Config, word: int, l: Layout) {
    && ValidConfig(c) && ValidLayout(c, l) && word > 0 && l.align > 0
    && l.fields + 4 * word <= l.size && l.size + word < c.space
  }

  // The buffer is whole, its descriptor is in memory, and the data lies in it.
  ghost predicate Intact(c: Config, word: int, l: Layout, p: Pool, m: int -> byte, e: Buffer)
    requires c.space > 0 && c.min > 0
  {
    && Obtained(c, word, l, p, m, e.b, e.inline) && Stored(word, l, m, e.b)
    && e.b.head <= e.b.data <= e.b.tail <= e.b.end
  }

  function DataLen(b: IoBuffer): int {
    b.tail - b.data
  }

  // The data of a buffer
  ghost function Payload(m: int -> byte, b: IoBuffer): seq<byte> {
    seq(if DataLen(b) >= 0 then DataLen(b) else 0, (k: nat) => m(b.data + k))
  }

  // ---- One buffer ---------------------------------------------------------

  // A buffer depends only on its own blocks.
  lemma IntactStays(c: Config, word: int, l: Layout, p: Pool, m: int -> byte, q: Pool, m': int -> byte, e: Buffer)
    requires Fitting(c, word, l) && Inv(c, p) && Intact(c, word, l, p, m, e)
    requires forall x :: x in Own(c, word, l, e) ==> Owns(q, x)
    requires forall a :: InBlocks(Own(c, word, l, e), a) ==> m'(a) == m(a)
    ensures Intact(c, word, l, q, m', e) && Payload(m', e.b) == Payload(m, e.b)
  {
    hide LoadWord, Actual, Inv, InBlocks;
    BlockBytes(c, word, l, p, m, e);
    SameFields(word, l, m, m', e.b);
    if !e.inline {
      LoadSame(m, m', e.b.addr - word, word);
    }
  }

  lemma SameFields(word: int, l: Layout, m: int -> byte, m': int -> byte, b: IoBuffer)
    requires word > 0 && forall a :: InFields(word, l, b, a) ==> m'(a) == m(a)
    ensures Stored(word, l, m, b) ==> Stored(word, l, m', b)
    ensures LoadWord(m', b.addr + l.fields, word) == LoadWord(m, b.addr + l.fields, word)
    ensures LoadWord(m', b.addr + l.fields + 3 * word, word) == LoadWord(m, b.addr + l.fields + 3 * word, word)
  {
    hide LoadWord;
    LoadSame(m, m', b.addr + l.fields, word);
    LoadSame(m, m', b.addr + l.fields + word, word);
    LoadSame(m, m', b.addr + l.fields + 2 * word, word);
    LoadSame(m, m', b.addr + l.fields + 3 * word, word);
  }

  // What a buffer consists of lies in its blocks.
  lemma BlockBytes(c: Config, word: int, l: Layout, p: Pool, m: int -> byte, e: Buffer)
    requires Fitting(c, word, l) && Inv(c, p) && Kept(c, word, l, p, m, e.b, e.inline)
    ensures forall a :: InFields(word, l, e.b, a) ==> InBlocks(Own(c, word, l, e), a)
    ensures forall a :: e.b.head <= a < e.b.end ==> InBlocks(Own(c, word, l, e), a)
    ensures !e.inline ==> forall a :: e.b.addr - word <= a < e.b.addr ==> InBlocks(Own(c, word, l, e), a)
  {
    hide LoadWord, Actual, Inv;
    var n, d := Holder(c, word, l, e.b, e.inline), DataBlock(c, l, e.b, e.inline);
    FieldsInBlock(c, word, l, p, m, e.b, e.inline);
    DataOwned(c, word, l, p, m, e.b, e.inline);
    assert d in Own(c, word, l, e) && n in Own(c, word, l, e);
    forall a
      ensures InFields(word, l, e.b, a) ==> InBlocks(Own(c, word, l, e), a)
      ensures e.b.head <= a < e.b.end ==> InBlocks(Own(c, word, l, e), a)
    {
      assert e.b.head <= a < e.b.end ==> Inside(d, a);
      assert InFields(word, l, e.b, a) ==> Inside(n, a);
    }
    if !e.inline {
      SizeBytes(c, word, l, p, m, e);
    }
  }

  lemma SizeBytes(c: Config, word: int, l: Layout, p: Pool, m: int -> byte, e: Buffer)
    requires Fitting(c, word, l) && Inv(c, p) && Kept(c, word, l, p, m, e.b, false) && !e.inline
    ensures forall a :: e.b.addr - word <= a < e.b.addr ==> InBlocks(Own(c, word, l, e), a)
  {
    hide LoadWord, Inv;
    var n := SizedBlock(c, word, e.b.addr, l.size + word);
    OwnedFits(c, p, n);
    ActualMeaning(c, l.size + word);
    forall a | e.b.addr - word <= a < e.b.addr
      ensures InBlocks(Own(c, word, l, e), a)
    {
      assert Inside(n, a);
    }
  }

  // Distinct blocks in use have no byte in common.
  lemma BlocksApart(c: Config, p: Pool, s: set<Block>, t: set<Block>)
    requires Inv(c, p) && s !! t
    requires forall x :: x in s || x in t ==> Owns(p, x)
    ensures forall a :: InBlocks(s, a) ==> !InBlocks(t, a)
  {
    forall a | InBlocks(s, a)
      ensures !InBlocks(t, a)
    {
      var x :| x in s && Inside(x, a);
      forall y | y in t
        ensures !Inside(y, a)
      {
        LiveApart(p, x, y);
      }
    }
  }

  lemma OwnsBlocks(c: Config, word: int, l: Layout, p: Pool, m: int -> byte, e: Buffer)
    requires c.space > 0 && c.min > 0 && Kept(c, word, l, p, m, e.b, e.inline)
    ensures forall x :: x in Own(c, word, l, e) ==> Owns(p, x)
  {
    hide LoadWord, Actual;
  }

  // ---- Appending the data of one buffer to another ------------------------

  function Longer(r: Buffer, len: int): Buffer {
    r.(b := r.b.(tail := r.b.tail + len))
  }

  // The tail is moved, and the data copied behind the old one.
  ghost predicate Copied(word: int, l: Layout, m0: int -> byte, m1: int -> byte, m2: int -> byte,
                         r: IoBuffer, e: IoBuffer)
    requires word > 0 && DataLen(e) >= 0
  {
    && Replaced(m0, m1, r.addr + l.fields + 2 * word, WordBytes(r.tail + DataLen(e), word))
    && Repeated(m1, m2, r.tail, e.data, DataLen(e))
  }

  // Bytes have been replaced by others.
  ghost predicate Replaced(m: int -> byte, m': int -> byte, at: int, w: seq<byte>) {
    && (forall a :: !(at <= a < at + |w|) ==> m'(a) == m(a))
    && (forall a :: at <= a < at + |w| ==> m'(a) == w[a - at])
  }

  // Bytes have been replaced by those at another address.
  ghost predicate Repeated(m: int -> byte, m': int -> byte, at: int, from: int, len: int) {
    && (forall a :: !(at <= a < at + len) ==> m'(a) == m(a))
    && (forall a :: at <= a < at + len ==> m'(a) == m(from + (a - at)))
  }

  // The descriptor, with the size in front of it, lies beside the data.
  lemma Beside(c: Config, word: int, l: Layout, p: Pool, m: int -> byte, e: Buffer)
    requires Fitting(c, word, l) && Inv(c, p) && Kept(c, word, l, p, m, e.b, e.inline)
    ensures e.b.addr + l.size <= e.b.head || e.b.end <= e.b.addr
    ensures !e.inline ==> e.b.addr + l.size <= e.b.head || e.b.end <= e.b.addr - word
  {
    hide LoadWord, Inv, Actual;
    if !e.inline {
      DetachedData(c, word, l, p, m, e.b);
    }
  }

  // The descriptor of the longer buffer
  lemma CopiedFields(c: Config, word: int, l: Layout, p: Pool, m0: int -> byte, m1: int -> byte, m2: int -> byte,
                     r: Buffer, e: IoBuffer)
    requires Fitting(c, word, l) && c.space == Pow256(word) && Inv(c, p) && Intact(c, word, l, p, m0, r)
    requires DataLen(e) >= 0 && r.b.tail + DataLen(e) <= r.b.end && Copied(word, l, m0, m1, m2, r.b, e)
    ensures Stored(word, l, m2, Longer(r, DataLen(e)).b)
    ensures !r.inline ==> LoadWord(m2, r.b.addr - word, word) == LoadWord(m0, r.b.addr - word, word)
  {
    hide LoadWord, Inv, Kept, Actual, WordBytes, Holder, Owns, InFields, Blocks, Copied;
    var f := r.b.addr + l.fields;
    Beside(c, word, l, p, m0, r);
    FieldsInBlock(c, word, l, p, m0, r.b, r.inline);
    WordKept(word, l, m0, m1, m2, r.b, e, f);
    WordKept(word, l, m0, m1, m2, r.b, e, f + word);
    WordKept(word, l, m0, m1, m2, r.b, e, f + 3 * word);
    TailPut(word, l, m0, m1, m2, r.b, e);
    if !r.inline {
      WordKept(word, l, m0, m1, m2, r.b, e, r.b.addr - word);
    }
  }

  lemma WordKept(word: int, l: Layout, m0: int -> byte, m1: int -> byte, m2: int -> byte, r: IoBuffer, e: IoBuffer,
                 x: int)
    requires word > 0 && DataLen(e) >= 0 && Copied(word, l, m0, m1, m2, r, e)
    requires var at := r.addr + l.fields + 2 * word; x + word <= at || at + word <= x
    requires x + word <= r.tail || r.tail + DataLen(e) <= x
    ensures LoadWord(m2, x, word) == LoadWord(m0, x, word)
  {
    hide LoadWord, WordBytes;
    LoadSame(m0, m2, x, word);
  }

  lemma TailPut(word: int, l: Layout, m0: int -> byte, m1: int -> byte, m2: int -> byte, r: IoBuffer, e: IoBuffer)
    requires word > 0 && DataLen(e) >= 0 && Copied(word, l, m0, m1, m2, r, e)
    requires 0 <= r.tail + DataLen(e) < Pow256(word)
    requires var at := r.addr + l.fields + 2 * word; at + word <= r.tail || r.tail + DataLen(e) <= at
    ensures LoadWord(m2, r.addr + l.fields + 2 * word, word) == r.tail + DataLen(e)
  {
    hide LoadWord, WordBytes;
    var at := r.addr + l.fields + 2 * word;
    WordLoads(m1, at, r.tail + DataLen(e), word);
    LoadSame(m1, m2, at, word);
  }

  lemma CopiedData(c: Config, word: int, l: Layout, p: Pool, m0: int -> byte, m1: int -> byte, m2: int -> byte,
                   r: Buffer, e: Buffer)
    requires Fitting(c, word, l) && Inv(c, p) && Intact(c, word, l, p, m0, r) && Intact(c, word, l, p, m0, e)
    requires Own(c, word, l, r) !! Own(c, word, l, e) && r.b.tail + DataLen(e.b) <= r.b.end
    requires Copied(word, l, m0, m1, m2, r.b, e.b)
    ensures Payload(m2, Longer(r, DataLen(e.b)).b) == Payload(m0, r.b) + Payload(m0, e.b)
  {
    hide LoadWord, Inv, Kept, Actual, WordBytes, Stored, Owns;
    hide Copied, Payload, Own;
    Beside(c, word, l, p, m0, r);
    FieldsBeside(c, word, l, p, m0, r, e);
    PayloadGrows(word, l, m0, m1, m2, r.b, e.b);
  }

  lemma PayloadGrows(word: int, l: Layout, m0: int -> byte, m1: int -> byte, m2: int -> byte, r: IoBuffer, e: IoBuffer)
    requires word > 0 && DataLen(r) >= 0 && DataLen(e) >= 0 && Copied(word, l, m0, m1, m2, r, e)
    requires var at := r.addr + l.fields + 2 * word;
             && (at + word <= e.data || e.tail <= at) && (at + word <= r.data || r.tail <= at)
    ensures Payload(m2, r.(tail := r.tail + DataLen(e))) == Payload(m0, r) + Payload(m0, e)
  {
    hide WordBytes;
    var x, y := Payload(m2, r.(tail := r.tail + DataLen(e))), Payload(m0, r) + Payload(m0, e);
    forall k | 0 <= k < |x|
      ensures x[k] == y[k]
    {
      if k >= DataLen(r) {
        assert m2(r.data + k) == m1(e.data + (r.data + k - r.tail));
      }
    }
  }

  // The descriptor of one buffer lies beside the data of another.
  lemma FieldsBeside(c: Config, word: int, l: Layout, p: Pool, m: int -> byte, r: Buffer, e: Buffer)
    requires Fitting(c, word, l) && Inv(c, p)
    requires Kept(c, word, l, p, m, r.b, r.inline) && Kept(c, word, l, p, m, e.b, e.inline)
    requires Own(c, word, l, r) !! Own(c, word, l, e)
    ensures r.b.addr + l.fields + 4 * word <= e.b.head || e.b.end <= r.b.addr + l.fields
  {
    hide LoadWord, Actual;
    var n, d := Holder(c, word, l, r.b, r.inline), DataBlock(c, l, e.b, e.inline);
    FieldsInBlock(c, word, l, p, m, r.b, r.inline);
    DataOwned(c, word, l, p, m, e.b, e.inline);
    assert n in Own(c, word, l, r) && d in Own(c, word, l, e);
    LiveApart(p, n, d);
  }

  lemma CopiedFrame(c: Config, word: int, l: Layout, p: Pool, m0: int -> byte, m1: int -> byte, m2: int -> byte,
                    r: Buffer, e: IoBuffer)
    requires Fitting(c, word, l) && Inv(c, p) && Intact(c, word, l, p, m0, r)
    requires DataLen(e) >= 0 && r.b.tail + DataLen(e) <= r.b.end && Copied(word, l, m0, m1, m2, r.b, e)
    ensures forall a :: !InBlocks(Own(c, word, l, r), a) ==> m2(a) == m0(a)
  {
    hide LoadWord, Inv, Kept, Actual, WordBytes, InBlocks, Own, Stored;
    BlockBytes(c, word, l, p, m0, r);
    forall a | !InBlocks(Own(c, word, l, r), a)
      ensures m2(a) == m0(a)
    {
      assert !InFields(word, l, r.b, a);
    }
  }

  // memcpy(), into an owned block
  method CopyBytes(h: Heap, at: int, from: int, len: nat, ghost b: Block)
    requires h.Valid() && Owns(h.State(), b) && b.addr <= at && at + len <= End(b)
    modifies h`mem
    ensures h.Valid() && Repeated(old(h.mem), h.mem, at, from, len)
  {
    hide Inv, Encodes, Owns;
    var m := h.mem;
    h.Write(at, seq(len, k => m(from + k)), b);
  }

  // iob_put() and memcpy()
  method PutData(h: Heap, l: Layout, at: int, tail: int, data: int, len: nat, ghost r: IoBuffer, ghost e: IoBuffer,
                 ghost n: Block, ghost d: Block) returns (ghost m1: int -> byte)
    requires h.Valid() && h.word > 0 && Owns(h.State(), n) && Owns(h.State(), d)
    requires n.addr <= at && at + h.word <= End(n) && d.addr <= tail && tail + len <= End(d)
    requires at == r.addr + l.fields + 2 * h.word && tail == r.tail && data == e.data && len == DataLen(e)
    modifies h`mem
    ensures h.Valid() && Copied(h.word, l, old(h.mem), m1, h.mem, r, e)
  {
    hide Inv, Encodes, Owns, WordBytes, Repeated;
    h.Write(at, WordBytes(tail + len, h.word), n);
    m1 := h.mem;
    assert Replaced(old(h.mem), m1, at, WordBytes(tail + len, h.word));
    hide Replaced;
    CopyBytes(h, tail, data, len, d);
  }

  // Append the data of one buffer to another.
  method Append(h: Heap, l: Layout, at: int, from: int, ghost r: Buffer, ghost e: Buffer)
    requires Ready(h, l) && at == r.b.addr && from == e.b.addr
    requires Intact(h.c, h.word, l, h.State(), h.mem, r) && Intact(h.c, h.word, l, h.State(), h.mem, e)
    requires Own(h.c, h.word, l, r) !! Own(h.c, h.word, l, e) && r.b.tail + DataLen(e.b) <= r.b.end
    modifies h`mem
    ensures Ready(h, l) && Intact(h.c, h.word, l, h.State(), h.mem, Longer(r, DataLen(e.b)))
    ensures Payload(h.mem, Longer(r, DataLen(e.b)).b) == Payload(old(h.mem), r.b) + Payload(old(h.mem), e.b)
    ensures forall a :: !InBlocks(Own(h.c, h.word, l, r), a) ==> h.mem(a) == old(h.mem)(a)
  {
    hide LoadWord, Inv, Kept, Actual, InBlocks, Own, Encodes, Copied, Payload, Holder, DataBlock, InFields, Blocks;
    ghost var m0 := h.mem;
    FieldsInBlock(h.c, h.word, l, h.State(), h.mem, r.b, r.inline);
    DataOwned(h.c, h.word, l, h.State(), h.mem, r.b, r.inline);
    var data := LoadWord(h.mem, from + l.fields + h.word, h.word);
    var len := LoadWord(h.mem, from + l.fields + 2 * h.word, h.word) - data;
    var tail := LoadWord(h.mem, at + l.fields + 2 * h.word, h.word);
    ghost var m1 := PutData(h, l, at + l.fields + 2 * h.word, tail, data, len, r.b, e.b,
                               Holder(h.c, h.word, l, r.b, r.inline), DataBlock(h.c, l, r.b, r.inline));
    CopiedAll(h.c, h.word, l, h.State(), m0, m1, h.mem, r, e);
    LongerKept(h.c, h.word, l, h.State(), m0, h.mem, r, len);
  }

  lemma CopiedAll(c: Config, word: int, l: Layout, p: Pool, m0: int -> byte, m1: int -> byte, m2: int -> byte,
                  r: Buffer, e: Buffer)
    requires Fitting(c, word, l) && c.space == Pow256(word) && Inv(c, p)
    requires Intact(c, word, l, p, m0, r) && Intact(c, word, l, p, m0, e)
    requires Own(c, word, l, r) !! Own(c, word, l, e) && r.b.tail + DataLen(e.b) <= r.b.end
    requires Copied(word, l, m0, m1, m2, r.b, e.b)
    ensures var r' := Longer(r, DataLen(e.b));
            && Stored(word, l, m2, r'.b) && Payload(m2, r'.b) == Payload(m0, r.b) + Payload(m0, e.b)
    ensures !r.inline ==> LoadWord(m2, r.b.addr - word, word) == LoadWord(m0, r.b.addr - word, word)
    ensures forall a :: !InBlocks(Own(c, word, l, r), a) ==> m2(a) == m0(a)
  {
    hide LoadWord, Inv, Kept, Actual, InBlocks, Own, Stored, Copied, Payload;
    CopiedFields(c, word, l, p, m0, m1, m2, r, e.b);
    CopiedData(c, word, l, p, m0, m1, m2, r, e);
    CopiedFrame(c, word, l, p, m0, m1, m2, r, e.b);
  }

  lemma LongerKept(c: Config, word: int, l: Layout, p: Pool, m: int -> byte, m': int -> byte, r: Buffer, len: int)
    requires c.space > 0 && c.min > 0 && Kept(c, word, l, p, m, r.b, r.inline)
    requires !r.inline ==> LoadWord(m', r.b.addr - word, word) == LoadWord(m, r.b.addr - word, word)
    ensures Kept(c, word, l, p, m', Longer(r, len).b, r.inline)
  {
    hide LoadWord, Actual;
  }

  // ---- Moving the data of one buffer and freeing it -----------------------

  // Of what was owned in p1, the blocks that are gone have been given back, and
  // the others, those of r apart, hold what they held.
  ghost predicate Progress(c: Config, word: int, l: Layout, p1: Pool, m1: int -> byte, q: Pool, m: int -> byte,
                           r: Buffer, gone: set<Block>)
    requires c.space > 0 && c.min > 0
  {
    && (forall x :: Owns(q, x) <==> Owns(p1, x) && x !in gone)
    && (forall x, a :: Owns(p1, x) && x !in gone && x !in Own(c, word, l, r) && Inside(x, a) ==> m(a) == m1(a))
  }

  // A buffer that has not been reached yet is as it was.
  lemma StillIntact(c: Config, word: int, l: Layout, p1: Pool, m1: int -> byte, q: Pool, m: int -> byte, r: Buffer,
                    gone: set<Block>, e: Buffer)
    requires Fitting(c, word, l) && Inv(c, p1) && Progress(c, word, l, p1, m1, q, m, r, gone)
    requires Intact(c, word, l, p1, m1, e) && Own(c, word, l, e) !! gone && Own(c, word, l, e) !! Own(c, word, l, r)
    ensures Intact(c, word, l, q, m, e) && Payload(m, e.b) == Payload(m1, e.b)
  {
    hide Inv, Intact, Own, Payload, Owns;
    assert forall x :: x in Own(c, word, l, e) ==> Owns(p1, x) by { IntactOwns(c, word, l, p1, m1, e); }
    IntactStays(c, word, l, p1, m1, q, m, e);
  }

  lemma IntactOwns(c: Config, word: int, l: Layout, p: Pool, m: int -> byte, e: Buffer)
    requires c.space > 0 && c.min > 0 && Intact(c, word, l, p, m, e)
    ensures forall x :: x in Own(c, word, l, e) ==> Owns(p, x)
  {
    hide LoadWord, Kept;
    OwnsBlocks(c, word, l, p, m, e);
  }

  // Writing to the blocks of r disturbs no other block.
  lemma WroteOwn(c: Config, word: int, l: Layout, p1: Pool, m1: int -> byte, q: Pool, m: int -> byte, m': int -> byte,
                 r: Buffer, gone: set<Block>)
    requires c.space > 0 && c.min > 0 && Inv(c, q) && Progress(c, word, l, p1, m1, q, m, r, gone)
    requires forall x :: x in Own(c, word, l, r) ==> Owns(q, x)
    requires forall a :: !InBlocks(Own(c, word, l, r), a) ==> m'(a) == m(a)
    ensures Progress(c, word, l, p1, m1, q, m', r, gone)
  {
    hide Own, Owns;
    forall x, a | Owns(p1, x) && x !in gone && x !in Own(c, word, l, r) && Inside(x, a)
      ensures m'(a) == m1(a)
    {
      NotIn(c, q, Own(c, word, l, r), x, a);
    }
  }

  lemma NotIn(c: Config, q: Pool, s: set<Block>, x: Block, a: int)
    requires Inv(c, q) && Owns(q, x) && x !in s && Inside(x, a) && forall y :: y in s ==> Owns(q, y)
    ensures !InBlocks(s, a)
  {
    forall y | y in s
      ensures !Inside(y, a)
    {
      LiveApart(q, x, y);
    }
  }

  // Freeing e takes its blocks away.
  lemma Freed(c: Config, word: int, l: Layout, p1: Pool, m1: int -> byte, q: Pool, m: int -> byte,
              t: Pool, m': int -> byte, r: Buffer, gone: set<Block>, own: set<Block>)
    requires c.space > 0 && c.min > 0 && Progress(c, word, l, p1, m1, q, m, r, gone)
    requires OwnsMore(t, q, own) && forall a :: Held(t, a) ==> m'(a) == m(a)
    ensures Progress(c, word, l, p1, m1, t, m', r, gone + own)
  {
    hide Own, Owns;
    forall x, a | Owns(p1, x) && x !in gone + own && x !in Own(c, word, l, r) && Inside(x, a)
      ensures m'(a) == m1(a)
    {
      assert Owns(q, x);
      OwnsHolds(t, x, a);
    }
  }

  lemma FreedIntact(c: Config, word: int, l: Layout, q: Pool, m: int -> byte, t: Pool, m': int -> byte, r: Buffer,
                    own: set<Block>)
    requires Fitting(c, word, l) && Inv(c, q) && Intact(c, word, l, q, m, r) && Own(c, word, l, r) !! own
    requires OwnsMore(t, q, own) && forall a :: Held(t, a) ==> m'(a) == m(a)
    ensures Intact(c, word, l, t, m', r) && Payload(m', r.b) == Payload(m, r.b)
  {
    hide Inv, Intact, Own, Payload, Owns, Held;
    IntactOwns(c, word, l, q, m, r);
    forall a | InBlocks(Own(c, word, l, r), a)
      ensures m'(a) == m(a)
    {
      var x :| x in Own(c, word, l, r) && Inside(x, a);
      OwnsHolds(t, x, a);
    }
    IntactStays(c, word, l, q, m, t, m', r);
  }

  // One round of the loop
  method MoveOne(h: Heap, l: Layout, at: int, from: int, ghost r: Buffer, ghost e: Buffer,
                 ghost p1: Pool, ghost m1: int -> byte, ghost gone: set<Block>)
    requires Ready(h, l) && Inv(h.c, p1) && at == r.b.addr && from == e.b.addr
    requires Progress(h.c, h.word, l, p1, m1, h.State(), h.mem, r, gone)
    requires Intact(h.c, h.word, l, h.State(), h.mem, r) && Intact(h.c, h.word, l, p1, m1, e)
    requires Own(h.c, h.word, l, e) !! gone && Own(h.c, h.word, l, e) !! Own(h.c, h.word, l, r)
    requires r.b.tail + DataLen(e.b) <= r.b.end
    modifies h
    ensures Ready(h, l)
    ensures Progress(h.c, h.word, l, p1, m1, h.State(), h.mem, Longer(r, DataLen(e.b)), gone + Own(h.c, h.word, l, e))
    ensures Intact(h.c, h.word, l, h.State(), h.mem, Longer(r, DataLen(e.b)))
    ensures Payload(h.mem, Longer(r, DataLen(e.b)).b) == Payload(old(h.mem), r.b) + Payload(m1, e.b)
  {
    hide Inv, Progress, Own, Payload, Owns, Held, OwnsMore, Encodes, InBlocks, Intact, Obtained;
    ghost var c, word, q, m := h.c, h.word, h.State(), h.mem;
    ghost var r' := Longer(r, DataLen(e.b));
    StillIntact(c, word, l, p1, m1, q, m, r, gone, e);
    Append(h, l, at, from, r, e);
    ghost var m2 := h.mem;
    SameOwn(c, word, l, r, DataLen(e.b));
    IntactOwns(c, word, l, q, m, r);
    WroteOwn(c, word, l, p1, m1, q, m, m2, r, gone);
    StillIntact(c, word, l, p1, m1, q, m2, r, gone, e);
    IntactObtained(c, word, l, q, m2, e);
    FreeIob(h, l, from, e.b, e.inline);
    Freed(c, word, l, p1, m1, q, m2, h.State(), h.mem, r, gone, Own(c, word, l, e));
    FreedIntact(c, word, l, q, m2, h.State(), h.mem, r', Own(c, word, l, e));
    SameProgress(c, word, l, p1, m1, h.State(), h.mem, r, r', gone + Own(c, word, l, e));
  }

  lemma IntactObtained(c: Config, word: int, l: Layout, p: Pool, m: int -> byte, e: Buffer)
    requires Fitting(c, word, l) && Inv(c, p) && Intact(c, word, l, p, m, e)
    ensures Obtained(c, word, l, p, m, e.b, e.inline) && e.b.addr > 0 && DataLen(e.b) >= 0
    ensures Own(c, word, l, e) == Blocks(c, word, l, e.b, e.inline)
  {
    hide LoadWord, Inv, Kept;
    FieldsInBlock(c, word, l, p, m, e.b, e.inline);
  }

  lemma SameOwn(c: Config, word: int, l: Layout, r: Buffer, len: int)
    requires c.space > 0 && c.min > 0
    ensures Own(c, word, l, Longer(r, len)) == Own(c, word, l, r)
  {
    hide Actual;
  }

  lemma SameProgress(c: Config, word: int, l: Layout, p1: Pool, m1: int -> byte, q: Pool, m: int -> byte,
                     r: Buffer, r': Buffer, gone: set<Block>)
    requires c.space > 0 && c.min > 0 && Progress(c, word, l, p1, m1, q, m, r, gone)
    requires Own(c, word, l, r') == Own(c, word, l, r)
    ensures Progress(c, word, l, p1, m1, q, m, r', gone)
  {
    hide Own, Owns;
  }

  // ---- All buffers of a list ----------------------------------------------

  class BufferList {
    var entries: seq<int>

    constructor (entries: seq<int>)
      ensures this.entries == entries
    {
      this.entries := entries;
    }
  }

  // Of the first k buffers: how much data, which data, and which blocks
  ghost function Total(es: seq<Buffer>, k: nat): int
    requires k <= |es|
  {
    if k == 0 then 0 else Total(es, k - 1) + DataLen(es[k - 1].b)
  }

  ghost function Contents(m: int -> byte, es: seq<Buffer>, k: nat): seq<byte>
    requires k <= |es|
  {
    if k == 0 then [] else Contents(m, es, k - 1) + Payload(m, es[k - 1].b)
  }

  ghost function Gone(c: Config, word: int, l: Layout, es: seq<Buffer>, k: nat): set<Block>
    requires c.space > 0 && c.min > 0 && k <= |es|
  {
    if k == 0 then {} else Gone(c, word, l, es, k - 1) + Own(c, word, l, es[k - 1])
  }

  // Whole buffers that share no block
  ghost predicate AllIntact(c: Config, word: int, l: Layout, p: Pool, m: int -> byte, es: seq<Buffer>)
    requires c.space > 0 && c.min > 0
  {
    && (forall i :: 0 <= i < |es| ==> Intact(c, word, l, p, m, es[i]))
    && (forall i, j :: 0 <= i < j < |es| ==> Own(c, word, l, es[i]) !! Own(c, word, l, es[j]))
  }

  lemma {:induction false} NotGoneYet(c: Config, word: int, l: Layout, es: seq<Buffer>, k: nat, j: nat)
    requires c.space > 0 && c.min > 0 && k <= j < |es|
    requires forall i, j :: 0 <= i < j < |es| ==> Own(c, word, l, es[i]) !! Own(c, word, l, es[j])
    ensures Own(c, word, l, es[j]) !! Gone(c, word, l, es, k)
  {
    hide Own;
    if k > 0 {
      NotGoneYet(c, word, l, es, k - 1, j);
    }
  }

  // The data of all buffers together is smaller than the pool.
  lemma TotalFits(c: Config, word: int, l: Layout, p: Pool, m: int -> byte, es: seq<Buffer>, k: nat)
    requires Fitting(c, word, l) && Inv(c, p) && AllIntact(c, word, l, p, m, es) && k <= |es|
    ensures 0 <= Total(es, k) < c.space
  {
    hide Intact, Own, Actual, DataBlock;
    var ds := seq(k, (i: nat) requires i < k => DataBlock(c, l, es[i].b, es[i].inline));
    forall i | 0 <= i < k
      ensures ds[i] in p.live && ds[i] in Own(c, word, l, es[i])
      ensures 0 <= DataLen(es[i].b) <= ds[i].size && ds[i].size > 0
    {
      DataInLive(c, word, l, p, m, es[i]);
    }
    forall i, j | 0 <= i < j < k
      ensures Apart(ds[i], ds[j])
    {
      assert Own(c, word, l, es[i]) !! Own(c, word, l, es[j]);
      LiveApart(p, ds[i], ds[j]);
    }
    assert Disjoint(ds) && Positive(ds);
    forall a | Covers(ds, a)
      ensures c.base <= a < c.base + c.space / 2
    {
      var i :| 0 <= i < |ds| && Inside(ds[i], a);
      LiveInWindow(c, p, IndexIn(p.live, ds[i]));
    }
    SumWithin(ds, c.base, c.base + c.space / 2);
    TotalBelow(es, ds, k);
    assert ds[..k] == ds;
  }

  lemma DataInLive(c: Config, word: int, l: Layout, p: Pool, m: int -> byte, e: Buffer)
    requires Fitting(c, word, l) && Inv(c, p) && Intact(c, word, l, p, m, e)
    ensures var d := DataBlock(c, l, e.b, e.inline);
            d in p.live && d in Own(c, word, l, e) && 0 <= DataLen(e.b) <= d.size && d.size > 0
  {
    hide LoadWord, Inv, Actual;
    DataOwned(c, word, l, p, m, e.b, e.inline);
    OwnedFits(c, p, DataBlock(c, l, e.b, e.inline));
  }

  lemma {:induction false} TotalBelow(es: seq<Buffer>, ds: seq<Block>, k: nat)
    requires k <= |ds| && k <= |es| && forall i :: 0 <= i < k ==> 0 <= DataLen(es[i].b) <= ds[i].size
    ensures 0 <= Total(es, k) <= Sum(ds[..k])
  {
    if k > 0 {
      TotalBelow(es, ds, k - 1);
      assert ds[..k] == ds[..k - 1] + [ds[k - 1]];
      SumConcat(ds[..k - 1], [ds[k - 1]]);
      assert Sum([ds[k - 1]]) == ds[k - 1].size;
    }
  }

  // iob_len()
  method DataLength(h: Heap, l: Layout, iobuf: int, ghost e: Buffer) returns (len: int)
    requires Ready(h, l) && Intact(h.c, h.word, l, h.State(), h.mem, e) && iobuf == e.b.addr
    ensures len == DataLen(e.b)
  {
    hide LoadWord, Kept, Encodes, Inv;
    len := LoadWord(h.mem, iobuf + l.fields + 2 * h.word, h.word) - LoadWord(h.mem, iobuf + l.fields + h.word, h.word);
  }

  // The total length, which does not wrap
  method TotalLength(h: Heap, l: Layout, list: BufferList, ghost es: seq<Buffer>) returns (len: int)
    requires Ready(h, l) && AllIntact(h.c, h.word, l, h.State(), h.mem, es) && Addresses(list.entries, es)
    ensures len == Total(es, |es|) && 0 <= len < h.c.space
  {
    hide Intact, Own, Encodes, Inv;
    len := 0;
    for k := 0 to |list.entries|
      invariant len == Total(es, k)
    {
      var n := DataLength(h, l, list.entries[k], es[k]);
      TotalFits(h.c, h.word, l, h.State(), h.mem, es, k + 1);
      NoWrap(len + n, h.c.space);
      len := (len + n) % h.c.space;
    }
    TotalFits(h.c, h.word, l, h.State(), h.mem, es, |es|);
  }

  ghost predicate Addresses(entries: seq<int>, es: seq<Buffer>) {
    |entries| == |es| && forall i :: 0 <= i < |es| ==> entries[i] == es[i].b.addr
  }

  // ---- Concatenation ------------------------------------------------------

  // r has taken the place of the buffers es, with their data, and everything
  // else is as it was.
  ghost predicate Concatenated(c: Config, word: int, l: Layout, p: Pool, m: int -> byte, q: Pool, m': int -> byte,
                               es: seq<Buffer>, r: Buffer)
    requires c.space > 0 && c.min > 0
  {
    var gone := Gone(c, word, l, es, |es|);
    && Intact(c, word, l, q, m', r) && Payload(m', r.b) == Contents(m, es, |es|)
    && (forall x :: Owns(q, x) <==> x in Own(c, word, l, r) || (Owns(p, x) && x !in gone))
    && (forall x, a :: Owns(p, x) && x !in gone && Inside(x, a) ==> m'(a) == m(a))
  }

  // What holds once the new buffer has been allocated
  ghost predicate Started(c: Config, word: int, l: Layout, p: Pool, m: int -> byte, p1: Pool, m1: int -> byte,
                          es: seq<Buffer>, r: Buffer)
    requires c.space > 0 && c.min > 0
  {
    && Preserved(p, m, p1, m1) && OwnsMore(p, p1, Own(c, word, l, r)) && AllIntact(c, word, l, p1, m1, es)
    && (forall i :: 0 <= i < |es| ==> Own(c, word, l, es[i]) !! Own(c, word, l, r))
    && (forall i :: 0 <= i < |es| ==> Payload(m1, es[i].b) == Payload(m, es[i].b) && DataLen(es[i].b) >= 0)
    && r.b.tail + Total(es, |es|) <= r.b.end
  }

  lemma Begun(c: Config, word: int, l: Layout, p: Pool, m: int -> byte, p1: Pool, m1: int -> byte, es: seq<Buffer>,
              r: Buffer, len: int, align: int)
    requires Fitting(c, word, l) && Inv(c, p) && Inv(c, p1) && AllIntact(c, word, l, p, m, es)
    requires Preserved(p, m, p1, m1) && OwnsMore(p, p1, Own(c, word, l, r))
    requires Obtained(c, word, l, p1, m1, r.b, r.inline)
    requires Stored(word, l, m1, r.b) && Shaped(c, l, len, align, 0, r.b, r.inline) && len == Total(es, |es|) >= 0
    ensures Started(c, word, l, p, m, p1, m1, es, r) && Intact(c, word, l, p1, m1, r) && r.b.addr > 0
    ensures Payload(m1, r.b) == [] && Progress(c, word, l, p1, m1, p1, m1, r, {})
  {
    hide Inv, Intact, Own, Owns, Obtained, Stored, Payload, Shaped, Preserved, OwnsMore;
    ShapedEmpty(c, word, l, p1, m1, r, len, align);
    NoProgress(c, word, l, p1, m1, r);
    forall i | 0 <= i < |es|
      ensures Intact(c, word, l, p1, m1, es[i]) && Payload(m1, es[i].b) == Payload(m, es[i].b)
      ensures Own(c, word, l, es[i]) !! Own(c, word, l, r) && DataLen(es[i].b) >= 0
    {
      Survives(c, word, l, p, m, p1, m1, es[i], r);
      IntactObtained(c, word, l, p, m, es[i]);
    }
  }

  lemma NoProgress(c: Config, word: int, l: Layout, p1: Pool, m1: int -> byte, r: Buffer)
    requires c.space > 0 && c.min > 0
    ensures Progress(c, word, l, p1, m1, p1, m1, r, {})
  {
    hide Own, Owns;
  }

  // The new buffer is empty.
  lemma ShapedEmpty(c: Config, word: int, l: Layout, p: Pool, m: int -> byte, r: Buffer, len: int, align: int)
    requires Fitting(c, word, l) && Inv(c, p) && Obtained(c, word, l, p, m, r.b, r.inline) && Stored(word, l, m, r.b)
    requires Shaped(c, l, len, align, 0, r.b, r.inline) && len >= 0
    ensures Intact(c, word, l, p, m, r) && Payload(m, r.b) == [] && r.b.addr > 0 && r.b.tail + len <= r.b.end
  {
    hide LoadWord, Inv, Kept, Aligned, RoundedAlign, Phys, Modulus;
    FieldsInBlock(c, word, l, p, m, r.b, r.inline);
  }

  // An allocation leaves the other buffers as they are.
  lemma Survives(c: Config, word: int, l: Layout, p: Pool, m: int -> byte, p1: Pool, m1: int -> byte,
                 e: Buffer, r: Buffer)
    requires Fitting(c, word, l) && Inv(c, p) && Intact(c, word, l, p, m, e)
    requires Preserved(p, m, p1, m1) && OwnsMore(p, p1, Own(c, word, l, r))
    ensures Intact(c, word, l, p1, m1, e) && Payload(m1, e.b) == Payload(m, e.b)
    ensures Own(c, word, l, e) !! Own(c, word, l, r)
  {
    hide Inv, Intact, Own, Owns, Payload, Held;
    IntactOwns(c, word, l, p, m, e);
    forall a | InBlocks(Own(c, word, l, e), a)
      ensures m1(a) == m(a)
    {
      var x :| x in Own(c, word, l, e) && Inside(x, a);
      OwnsHolds(p, x, a);
    }
    IntactStays(c, word, l, p, m, p1, m1, e);
  }

  lemma {:induction false} TotalGrows(es: seq<Buffer>, k: nat, n: nat)
    requires k <= n <= |es| && forall i :: 0 <= i < |es| ==> DataLen(es[i].b) >= 0
    ensures Total(es, k) <= Total(es, n)
    decreases n
  {
    if k < n {
      TotalGrows(es, k, n - 1);
    }
  }

  // The next buffer fits, and shares nothing with what has been done.
  lemma TakeNext(c: Config, word: int, l: Layout, p: Pool, m: int -> byte, p1: Pool, m1: int -> byte, es: seq<Buffer>,
                 first: Buffer, k: nat)
    requires c.space > 0 && c.min > 0 && Started(c, word, l, p, m, p1, m1, es, first) && k < |es|
    ensures var r := Longer(first, Total(es, k));
            && Intact(c, word, l, p1, m1, es[k]) && Own(c, word, l, es[k]) !! Gone(c, word, l, es, k)
            && Own(c, word, l, es[k]) !! Own(c, word, l, r) && r.b.tail + DataLen(es[k].b) <= r.b.end
  {
    hide Intact, Own, Owns, Payload, Preserved, OwnsMore;
    NotGoneYet(c, word, l, es, k, k);
    SameOwn(c, word, l, first, Total(es, k));
    TotalGrows(es, k + 1, |es|);
  }

  lemma {:induction false} SameContents(m: int -> byte, m1: int -> byte, es: seq<Buffer>, k: nat)
    requires k <= |es| && forall i :: 0 <= i < |es| ==> Payload(m1, es[i].b) == Payload(m, es[i].b)
    ensures Contents(m1, es, k) == Contents(m, es, k)
  {
    hide Payload;
    if k > 0 {
      SameContents(m, m1, es, k - 1);
    }
  }

  lemma {:induction false} GoneApart(c: Config, word: int, l: Layout, es: seq<Buffer>, s: set<Block>, k: nat)
    requires c.space > 0 && c.min > 0 && k <= |es| && forall i :: 0 <= i < |es| ==> Own(c, word, l, es[i]) !! s
    ensures Gone(c, word, l, es, k) !! s
  {
    hide Own;
    if k > 0 {
      GoneApart(c, word, l, es, s, k - 1);
    }
  }

  lemma Finished(c: Config, word: int, l: Layout, p: Pool, m: int -> byte, p1: Pool, m1: int -> byte,
                 q: Pool, m': int -> byte, es: seq<Buffer>, first: Buffer, r: Buffer)
    requires c.space > 0 && c.min > 0 && Started(c, word, l, p, m, p1, m1, es, first)
    requires r == Longer(first, Total(es, |es|)) && Intact(c, word, l, q, m', r)
    requires Progress(c, word, l, p1, m1, q, m', r, Gone(c, word, l, es, |es|))
    requires Payload(m', r.b) == Contents(m1, es, |es|)
    ensures Concatenated(c, word, l, p, m, q, m', es, r)
    ensures forall x :: x in Own(c, word, l, r) ==> !Owns(p, x)
  {
    hide Intact, Own, Owns, Payload, Contents, Held, Gone, AllIntact;
    var gone := Gone(c, word, l, es, |es|);
    SameOwn(c, word, l, first, Total(es, |es|));
    SameContents(m, m1, es, |es|);
    GoneApart(c, word, l, es, Own(c, word, l, first), |es|);
    forall x, a | Owns(p, x) && x !in gone && Inside(x, a)
      ensures m'(a) == m(a)
    {
      OwnsHolds(p, x, a);
      assert Owns(p1, x);
    }
  }

  // The only buffer of a list takes its own place.
  lemma Single(c: Config, word: int, l: Layout, p: Pool, m: int -> byte, es: seq<Buffer>)
    requires Fitting(c, word, l) && Inv(c, p) && AllIntact(c, word, l, p, m, es) && |es| == 1
    ensures es[0].b.addr > 0 && Concatenated(c, word, l, p, m, p, m, es, es[0])
  {
    hide Intact, Own, Owns, Payload, Inv;
    IntactObtained(c, word, l, p, m, es[0]);
    IntactOwns(c, word, l, p, m, es[0]);
    assert Contents(m, es, 1) == Contents(m, es, 0) + Payload(m, es[0].b);
    assert Gone(c, word, l, es, 1) == Gone(c, word, l, es, 0) + Own(c, word, l, es[0]);
  }

  // iob_concatenate(), with zero for NULL
  method Concatenate(h: Heap, l: Layout, list: BufferList, ghost es: seq<Buffer>) returns (iobuf: int, ghost r: Buffer)
    requires Ready(h, l) && AllIntact(h.c, h.word, l, h.State(), h.mem, es) && Addresses(list.entries, es)
    modifies h, list
    ensures Ready(h, l)
    ensures |es| == 1 ==> iobuf == old(list.entries)[0] && h.State() == old(h.State()) && h.mem == old(h.mem)
    ensures iobuf == 0 <==>
            |es| != 1 && !CanAllocate(h.c, h.word, l, old(h.State()), Total(es, |es|), l.align, 0)
    ensures iobuf == 0 ==>
              && list.entries == old(list.entries) && SameOwned(old(h.State()), h.State())
              && Preserved(old(h.State()), old(h.mem), h.State(), h.mem)
    ensures iobuf != 0 ==>
              && list.entries == [] && iobuf == r.b.addr
              && Concatenated(h.c, h.word, l, old(h.State()), old(h.mem), h.State(), h.mem, es, r)
    ensures iobuf != 0 && |es| != 1 ==> forall x :: x in Own(h.c, h.word, l, r) ==> !Owns(old(h.State()), x)
  {
    hide Inv, Intact, Encodes, Obtained, Stored, Shaped, Owns, OwnsMore, Blocks, CanAllocate;
    hide Started, Progress, Payload, Concatenated, AllIntact;
    ghost var c, word, p, m := h.c, h.word, h.State(), h.mem;
    if |list.entries| == 1 {
      iobuf, r := list.entries[0], es[0];
      list.entries := [];
      Single(c, word, l, p, m, es);
      return;
    }
    var len := TotalLength(h, l, list, es);
    var made, inline := AllocIobRaw(h, l, len, l.align, 0);
    r := if made.Some? then Buffer(made.value, inline) else Buffer(IoBuffer(0, 0, 0, 0, 0), false);
    if made.None? {
      return 0, r;
    }
    iobuf := made.value.addr;
    ghost var p1, m1, first := h.State(), h.mem, r;
    Begun(c, word, l, p, m, p1, m1, es, r, len, l.align);
    var k := 0;
    while list.entries != []
      invariant 0 <= k <= |es| && list.entries == old(list.entries)[k..] && Ready(h, l) && h.c == c && h.word == word
      invariant r == Longer(first, Total(es, k)) && Intact(c, word, l, h.State(), h.mem, r)
      invariant Progress(c, word, l, p1, m1, h.State(), h.mem, r, Gone(c, word, l, es, k))
      invariant Payload(h.mem, r.b) == Contents(m1, es, k)
      decreases |es| - k
    {
      var next := list.entries[0];
      list.entries := list.entries[1..];
      TakeNext(c, word, l, p, m, p1, m1, es, first, k);
      MoveOne(h, l, iobuf, next, r, es[k], p1, m1, Gone(c, word, l, es, k));
      r := Longer(r, DataLen(es[k].b));
      k := k + 1;
    }
    assert list.entries == [] && k == |es|;
    Finished(c, word, l, p, m, p1, m1, h.State(), h.mem, es, first, r);
  }
}
