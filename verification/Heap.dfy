/**
 The heap of malloc.c: the free list and the usage counters are updated in
 place, and the free-list headers live inside the managed memory itself.
 */
module Heap {
  import opened Words
  import opened Memory
  import opened FreeLinks
  import opened FreeList
  import opened Pool

  // A byte that belongs to a live block which no cache discarder may free.
  ghost predicate Held(p: Pool, a: int) {
    exists i :: 0 <= i < |p.live| && p.live[i] !in p.cached && Inside(p.live[i], a)
  }

  // What is held stays held, with the same contents.
  ghost predicate Preserved(p: Pool, m: int -> byte, q: Pool, m': int -> byte) {
    forall a :: Held(p, a) ==> Held(q, a) && m'(a) == m(a)
  }

  // No byte of b is held.
  ghost predicate Fresh(p: Pool, b: Block) {
    forall a :: Held(p, a) ==> !Inside(b, a)
  }

  ghost predicate Owns(p: Pool, b: Block) {
    b in p.live && b !in p.cached
  }

  // A machine word read back as a signed integer.
  function Signed(c: Config, x: int): int
    requires c.space > 0
  {
    var y := x % c.space;
    if y >= c.space / 2 then y - c.space else y
  }

  lemma SignedExact(c: Config, x: int)
    requires ValidConfig(c) && -(c.space / 2) <= x < c.space / 2
    ensures Signed(c, x) == x
  {
    Pow2Even(c.space);
    if x < 0 { DivModUnique(x, c.space, -1, x + c.space); } else { DivModUnique(x, c.space, 0, x); }
  }

  lemma Pow2Even(n: int)
    requires IsPow2(n) && n >= 2
    ensures n / 2 * 2 == n
  {
    var k: nat :| n == Pow2(k);
    assert n == 2 * Pow2(k - 1);
  }

  class Heap {
    const c: Config
    const links: Links
    // sizeof ( size_t )
    const word: int

    var freemem: int
    var usedmem: int
    var maxusedmem: int
    var cached: seq<Block>
    var mem: int -> byte

    ghost var free: seq<Block>
    ghost var live: seq<Block>
    ghost var leaked: seq<Block>
    ghost var regions: seq<Block>

    ghost function State(): Pool
      reads this
    {
      Pool(free, live, leaked, regions, cached, freemem, usedmem)
    }

    ghost predicate Machine() {
      && ValidConfig(c) && ValidLinks(links) && links.word == word && HeaderSize(links) <= c.min
      && c.space == Pow256(word) && HeadOutside(c, links)
    }

    // The free list is what its links and sizes in memory say.
    ghost predicate Encoded()
      reads this
    {
      Encodes(links, mem, free)
    }

    ghost predicate Valid()
      reads this
    {
      Machine() && Inv(c, State()) && maxusedmem >= usedmem && Encoded()
    }

    constructor (c: Config, links: Links, mem: int -> byte)
      requires ValidConfig(c) && ValidLinks(links) && HeaderSize(links) <= c.min
      requires c.space == Pow256(links.word) && HeadOutside(c, links)
      ensures Valid() && State() == EMPTY
      ensures this.c == c && this.links == links && word == links.word
      ensures forall a :: !InHead(links, a) ==> this.mem(a) == mem(a)
    {
      this.c, this.links, word := c, links, links.word;
      freemem, usedmem, maxusedmem, cached := 0, 0, 0, [];
      free, live, leaked, regions := [], [], [], [];
      var next := Store(mem, links.head, links.head, links.word);
      this.mem := Store(next, links.head + links.word, links.head, links.word);
      new;
      assert forall a :: OneOwner(State(), a);
      EncodesNone(links, mem);
    }

    // ---- The list in memory -----------------------------------------------

    method SetWord(x: int, v: int)
      requires word >= 0
      modifies `mem
      ensures mem == Store(old(mem), x, v, word)
    {
      mem := Store(mem, x, v, word);
    }

    // list_add_tail()
    method AddBefore(x: int, next: int)
      requires links.word == word >= 0
      modifies `mem
      ensures mem == Added(links, old(mem), x, PrevOf(links, old(mem), next), next)
    {
      hide LoadWord, Store;
      var prev := LoadWord(mem, next + word, word);
      SetWord(next + word, x);
      SetWord(x, next);
      SetWord(x + word, prev);
      SetWord(prev, x);
    }

    // list_add()
    method AddAfter(x: int, prev: int)
      requires links.word == word >= 0
      modifies `mem
      ensures mem == Added(links, old(mem), x, prev, NextOf(links, old(mem), prev))
    {
      hide LoadWord, Store;
      var next := LoadWord(mem, prev, word);
      SetWord(next + word, x);
      SetWord(x, next);
      SetWord(x + word, prev);
      SetWord(prev, x);
    }

    // list_del()
    method Unlink(x: int)
      requires links.word == word >= 0
      modifies `mem
      ensures mem == Deleted(links, old(mem), PrevOf(links, old(mem), x), NextOf(links, old(mem), x))
    {
      hide LoadWord, Store;
      var next := LoadWord(mem, x, word);
      var prev := LoadWord(mem, x + word, word);
      SetWord(next + word, prev);
      SetWord(prev, next);
    }

    // Set the size of a block that is not on the list.
    method SetSize(block: int, size: int)
      requires Machine() && Encoded() && Spare(links, free, Block(block, size)) && 0 <= size < c.space
      modifies `mem
      ensures Encoded() && SizeAt(links, mem, Block(block, size))
      ensures forall a :: !(block <= a < block + word) ==> mem(a) == old(mem)(a)
    {
      hide Encodes, LoadWord;
      ghost var m := mem;
      SetWord(block, size);
      LoadStore(m, block, size, word);
      SpareUnlisted(links, free, Block(block, size));
      EncodesFrame(links, m, mem, free);
    }

    // Link a block in as number k.
    method LinkBlock(block: int, node: int, before: bool, ghost k: int, ghost size: int)
      requires Machine() && Encoded() && 0 <= k <= |free| && node == Node(links, free, if before then k else k - 1)
      requires Spare(links, free, Block(block, size)) && SizeAt(links, mem, Block(block, size))
      modifies `free, `mem
      ensures Encoded() && free == With(old(free), k, Block(block, size))
      ensures forall a :: !InList(links, free, a) ==> mem(a) == old(mem)(a)
    {
      hide Encodes, Spare, SizeAt, Added, NextOf, PrevOf, Node;
      ghost var b := Block(block, size);
      EncodesAdd(links, mem, free, k, b);
      Neighbours(links, mem, free, k);
      AddedInList(links, mem, free, k, b);
      if before {
        AddBefore(block + links.at, node);
      } else {
        AddAfter(block + links.at, node);
      }
      free := With(free, k, b);
    }

    // Take block k off the list; its size stays in its header.
    method UnlinkBlock(node: int, ghost k: int)
      requires Machine() && Encoded() && 0 <= k < |free| && node == Node(links, free, k)
      modifies `free, `mem
      ensures Encoded() && free == Without(old(free), k) && SizeAt(links, mem, old(free)[k])
      ensures forall a :: !InList(links, old(free), a) ==> mem(a) == old(mem)(a)
    {
      hide Encodes, SizeAt, Deleted, NextOf, PrevOf, Node;
      EncodesDel(links, mem, free, k);
      Neighbours(links, mem, free, k);
      Neighbours(links, mem, free, k + 1);
      DeletedInList(links, mem, free, k);
      Unlink(node);
      free := Without(free, k);
    }

    // Change the size of block k.
    method ResizeBlock(block: int, size: int, ghost k: int)
      requires Machine() && Encoded() && 0 <= k < |free| && block == free[k].addr && 0 <= size < c.space
      modifies `free, `mem
      ensures Encoded() && free == old(free)[k := Block(block, size)]
      ensures forall a :: !InList(links, old(free), a) ==> mem(a) == old(mem)(a)
    {
      hide Encodes, LoadWord;
      EncodesSize(links, mem, free, k, size);
      SizeInList(links, free, k);
      SetWord(block, size);
      free := free[k := Block(block, size)];
    }

    // The first block of the list, and the end of the list
    method First() returns (node: int)
      requires Machine() && Encoded()
      ensures node == Node(links, free, 0)
    {
      hide LoadWord;
      assert LinkAt(links, mem, free, 0);
      node := LoadWord(mem, links.head, word);
    }

    // Block i, and the next one
    method Read(node: int, ghost i: int) returns (block: Block, next: int)
      requires Machine() && Encoded() && 0 <= i < |free| && node == Node(links, free, i)
      ensures block == free[i] && next == Node(links, free, i + 1)
    {
      hide LoadWord;
      assert LinkAt(links, mem, free, i + 1) && SizeAt(links, mem, free[i]);
      block := Block(node - links.at, LoadWord(mem, node - links.at, word));
      next := LoadWord(mem, node, word);
    }

    // ---- Freeing ----------------------------------------------------------

    // Signed differences of two pointers into the pool.
    method Gaps(block: Block, freeing: Block) returns (gapBefore: int, gapAfter: int)
      requires Machine() && block.size > 0 && freeing.size > 0
      requires InWindow(c, block) && InWindow(c, freeing)
      ensures gapBefore == freeing.addr - End(block)
      ensures gapAfter == block.addr - End(freeing)
    {
      gapBefore := Signed(c, freeing.addr - End(block));
      gapAfter := Signed(c, block.addr - End(freeing));
      SignedExact(c, freeing.addr - End(block));
      SignedExact(c, block.addr - End(freeing));
    }

    // Merge block i with the block that follows it in memory, and take it off
    // the list.
    method Absorb(node: int, actual: int, ghost i: int)
      requires Machine() && Encoded() && 0 <= i < |free| && node == Node(links, free, i)
      requires 0 <= actual && free[i].size + actual < c.space
      modifies `free, `mem
      ensures Encoded() && free == Without(old(free), i)
      ensures SizeAt(links, mem, Block(old(free)[i].addr, old(free)[i].size + actual))
      ensures forall a :: !InList(links, old(free), a) ==> mem(a) == old(mem)(a)
    {
      hide Encodes, SizeAt, InList;
      var block, next := Read(node, i);
      ghost var s := free;
      ListedSize(links, mem, s, i);
      ResizeBlock(block.addr, block.size + actual, i);
      ghost var t := free;
      ResizedNodes(links, s, i, block.size + actual);
      UnlinkBlock(node, i);
      assert Without(t, i) == Without(s, i);
    }

    // The loop of free_memblock(): walk to the place of the block, merging it
    // with the block that immediately precedes it.
    method Walk(ptr: int, actual: int) returns (freeing: int, node: int, gapAfter: int, ghost i: int, ghost f: Block)
      requires Machine() && Encoded() && Canonical(free) && AllInWindow(c, free)
      requires actual >= c.min && InWindow(c, Block(ptr, actual)) && Clear(free, Block(ptr, actual))
      modifies `free, `mem
      ensures Encoded() && Canonical(free) && AllInWindow(c, free)
      ensures f.size >= c.min && InWindow(c, f) && f.addr == freeing && SizeAt(links, mem, f)
      ensures Placing(free, i, f) && SameBytes(free, f, old(free), Block(ptr, actual))
      ensures node == Node(links, free, i)
      ensures if i < |free| then gapAfter == free[i].addr - End(f) >= 0 else gapAfter < 0
      ensures OnlyFreed(links, old(free), Block(ptr, actual), old(mem), mem) && Grown(c, Block(ptr, actual), f)
    {
      hide Covers, Canonical, Encodes, SizeAt, Node, InList, Spare, LoadWord, HeadOutside, OnlyFreed, SameBytes;
      ghost var b := Block(ptr, actual);
      ghost var merged := false;
      freeing, i, gapAfter, f := ptr, 0, -1, b;
      SpareFor(c, links, free, b);
      SetSize(freeing, actual);
      FreedSize(c, links, free, b, old(mem), mem);
      SameItself(free, b);
      node := First();
      NotHead(links, mem, free, i);
      while node != links.head
        invariant 0 <= i <= |free| && Encoded() && Canonical(free) && AllInWindow(c, free)
        invariant f.size >= c.min && InWindow(c, f) && f.addr == freeing && SizeAt(links, mem, f)
        invariant Placing(free, i, f) && SameBytes(free, f, old(free), b)
        invariant if merged then StartsBefore(f, free, i) else f == b && free == old(free)
        invariant node == Node(links, free, i) && (node == links.head <==> i == |free|)
        invariant gapAfter < 0
        invariant OnlyFreed(links, old(free), b, old(mem), mem) && Grown(c, b, f)
        decreases |free| - i
      {
        var block, next := Read(node, i);
        var size := SizeOf(freeing, f);
        var gapBefore;
        gapBefore, gapAfter := Gaps(block, Block(freeing, size));
        assert Apart(block, f);
        if gapBefore == 0 {
          assert !merged;
          MergeStep(free, i, f);
          ghost var s, m := free, mem;
          Absorb(node, actual, i);
          FreedMerged(c, links, s, b, old(mem), m, mem);
          freeing, f := block.addr, Block(block.addr, block.size + actual);
          merged := true;
          NextWithout(links, s, i);
        } else {
          if gapAfter >= 0 {
            break;
          }
          i := i + 1;
        }
        node := next;
        NotHead(links, mem, free, i);
      }
    }

    method SizeOf(block: int, ghost f: Block) returns (size: int)
      requires links.word == word && SizeAt(links, mem, f) && f.addr == block
      ensures size == f.size
    {
      size := LoadWord(mem, block, word);
    }

    // Insert a block at its place, and merge it with the one that follows.
    method Link(freeing: int, node: int, gapAfter: int, ghost i: int, ghost f: Block)
      requires Machine() && Encoded() && Canonical(free) && AllInWindow(c, free)
      requires f.size >= c.min && InWindow(c, f) && f.addr == freeing && SizeAt(links, mem, f) && Placing(free, i, f)
      requires node == Node(links, free, i)
      requires if i < |free| then gapAfter == free[i].addr - End(f) >= 0 else gapAfter < 0
      modifies `free, `mem
      ensures Encoded() && Canonical(free)
      ensures forall a :: Covers(free, a) <==> Covers(old(free), a) || Inside(f, a)
      ensures forall a :: !InList(links, With(old(free), i, f), a) ==> mem(a) == old(mem)(a)
    {
      hide Covers, InWindow, Canonical, Encodes, SizeAt, Node, InList, Spare, LoadWord;
      ghost var s := free;
      Land(s, i, f);
      if gapAfter == 0 { LandMerging(s, i, f); }
      SpareFor(c, links, s, f);
      LinkBlock(freeing, node, true, i, f.size);
      assert free == Splice(s, i, i, f);
      if gapAfter == 0 {
        NextWith(links, s, i, f);
        MergedFits(c, f, s[i]);
        MergeNext(freeing, node, i);
        assert free == Splice(s, i, i + 1, Block(f.addr, f.size + s[i].size));
      }
    }

    // Merge block i with the next one.
    method MergeNext(freeing: int, node: int, ghost i: int)
      requires Machine() && Encoded() && 0 <= i < |free| - 1 && freeing == free[i].addr
      requires node == Node(links, free, i + 1) && free[i].size + free[i + 1].size < c.space
      modifies `free, `mem
      ensures Encoded()
      ensures free == old(free[..i] + [Block(free[i].addr, free[i].size + free[i + 1].size)] + free[i + 2..])
      ensures forall a :: !InList(links, old(free), a) ==> mem(a) == old(mem)(a)
    {
      hide Encodes, InList, LoadWord;
      ghost var s := free;
      ListedSize(links, mem, s, i);
      ListedSize(links, mem, s, i + 1);
      var size := SizeOf(freeing, s[i]);
      var block, next := Read(node, i + 1);
      ResizedNodes(links, s, i, size + block.size);
      ResizeBlock(freeing, size + block.size, i);
      UnlinkBlock(node, i + 1);
    }

    // free_memblock(), for a block that is not NULL.
    method FreeMemblock(ptr: int, size: int)
      requires Machine() && Encoded() && Canonical(free) && AllInWindow(c, free)
      requires Actual(c, size) >= c.min
      requires InWindow(c, Block(ptr, Actual(c, size))) && Clear(free, Block(ptr, Actual(c, size)))
      modifies `free, `freemem, `usedmem, `mem
      ensures Encoded() && free == Insert(old(free), Block(ptr, Actual(c, size)))
      ensures freemem == (old(freemem) + Actual(c, size)) % c.space
      ensures usedmem == (old(usedmem) - Actual(c, size)) % c.space
      ensures forall a :: !Covers(free, a) && !InHead(links, a) ==> mem(a) == old(mem)(a)
      ensures forall a :: InPadding(links, Block(ptr, Actual(c, size)), a) ==> mem(a) == old(mem)(a)
    {
      hide Encodes, SizeAt, Node, LoadWord, Canonical, Covers, InList, InWindow, Actual, HeadOutside, Insert;
      var actual := Actual(c, size);
      var freeing, node, gapAfter, i, f := Walk(ptr, actual);
      WithCovered(c, links, free, i, f);
      PaddingKept(c, links, free, i, f, Block(ptr, actual));
      Link(freeing, node, gapAfter, i, f);
      IsInsert(old(free), Block(ptr, actual), free);
      freemem := (freemem + actual) % c.space;
      usedmem := (usedmem - actual) % c.space;
    }

    // free_memblock() as a client sees it.
    method Release(ptr: int, size: int)
      requires Valid() && 0 <= size < c.space
      requires ptr != 0 ==> Block(ptr, Actual(c, size)) in live && Block(ptr, Actual(c, size)) !in cached
      modifies this
      ensures Valid()
      ensures ptr == 0 ==> State() == old(State()) && mem == old(mem)
      ensures ptr != 0 ==> State() == Give(old(State()), IndexIn(old(live), Block(ptr, Actual(c, size))))
      ensures forall a :: Held(State(), a) ==> mem(a) == old(mem)(a)
      ensures ptr != 0 ==> forall a :: InPadding(links, Block(ptr, Actual(c, size)), a) ==> mem(a) == old(mem)(a)
      ensures maxusedmem == old(maxusedmem)
    {
      hide Inv, Insert, Actual, Held, Covers, Clear, AllInWindow, InWindow, Canonical, Encodes;
      if ptr == 0 {
        return;
      }
      ghost var p := State();
      ghost var k := IndexIn(live, Block(ptr, Actual(c, size)));
      CanGive(c, p, k);
      FreeMemblock(ptr, size);
      live := Remove(live, k);
      HeldNotFree(c, Give(p, k));
      HeldNotHead(c, links, Give(p, k));
    }

    method Mpopulate(start: int, len: int)
      requires Valid() && CanPopulate(c, State(), start, len)
      modifies this
      ensures Valid() && State() == Populate(c, old(State()), start, len)
      ensures forall a :: Held(State(), a) ==> mem(a) == old(mem)(a)
      ensures maxusedmem == old(maxusedmem)
    {
      hide Inv, Insert, Actual, Held, Covers, Clear, AllInWindow, InWindow, Canonical, CanPopulate, Encodes;
      ghost var p := State();
      ghost var b := Region(c, start, len);
      var rounded := len / c.min * c.min;
      PopulateSafe(c, p, start, len);
      FreeMemblock(start, rounded);
      regions := regions + [b];
      usedmem := (usedmem + rounded) % c.space;
      HeldNotFree(c, Populate(c, p, start, len));
      HeldNotHead(c, links, Populate(c, p, start, len));
    }

    // discard_cache(), for discarders that free one block at a time.
    method DiscardCache() returns (discarded: int)
      requires Valid()
      modifies this
      ensures Valid()
      ensures discarded == 0 <==> old(cached) == []
      ensures discarded == 0 ==> State() == old(State()) && mem == old(mem)
      ensures discarded != 0 ==> State() == Discard(old(State()))
      ensures Preserved(old(State()), old(mem), State(), mem)
      ensures maxusedmem == old(maxusedmem)
    {
      if cached == [] {
        return 0;
      }
      ghost var p := State();
      var item := cached[0];
      cached := cached[1..];
      discarded := 1;
      ghost var q := State();
      ghost var k := IndexIn(live, item);
      Uncache(c, p);
      LiveInWindow(c, q, k);
      SizeIsActual(c, item.size);
      Release(item.addr, item.size);
      HeldSurvives(p, k);
    }

    // ---- Allocating -------------------------------------------------------

    // Search through blocks for the first one with enough space.
    method FindFit(actual: int, m: int, offset: int) returns (node: int, pre: int)
      requires Machine() && Encoded() && m > 0
      ensures var i := FirstFit(c, free, 0, actual, m, offset);
              && node == Node(links, free, i) && (node == links.head <==> i == |free|)
              && (i < |free| ==> pre == PreSize(c, free[i].addr, m, offset))
    {
      hide Encodes, Node, PreSize;
      ghost var i := 0;
      pre := 0;
      node := First();
      NotHead(links, mem, free, i);
      while node != links.head
        invariant 0 <= i <= |free| && node == Node(links, free, i) && (node == links.head <==> i == |free|)
        invariant FirstFit(c, free, 0, actual, m, offset) == FirstFit(c, free, i, actual, m, offset)
        decreases |free| - i
      {
        var block, next := Read(node, i);
        pre := PreSize(c, block.addr, m, offset);
        if block.size < pre || block.size - pre < actual {
          i := i + 1;
          node := next;
          NotHead(links, mem, free, i);
        } else {
          return;
        }
      }
    }

    // Split block i into pre-block, block and post-block, and unlink the block.
    method Split(node: int, pre: int, actual: int, ghost i: int)
      requires Machine() && Encoded() && Canonical(free) && AllInWindow(c, free)
      requires 0 <= i < |free| && node == Node(links, free, i)
      requires 0 <= pre && actual >= c.min && pre + actual <= free[i].size
      modifies `free, `mem
      ensures Encoded() && free == Carve(old(free), i, pre, actual, c.min)
      ensures forall a :: !Covers(old(free), a) && !InHead(links, a) ==> mem(a) == old(mem)(a)
    {
      hide Encodes, Node, Spare, InList, Covers, Canonical, AllInWindow, InWindow, HeadOutside, InHead, Carve, Keep;
      ghost var s := free;
      var block, next := Read(node, i);
      var post := Block(block.addr + pre + actual, block.size - pre - actual);
      SplitFits(c, links, s, i, pre, actual);
      SplitList(c, links, s, i, post);
      if post.size >= c.min {
        AddPost(node, post, i);
      }
      Shrink(node, block.addr, pre, i);
      CarvedAs(s, i, pre, actual, c.min);
    }

    // Put what is left behind an allocation on the list.
    method AddPost(node: int, post: Block, ghost i: int)
      requires Machine() && Encoded() && 0 <= i < |free| && node == Node(links, free, i)
      requires Spare(links, free, post) && 0 <= post.size < c.space
      requires free[i].addr <= post.addr && post.addr + word <= End(free[i])
      modifies `free, `mem
      ensures Encoded() && free == With(old(free), i + 1, post) && node == Node(links, free, i)
      ensures forall a :: !InList(links, free, a) && !Inside(old(free)[i], a) ==> mem(a) == old(mem)(a)
    {
      hide Encodes, SizeAt, Node, Spare, InList, LoadWord;
      NodeStays(links, free, i, post);
      SetSize(post.addr, post.size);
      LinkBlock(post.addr, node, false, i + 1, post.size);
    }

    // Shrink block i, and take it off the list if it is then too small.
    method Shrink(node: int, block: int, pre: int, ghost i: int)
      requires Machine() && Encoded() && 0 <= i < |free| && node == Node(links, free, i) && block == free[i].addr
      requires 0 <= pre < c.space
      modifies `free, `mem
      ensures Encoded() && free == old(free)[..i] + Keep(Block(block, pre), c.min) + old(free)[i + 1..]
      ensures forall a :: !InList(links, old(free), a) ==> mem(a) == old(mem)(a)
    {
      hide Encodes, Node, InList, SizeAt;
      ghost var s := free;
      ResizedNodes(links, s, i, pre);
      ResizeBlock(block, pre, i);
      if pre < c.min {
        UnlinkBlock(node, i);
        assert free == s[..i] + s[i + 1..];
      }
    }

    // Take [free[i].addr + pre, + actual) out of the free list.
    method TakeBlock(node: int, pre: int, actual: int, ghost i: int, ghost m: int, ghost offset: int)
      requires Valid() && m > 0 && c.space % m == 0
      requires 0 <= i < |free| && node == Node(links, free, i) && actual >= c.min && Whole(c, actual)
      requires Fits(c, free[i], actual, m, offset) && pre == PreSize(c, free[i].addr, m, offset)
      modifies this
      ensures Valid() && State() == Take(c, old(State()), i, actual, m, offset)
      ensures Preserved(old(State()), old(mem), State(), mem)
      ensures maxusedmem == Larger(old(maxusedmem), usedmem)
    {
      hide Encodes, Node, Inv, Canonical, AllInWindow, Covers, PreSize, Carve, Leaks;
      ghost var p := State();
      InvFree(c, p);
      FreeInWindow(c, p);
      CanTake(c, p, i, actual, m, offset);
      HeldNotHead(c, links, p);
      live := live + [Block(free[i].addr + pre, actual)];
      leaked := leaked + Leaks(free[i], pre, actual, c.min);
      Split(node, pre, actual, i);
      freemem := (freemem - actual) % c.space;
      usedmem := (usedmem + actual) % c.space;
      if usedmem > maxusedmem {
        maxusedmem := usedmem;
      }
    }

    // One pass over the free list, with zero for failure.
    method Pass(actual: int, m: int, offset: int) returns (ptr: int)
      requires Valid() && m > 0 && c.space % m == 0 && actual >= c.min && Whole(c, actual)
      modifies this
      ensures Valid()
      ensures ptr == 0 ==> State() == old(State()) && mem == old(mem) &&
                           AllocateNow(c, old(State()), actual, m, offset).1.None?
      ensures ptr != 0 ==> AllocateNow(c, old(State()), actual, m, offset) == (State(), Some(ptr))
      ensures Preserved(old(State()), old(mem), State(), mem)
      ensures maxusedmem == if ptr == 0 then old(maxusedmem) else Larger(old(maxusedmem), usedmem)
    {
      hide Encodes, Inv, Take;
      var node, pre := FindFit(actual, m, offset);
      ghost var i := FirstFit(c, free, 0, actual, m, offset);
      if node == links.head {
        return 0;
      }
      ptr := node - links.at + pre;
      AddressNotNull(c, State(), i, m, offset);
      TakeBlock(node, pre, actual, i, m, offset);
    }

    // alloc_memblock(), with zero for NULL.
    method AllocMemblock(size: int, align: int, offset: int) returns (ptr: int)
      requires Valid() && Request(c, size, align, offset)
      modifies this
      ensures Valid()
      ensures Allocate(c, old(State()), size, align, offset) ==
              (State(), if ptr == 0 then None else Some(ptr))
      ensures Preserved(old(State()), old(mem), State(), mem)
      ensures maxusedmem == if ptr == 0 then old(maxusedmem) else Larger(old(maxusedmem), usedmem)
    {
      hide Encodes, Inv, Take, PreSize, Covers;
      var actual := Actual(c, size);
      if actual == 0 {
        return 0;
      }
      var m := Modulus(c, align);
      RequestFacts(c, size, align);
      while true
        invariant Valid()
        invariant Allocate(c, old(State()), size, align, offset) == Allocate(c, State(), size, align, offset)
        invariant Preserved(old(State()), old(mem), State(), mem) && maxusedmem == old(maxusedmem)
        decreases |cached|
      {
        ptr := Pass(actual, m, offset);
        if ptr != 0 {
          return;
        }
        var discarded := DiscardCache();
        if discarded == 0 {
          return 0;
        }
      }
    }

    // The owner of b stores into it: the free list is not affected.
    method Write(at: int, bytes: seq<byte>, ghost b: Block)
      requires Valid() && (bytes == [] || (Owns(State(), b) && b.addr <= at && at + |bytes| <= End(b)))
      modifies `mem
      ensures Valid()
      ensures forall a :: !(at <= a < at + |bytes|) ==> mem(a) == old(mem)(a)
      ensures forall a :: at <= a < at + |bytes| ==> mem(a) == bytes[a - at]
    {
      hide Encodes, Inv;
      var m := mem;
      mem := (a: int) => if at <= a < at + |bytes| then bytes[a - at] else m(a);
      OwnerStores(c, links, State(), m, mem, b, at, |bytes|);
    }

    // The first half of realloc(): allocate memory with a size field in front.
    method AllocSized(total: int) returns (ptr: int)
      requires Valid() && word < total < c.space
      modifies this
      ensures Valid()
      ensures Allocate(c, old(State()), total, 1, 0) == (State(), if ptr == 0 then None else Some(ptr - word))
      ensures Preserved(old(State()), old(mem), State(), mem)
      ensures ptr != 0 ==> Sized(c, word, old(State()), State(), mem, ptr, total)
      ensures maxusedmem == if ptr == 0 then old(maxusedmem) else Larger(old(maxusedmem), usedmem)
    {
      hide Actual, Allocate, LoadWord, Inv;
      OneIsPow2();
      AllocateFresh(c, State(), total, 1, 0);
      var block := AllocMemblock(total, 1, 0);
      if block == 0 {
        return 0;
      }
      ghost var m := mem;
      OwnedBlock(c, State(), Block(block, Actual(c, total)));
      ActualMeaning(c, total);
      Write(block, WordBytes(total, word), Block(block, Actual(c, total)));
      ptr := block + word;
      SizeStored(c, word, old(State()), old(mem), State(), m, mem, ptr, total);
    }

    // The second half of realloc(): copy the data across and free the old block.
    method MoveOld(newPtr: int, oldPtr: int, len: int, oldTotal: int, ghost n: Block)
      requires Valid() && 0 <= oldTotal < c.space && 0 <= len
      requires Owns(State(), Block(oldPtr - word, Actual(c, oldTotal)))
      requires len <= Actual(c, oldTotal) - word
      requires len > 0 ==> Owns(State(), n) && n.addr <= newPtr && newPtr + len <= End(n)
      requires Apart(n, Block(oldPtr - word, Actual(c, oldTotal)))
      modifies this
      ensures Valid()
      ensures Moved(old(State()), old(mem), State(), mem, Block(oldPtr - word, Actual(c, oldTotal)),
                    newPtr, oldPtr, len)
      ensures maxusedmem == old(maxusedmem)
    {
      hide Inv, Actual, Moved, Covers, Held;
      var m := mem;
      OwnedBlock(c, State(), Block(oldPtr - word, Actual(c, oldTotal)));
      Write(newPtr, seq(len, k requires 0 <= k < len => m(oldPtr + k)), n);
      ghost var copied := mem;
      Release(oldPtr - word, oldTotal);
      MoveDone(old(State()), m, copied, State(), mem, Block(oldPtr - word, Actual(c, oldTotal)), n,
               newPtr, oldPtr, len);
    }

    // Allocate the new block, if the new size is not zero.
    method MakeRoom(newSize: int) returns (newPtr: int)
      requires Valid() && 0 <= newSize < c.space
      modifies this
      ensures Valid() && Preserved(old(State()), old(mem), State(), mem)
      ensures newSize == 0 ==> newPtr == c.space - 1
      ensures newPtr == 0 <==>
              newSize > 0 && (newSize + word >= c.space || Allocate(c, old(State()), newSize + word, 1, 0).1.None?)
      ensures newPtr == 0 ==> State() == if newSize + word >= c.space then old(State())
                                         else Allocate(c, old(State()), newSize + word, 1, 0).0
      ensures newPtr != 0 ==> Middle(c, word, old(State()), old(mem), State(), mem, newPtr, newSize)
      ensures newPtr != 0 ==> newSize + word < c.space
      ensures maxusedmem == if newPtr == 0 || newSize == 0 then old(maxusedmem) else Larger(old(maxusedmem), usedmem)
    {
      hide Actual, Allocate, LoadWord, Inv;
      newPtr := c.space - 1;
      WordSmall(word);
      if newSize > 0 {
        SizedTotal(c, word, newSize);
        if (newSize + word) % c.space < newSize {
          return 0;
        }
        newPtr := AllocSized(newSize + word);
      }
    }

    // Move the contents of the old block, if there is one.
    method MoveAny(newPtr: int, oldPtr: int, newSize: int, ghost was: Pool, ghost bytes: int -> byte)
      requires Valid() && Inv(c, was) && 0 <= newSize && newSize + word < c.space
      requires Middle(c, word, was, bytes, State(), mem, newPtr, newSize)
      requires HasBlock(c, oldPtr) ==> Malloced(c, word, was, bytes, oldPtr, LoadWord(bytes, oldPtr - word, word))
      modifies this
      ensures Valid() && Reallocated(c, word, was, bytes, State(), mem, newPtr, oldPtr, newSize)
      ensures maxusedmem == old(maxusedmem)
    {
      hide Actual, Allocate, LoadWord, Inv;
      if HasBlock(c, oldPtr) {
        ghost var mid, midBytes := State(), mem;
        BlockSurvives(c, word, was, bytes, mid, midBytes, oldPtr, newPtr, newSize);
        var oldTotal := LoadWord(mem, oldPtr - word, word);
        var len := MinOf(oldTotal - word, newSize);
        ghost var n := if newSize == 0 then Block(0, 0) else SizedBlock(c, word, newPtr, newSize + word);
        MoveOld(newPtr, oldPtr, len, oldTotal, n);
        ReallocDone(c, word, was, bytes, mid, midBytes, State(), mem, newPtr, oldPtr, newSize);
      } else {
        AllocDone(c, word, was, bytes, State(), mem, newPtr, oldPtr, newSize);
      }
    }

    // realloc(), with zero for NULL and the last address for NOWHERE.
    method Realloc(oldPtr: int, newSize: int) returns (newPtr: int)
      requires Valid() && 0 <= newSize < c.space
      requires HasBlock(c, oldPtr) ==> Malloced(c, word, State(), mem, oldPtr, LoadWord(mem, oldPtr - word, word))
      modifies this
      ensures Valid()
      ensures newSize == 0 ==> newPtr == c.space - 1
      ensures newPtr == 0 <==>
              newSize > 0 && (newSize + word >= c.space || Allocate(c, old(State()), newSize + word, 1, 0).1.None?)
      ensures newPtr == 0 ==> State() == if newSize + word >= c.space then old(State())
                                         else Allocate(c, old(State()), newSize + word, 1, 0).0
      ensures newPtr == 0 ==> Preserved(old(State()), old(mem), State(), mem)
      ensures newPtr != 0 ==>
              Reallocated(c, word, old(State()), old(mem), State(), mem, newPtr, oldPtr, newSize)
      ensures maxusedmem == if newPtr == 0 || newSize == 0 then old(maxusedmem)
                            else Larger(old(maxusedmem), Allocate(c, old(State()), newSize + word, 1, 0).0.usedmem)
    {
      newPtr := MakeRoom(newSize);
      if newPtr != 0 {
        MoveAny(newPtr, oldPtr, newSize, old(State()), old(mem));
      }
    }
  }

  // What free_memblock() needs of a live block, and what it achieves.
  lemma CanGive(c: Config, p: Pool, k: int)
    requires ValidConfig(c) && Inv(c, p) && 0 <= k < |p.live| && p.live[k] !in p.cached
    ensures AllInWindow(c, p.free) && InWindow(c, p.live[k]) && p.live[k].size >= c.min && Canonical(p.free)
    ensures Clear(p.free, p.live[k]) && Inv(c, Give(p, k))
    ensures (p.freemem + p.live[k].size) % c.space == Give(p, k).freemem
    ensures (p.usedmem - p.live[k].size) % c.space == Give(p, k).usedmem
  {
    FreeInWindow(c, p);
    LiveInWindow(c, p, k);
    LiveNotFree(p, k);
    GiveKeeps(c, p, k);
    Conservation(c, Give(p, k));
    NoWrap(Give(p, k).freemem, c.space);
    NoWrap(Give(p, k).usedmem, c.space);
  }

  // The same for a new region; usedmem may pass below zero on the way.
  lemma PopulateSafe(c: Config, p: Pool, start: int, len: int)
    requires ValidConfig(c) && Inv(c, p) && CanPopulate(c, p, start, len)
    ensures var b := Region(c, start, len);
            && AllInWindow(c, p.free) && b.size >= c.min && Clear(p.free, b) && Canonical(p.free) && InWindow(c, b)
            && Actual(c, b.size) == b.size && Inv(c, Populate(c, p, start, len))
            && (p.freemem + b.size) % c.space == p.freemem + b.size
            && ((p.usedmem - b.size) % c.space + b.size) % c.space == p.usedmem
  {
    hide Inv, Insert, Actual, Covers, Clear, AllInWindow, InWindow, Canonical, Region;
    var b := Region(c, start, len);
    FreeInWindow(c, p);
    RegionRounded(c, start, len);
    RegionClear(c, p, start, len);
    InvFree(c, p);
    PopulateKeeps(c, p, start, len);
    Conservation(c, p);
    Conservation(c, Populate(c, p, start, len));
    NoWrap(p.freemem + b.size, c.space);
    ModAdd(p.usedmem - b.size, b.size, c.space);
    NoWrap(p.usedmem, c.space);
  }

  // ---- The free list in memory --------------------------------------------

  // The list head is a variable outside the pool.
  ghost predicate HeadOutside(c: Config, l: Links) {
    l.head + 2 * l.word <= c.base || l.head >= c.base + c.space / 2
  }

  // Only bytes of s, of b and of the list head differ, and not the padding of b.
  ghost predicate OnlyFreed(l: Links, s: seq<Block>, b: Block, m: int -> byte, m': int -> byte) {
    && (forall a :: !Covers(s, a) && !Inside(b, a) && !InHead(l, a) ==> m'(a) == m(a))
    && (forall a :: InPadding(l, b, a) ==> m'(a) == m(a))
  }

  lemma FreedSize(c: Config, l: Links, s: seq<Block>, b: Block, m: int -> byte, m': int -> byte)
    requires l.word <= b.size && forall a :: !(b.addr <= a < b.addr + l.word) ==> m'(a) == m(a)
    ensures OnlyFreed(l, s, b, m, m')
  {
    hide Covers;
  }

  lemma FreedMerged(c: Config, l: Links, s: seq<Block>, b: Block, m: int -> byte, m1: int -> byte, m2: int -> byte)
    requires HeaderSize(l) <= c.min && HeadOutside(c, l) && ValidLinks(l)
    requires AllInWindow(c, s) && b.size >= c.min && InWindow(c, b) && Clear(s, b)
    requires OnlyFreed(l, s, b, m, m1) && forall a :: !InList(l, s, a) ==> m2(a) == m1(a)
    ensures OnlyFreed(l, s, b, m, m2)
  {
    hide Covers, InList;
    ListCovered(l, s);
    PaddingUnlisted(c, l, s, b);
  }

  lemma SameItself(s: seq<Block>, b: Block)
    ensures SameBytes(s, b, s, b)
  {
  }

  lemma SpareFor(c: Config, l: Links, s: seq<Block>, b: Block)
    requires ValidConfig(c) && ValidLinks(l) && HeaderSize(l) <= c.min && c.space == Pow256(l.word) && HeadOutside(c, l)
    requires AllInWindow(c, s) && b.size >= c.min && InWindow(c, b) && Clear(s, b)
    ensures Spare(l, s, b)
  {
    forall i | 0 <= i < |s|
      ensures HeaderGap(l, s[i].addr, b.addr)
    {
      assert Apart(s[i], b);
    }
  }

  // f is b, or b with a block in front of it.
  ghost predicate Grown(c: Config, b: Block, f: Block) {
    f.addr <= b.addr && End(b) <= End(f) && (f == b || f.addr + c.min <= b.addr)
  }

  // The padding of a block that is not on the list is not part of the list.
  lemma PaddingUnlisted(c: Config, l: Links, s: seq<Block>, b: Block)
    requires HeaderSize(l) <= c.min && HeadOutside(c, l) && ValidLinks(l)
    requires AllInWindow(c, s) && b.size >= c.min && InWindow(c, b) && Clear(s, b)
    ensures forall a :: InPadding(l, b, a) ==> !InList(l, s, a)
  {
    forall a | InPadding(l, b, a)
      ensures !InList(l, s, a)
    {
      forall i | 0 <= i < |s|
        ensures !InHeader(l, s[i], a)
      {
        assert Apart(s[i], b);
      }
    }
  }

  // Nor does the list, with f on it, contain the padding of a block within f.
  lemma PaddingKept(c: Config, l: Links, s: seq<Block>, i: int, f: Block, b: Block)
    requires HeaderSize(l) <= c.min && HeadOutside(c, l) && ValidLinks(l)
    requires AllInWindow(c, s) && InWindow(c, f) && Clear(s, f) && 0 <= i <= |s| && b.size >= c.min && Grown(c, b, f)
    ensures forall a :: InPadding(l, b, a) ==> !InList(l, With(s, i, f), a)
  {
    var t := With(s, i, f);
    forall a | InPadding(l, b, a)
      ensures !InList(l, t, a)
    {
      forall j | 0 <= j < |t|
        ensures !InHeader(l, t[j], a)
      {
        if j != i {
          var k := if j < i then j else j - 1;
          assert t[j] == s[k] && Apart(s[k], f);
        }
      }
    }
  }

  lemma WithCovered(c: Config, l: Links, s: seq<Block>, i: int, f: Block)
    requires ValidLinks(l) && HeaderSize(l) <= c.min && AllInWindow(c, s) && f.size >= c.min && 0 <= i <= |s|
    ensures forall a :: InList(l, With(s, i, f), a) ==> InHead(l, a) || Covers(s, a) || Inside(f, a)
  {
    var t := With(s, i, f);
    forall a | InList(l, t, a) && !InHead(l, a)
      ensures Covers(s, a) || Inside(f, a)
    {
      var j :| 0 <= j < |t| && InHeader(l, t[j], a);
      if j != i {
        var k := if j < i then j else j - 1;
        assert t[j] == s[k] && Inside(s[k], a);
      }
    }
  }

  // The list lies in the blocks that are on it.
  lemma ListCovered(l: Links, s: seq<Block>)
    requires ValidLinks(l) && forall i :: 0 <= i < |s| ==> s[i].size >= HeaderSize(l)
    ensures forall a :: InList(l, s, a) ==> InHead(l, a) || Covers(s, a)
  {
    forall a | InList(l, s, a) && !InHead(l, a)
      ensures Covers(s, a)
    {
      var i :| 0 <= i < |s| && InHeader(l, s[i], a);
      assert Inside(s[i], a);
    }
  }

  lemma BlockCovered(s: seq<Block>, i: int)
    requires 0 <= i < |s|
    ensures forall a :: Inside(s[i], a) ==> Covers(s, a)
  {
  }

  lemma MergedFits(c: Config, f: Block, b: Block)
    requires InWindow(c, f) && InWindow(c, b) && End(f) == b.addr && c.base >= 1
    ensures f.size + b.size < c.space
  {
  }

  // There is room for the header of what is left behind an allocation.
  lemma SplitFits(c: Config, l: Links, s: seq<Block>, i: int, pre: int, actual: int)
    requires ValidConfig(c) && ValidLinks(l) && HeaderSize(l) <= c.min && c.space == Pow256(l.word) && HeadOutside(c, l)
    requires Canonical(s) && AllInWindow(c, s) && 0 <= i < |s|
    requires 0 <= pre && actual >= c.min && pre + actual <= s[i].size
    ensures var post := Block(s[i].addr + pre + actual, s[i].size - pre - actual);
            post.size >= c.min ==> Spare(l, s, post) && post.addr + l.word <= End(s[i])
    ensures pre < c.space && s[i].size < c.space
  {
    var post := Block(s[i].addr + pre + actual, s[i].size - pre - actual);
    if post.size >= c.min {
      forall j | 0 <= j < |s|
        ensures HeaderGap(l, s[j].addr, post.addr)
      {
        assert j < i ==> End(s[j]) < s[i].addr;
        assert i < j ==> End(s[i]) < s[j].addr;
      }
      assert LaidAt(l, post);
    }
  }

  // The list, with or without the remainder, lies in the old blocks.
  lemma SplitList(c: Config, l: Links, s: seq<Block>, i: int, post: Block)
    requires ValidLinks(l) && HeaderSize(l) <= c.min && AllInWindow(c, s) && 0 <= i < |s|
    requires s[i].addr <= post.addr && End(post) <= End(s[i])
    ensures forall a :: InList(l, s, a) ==> InHead(l, a) || Covers(s, a)
    ensures post.size >= c.min ==>
              forall a :: InList(l, With(s, i + 1, post), a) ==> InHead(l, a) || Covers(s, a)
    ensures forall a :: Inside(s[i], a) ==> Covers(s, a)
  {
    hide InList, Covers;
    ListCovered(l, s);
    BlockCovered(s, i);
    if post.size >= c.min {
      ListPost(l, s, i, post);
    }
  }

  lemma CarvedAs(s: seq<Block>, i: int, pre: int, actual: int, min: int)
    requires 0 <= i < |s|
    ensures var post := After(s[i], pre, actual);
            var t := if post.size >= min then With(s, i + 1, post) else s;
            Carve(s, i, pre, actual, min) == t[..i] + Keep(Before(s[i], pre), min) + t[i + 1..]
  {
    var post := After(s[i], pre, actual);
    if post.size >= min {
      var t := With(s, i + 1, post);
      assert t[..i] == s[..i] && t[i + 1..] == [post] + s[i + 1..];
    }
  }

  // The list with the remainder on it still lies in the old blocks.
  lemma ListPost(l: Links, s: seq<Block>, i: int, post: Block)
    requires ValidLinks(l) && 0 <= i < |s| && (forall j :: 0 <= j < |s| ==> s[j].size >= HeaderSize(l))
    requires s[i].addr <= post.addr && post.addr + HeaderSize(l) <= End(s[i])
    ensures forall a :: InList(l, With(s, i + 1, post), a) ==> InHead(l, a) || Covers(s, a)
  {
    var t := With(s, i + 1, post);
    forall a | InList(l, t, a) && !InHead(l, a)
      ensures Covers(s, a)
    {
      var j :| 0 <= j < |t| && InHeader(l, t[j], a);
      assert t[j] == if j <= i then s[j] else if j == i + 1 then post else s[j - 1];
      var k := if j <= i then j else j - 1;
      assert Inside(s[k], a);
    }
  }

  lemma NodeStays(l: Links, s: seq<Block>, i: int, post: Block)
    requires 0 <= i < |s|
    ensures Node(l, With(s, i + 1, post), i) == Node(l, s, i) && With(s, i + 1, post)[i] == s[i]
  {
  }

  // A byte in use is not a byte of the list head.
  lemma HeldNotHead(c: Config, l: Links, p: Pool)
    requires Inv(c, p) && HeadOutside(c, l)
    ensures forall a :: Held(p, a) ==> !InHead(l, a)
  {
    forall a | Held(p, a)
      ensures !InHead(l, a)
    {
      var i :| 0 <= i < |p.live| && p.live[i] !in p.cached && Inside(p.live[i], a);
      assert Covers(p.live, a);
      assert OneOwner(p, a);
      var j :| 0 <= j < |p.regions| && Inside(p.regions[j], a);
      assert InWindow(c, p.regions[j]);
    }
  }

  // Stores into a block in use do not reach the free list.
  lemma OwnerStores(c: Config, l: Links, p: Pool, m: int -> byte, m': int -> byte, b: Block, at: int, n: nat)
    requires ValidLinks(l) && Inv(c, p) && HeadOutside(c, l) && HeaderSize(l) <= c.min && Encodes(l, m, p.free)
    requires n == 0 || (Owns(p, b) && b.addr <= at && at + n <= End(b))
    requires forall a :: !(at <= a < at + n) ==> m'(a) == m(a)
    ensures Encodes(l, m', p.free)
  {
    hide Encodes, Covers;
    HeldNotFree(c, p);
    HeldNotHead(c, l, p);
    ListCovered(l, p.free);
    forall a | InList(l, p.free, a)
      ensures m'(a) == m(a)
    {
      if at <= a < at + n {
        OwnsHolds(p, b, a);
        assert false;
      }
    }
    EncodesFrame(l, m, m', p.free);
  }

  // list_check()
  ghost predicate ListCheck(l: Links, m: int -> byte, node: int) {
    && NextOf(l, m, node) != 0 && PrevOf(l, m, node) != 0
    && PrevOf(l, m, NextOf(l, m, node)) == node && NextOf(l, m, PrevOf(l, m, node)) == node
  }

  // check_blocks(), from a node on, of which at most n are visited: what it
  // asserts, all of it read from memory.
  ghost predicate CheckBlocks(c: Config, l: Links, m: int -> byte, node: int, prev: Option<Block>, n: nat)
    requires c.space > 0
    decreases n
  {
    node == l.head ||
    (n > 0 &&
     var block := Block(node - l.at, LoadWord(m, node - l.at, l.word));
     && ListCheck(l, m, node)
     && block.size >= HeaderSize(l) && block.size >= c.min
     && (block.addr + block.size) % c.space > block.addr
     && (prev.Some? ==> block.addr > prev.value.addr && block.addr > End(prev.value))
     && CheckBlocks(c, l, m, NextOf(l, m, node), Some(block), n - 1))
  }

  // All of its assertions hold whenever the heap is valid.
  lemma {:induction false} ChecksPass(c: Config, l: Links, m: int -> byte, s: seq<Block>, i: nat)
    requires ValidConfig(c) && ValidLinks(l) && HeaderSize(l) <= c.min && c.space == Pow256(l.word) && l.head > 0
    requires Encodes(l, m, s) && Canonical(s) && AllInWindow(c, s) && i <= |s|
    ensures CheckBlocks(c, l, m, Node(l, s, i), if i == 0 then None else Some(s[i - 1]), |s| - i)
    decreases |s| - i
  {
    hide LoadWord, Encodes, CheckBlocks;
    NotHead(l, m, s, i);
    if i < |s| {
      ChecksPass(c, l, m, s, i + 1);
      Neighbours(l, m, s, i);
      Neighbours(l, m, s, i + 1);
      ListedSize(l, m, s, i);
      assert InWindow(c, s[i]);
      NoWrap(End(s[i]), c.space);
      assert ListCheck(l, m, Node(l, s, i)) by {
        NodePositive(c, l, s, i - 1);
        NodePositive(c, l, s, i + 1);
      }
      CheckOne(c, l, m, s, i);
    } else {
      CheckEnd(c, l, m, if i == 0 then None else Some(s[i - 1]), |s| - i);
    }
  }

  lemma NodePositive(c: Config, l: Links, s: seq<Block>, i: int)
    requires ValidConfig(c) && ValidLinks(l) && l.head > 0 && AllInWindow(c, s)
    ensures Node(l, s, i) > 0
  {
    assert 0 <= i < |s| ==> InWindow(c, s[i]);
  }

  lemma CheckOne(c: Config, l: Links, m: int -> byte, s: seq<Block>, i: nat)
    requires c.space > 0 && i < |s| && SizeAt(l, m, s[i]) && ListCheck(l, m, Node(l, s, i))
    requires s[i].size >= HeaderSize(l) && s[i].size >= c.min && End(s[i]) % c.space > s[i].addr
    requires i > 0 ==> s[i].addr > s[i - 1].addr && s[i].addr > End(s[i - 1])
    requires NextOf(l, m, Node(l, s, i)) == Node(l, s, i + 1)
    requires CheckBlocks(c, l, m, Node(l, s, i + 1), Some(s[i]), |s| - i - 1)
    ensures CheckBlocks(c, l, m, Node(l, s, i), if i == 0 then None else Some(s[i - 1]), |s| - i)
  {
    hide LoadWord, ListCheck;
  }

  lemma CheckEnd(c: Config, l: Links, m: int -> byte, prev: Option<Block>, n: nat)
    requires c.space > 0
    ensures CheckBlocks(c, l, m, l.head, prev, n)
  {
  }

  // ---- Size fields in memory ----------------------------------------------

  // The block behind a pointer returned by malloc() for `total` bytes.
  function SizedBlock(c: Config, word: int, ptr: int, total: int): Block
    requires c.space > 0 && c.min > 0
  {
    Block(ptr - word, Actual(c, total))
  }

  // ptr was returned by malloc(), with `total` bytes including the size field.
  ghost predicate Malloced(c: Config, word: int, p: Pool, m: int -> byte, ptr: int, total: int) {
    && c.space > 0 && c.min > 0 && word < total < c.space
    && Owns(p, SizedBlock(c, word, ptr, total))
    && LoadWord(m, ptr - word, word) == total
  }

  // A new block with its size field.
  ghost predicate Sized(c: Config, word: int, p: Pool, q: Pool, m: int -> byte, ptr: int, total: int) {
    && Malloced(c, word, q, m, ptr, total) && ptr > word
    && Fresh(p, SizedBlock(c, word, ptr, total))
  }

  // The block b was copied to newPtr and freed; nothing else that was held has
  // changed.
  ghost predicate Moved(p: Pool, m: int -> byte, q: Pool, m': int -> byte, b: Block,
                        newPtr: int, oldPtr: int, len: int)
  {
    && b in p.live && q == Give(p, IndexIn(p.live, b))
    && (forall a :: oldPtr <= a < oldPtr + len ==> m'(newPtr + (a - oldPtr)) == m(a))
    && (forall a :: Held(p, a) && !Inside(b, a) && !(newPtr <= a < newPtr + len) ==> Held(q, a) && m'(a) == m(a))
  }

  // A pointer that is neither NULL nor NOWHERE.
  predicate HasBlock(c: Config, ptr: int) {
    ptr != 0 && ptr != c.space - 1
  }

  function Larger(x: int, y: int): int {
    if x < y then y else x
  }

  function MinOf(x: int, y: int): int {
    if x < y then x else y
  }

  // What a successful realloc() does: the new block carries the old contents up
  // to the smaller size, the old block is free, and all other held bytes are
  // unchanged.
  ghost predicate Reallocated(c: Config, word: int, p: Pool, m: int -> byte, q: Pool, m': int -> byte,
                              newPtr: int, oldPtr: int, newSize: int)
    requires c.space > 0 && c.min > 0
  {
    var oldTotal := LoadWord(m, oldPtr - word, word);
    var b := SizedBlock(c, word, oldPtr, oldTotal);
    var mid := if newSize == 0 then p else Allocate(c, p, newSize + word, 1, 0).0;
    && (newSize > 0 ==> Malloced(c, word, q, m', newPtr, newSize + word) && HasBlock(c, newPtr))
    && (newSize > 0 ==> Allocate(c, p, newSize + word, 1, 0).1 == Some(newPtr - word))
    && (if HasBlock(c, oldPtr) then b in mid.live && q == Give(mid, IndexIn(mid.live, b)) else q == mid)
    && (HasBlock(c, oldPtr) ==>
          forall a :: oldPtr <= a < oldPtr + MinOf(oldTotal - word, newSize) ==> m'(newPtr + (a - oldPtr)) == m(a))
    && (forall a :: Held(p, a) && !(HasBlock(c, oldPtr) && Inside(b, a)) ==> Held(q, a) && m'(a) == m(a))
  }

  lemma SizeStored(c: Config, word: int, p: Pool, m: int -> byte, q: Pool, m1: int -> byte, m2: int -> byte,
                   ptr: int, total: int)
    requires ValidConfig(c) && Inv(c, q) && 0 < word < total < c.space && c.space == Pow256(word)
    requires Preserved(p, m, q, m1)
    requires Fresh(p, SizedBlock(c, word, ptr, total)) && Owns(q, SizedBlock(c, word, ptr, total))
    requires forall a :: !(ptr - word <= a < ptr) ==> m2(a) == m1(a)
    requires var w := WordBytes(total, word);
             forall a :: ptr - word <= a < ptr ==> m2(a) == w[a - (ptr - word)]
    ensures Preserved(p, m, q, m2) && Sized(c, word, p, q, m2, ptr, total)
  {
    OwnedBlock(c, q, SizedBlock(c, word, ptr, total));
    ActualMeaning(c, total);
    LoadStored(m2, ptr - word, total, word);
    forall a | Held(p, a)
      ensures m2(a) == m(a)
    {
      assert !Inside(SizedBlock(c, word, ptr, total), a);
    }
  }

  lemma OwnedBlock(c: Config, p: Pool, b: Block)
    requires ValidConfig(c) && Inv(c, p) && b in p.live
    ensures b.addr > 0 && b.size > 0
  {
    LiveInWindow(c, p, IndexIn(p.live, b));
  }

  // The addition of the size field wraps exactly when the sum does not fit.
  lemma SizedTotal(c: Config, word: int, newSize: int)
    requires ValidConfig(c) && 0 < word && 0 < newSize < c.space && c.space == Pow256(word)
    ensures (newSize + word) % c.space < newSize <==> newSize + word >= c.space
    ensures newSize + word < c.space ==> (newSize + word) % c.space == newSize + word
  {
    WordSmall(word);
    if newSize + word >= c.space {
      DivModUnique(newSize + word, c.space, 1, newSize + word - c.space);
    } else {
      NoWrap(newSize + word, c.space);
    }
  }

  // Cache discards during an allocation leave owned blocks alone.
  lemma {:induction false} AllocateOwns(c: Config, p: Pool, size: int, align: int, offset: int, b: Block)
    requires ValidConfig(c) && Inv(c, p) && Request(c, size, align, offset) && Owns(p, b)
    ensures Owns(Allocate(c, p, size, align, offset).0, b)
    decreases |p.cached|
  {
    var actual, m := Actual(c, size), Modulus(c, align);
    if actual != 0 && AllocateNow(c, p, actual, m, offset).1.None? && p.cached != [] {
      DiscardKeeps(c, p);
      var k := IndexIn(p.live, p.cached[0]);
      StillIn(p.live, k, b);
      AllocateOwns(c, Discard(p), size, align, offset, b);
    }
  }

  // Freeing one owned block leaves every other owned block owned.
  lemma StillOwns(p: Pool, k: int, b: Block)
    requires 0 <= k < |p.live| && Owns(p, b) && b != p.live[k]
    ensures Owns(Give(p, k), b)
  {
    StillIn(p.live, k, b);
  }

  lemma OwnsHolds(p: Pool, b: Block, a: int)
    requires Owns(p, b) && Inside(b, a)
    ensures Held(p, a)
  {
    var i := IndexIn(p.live, b);
    assert p.live[i] == b;
  }

  // A held byte outside the block that is freed stays held.
  lemma HeldElsewhere(p: Pool, k: int, a: int)
    requires 0 <= k < |p.live| && Held(p, a) && !Inside(p.live[k], a)
    ensures Held(Give(p, k), a)
  {
    var i :| 0 <= i < |p.live| && p.live[i] !in p.cached && Inside(p.live[i], a);
    assert Give(p, k).live[if i < k then i else i - 1] == p.live[i];
  }

  lemma MoveDone(p: Pool, m: int -> byte, m1: int -> byte, q: Pool, m2: int -> byte,
                 b: Block, n: Block, newPtr: int, oldPtr: int, len: int)
    requires Owns(p, b) && b.size > 0 && 0 <= len && b.addr <= oldPtr && oldPtr + len <= End(b)
    requires len > 0 ==> Owns(p, n) && n.addr <= newPtr && newPtr + len <= End(n)
    requires Apart(n, b)
    requires forall a :: !(newPtr <= a < newPtr + len) ==> m1(a) == m(a)
    requires forall a :: newPtr <= a < newPtr + len ==> m1(a) == m(oldPtr + (a - newPtr))
    requires q == Give(p, IndexIn(p.live, b))
    requires forall a :: Held(q, a) ==> m2(a) == m1(a)
    ensures Moved(p, m, q, m2, b, newPtr, oldPtr, len)
  {
    var k := IndexIn(p.live, b);
    if len > 0 {
      StillOwns(p, k, n);
      forall a | oldPtr <= a < oldPtr + len
        ensures m2(newPtr + (a - oldPtr)) == m(a)
      {
        OwnsHolds(q, n, newPtr + (a - oldPtr));
        assert oldPtr + (newPtr + (a - oldPtr) - newPtr) == a;
      }
    }
    forall a | Held(p, a) && !Inside(b, a) && !(newPtr <= a < newPtr + len)
      ensures Held(q, a) && m2(a) == m(a)
    {
      HeldElsewhere(p, k, a);
    }
  }

  ghost predicate Middle(c: Config, word: int, p: Pool, m: int -> byte, q: Pool, m': int -> byte,
                         newPtr: int, newSize: int)
    requires c.space > 0 && c.min > 0
  {
    && Preserved(p, m, q, m')
    && if newSize == 0 then q == p
       else Allocate(c, p, newSize + word, 1, 0) == (q, Some(newPtr - word)) &&
            Sized(c, word, p, q, m', newPtr, newSize + word)
  }

  // After the allocation, the old block is still there with its contents, and
  // the new one does not overlap it.
  lemma BlockSurvives(c: Config, word: int, p: Pool, m: int -> byte, q: Pool, m': int -> byte,
                      oldPtr: int, newPtr: int, newSize: int)
    requires ValidConfig(c) && Inv(c, p) && Inv(c, q) && 0 < word && 0 <= newSize && newSize + word < c.space
    requires Middle(c, word, p, m, q, m', newPtr, newSize)
    requires Malloced(c, word, p, m, oldPtr, LoadWord(m, oldPtr - word, word))
    ensures LoadWord(m', oldPtr - word, word) == LoadWord(m, oldPtr - word, word)
    ensures var b := SizedBlock(c, word, oldPtr, LoadWord(m, oldPtr - word, word));
            && Owns(q, b) && b.addr > 0
            && LoadWord(m, oldPtr - word, word) <= b.size
            && (newSize > 0 ==> Apart(SizedBlock(c, word, newPtr, newSize + word), b))
            && (newSize > 0 ==> newSize + word <= SizedBlock(c, word, newPtr, newSize + word).size)
  {
    hide Actual, Allocate, LoadWord;
    var total := LoadWord(m, oldPtr - word, word);
    var b := SizedBlock(c, word, oldPtr, total);
    OwnedBlock(c, p, b);
    ActualMeaning(c, total);
    if newSize > 0 {
      OneIsPow2();
      AllocateOwns(c, p, newSize + word, 1, 0, b);
      ActualMeaning(c, newSize + word);
      OwnedBlock(c, q, SizedBlock(c, word, newPtr, newSize + word));
      OwnsHolds(p, b, b.addr);
      LiveApart(q, SizedBlock(c, word, newPtr, newSize + word), b);
    }
    forall a | oldPtr - word <= a < oldPtr
      ensures m(a) == m'(a)
    {
      OwnsHolds(p, b, a);
    }
    LoadSame(m, m', oldPtr - word, word);
  }

  lemma LiveApart(p: Pool, b: Block, d: Block)
    requires Disjoint(p.live) && b in p.live && d in p.live && b != d
    ensures Apart(b, d)
  {
    var i, j := IndexIn(p.live, b), IndexIn(p.live, d);
    assert i < j ==> Apart(p.live[i], p.live[j]);
    assert j < i ==> Apart(p.live[j], p.live[i]);
  }

  lemma NewPtrHasBlock(c: Config, word: int, p: Pool, q: Pool, m: int -> byte, ptr: int, total: int)
    requires ValidConfig(c) && Inv(c, q) && 0 < word && Sized(c, word, p, q, m, ptr, total)
    ensures HasBlock(c, ptr)
  {
    var b := SizedBlock(c, word, ptr, total);
    LiveInWindow(c, q, IndexIn(q.live, b));
    ActualMeaning(c, total);
  }

  lemma AllocDone(c: Config, word: int, p: Pool, m: int -> byte, q: Pool, m': int -> byte,
                  newPtr: int, oldPtr: int, newSize: int)
    requires ValidConfig(c) && Inv(c, q) && 0 < word && 0 <= newSize && !HasBlock(c, oldPtr)
    requires Middle(c, word, p, m, q, m', newPtr, newSize)
    ensures Reallocated(c, word, p, m, q, m', newPtr, oldPtr, newSize)
  {
    if newSize > 0 {
      NewPtrHasBlock(c, word, p, q, m', newPtr, newSize + word);
    }
  }

  lemma ReallocDone(c: Config, word: int, p: Pool, m: int -> byte, q: Pool, m1: int -> byte, r: Pool, m2: int -> byte,
                    newPtr: int, oldPtr: int, newSize: int)
    requires ValidConfig(c) && Inv(c, p) && Inv(c, q) && 0 < word && 0 <= newSize && newSize + word < c.space
    requires HasBlock(c, oldPtr) && Middle(c, word, p, m, q, m1, newPtr, newSize)
    requires Malloced(c, word, p, m, oldPtr, LoadWord(m, oldPtr - word, word))
    requires var total := LoadWord(m, oldPtr - word, word);
             Moved(q, m1, r, m2, SizedBlock(c, word, oldPtr, total), newPtr, oldPtr, MinOf(total - word, newSize))
    ensures Reallocated(c, word, p, m, r, m2, newPtr, oldPtr, newSize)
  {
    hide Actual, Allocate, LoadWord, Inv;
    var total := LoadWord(m, oldPtr - word, word);
    var b := SizedBlock(c, word, oldPtr, total);
    var len := MinOf(total - word, newSize);
    BlockSurvives(c, word, p, m, q, m1, oldPtr, newPtr, newSize);
    if newSize > 0 {
      NewSizeIntact(c, word, p, q, m1, r, m2, b, newPtr, oldPtr, newSize, len);
    }
    ContentsMoved(p, m, q, m1, r, m2, b, newPtr, oldPtr, len);
    OthersKept(p, m, q, m1, r, m2, b, newPtr, oldPtr, len,
               if newSize == 0 then Block(newPtr, 0) else SizedBlock(c, word, newPtr, newSize + word));
  }

  lemma ContentsMoved(p: Pool, m: int -> byte, q: Pool, m1: int -> byte, r: Pool, m2: int -> byte, b: Block,
                      newPtr: int, oldPtr: int, len: int)
    requires Preserved(p, m, q, m1) && Owns(p, b) && b.addr <= oldPtr && oldPtr + len <= End(b)
    requires Moved(q, m1, r, m2, b, newPtr, oldPtr, len)
    ensures forall a :: oldPtr <= a < oldPtr + len ==> m2(newPtr + (a - oldPtr)) == m(a)
  {
    forall a | oldPtr <= a < oldPtr + len
      ensures m2(newPtr + (a - oldPtr)) == m(a)
    {
      OwnsHolds(p, b, a);
      assert m1(a) == m(a);
    }
  }

  lemma OthersKept(p: Pool, m: int -> byte, q: Pool, m1: int -> byte, r: Pool, m2: int -> byte, b: Block,
                   newPtr: int, oldPtr: int, len: int, n: Block)
    requires Preserved(p, m, q, m1) && Moved(q, m1, r, m2, b, newPtr, oldPtr, len)
    requires Fresh(p, n) && n.addr <= newPtr && newPtr + len <= End(n)
    ensures forall a :: Held(p, a) && !Inside(b, a) ==> Held(r, a) && m2(a) == m(a)
  {
  }

  lemma NewSizeIntact(c: Config, word: int, p: Pool, q: Pool, m1: int -> byte, r: Pool, m2: int -> byte, b: Block,
                      newPtr: int, oldPtr: int, newSize: int, len: int)
    requires ValidConfig(c) && Inv(c, q) && 0 < word && 0 < newSize
    requires Sized(c, word, p, q, m1, newPtr, newSize + word)
    requires Apart(SizedBlock(c, word, newPtr, newSize + word), b) && b.size > 0
    requires newSize + word <= SizedBlock(c, word, newPtr, newSize + word).size
    requires Moved(q, m1, r, m2, b, newPtr, oldPtr, len)
    ensures Malloced(c, word, r, m2, newPtr, newSize + word) && HasBlock(c, newPtr)
  {
    hide Actual, LoadWord, Inv;
    var n := SizedBlock(c, word, newPtr, newSize + word);
    NewPtrHasBlock(c, word, p, q, m1, newPtr, newSize + word);
    StillOwns(q, IndexIn(q.live, b), n);
    forall a | newPtr - word <= a < newPtr
      ensures m1(a) == m2(a)
    {
      OwnsHolds(q, n, a);
    }
    LoadSame(m1, m2, newPtr - word, word);
  }

  // What alloc_memblock() achieves once it has found a block.
  lemma CanTake(c: Config, p: Pool, i: int, actual: int, m: int, offset: int)
    requires ValidConfig(c) && Inv(c, p) && m > 0 && c.space % m == 0
    requires 0 <= i < |p.free| && actual >= c.min && Whole(c, actual)
    requires Fits(c, p.free[i], actual, m, offset)
    ensures PreSize(c, p.free[i].addr, m, offset) >= 0
    ensures var q := Take(c, p, i, actual, m, offset);
            && Inv(c, q)
            && (p.freemem - actual) % c.space == q.freemem
            && (p.usedmem + actual) % c.space == q.usedmem
            && (forall a :: Held(p, a) ==> Held(q, a) && !Covers(p.free, a))
  {
    var q := Take(c, p, i, actual, m, offset);
    PreSizeLeast(c, p.free[i].addr, p.free[i].addr, m, offset);
    TakeKeeps(c, p, i, actual, m, offset);
    Conservation(c, q);
    NoWrap(q.freemem, c.space);
    NoWrap(q.usedmem, c.space);
    HeldNotFree(c, p);
    forall a | Held(p, a)
      ensures Held(q, a)
    {
      var j :| 0 <= j < |p.live| && p.live[j] !in p.cached && Inside(p.live[j], a);
      assert q.live[j] == p.live[j];
    }
  }

  // The block taken is new: it holds no byte that was held.
  lemma TakeFresh(c: Config, p: Pool, i: int, actual: int, m: int, offset: int)
    requires ValidConfig(c) && Inv(c, p) && m > 0 && c.space % m == 0
    requires 0 <= i < |p.free| && actual > 0 && Fits(c, p.free[i], actual, m, offset)
    ensures var q := Take(c, p, i, actual, m, offset);
            Fresh(p, q.live[|p.live|]) && Owns(q, q.live[|p.live|])
  {
    var x := Take(c, p, i, actual, m, offset).live[|p.live|];
    PreSizeLeast(c, p.free[i].addr, p.free[i].addr, m, offset);
    assert Inside(p.free[i], x.addr) && Inside(x, x.addr);
    assert OneOwner(p, x.addr);
    assert x !in p.live;
    HeldNotFree(c, p);
    assert forall a :: Inside(x, a) ==> Inside(p.free[i], a) && Covers(p.free, a);
  }

  lemma {:induction false} AllocateFresh(c: Config, p: Pool, size: int, align: int, offset: int)
    requires ValidConfig(c) && Inv(c, p) && Request(c, size, align, offset)
    ensures var (q, r) := Allocate(c, p, size, align, offset);
            r.Some? ==> Fresh(p, Block(r.value, Actual(c, size))) && Owns(q, Block(r.value, Actual(c, size)))
    decreases |p.cached|
  {
    var actual, m := Actual(c, size), Modulus(c, align);
    if actual != 0 {
      RequestFacts(c, size, align);
      var i := FirstFit(c, p.free, 0, actual, m, offset);
      if i < |p.free| {
        TakeFresh(c, p, i, actual, m, offset);
      } else if p.cached != [] {
        DiscardKeeps(c, p);
        HeldSurvives(p, IndexIn(p.live, p.cached[0]));
        AllocateFresh(c, Discard(p), size, align, offset);
      }
    }
  }

  lemma RequestFacts(c: Config, size: int, align: int)
    requires ValidConfig(c) && 0 <= size < c.space && ValidAlign(c, align) && Actual(c, size) != 0
    ensures Modulus(c, align) > 0 && c.space % Modulus(c, align) == 0
    ensures Actual(c, size) >= c.min && Whole(c, Actual(c, size))
  {
    ConfigFacts(c, align);
    ActualMeaning(c, size);
    MinMultiple(Actual(c, size), c.min);
  }

  lemma AddressNotNull(c: Config, p: Pool, i: int, m: int, offset: int)
    requires ValidConfig(c) && Inv(c, p) && m > 0 && c.space % m == 0 && 0 <= i < |p.free|
    ensures p.free[i].addr + PreSize(c, p.free[i].addr, m, offset) > 0
  {
    FreeInWindow(c, p);
    PreSizeLeast(c, p.free[i].addr, p.free[i].addr, m, offset);
  }

  lemma SizeIsActual(c: Config, n: int)
    requires ValidConfig(c) && Whole(c, n) && c.min <= n <= c.space - c.min
    ensures Actual(c, n) == n
  {
    NoWrap(n + c.min - 1, c.space);
    DivModUnique(n + c.min - 1, c.min, n / c.min, c.min - 1);
  }

  lemma RegionRounded(c: Config, start: int, len: int)
    requires ValidConfig(c) && len >= c.min && InWindow(c, Region(c, start, len))
    ensures Region(c, start, len).size >= c.min
    ensures Actual(c, Region(c, start, len).size) == Region(c, start, len).size
  {
    RoundDown(len, c.min);
    Pow2Even(c.space);
    MinMultiple(Region(c, start, len).size, c.min);
    SizeIsActual(c, Region(c, start, len).size);
  }

  lemma RegionClear(c: Config, p: Pool, start: int, len: int)
    requires ValidConfig(c) && Inv(c, p) && CanPopulate(c, p, start, len) && Region(c, start, len).size > 0
    ensures Clear(p.free, Region(c, start, len))
  {
    forall a | Inside(Region(c, start, len), a)
      ensures !Covers(p.free, a)
    {
      assert OneOwner(p, a);
    }
    OwnersApart(p, Region(c, start, len), p.free);
  }

  lemma Uncache(c: Config, p: Pool)
    requires Inv(c, p) && p.cached != []
    ensures var q := p.(cached := p.cached[1..]);
            Inv(c, q) && p.cached[0] !in q.cached
  {
    var q := p.(cached := p.cached[1..]);
    assert forall a :: OneOwner(p, a) ==> OneOwner(q, a);
    assert forall i :: 0 <= i < |q.cached| ==> q.cached[i] == p.cached[i + 1];
  }

  // Discarding cached data frees no byte that is held.
  lemma HeldSurvives(p: Pool, k: int)
    requires p.cached != [] && 0 <= k < |p.live| && p.live[k] == p.cached[0]
    ensures forall a :: Held(p, a) ==> Held(Give(p.(cached := p.cached[1..]), k), a)
  {
    var q := Give(p.(cached := p.cached[1..]), k);
    forall a | Held(p, a)
      ensures Held(q, a)
    {
      var i :| 0 <= i < |p.live| && p.live[i] !in p.cached && Inside(p.live[i], a);
      assert i != k;
      assert q.live[if i < k then i else i - 1] == p.live[i];
      assert p.live[i] !in q.cached;
    }
  }

  lemma NoWrap(x: int, n: int)
    requires 0 <= x < n
    ensures x % n == x
  {
    DivModUnique(x, n, 0, x);
  }

  lemma InRegionInWindow(c: Config, p: Pool, b: Block)
    requires ValidConfig(c) && Inv(c, p) && b.size > 0
    requires forall a :: Inside(b, a) ==> Covers(p.regions, a)
    ensures InWindow(c, b)
  {
    assert Inside(b, b.addr) && Inside(b, End(b) - 1);
    var i :| 0 <= i < |p.regions| && Inside(p.regions[i], b.addr);
    var j :| 0 <= j < |p.regions| && Inside(p.regions[j], End(b) - 1);
  }

  lemma FreeInWindow(c: Config, p: Pool)
    requires ValidConfig(c) && Inv(c, p)
    ensures AllInWindow(c, p.free)
  {
    forall i | 0 <= i < |p.free|
      ensures InWindow(c, p.free[i])
    {
      forall a | Inside(p.free[i], a)
        ensures Covers(p.regions, a)
      {
        assert OneOwner(p, a);
      }
      InRegionInWindow(c, p, p.free[i]);
    }
  }

  lemma LiveInWindow(c: Config, p: Pool, k: int)
    requires ValidConfig(c) && Inv(c, p) && 0 <= k < |p.live|
    ensures InWindow(c, p.live[k]) && p.live[k].size >= c.min
  {
    forall a | Inside(p.live[k], a)
      ensures Covers(p.regions, a)
    {
      assert OneOwner(p, a);
    }
    InRegionInWindow(c, p, p.live[k]);
  }

  lemma HeldNotFree(c: Config, p: Pool)
    requires Inv(c, p)
    ensures forall a :: Held(p, a) ==> !Covers(p.free, a)
  {
    forall a | Held(p, a)
      ensures !Covers(p.free, a)
    {
      assert OneOwner(p, a);
    }
  }

  ghost predicate AllInWindow(c: Config, s: seq<Block>) {
    forall i :: 0 <= i < |s| ==> s[i].size >= c.min && InWindow(c, s[i])
  }

  // The walk has reached index i, and f overlaps nothing and belongs there or
  // further on.
  ghost predicate Placing(s: seq<Block>, i: int, f: Block) {
    0 <= i <= |s| && Clear(s, f) && forall j :: 0 <= j < i ==> End(s[j]) < f.addr
  }

  ghost predicate StartsBefore(f: Block, s: seq<Block>, i: int) {
    forall j :: 0 <= i <= j < |s| ==> f.addr < s[j].addr
  }

  ghost predicate SameBytes(s: seq<Block>, f: Block, s': seq<Block>, f': Block) {
    forall a :: Covers(s, a) || Inside(f, a) <==> Covers(s', a) || Inside(f', a)
  }

  lemma MergeStep(s: seq<Block>, i: int, f: Block)
    requires Canonical(s) && Placing(s, i, f) && i < |s| && End(s[i]) == f.addr
    ensures var t, g := s[..i] + s[i + 1..], Block(s[i].addr, s[i].size + f.size);
            Canonical(t) && Placing(t, i, g) && SameBytes(t, g, s, f) && StartsBefore(g, t, i)
  {
    var t, g := s[..i] + s[i + 1..], Block(s[i].addr, s[i].size + f.size);
    assert forall j :: 0 <= j < |t| ==> t[j] == s[if j < i then j else j + 1];
    forall j | 0 <= j < |t|
      ensures Apart(t[j], g)
    {
      assert Apart(s[if j < i then j else j + 1], f);
    }
    CanonicalDisjoint(s);
    forall a
      ensures Covers(t, a) || Inside(g, a) <==> Covers(s, a) || Inside(f, a)
    {
      RemoveCovers(s, i, a);
      assert Inside(s[i], a) ==> Covers(s, a);
    }
  }

  // Blocks i to j - 1 of s replaced by m.
  function Splice(s: seq<Block>, i: int, j: int, m: Block): seq<Block>
    requires 0 <= i <= j <= |s|
  {
    s[..i] + [m] + s[j..]
  }

  lemma SpliceCanonical(s: seq<Block>, i: int, j: int, m: Block)
    requires Canonical(s) && 0 <= i <= j <= |s| && m.size > 0
    requires forall k :: 0 <= k < i ==> End(s[k]) < m.addr
    requires forall k :: j <= k < |s| ==> End(m) < s[k].addr
    ensures Canonical(Splice(s, i, j, m))
  {
    var t := Splice(s, i, j, m);
    assert forall k :: 0 <= k < |t| ==> t[k] == if k < i then s[k] else if k == i then m else s[k - i - 1 + j];
  }

  lemma SpliceCovers(s: seq<Block>, i: int, j: int, m: Block, a: int)
    requires 0 <= i <= j <= |s|
    ensures Covers(Splice(s, i, j, m), a) <==> Covers(s[..i], a) || Inside(m, a) || Covers(s[j..], a)
  {
    CoversConcat(s[..i] + [m], s[j..], a);
    CoversConcat(s[..i], [m], a);
    CoversOne(m, a);
  }

  // Inserting f before the first block that follows it.
  lemma Land(s: seq<Block>, i: int, f: Block)
    requires Canonical(s) && Placing(s, i, f) && (i < |s| ==> End(f) <= s[i].addr)
    ensures forall a :: Covers(Splice(s, i, i, f), a) <==> Covers(s, a) || Inside(f, a)
    ensures (i < |s| && End(f) == s[i].addr) || Canonical(Splice(s, i, i, f))
  {
    assert s == s[..i] + s[i..];
    forall a
      ensures Covers(Splice(s, i, i, f), a) <==> Covers(s, a) || Inside(f, a)
    {
      CoversConcat(s[..i], s[i..], a);
      SpliceCovers(s, i, i, f, a);
    }
    if i == |s| || End(f) < s[i].addr {
      SpliceCanonical(s, i, i, f);
    }
  }

  // Inserting f in front of a block that it touches, merged with that block.
  lemma LandMerging(s: seq<Block>, i: int, f: Block)
    requires Canonical(s) && Placing(s, i, f) && i < |s| && End(f) == s[i].addr
    ensures var t := Splice(s, i, i + 1, Block(f.addr, f.size + s[i].size));
            Canonical(t) && forall a :: Covers(t, a) <==> Covers(s, a) || Inside(f, a)
  {
    var m := Block(f.addr, f.size + s[i].size);
    SpliceCanonical(s, i, i + 1, m);
    assert s == Splice(s, i, i + 1, s[i]);
    forall a
      ensures Covers(Splice(s, i, i + 1, m), a) <==> Covers(s, a) || Inside(f, a)
    {
      SpliceCovers(s, i, i + 1, s[i], a);
      SpliceCovers(s, i, i + 1, m, a);
    }
  }

  lemma IsInsert(s: seq<Block>, b: Block, t: seq<Block>)
    requires Canonical(s) && Clear(s, b) && Canonical(t)
    requires forall a :: Covers(t, a) <==> Covers(s, a) || Inside(b, a)
    ensures t == Insert(s, b)
  {
    InsertCanonical(s, b, Floor(s, b));
    forall a
      ensures Covers(t, a) <==> Covers(Insert(s, b), a)
    {
      InsertCovers(s, b, a);
    }
    CanonicalUnique(t, Insert(s, b));
  }
}
