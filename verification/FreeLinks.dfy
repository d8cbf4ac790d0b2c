/**
 The free list as it is stored in the memory that it manages: each free block
 begins with its size and the two links of a doubly linked ring, and the head of
 the ring is a variable elsewhere.
 */
module FreeLinks {
  import opened Words
  import opened Memory
  import opened FreeList

  /** Size of a word, place of the links in a block, and address of the list head */
  datatype Links = Links(word: int, at: int, head: int)

  ghost predicate ValidLinks(l: Links) {
    l.word > 0 && l.at >= l.word && 0 <= l.head && l.head + 2 * l.word <= Pow256(l.word)
  }

  function HeaderSize(l: Links): int {
    l.at + 2 * l.word
  }

  function NextOf(l: Links, m: int -> byte, x: int): int {
    LoadWord(m, x, l.word)
  }

  function PrevOf(l: Links, m: int -> byte, x: int): int {
    LoadWord(m, x + l.word, l.word)
  }

  // The links of block i; those of the list head at both ends
  function Node(l: Links, s: seq<Block>, i: int): int {
    if 0 <= i < |s| then s[i].addr + l.at else l.head
  }

  // ---- What is stored -----------------------------------------------------

  // Two pairs of links do not overlap.
  ghost predicate Gap(l: Links, x: int, y: int) {
    x + 2 * l.word <= y || y + 2 * l.word <= x
  }

  ghost predicate HeaderGap(l: Links, a: int, b: int) {
    a + HeaderSize(l) <= b || b + HeaderSize(l) <= a
  }

  ghost predicate LaidAt(l: Links, b: Block) {
    && 0 <= b.addr && b.addr + HeaderSize(l) <= Pow256(l.word) && 0 <= b.size < Pow256(l.word)
    && (b.addr + HeaderSize(l) <= l.head || l.head + 2 * l.word <= b.addr)
  }

  // The headers are in memory, and do not overlap.
  ghost predicate Laid(l: Links, s: seq<Block>) {
    && (forall i :: 0 <= i < |s| ==> LaidAt(l, s[i]))
    && (forall i, j :: 0 <= i < j < |s| ==> HeaderGap(l, s[i].addr, s[j].addr))
  }

  ghost predicate LinkAt(l: Links, m: int -> byte, s: seq<Block>, i: int) {
    && NextOf(l, m, Node(l, s, i - 1)) == Node(l, s, i)
    && PrevOf(l, m, Node(l, s, i)) == Node(l, s, i - 1)
  }

  ghost predicate SizeAt(l: Links, m: int -> byte, b: Block) {
    LoadWord(m, b.addr, l.word) == b.size
  }

  ghost predicate Linked(l: Links, m: int -> byte, s: seq<Block>) {
    forall i :: 0 <= i <= |s| ==> LinkAt(l, m, s, i)
  }

  ghost predicate SizesStored(l: Links, m: int -> byte, s: seq<Block>) {
    forall i :: 0 <= i < |s| ==> SizeAt(l, m, s[i])
  }

  /** The memory holds this list. */
  ghost predicate Encodes(l: Links, m: int -> byte, s: seq<Block>) {
    Laid(l, s) && Linked(l, m, s) && SizesStored(l, m, s)
  }

  // The memory determines the list.
  lemma {:induction false} EncodesOne(l: Links, m: int -> byte, s: seq<Block>, t: seq<Block>, n: nat)
    requires Encodes(l, m, s) && Encodes(l, m, t) && n <= |s| && n <= |t|
    ensures s[..n] == t[..n]
  {
    hide LoadWord;
    if n > 0 {
      EncodesOne(l, m, s, t, n - 1);
      assert LinkAt(l, m, s, n - 1) && LinkAt(l, m, t, n - 1);
      assert n >= 2 ==> s[n - 2] == s[..n - 1][n - 2] && t[n - 2] == t[..n - 1][n - 2];
      assert Node(l, s, n - 2) == Node(l, t, n - 2);
      assert SizeAt(l, m, s[n - 1]) && SizeAt(l, m, t[n - 1]);
      assert s[n - 1] == t[n - 1];
      assert s[..n] == s[..n - 1] + [s[n - 1]] && t[..n] == t[..n - 1] + [t[n - 1]];
    }
  }

  // ---- Writing links ------------------------------------------------------

  // Insert the links `x` between two others.
  function Added(l: Links, m: int -> byte, x: int, prev: int, next: int): int -> byte
    requires l.word >= 0
  {
    var m1 := Store(m, next + l.word, x, l.word);
    var m2 := Store(m1, x, next, l.word);
    var m3 := Store(m2, x + l.word, prev, l.word);
    Store(m3, prev, x, l.word)
  }

  // Join the neighbours of a pair of links.
  function Deleted(l: Links, m: int -> byte, prev: int, next: int): int -> byte
    requires l.word >= 0
  {
    Store(Store(m, next + l.word, prev, l.word), prev, next, l.word)
  }

  lemma ReadAfter(l: Links, m: int -> byte, at: int, v: int, x: int)
    requires l.word >= 0 && 0 <= v < Pow256(l.word) && (x == at || x + l.word <= at || at + l.word <= x)
    ensures LoadWord(Store(m, at, v, l.word), x, l.word) == if x == at then v else LoadWord(m, x, l.word)
  {
    hide LoadWord, Store;
    if x == at {
      LoadStore(m, at, v, l.word);
    } else {
      LoadElsewhere(m, at, v, l.word, x);
    }
  }

  ghost predicate Address(l: Links, x: int) {
    0 <= x < Pow256(l.word)
  }

  ghost predicate SameOrGap(l: Links, x: int, y: int) {
    x == y || Gap(l, x, y)
  }

  // What a word reads as afterwards
  lemma AddedReads(l: Links, m: int -> byte, x: int, prev: int, next: int, y: int)
    requires l.word > 0 && Address(l, x) && Address(l, prev) && Address(l, next)
    requires Gap(l, x, prev) && Gap(l, x, next) && SameOrGap(l, prev, next)
    requires SameOrGap(l, y, x) && SameOrGap(l, y, prev) && SameOrGap(l, y, next)
    ensures NextOf(l, Added(l, m, x, prev, next), y) ==
            if y == prev then x else if y == x then next else NextOf(l, m, y)
    ensures PrevOf(l, Added(l, m, x, prev, next), y) ==
            if y == next then x else if y == x then prev else PrevOf(l, m, y)
  {
    hide LoadWord, Store;
    var m1 := Store(m, next + l.word, x, l.word);
    var m2 := Store(m1, x, next, l.word);
    var m3 := Store(m2, x + l.word, prev, l.word);
    ReadAfter(l, m, next + l.word, x, y);
    ReadAfter(l, m1, x, next, y);
    ReadAfter(l, m2, x + l.word, prev, y);
    ReadAfter(l, m3, prev, x, y);
    ReadAfter(l, m, next + l.word, x, y + l.word);
    ReadAfter(l, m1, x, next, y + l.word);
    ReadAfter(l, m2, x + l.word, prev, y + l.word);
    ReadAfter(l, m3, prev, x, y + l.word);
  }

  lemma DeletedReads(l: Links, m: int -> byte, prev: int, next: int, y: int)
    requires l.word > 0 && Address(l, prev) && Address(l, next) && SameOrGap(l, prev, next)
    requires SameOrGap(l, y, prev) && SameOrGap(l, y, next)
    ensures NextOf(l, Deleted(l, m, prev, next), y) == if y == prev then next else NextOf(l, m, y)
    ensures PrevOf(l, Deleted(l, m, prev, next), y) == if y == next then prev else PrevOf(l, m, y)
  {
    hide LoadWord, Store;
    var m1 := Store(m, next + l.word, prev, l.word);
    ReadAfter(l, m, next + l.word, prev, y);
    ReadAfter(l, m1, prev, next, y);
    ReadAfter(l, m, next + l.word, prev, y + l.word);
    ReadAfter(l, m1, prev, next, y + l.word);
  }

  // Only these links are written.
  lemma AddedFrame(l: Links, m: int -> byte, x: int, prev: int, next: int)
    requires l.word >= 0
    ensures forall a :: !InLinks(l, x, a) && !InLinks(l, prev, a) && !InLinks(l, next, a) ==>
                          Added(l, m, x, prev, next)(a) == m(a)
  {
  }

  lemma DeletedFrame(l: Links, m: int -> byte, prev: int, next: int)
    requires l.word >= 0
    ensures forall a :: !InLinks(l, prev, a) && !InLinks(l, next, a) ==> Deleted(l, m, prev, next)(a) == m(a)
  {
  }

  ghost predicate InLinks(l: Links, x: int, a: int) {
    x <= a < x + 2 * l.word
  }

  // ---- Changing the list --------------------------------------------------

  lemma NodesApart(l: Links, s: seq<Block>, i: int, j: int)
    requires l.word > 0 && l.at >= 0 && Laid(l, s) && -1 <= i <= |s| && -1 <= j <= |s|
    ensures SameOrGap(l, Node(l, s, i), Node(l, s, j))
    ensures i < j && !(i == -1 && j == |s|) ==> Gap(l, Node(l, s, i), Node(l, s, j))
  {
    assert 0 <= i < |s| ==> LaidAt(l, s[i]);
    assert 0 <= j < |s| ==> LaidAt(l, s[j]);
    assert 0 <= i < j < |s| ==> HeaderGap(l, s[i].addr, s[j].addr);
    assert 0 <= j < i < |s| ==> HeaderGap(l, s[j].addr, s[i].addr);
  }

  lemma NodeAddress(l: Links, s: seq<Block>, i: int)
    requires ValidLinks(l) && Laid(l, s)
    ensures Address(l, Node(l, s, i))
  {
    if 0 <= i < |s| {
      assert LaidAt(l, s[i]);
    }
  }

  function With(s: seq<Block>, k: int, b: Block): seq<Block>
    requires 0 <= k <= |s|
  {
    s[..k] + [b] + s[k..]
  }

  function Without(s: seq<Block>, k: int): seq<Block>
    requires 0 <= k < |s|
  {
    s[..k] + s[k + 1..]
  }

  // The header of b is apart from those on the list.
  ghost predicate Spare(l: Links, s: seq<Block>, b: Block) {
    LaidAt(l, b) && forall i :: 0 <= i < |s| ==> HeaderGap(l, s[i].addr, b.addr)
  }

  lemma SpareApart(l: Links, s: seq<Block>, b: Block, i: int)
    requires l.word > 0 && l.at >= 0 && Spare(l, s, b)
    ensures Gap(l, b.addr + l.at, Node(l, s, i))
  {
    assert 0 <= i < |s| ==> HeaderGap(l, s[i].addr, b.addr);
  }

  ghost function WithAdded(l: Links, m: int -> byte, s: seq<Block>, k: int, b: Block): int -> byte
    requires l.word >= 0
  {
    Added(l, m, b.addr + l.at, Node(l, s, k - 1), Node(l, s, k))
  }

  ghost function WithDeleted(l: Links, m: int -> byte, s: seq<Block>, k: int): int -> byte
    requires l.word >= 0
  {
    Deleted(l, m, Node(l, s, k - 1), Node(l, s, k + 1))
  }

  lemma NodesDiffer(l: Links, s: seq<Block>, i: int, j: int)
    requires l.word > 0 && l.at >= 0 && Laid(l, s) && -1 <= i < j <= |s| && !(i == -1 && j == |s|)
    ensures Node(l, s, i) != Node(l, s, j)
  {
    hide Laid, Node;
    NodesApart(l, s, i, j);
  }

  // The links of node j after b has been inserted as number k
  lemma NodeAdded(l: Links, m: int -> byte, s: seq<Block>, k: int, b: Block, j: int)
    requires ValidLinks(l) && Laid(l, s) && 0 <= k <= |s| && Spare(l, s, b) && -1 <= j <= |s|
    ensures var m', x, y := WithAdded(l, m, s, k, b), b.addr + l.at, Node(l, s, j);
            && NextOf(l, m', y) == (if y == Node(l, s, k - 1) then x else NextOf(l, m, y))
            && PrevOf(l, m', y) == (if y == Node(l, s, k) then x else PrevOf(l, m, y))
            && NextOf(l, m', x) == Node(l, s, k) && PrevOf(l, m', x) == Node(l, s, k - 1)
  {
    hide Laid, Spare, Node, Added, NextOf, PrevOf, Address;
    var x, prev, next := b.addr + l.at, Node(l, s, k - 1), Node(l, s, k);
    NodeAddress(l, s, k - 1);
    NodeAddress(l, s, k);
    SpareAddress(l, s, b);
    NodesApart(l, s, k - 1, k);
    SpareApart(l, s, b, k - 1);
    SpareApart(l, s, b, k);
    NodesApart(l, s, j, k - 1);
    NodesApart(l, s, j, k);
    SpareApart(l, s, b, j);
    AddedReads(l, m, x, prev, next, Node(l, s, j));
    AddedReads(l, m, x, prev, next, x);
  }

  lemma SpareAddress(l: Links, s: seq<Block>, b: Block)
    requires ValidLinks(l) && Spare(l, s, b)
    ensures Address(l, b.addr + l.at)
  {
  }

  lemma LinkAdded(l: Links, m: int -> byte, s: seq<Block>, k: int, b: Block, i: int)
    requires ValidLinks(l) && Laid(l, s) && Linked(l, m, s) && 0 <= k <= |s| && Spare(l, s, b) && 0 <= i <= |s| + 1
    ensures LinkAt(l, WithAdded(l, m, s, k, b), With(s, k, b), i)
  {
    hide Laid, Spare, Node, WithAdded, With, NextOf, PrevOf;
    NodesWith(l, s, k, b, i - 1);
    NodesWith(l, s, k, b, i);
    if i < k {
      assert LinkAt(l, m, s, i);
      NodesDiffer(l, s, i - 1, k - 1);
      NodesDiffer(l, s, i, k);
      NodeAdded(l, m, s, k, b, i - 1);
      NodeAdded(l, m, s, k, b, i);
    } else if i <= k + 1 {
      NodeAdded(l, m, s, k, b, k - 1);
      NodeAdded(l, m, s, k, b, k);
    } else {
      assert LinkAt(l, m, s, i - 1);
      NodesDiffer(l, s, k - 1, i - 2);
      NodesDiffer(l, s, k, i - 1);
      NodeAdded(l, m, s, k, b, i - 2);
      NodeAdded(l, m, s, k, b, i - 1);
    }
  }

  lemma NodesWith(l: Links, s: seq<Block>, k: int, b: Block, j: int)
    requires 0 <= k <= |s| && -1 <= j <= |s| + 1
    ensures Node(l, With(s, k, b), j) ==
            if j < k then Node(l, s, j) else if j == k then b.addr + l.at else Node(l, s, j - 1)
  {
  }

  lemma NodesWithout(l: Links, s: seq<Block>, k: int, j: int)
    requires 0 <= k < |s| && -1 <= j < |s|
    ensures Node(l, Without(s, k), j) == if j < k then Node(l, s, j) else Node(l, s, j + 1)
  {
  }

  // The links of node j after node k has been removed
  lemma NodeDeleted(l: Links, m: int -> byte, s: seq<Block>, k: int, j: int)
    requires ValidLinks(l) && Laid(l, s) && 0 <= k < |s| && -1 <= j <= |s|
    ensures var m', y := WithDeleted(l, m, s, k), Node(l, s, j);
            && NextOf(l, m', y) == (if y == Node(l, s, k - 1) then Node(l, s, k + 1) else NextOf(l, m, y))
            && PrevOf(l, m', y) == (if y == Node(l, s, k + 1) then Node(l, s, k - 1) else PrevOf(l, m, y))
  {
    hide Laid, Node, Deleted, NextOf, PrevOf, Address;
    var prev, next := Node(l, s, k - 1), Node(l, s, k + 1);
    NodeAddress(l, s, k - 1);
    NodeAddress(l, s, k + 1);
    NodesApart(l, s, k - 1, k + 1);
    NodesApart(l, s, j, k - 1);
    NodesApart(l, s, j, k + 1);
    DeletedReads(l, m, prev, next, Node(l, s, j));
  }

  lemma LinkDeleted(l: Links, m: int -> byte, s: seq<Block>, k: int, i: int)
    requires ValidLinks(l) && Laid(l, s) && Linked(l, m, s) && 0 <= k < |s| && 0 <= i < |s|
    ensures LinkAt(l, WithDeleted(l, m, s, k), Without(s, k), i)
  {
    hide Laid, Node, WithDeleted, Without, NextOf, PrevOf;
    NodesWithout(l, s, k, i - 1);
    NodesWithout(l, s, k, i);
    if i < k {
      assert LinkAt(l, m, s, i);
      NodesDiffer(l, s, i - 1, k - 1);
      NodesDiffer(l, s, i, k + 1);
      NodeDeleted(l, m, s, k, i - 1);
      NodeDeleted(l, m, s, k, i);
    } else if i == k {
      NodeDeleted(l, m, s, k, k - 1);
      NodeDeleted(l, m, s, k, k + 1);
    } else {
      assert LinkAt(l, m, s, i + 1);
      NodesDiffer(l, s, k - 1, i);
      NodesDiffer(l, s, k + 1, i + 1);
      NodeDeleted(l, m, s, k, i);
      NodeDeleted(l, m, s, k, i + 1);
    }
  }

  // A size field is not a link.
  lemma SizeKept(l: Links, m: int -> byte, m': int -> byte, b: Block)
    requires l.word > 0 && SizeAt(l, m, b)
    requires forall a :: b.addr <= a < b.addr + l.word ==> m'(a) == m(a)
    ensures SizeAt(l, m', b)
  {
    hide LoadWord;
    LoadSame(m, m', b.addr, l.word);
  }

  lemma SizeAdded(l: Links, m: int -> byte, s: seq<Block>, k: int, b: Block, d: Block)
    requires ValidLinks(l) && Laid(l, s) && 0 <= k <= |s| && Spare(l, s, b) && SizeAt(l, m, d)
    requires d == b || d in s
    ensures SizeAt(l, WithAdded(l, m, s, k, b), d)
  {
    hide LoadWord, SizeAt;
    AddedFrame(l, m, b.addr + l.at, Node(l, s, k - 1), Node(l, s, k));
    NotLinks(l, s, b, d, k - 1);
    NotLinks(l, s, b, d, k);
    assert d.addr + l.word <= b.addr + l.at || b.addr + HeaderSize(l) <= d.addr by {
      if d in s {
        var i :| 0 <= i < |s| && s[i] == d;
        assert HeaderGap(l, s[i].addr, b.addr);
      }
    }
    SizeKept(l, m, WithAdded(l, m, s, k, b), d);
  }

  // The size field of a block on the list, or of b, is apart from every link.
  lemma NotLinks(l: Links, s: seq<Block>, b: Block, d: Block, i: int)
    requires ValidLinks(l) && Laid(l, s) && Spare(l, s, b) && (d == b || d in s)
    ensures d.addr + l.word <= Node(l, s, i) || Node(l, s, i) + 2 * l.word <= d.addr
  {
    if d in s {
      var j :| 0 <= j < |s| && s[j] == d;
      assert LaidAt(l, s[j]);
      assert 0 <= i < j ==> HeaderGap(l, s[i].addr, s[j].addr);
      assert j < i < |s| ==> HeaderGap(l, s[j].addr, s[i].addr);
    } else {
      assert 0 <= i < |s| ==> HeaderGap(l, s[i].addr, b.addr);
    }
  }

  lemma SizeDeleted(l: Links, m: int -> byte, s: seq<Block>, k: int, d: Block)
    requires ValidLinks(l) && Laid(l, s) && 0 <= k < |s| && SizeAt(l, m, d) && d in s
    ensures SizeAt(l, WithDeleted(l, m, s, k), d)
  {
    hide LoadWord, SizeAt;
    DeletedFrame(l, m, Node(l, s, k - 1), Node(l, s, k + 1));
    NotLinksOf(l, s, d, k - 1);
    NotLinksOf(l, s, d, k + 1);
    SizeKept(l, m, WithDeleted(l, m, s, k), d);
  }

  lemma NotLinksOf(l: Links, s: seq<Block>, d: Block, i: int)
    requires ValidLinks(l) && Laid(l, s) && d in s
    ensures d.addr + l.word <= Node(l, s, i) || Node(l, s, i) + 2 * l.word <= d.addr
  {
    var j :| 0 <= j < |s| && s[j] == d;
    assert LaidAt(l, s[j]);
    assert 0 <= i < j ==> HeaderGap(l, s[i].addr, s[j].addr);
    assert j < i < |s| ==> HeaderGap(l, s[j].addr, s[i].addr);
  }

  // list_add() and list_add_tail() insert a block.
  lemma EncodesAdd(l: Links, m: int -> byte, s: seq<Block>, k: int, b: Block)
    requires ValidLinks(l) && Encodes(l, m, s) && 0 <= k <= |s| && Spare(l, s, b) && SizeAt(l, m, b)
    ensures Encodes(l, WithAdded(l, m, s, k, b), With(s, k, b))
  {
    hide LoadWord, LinkAt, SizeAt, LaidAt, HeaderGap;
    var m', t := WithAdded(l, m, s, k, b), With(s, k, b);
    LaidWith(l, s, k, b);
    forall i | 0 <= i <= |t|
      ensures LinkAt(l, m', t, i)
    {
      LinkAdded(l, m, s, k, b, i);
    }
    forall i | 0 <= i < |t|
      ensures SizeAt(l, m', t[i])
    {
      assert i != k ==> t[i] == s[if i < k then i else i - 1];
      SizeAdded(l, m, s, k, b, t[i]);
    }
  }

  lemma LaidWith(l: Links, s: seq<Block>, k: int, b: Block)
    requires Laid(l, s) && 0 <= k <= |s| && Spare(l, s, b)
    ensures Laid(l, With(s, k, b))
  {
    hide LaidAt;
    var t := With(s, k, b);
    forall i | 0 <= i < |t|
      ensures LaidAt(l, t[i])
    {
      assert i != k ==> t[i] == s[if i < k then i else i - 1];
    }
    forall i, j | 0 <= i < j < |t|
      ensures HeaderGap(l, t[i].addr, t[j].addr)
    {
      assert i != k ==> t[i] == s[if i < k then i else i - 1];
      assert j != k ==> t[j] == s[if j < k then j else j - 1];
    }
  }

  // list_del() removes a block, and leaves its size in place.
  lemma EncodesDel(l: Links, m: int -> byte, s: seq<Block>, k: int)
    requires ValidLinks(l) && Encodes(l, m, s) && 0 <= k < |s|
    ensures Encodes(l, WithDeleted(l, m, s, k), Without(s, k))
    ensures SizeAt(l, WithDeleted(l, m, s, k), s[k])
  {
    hide LoadWord, LinkAt, SizeAt, LaidAt, HeaderGap;
    var m', t := WithDeleted(l, m, s, k), Without(s, k);
    forall i | 0 <= i < |t|
      ensures t[i] == s[if i < k then i else i + 1]
    {}
    assert Laid(l, t);
    forall i | 0 <= i <= |t|
      ensures LinkAt(l, m', t, i)
    {
      LinkDeleted(l, m, s, k, i);
    }
    forall i | 0 <= i < |s|
      ensures SizeAt(l, m', s[i])
    {
      SizeDeleted(l, m, s, k, s[i]);
    }
  }

  // The size or a link of a block, but not the padding between them
  ghost predicate InHeader(l: Links, b: Block, a: int) {
    b.addr <= a < b.addr + l.word || b.addr + l.at <= a < b.addr + HeaderSize(l)
  }

  ghost predicate InPadding(l: Links, b: Block, a: int) {
    b.addr + l.word <= a < b.addr + l.at
  }

  ghost predicate InHead(l: Links, a: int) {
    l.head <= a < l.head + 2 * l.word
  }

  ghost predicate InList(l: Links, s: seq<Block>, a: int) {
    InHead(l, a) || exists i :: 0 <= i < |s| && InHeader(l, s[i], a)
  }

  // What is outside the headers and the list head does not matter.
  lemma EncodesFrame(l: Links, m: int -> byte, m': int -> byte, s: seq<Block>)
    requires ValidLinks(l) && Encodes(l, m, s) && forall a :: InList(l, s, a) ==> m'(a) == m(a)
    ensures Encodes(l, m', s)
  {
    hide LoadWord;
    forall i | -1 <= i <= |s|
      ensures NextOf(l, m', Node(l, s, i)) == NextOf(l, m, Node(l, s, i))
      ensures PrevOf(l, m', Node(l, s, i)) == PrevOf(l, m, Node(l, s, i))
    {
      var x := Node(l, s, i);
      forall a | x <= a < x + 2 * l.word
        ensures m'(a) == m(a)
      {
        assert 0 <= i < |s| ==> InHeader(l, s[i], a);
        assert InList(l, s, a);
      }
      LoadSame(m, m', x, l.word);
      LoadSame(m, m', x + l.word, l.word);
    }
    forall i | 0 <= i <= |s|
      ensures LinkAt(l, m', s, i)
    {
      assert LinkAt(l, m, s, i);
    }
    forall i | 0 <= i < |s|
      ensures SizeAt(l, m', s[i])
    {
      assert SizeAt(l, m, s[i]);
      forall a | s[i].addr <= a < s[i].addr + l.word
        ensures m'(a) == m(a)
      {
        assert InHeader(l, s[i], a);
        assert InList(l, s, a);
      }
      SizeKept(l, m, m', s[i]);
    }
  }

  // Writing the size of a block
  lemma EncodesSize(l: Links, m: int -> byte, s: seq<Block>, k: int, v: int)
    requires ValidLinks(l) && Encodes(l, m, s) && 0 <= k < |s| && 0 <= v < Pow256(l.word)
    ensures Encodes(l, Store(m, s[k].addr, v, l.word), s[k := Block(s[k].addr, v)])
  {
    hide LoadWord, Store;
    var m', t := Store(m, s[k].addr, v, l.word), s[k := Block(s[k].addr, v)];
    forall i | -1 <= i <= |s|
      ensures Node(l, t, i) == Node(l, s, i)
      ensures NextOf(l, m', Node(l, s, i)) == NextOf(l, m, Node(l, s, i))
      ensures PrevOf(l, m', Node(l, s, i)) == PrevOf(l, m, Node(l, s, i))
    {
      NotLinksOf(l, s, s[k], i);
      LoadElsewhere(m, s[k].addr, v, l.word, Node(l, s, i));
      LoadElsewhere(m, s[k].addr, v, l.word, Node(l, s, i) + l.word);
    }
    forall i | 0 <= i <= |t|
      ensures LinkAt(l, m', t, i)
    {
      assert LinkAt(l, m, s, i);
    }
    forall i | 0 <= i < |t|
      ensures SizeAt(l, m', t[i])
    {
      assert SizeAt(l, m, s[i]);
      assert i < k ==> HeaderGap(l, s[i].addr, s[k].addr);
      assert k < i ==> HeaderGap(l, s[k].addr, s[i].addr);
      ReadAfter(l, m, s[k].addr, v, s[i].addr);
    }
    assert LaidAt(l, s[k]);
    assert Laid(l, t);
  }

  // The memory determines the list.
  lemma EncodesUnique(l: Links, m: int -> byte, s: seq<Block>, t: seq<Block>)
    requires ValidLinks(l) && Encodes(l, m, s) && Encodes(l, m, t)
    ensures s == t
  {
    NoLonger(l, m, s, t);
    NoLonger(l, m, t, s);
    EncodesOne(l, m, s, t, |s|);
    assert s[..|s|] == s && t[..|t|] == t;
  }

  lemma NoLonger(l: Links, m: int -> byte, s: seq<Block>, t: seq<Block>)
    requires ValidLinks(l) && Encodes(l, m, s) && Encodes(l, m, t)
    ensures |t| <= |s|
  {
    hide LoadWord;
    var n := |s|;
    if n < |t| {
      EncodesOne(l, m, s, t, n);
      assert n > 0 ==> s[n - 1] == s[..n][n - 1] && t[n - 1] == t[..n][n - 1];
      assert LinkAt(l, m, s, n) && LinkAt(l, m, t, n);
      NodesDiffer(l, t, -1, n);
      assert false;
    }
  }

  // ---- Facts about lists that are stored ----------------------------------

  lemma EncodesNone(l: Links, m: int -> byte)
    requires ValidLinks(l)
    ensures Encodes(l, Store(Store(m, l.head, l.head, l.word), l.head + l.word, l.head, l.word), [])
    ensures var m' := Store(Store(m, l.head, l.head, l.word), l.head + l.word, l.head, l.word);
            forall a :: !InHead(l, a) ==> m'(a) == m(a)
  {
    var m1 := Store(m, l.head, l.head, l.word);
    var m2 := Store(m1, l.head + l.word, l.head, l.word);
    LoadStore(m, l.head, l.head, l.word);
    LoadElsewhere(m1, l.head + l.word, l.head, l.word, l.head);
    LoadStore(m1, l.head + l.word, l.head, l.word);
    assert LinkAt(l, m2, [], 0);
  }

  lemma SpareUnlisted(l: Links, s: seq<Block>, b: Block)
    requires ValidLinks(l) && Spare(l, s, b)
    ensures forall a :: b.addr <= a < b.addr + l.word ==> !InList(l, s, a)
  {
    forall a | b.addr <= a < b.addr + l.word
      ensures !InList(l, s, a)
    {
      forall i | 0 <= i < |s|
        ensures !InHeader(l, s[i], a)
      {
        assert HeaderGap(l, s[i].addr, b.addr);
      }
    }
  }

  lemma Neighbours(l: Links, m: int -> byte, s: seq<Block>, k: int)
    requires Encodes(l, m, s) && 0 <= k <= |s|
    ensures NextOf(l, m, Node(l, s, k - 1)) == Node(l, s, k)
    ensures PrevOf(l, m, Node(l, s, k)) == Node(l, s, k - 1)
  {
    hide LoadWord;
    assert LinkAt(l, m, s, k);
  }

  lemma ListedSize(l: Links, m: int -> byte, s: seq<Block>, i: int)
    requires Encodes(l, m, s) && 0 <= i < |s|
    ensures SizeAt(l, m, s[i]) && LaidAt(l, s[i])
  {
    hide LoadWord;
  }

  lemma NotHead(l: Links, m: int -> byte, s: seq<Block>, i: int)
    requires ValidLinks(l) && Encodes(l, m, s) && 0 <= i <= |s|
    ensures Node(l, s, i) == l.head <==> i == |s|
  {
    hide LoadWord;
    assert i < |s| ==> LaidAt(l, s[i]);
  }

  lemma NodeInList(l: Links, s: seq<Block>, i: int)
    requires ValidLinks(l)
    ensures forall a :: InLinks(l, Node(l, s, i), a) ==> InList(l, s, a)
  {
    forall a | InLinks(l, Node(l, s, i), a)
      ensures InList(l, s, a)
    {
      assert 0 <= i < |s| ==> InHeader(l, s[i], a);
    }
  }

  lemma AddedInList(l: Links, m: int -> byte, s: seq<Block>, k: int, b: Block)
    requires ValidLinks(l) && 0 <= k <= |s|
    ensures forall a :: !InList(l, With(s, k, b), a) ==> WithAdded(l, m, s, k, b)(a) == m(a)
  {
    hide Added, InLinks, InList, With, Node;
    var t := With(s, k, b);
    AddedFrame(l, m, b.addr + l.at, Node(l, s, k - 1), Node(l, s, k));
    NodesWith(l, s, k, b, k - 1);
    NodesWith(l, s, k, b, k);
    NodesWith(l, s, k, b, k + 1);
    NodeInList(l, t, k - 1);
    NodeInList(l, t, k);
    NodeInList(l, t, k + 1);
  }

  lemma DeletedInList(l: Links, m: int -> byte, s: seq<Block>, k: int)
    requires ValidLinks(l) && 0 <= k < |s|
    ensures forall a :: !InList(l, s, a) ==> WithDeleted(l, m, s, k)(a) == m(a)
  {
    hide Deleted, InLinks, InList, Node;
    DeletedFrame(l, m, Node(l, s, k - 1), Node(l, s, k + 1));
    NodeInList(l, s, k - 1);
    NodeInList(l, s, k + 1);
  }

  lemma SizeInList(l: Links, s: seq<Block>, k: int)
    requires ValidLinks(l) && 0 <= k < |s|
    ensures forall a :: s[k].addr <= a < s[k].addr + l.word ==> InList(l, s, a)
  {
    forall a | s[k].addr <= a < s[k].addr + l.word
      ensures InList(l, s, a)
    {
      assert InHeader(l, s[k], a);
    }
  }

  // Sizes do not matter to where the list is.
  lemma ResizedNodes(l: Links, s: seq<Block>, k: int, v: int)
    requires 0 <= k < |s|
    ensures var t := s[k := Block(s[k].addr, v)];
            && (forall i :: Node(l, t, i) == Node(l, s, i))
            && (forall a :: InList(l, t, a) <==> InList(l, s, a))
  {
    var t := s[k := Block(s[k].addr, v)];
    forall a
      ensures InList(l, t, a) <==> InList(l, s, a)
    {
      forall i | 0 <= i < |s|
        ensures InHeader(l, t[i], a) <==> InHeader(l, s[i], a)
      {}
    }
  }

  lemma NextWithout(l: Links, s: seq<Block>, i: int)
    requires 0 <= i < |s|
    ensures Node(l, Without(s, i), i) == Node(l, s, i + 1)
  {
  }

  lemma NextWith(l: Links, s: seq<Block>, i: int, f: Block)
    requires 0 <= i < |s|
    ensures var t := With(s, i, f);
            |t| == |s| + 1 && Node(l, t, i + 1) == Node(l, s, i) && t[i] == f && t[i + 1] == s[i]
  {
  }
}
