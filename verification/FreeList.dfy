/**
 Address-ordered, fully coalesced lists of memory blocks.

 A canonical list is determined by the set of addresses it covers
 (CanonicalUnique), so an operation on the free list is specified by the bytes
 it adds or takes away.
 */
module FreeList {
  import opened Words

  datatype Block = Block(addr: int, size: int)

  function End(b: Block): int {
    b.addr + b.size
  }

  predicate Inside(b: Block, a: int) {
    b.addr <= a < End(b)
  }

  ghost predicate Covers(s: seq<Block>, a: int) {
    exists i :: 0 <= i < |s| && Inside(s[i], a)
  }

  // Every byte of [lo, hi) is covered.
  ghost predicate CoversAll(s: seq<Block>, lo: int, hi: int) {
    forall a :: lo <= a < hi ==> Covers(s, a)
  }

  ghost predicate Apart(b: Block, c: Block) {
    End(b) <= c.addr || End(c) <= b.addr
  }

  ghost predicate Disjoint(s: seq<Block>) {
    forall i, j :: 0 <= i < j < |s| ==> Apart(s[i], s[j])
  }

  ghost predicate Positive(s: seq<Block>) {
    forall i :: 0 <= i < |s| ==> s[i].size > 0
  }

  // The order that check_blocks() asserts: ascending, and never adjacent.
  ghost predicate Canonical(s: seq<Block>) {
    && Positive(s)
    && forall i, j :: 0 <= i < j < |s| ==> End(s[i]) < s[j].addr
  }

  function Sum(s: seq<Block>): int {
    if s == [] then 0 else s[0].size + Sum(s[1..])
  }

  function Span(b: Block): set<int> {
    set a | b.addr <= a < End(b) && Inside(b, a)
  }

  function Bytes(s: seq<Block>): set<int> {
    if s == [] then {} else Span(s[0]) + Bytes(s[1..])
  }

  // ---- Coverage -----------------------------------------------------------

  lemma CoversConcat(s: seq<Block>, t: seq<Block>, a: int)
    ensures Covers(s + t, a) <==> Covers(s, a) || Covers(t, a)
  {
    if Covers(s, a) {
      var i :| 0 <= i < |s| && Inside(s[i], a);
      assert Inside((s + t)[i], a);
    }
    if Covers(t, a) {
      var i :| 0 <= i < |t| && Inside(t[i], a);
      assert Inside((s + t)[|s| + i], a);
    }
    if Covers(s + t, a) {
      var i :| 0 <= i < |s + t| && Inside((s + t)[i], a);
      if i < |s| { assert Inside(s[i], a); } else { assert Inside(t[i - |s|], a); }
    }
  }

  lemma CoversOne(b: Block, a: int)
    ensures Covers([b], a) <==> Inside(b, a)
  {
    if Inside(b, a) { assert Inside([b][0], a); }
  }

  // Blocks that share no byte are apart.
  lemma ApartIfNoCommonByte(b: Block, c: Block)
    requires b.size > 0 && c.size > 0
    requires forall a :: !(Inside(b, a) && Inside(c, a))
    ensures Apart(b, c)
  {
    assert !(Inside(b, b.addr) && Inside(c, b.addr));
    assert !(Inside(b, c.addr) && Inside(c, c.addr));
  }

  // Taking one of several disjoint blocks away uncovers exactly its bytes.
  lemma RemoveCovers(s: seq<Block>, k: int, a: int)
    requires Disjoint(s) && 0 <= k < |s|
    ensures Covers(s[..k] + s[k + 1..], a) <==> Covers(s, a) && !Inside(s[k], a)
  {
    var t := s[..k] + s[k + 1..];
    if Covers(t, a) {
      var i :| 0 <= i < |t| && Inside(t[i], a);
      if i < k { assert Inside(s[i], a); assert Apart(s[i], s[k]); }
      else { assert Inside(s[i + 1], a); assert Apart(s[k], s[i + 1]); }
    }
    if Covers(s, a) && !Inside(s[k], a) {
      var i :| 0 <= i < |s| && Inside(s[i], a);
      if i < k { assert Inside(t[i], a); } else { assert Inside(t[i - 1], a); }
    }
  }

  // ---- Canonical lists ----------------------------------------------------

  // The byte just past a canonical block is not covered.
  lemma EndUncovered(s: seq<Block>, i: int)
    requires Canonical(s) && 0 <= i < |s|
    ensures !Covers(s, End(s[i]))
  {
    forall j | 0 <= j < |s|
      ensures !Inside(s[j], End(s[i]))
    {
      assert j < i ==> End(s[j]) < s[i].addr;
    }
  }

  // A covered interval lies within a single canonical block.
  lemma IntervalInOneBlock(s: seq<Block>, lo: int, hi: int) returns (i: int)
    requires Canonical(s) && lo < hi && CoversAll(s, lo, hi)
    ensures 0 <= i < |s| && s[i].addr <= lo && hi <= End(s[i])
  {
    assert Covers(s, lo);
    i :| 0 <= i < |s| && Inside(s[i], lo);
    EndUncovered(s, i);
    assert !(lo <= End(s[i]) < hi);
  }

  // Two canonical lists that cover the same addresses are the same list.
  lemma {:induction false} CanonicalUnique(s: seq<Block>, t: seq<Block>)
    requires Canonical(s) && Canonical(t)
    requires forall a :: Covers(s, a) <==> Covers(t, a)
    ensures s == t
  {
    if s == [] || t == [] {
      if s != [] { assert Inside(s[0], s[0].addr); assert Covers(s, s[0].addr); }
      if t != [] { assert Inside(t[0], t[0].addr); assert Covers(t, t[0].addr); }
    } else {
      FirstNotAbove(s, t);
      FirstNotAbove(t, s);
      EndUncovered(s, 0);
      EndUncovered(t, 0);
      assert !Inside(t[0], End(s[0])) && !Inside(s[0], End(t[0]));
      assert s[0] == t[0];
      forall a
        ensures Covers(s[1..], a) <==> Covers(t[1..], a)
      {
        TailCovers(s, a);
        TailCovers(t, a);
      }
      CanonicalUnique(s[1..], t[1..]);
      assert s == [s[0]] + s[1..] && t == [t[0]] + t[1..];
    }
  }

  lemma FirstNotAbove(s: seq<Block>, t: seq<Block>)
    requires Canonical(s) && Canonical(t) && s != [] && t != []
    requires forall a :: Covers(s, a) <==> Covers(t, a)
    ensures t[0].addr <= s[0].addr
  {
    assert Inside(s[0], s[0].addr);
    assert Covers(t, s[0].addr);
    var j :| 0 <= j < |t| && Inside(t[j], s[0].addr);
    assert j > 0 ==> End(t[0]) < t[j].addr;
  }

  lemma TailCovers(s: seq<Block>, a: int)
    requires Canonical(s) && s != []
    ensures Covers(s[1..], a) <==> Covers(s, a) && a >= End(s[0])
  {
    if Covers(s[1..], a) {
      var i :| 0 <= i < |s[1..]| && Inside(s[1..][i], a);
      assert Inside(s[i + 1], a);
    }
    if Covers(s, a) && a >= End(s[0]) {
      var i :| 0 <= i < |s| && Inside(s[i], a);
      assert Inside(s[1..][i - 1], a);
    }
  }

  // ---- Sums ---------------------------------------------------------------

  lemma {:induction false} SumConcat(s: seq<Block>, t: seq<Block>)
    ensures Sum(s + t) == Sum(s) + Sum(t)
  {
    if s == [] {
      assert s + t == t;
    } else {
      assert (s + t)[1..] == s[1..] + t;
      SumConcat(s[1..], t);
    }
  }

  lemma SumOne(b: Block)
    ensures Sum([b]) == b.size
  {
    assert [b][1..] == [];
  }

  // Taking the i-th block out.
  lemma SumRemove(s: seq<Block>, i: int)
    requires 0 <= i < |s|
    ensures Sum(s) == Sum(s[..i] + s[i + 1..]) + s[i].size
  {
    hide Sum;
    assert s == s[..i] + ([s[i]] + s[i + 1..]);
    SumConcat(s[..i], [s[i]] + s[i + 1..]);
    SumConcat([s[i]], s[i + 1..]);
    SumConcat(s[..i], s[i + 1..]);
    SumOne(s[i]);
  }

  lemma {:induction false} BytesAreCovered(s: seq<Block>, a: int)
    ensures a in Bytes(s) <==> Covers(s, a)
  {
    if s != [] {
      assert s == [s[0]] + s[1..];
      CoversConcat([s[0]], s[1..], a);
      CoversOne(s[0], a);
      BytesAreCovered(s[1..], a);
    }
  }

  lemma {:induction false} SpanCard(b: Block)
    requires b.size >= 0
    ensures |Span(b)| == b.size
    decreases b.size
  {
    if b.size == 0 {
      assert Span(b) == {};
    } else {
      var c := Block(b.addr, b.size - 1);
      SpanCard(c);
      forall a
        ensures a in Span(b) <==> a in Span(c) + {End(c)}
      {
        assert Inside(b, a) <==> Inside(c, a) || a == End(c);
      }
      assert Span(b) == Span(c) + {End(c)} && End(c) !in Span(c);
    }
  }

  // For disjoint blocks, the sum of the sizes counts the covered bytes.
  lemma {:induction false} SumCountsBytes(s: seq<Block>)
    requires Disjoint(s) && Positive(s)
    ensures Sum(s) == |Bytes(s)|
  {
    if s != [] {
      SumCountsBytes(s[1..]);
      SpanCard(s[0]);
      forall a
        ensures !(a in Span(s[0]) && a in Bytes(s[1..]))
      {
        BytesAreCovered(s[1..], a);
        if Covers(s[1..], a) {
          var i :| 0 <= i < |s[1..]| && Inside(s[1..][i], a);
          assert Apart(s[0], s[i + 1]);
        }
      }
      assert Span(s[0]) !! Bytes(s[1..]);
      assert |Span(s[0]) + Bytes(s[1..])| == |Span(s[0])| + |Bytes(s[1..])|;
    }
  }

  // Disjoint blocks within [lo, hi) add up to at most its length.
  lemma SumWithin(s: seq<Block>, lo: int, hi: int)
    requires Disjoint(s) && Positive(s) && lo <= hi
    requires forall a :: Covers(s, a) ==> lo <= a < hi
    ensures 0 <= Sum(s) <= hi - lo
  {
    SumCountsBytes(s);
    var w := Block(lo, hi - lo);
    SpanCard(w);
    forall a | a in Bytes(s)
      ensures a in Span(w)
    {
      BytesAreCovered(s, a);
      assert Inside(w, a);
    }
    SubsetCard(Bytes(s), Span(w));
  }

  // ---- Freeing: insert a block and coalesce -------------------------------

  // The free list after b has been returned to it.
  function Insert(s: seq<Block>, b: Block): seq<Block>
    decreases |s|
  {
    if s == [] then [b]
    else if End(s[0]) < b.addr then [s[0]] + Insert(s[1..], b)
    else if End(s[0]) == b.addr then Insert(s[1..], Block(s[0].addr, s[0].size + b.size))
    else if End(b) == s[0].addr then [Block(b.addr, b.size + s[0].size)] + s[1..]
    else [b] + s
  }

  // b can be added: it overlaps nothing on the list.
  ghost predicate Clear(s: seq<Block>, b: Block) {
    b.size > 0 && forall i :: 0 <= i < |s| ==> Apart(s[i], b)
  }

  // One unfolding of the recursion.
  lemma InsertCases(s: seq<Block>, b: Block)
    ensures s == [] ==> Insert(s, b) == [b]
    ensures s != [] && End(s[0]) < b.addr ==> Insert(s, b) == [s[0]] + Insert(s[1..], b)
    ensures s != [] && End(s[0]) == b.addr ==>
              Insert(s, b) == Insert(s[1..], Block(s[0].addr, s[0].size + b.size))
    ensures s != [] && End(s[0]) > b.addr && End(b) == s[0].addr ==>
              Insert(s, b) == [Block(b.addr, b.size + s[0].size)] + s[1..]
    ensures s != [] && End(s[0]) > b.addr && End(b) != s[0].addr ==> Insert(s, b) == [b] + s
  {
  }

  lemma ConsCanonical(b: Block, s: seq<Block>)
    requires Canonical(s) && b.size > 0 && forall i :: 0 <= i < |s| ==> End(b) < s[i].addr
    ensures Canonical([b] + s)
  {
    var t := [b] + s;
    forall i, j | 0 <= i < j < |t|
      ensures End(t[i]) < t[j].addr
    {
      assert t[j] == s[j - 1];
      if i > 0 { assert t[i] == s[i - 1]; }
    }
  }

  lemma TailCanonical(s: seq<Block>)
    requires Canonical(s) && s != []
    ensures Canonical(s[1..]) && forall i :: 0 <= i < |s[1..]| ==> End(s[0]) < s[1..][i].addr
  {
    assert forall i :: 0 <= i < |s[1..]| ==> s[1..][i] == s[i + 1];
  }

  lemma {:induction false} InsertCanonical(s: seq<Block>, b: Block, lo: int)
    requires Canonical(s) && Clear(s, b)
    requires lo < b.addr && forall i :: 0 <= i < |s| ==> lo < s[i].addr
    ensures Canonical(Insert(s, b))
    ensures forall i :: 0 <= i < |Insert(s, b)| ==> lo < Insert(s, b)[i].addr
    decreases |s|
  {
    hide Insert;
    InsertCases(s, b);
    if s != [] {
      var t := s[1..];
      TailCanonical(s);
      assert Apart(s[0], b);
      ClearTail(s, b);
      if End(s[0]) < b.addr {
        InsertCanonical(t, b, End(s[0]));
        ConsCanonical(s[0], Insert(t, b));
      } else if End(s[0]) == b.addr {
        InsertCanonical(t, Block(s[0].addr, s[0].size + b.size), lo);
      } else if End(b) == s[0].addr {
        ConsCanonical(Block(b.addr, b.size + s[0].size), t);
      } else {
        ConsCanonical(b, s);
      }
    }
  }

  lemma ClearTail(s: seq<Block>, b: Block)
    requires Canonical(s) && Clear(s, b) && s != []
    ensures Clear(s[1..], b)
    ensures End(s[0]) == b.addr ==> Clear(s[1..], Block(s[0].addr, s[0].size + b.size))
  {
    var t := s[1..];
    forall i | 0 <= i < |t|
      ensures Apart(t[i], b)
      ensures End(s[0]) == b.addr ==> Apart(t[i], Block(s[0].addr, s[0].size + b.size))
    {
      assert t[i] == s[i + 1] && Apart(s[i + 1], b);
    }
  }

  lemma {:induction false} InsertCovers(s: seq<Block>, b: Block, a: int)
    requires Canonical(s) && Clear(s, b)
    ensures Covers(Insert(s, b), a) <==> Covers(s, a) || Inside(b, a)
    decreases |s|
  {
    hide Insert, Covers;
    InsertCases(s, b);
    CoversOne(b, a);
    if s != [] {
      var t := s[1..];
      assert s == [s[0]] + t;
      TailCanonical(s);
      ClearTail(s, b);
      assert Apart(s[0], b);
      CoversConcat([s[0]], t, a);
      CoversOne(s[0], a);
      if End(s[0]) < b.addr {
        InsertCovers(t, b, a);
        CoversConcat([s[0]], Insert(t, b), a);
      } else if End(s[0]) == b.addr {
        InsertCovers(t, Block(s[0].addr, s[0].size + b.size), a);
      } else if End(b) == s[0].addr {
        var m := Block(b.addr, b.size + s[0].size);
        CoversConcat([m], t, a);
        CoversOne(m, a);
      } else {
        CoversConcat([b], s, a);
      }
    } else {
      CoversNone(a);
    }
  }

  lemma CoversNone(a: int)
    ensures !Covers([], a)
  {
  }

  lemma {:induction false} InsertSum(s: seq<Block>, b: Block)
    ensures Sum(Insert(s, b)) == Sum(s) + b.size
    decreases |s|
  {
    if s == [] {
      SumOne(b);
    } else if End(s[0]) < b.addr {
      InsertSum(s[1..], b);
      assert Insert(s, b)[1..] == Insert(s[1..], b);
    } else if End(s[0]) == b.addr {
      InsertSum(s[1..], Block(s[0].addr, s[0].size + b.size));
    } else if End(b) == s[0].addr {
      assert Insert(s, b)[1..] == s[1..];
    } else {
      assert Insert(s, b)[1..] == s;
    }
  }

  // The ends of the blocks after an insertion are ends of the blocks before.
  lemma {:induction false} InsertEnds(s: seq<Block>, b: Block, i: int)
    requires 0 <= i < |Insert(s, b)|
    ensures Insert(s, b)[i].addr == b.addr ||
            exists j :: 0 <= j < |s| && Insert(s, b)[i].addr == s[j].addr
    ensures End(Insert(s, b)[i]) == End(b) ||
            exists j :: 0 <= j < |s| && End(Insert(s, b)[i]) == End(s[j])
    decreases |s|
  {
    if s != [] {
      var t := s[1..];
      assert forall j :: 0 <= j < |t| ==> t[j] == s[j + 1];
      if End(s[0]) < b.addr {
        if i > 0 {
          InsertEnds(t, b, i - 1);
        }
      } else if End(s[0]) == b.addr {
        InsertEnds(t, Block(s[0].addr, s[0].size + b.size), i);
      } else if End(b) == s[0].addr {
        if i > 0 { assert Insert(s, b)[i] == s[i]; }
      } else {
        if i > 0 { assert Insert(s, b)[i] == s[i - 1]; }
      }
    }
  }

  lemma {:induction false} InsertAtLeast(s: seq<Block>, b: Block, m: int)
    requires 0 < m <= b.size && forall i :: 0 <= i < |s| ==> s[i].size >= m
    ensures forall i :: 0 <= i < |Insert(s, b)| ==> Insert(s, b)[i].size >= m
    decreases |s|
  {
    if s != [] {
      if End(s[0]) < b.addr {
        InsertAtLeast(s[1..], b, m);
      } else if End(s[0]) == b.addr {
        InsertAtLeast(s[1..], Block(s[0].addr, s[0].size + b.size), m);
      }
    }
  }

  // ---- Allocating: carve a block out --------------------------------------

  // A remainder that is large enough to stay on the free list.
  function Keep(b: Block, min: int): seq<Block> {
    if b.size >= min then [b] else []
  }

  // A remainder that is too small and is leaked.
  function Leak(b: Block, min: int): seq<Block> {
    if 0 < b.size < min then [b] else []
  }

  function Before(b: Block, pre: int): Block {
    Block(b.addr, pre)
  }

  function After(b: Block, pre: int, size: int): Block {
    Block(b.addr + pre + size, b.size - pre - size)
  }

  // The free list after [s[i].addr + pre, + size) has been taken out of s[i].
  function Carve(s: seq<Block>, i: int, pre: int, size: int, min: int): seq<Block>
    requires 0 <= i < |s|
  {
    s[..i] + (Keep(Before(s[i], pre), min) + Keep(After(s[i], pre, size), min)) + s[i + 1..]
  }

  function Leaks(b: Block, pre: int, size: int, min: int): seq<Block> {
    Leak(Before(b, pre), min) + Leak(After(b, pre, size), min)
  }

  lemma CarveCanonical(s: seq<Block>, i: int, pre: int, size: int, min: int)
    requires Canonical(s) && 0 <= i < |s| && min > 0
    requires 0 <= pre && 0 < size && pre + size <= s[i].size
    ensures Canonical(Carve(s, i, pre, size, min))
  {
    hide Canonical;
    var b := s[i];
    var before, after := Keep(Before(b, pre), min), Keep(After(b, pre, size), min);
    Around(s, i);
    KeepCanonical(Before(b, pre), min);
    KeepCanonical(After(b, pre, size), min);
    ConcatAt(before, after, b.addr + pre + 1, End(b) + 1);
    assert StartsFrom(before + after, b.addr);
    ConcatAt(s[..i], before + after, b.addr, End(b) + 1);
    ConcatAt(s[..i] + (before + after), s[i + 1..], End(b) + 1, Beyond(s[i + 1..], End(b) + 1));
  }

  ghost predicate EndsBelow(s: seq<Block>, x: int) {
    forall k :: 0 <= k < |s| ==> End(s[k]) < x
  }

  ghost predicate StartsFrom(s: seq<Block>, x: int) {
    forall k :: 0 <= k < |s| ==> x <= s[k].addr
  }

  // An address beyond all blocks
  ghost function Beyond(s: seq<Block>, x: int): (y: int)
    requires Canonical(s)
    ensures x <= y && EndsBelow(s, y)
  {
    if s == [] || End(s[|s| - 1]) < x then x else End(s[|s| - 1]) + 1
  }

  // The blocks on both sides of block i
  lemma Around(s: seq<Block>, i: int)
    requires Canonical(s) && 0 <= i < |s|
    ensures Canonical(s[..i]) && EndsBelow(s[..i], s[i].addr)
    ensures Canonical(s[i + 1..]) && StartsFrom(s[i + 1..], End(s[i]) + 1)
  {
  }

  lemma KeepCanonical(b: Block, min: int)
    requires min > 0
    ensures Canonical(Keep(b, min))
  {
  }

  lemma ConcatAt(s: seq<Block>, t: seq<Block>, x: int, y: int)
    requires Canonical(s) && Canonical(t) && EndsBelow(s, x) && StartsFrom(t, x) && EndsBelow(t, y) && x <= y
    ensures Canonical(s + t) && EndsBelow(s + t, y)
  {
    hide Canonical;
    ConcatCanonical(s, t);
  }

  lemma ConcatCanonical(s: seq<Block>, t: seq<Block>)
    requires Canonical(s) && Canonical(t)
    requires forall i, j :: 0 <= i < |s| && 0 <= j < |t| ==> End(s[i]) < t[j].addr
    ensures Canonical(s + t)
  {
    var u := s + t;
    forall i, j | 0 <= i < j < |u|
      ensures End(u[i]) < u[j].addr
    {
      if i < |s| { assert u[i] == s[i]; } else { assert u[i] == t[i - |s|]; }
      if j < |s| { assert u[j] == s[j]; } else { assert u[j] == t[j - |s|]; }
    }
  }

  lemma CarveCovers(s: seq<Block>, i: int, pre: int, size: int, min: int, a: int)
    requires Canonical(s) && 0 <= i < |s| && min > 0
    requires 0 <= pre && 0 < size && pre + size <= s[i].size
    ensures Covers(s, a) <==>
              Covers(Carve(s, i, pre, size, min), a) ||
              Inside(Block(s[i].addr + pre, size), a) ||
              Covers(Leaks(s[i], pre, size, min), a)
  {
    var b, before, after := s[i], Before(s[i], pre), After(s[i], pre, size);
    var m := Keep(before, min) + Keep(after, min);
    assert s == s[..i] + [b] + s[i + 1..];
    CoversConcat(s[..i] + [b], s[i + 1..], a);
    CoversConcat(s[..i], [b], a);
    CoversOne(b, a);
    CoversConcat(s[..i] + m, s[i + 1..], a);
    CoversConcat(s[..i], m, a);
    CoversConcat(Keep(before, min), Keep(after, min), a);
    CoversConcat(Leak(before, min), Leak(after, min), a);
    CoversOne(before, a);
    CoversOne(after, a);
  }

  lemma CarveSum(s: seq<Block>, i: int, pre: int, size: int, min: int)
    requires 0 <= i < |s| && min > 0
    requires 0 <= pre && 0 < size && pre + size <= s[i].size
    ensures Sum(s) == Sum(Carve(s, i, pre, size, min)) + size + Sum(Leaks(s[i], pre, size, min))
  {
    var before, after := Before(s[i], pre), After(s[i], pre, size);
    var m := Keep(before, min) + Keep(after, min);
    SumRemove(s, i);
    SumConcat(s[..i], s[i + 1..]);
    SumConcat(s[..i] + m, s[i + 1..]);
    SumConcat(s[..i], m);
    SumConcat(Keep(before, min), Keep(after, min));
    SumConcat(Leak(before, min), Leak(after, min));
    SumOne(before);
    SumOne(after);
  }
}
