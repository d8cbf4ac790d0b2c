/**
 The flattened device tree reader of fdt.c: one token at a time over raw
 memory, and the searches built on that.
 */
module Fdt {
  import opened Words
  import opened DeviceTree

  /** The memory around the device tree, addressed from its start, and what the
      header says: the total length, and where the blocks are. */
  datatype Blob = Blob(mem: int -> byte, len: int, structure: int, strings: int, stringsLen: int)

  datatype Rc = Ok | EINVAL | ENOENT

  /** A lexical descriptor: addresses of a name and of property data */
  datatype Desc = Desc(name: Option<int>, data: Option<int>, len: int)

  function ReadBe32(mem: int -> byte, at: int): int {
    mem(at) * 0x100_0000 + mem(at + 1) * 0x1_0000 + mem(at + 2) * 0x100 + mem(at + 3)
  }

  function Strnlen(mem: int -> byte, at: int, max: nat): (n: nat)
    ensures n <= max && (n < max ==> mem(at + n) == 0)
    ensures forall i :: at <= i < at + n ==> mem(i) != 0
    decreases max
  {
    if max == 0 || mem(at) == 0 then 0 else 1 + Strnlen(mem, at + 1, max - 1)
  }

  // strcmp ( name, <string at this address> ) == 0
  predicate StrEq(mem: int -> byte, at: int, name: seq<byte>) {
    (forall i :: 0 <= i < |name| ==> mem(at + i) == name[i]) && mem(at + |name|) == 0
  }

  function Aligned(n: int): int {
    (n + 3) / 4 * 4
  }

  const NO_DESC := Desc(None, None, 0)

  // fdt_traverse(): the new offset and depth, and what was found
  function Step(b: Blob, offset: int, depth: int): (Rc, int, int, Desc)
    requires 0 <= offset <= b.len
  {
    var at := b.structure + offset;
    var remaining := b.len - offset - 4;
    if remaining < 0 then (EINVAL, offset, depth, NO_DESC)
    else if ReadBe32(b.mem, at) == BEGIN_NODE then
      var len := Strnlen(b.mem, at + 4, remaining) + 1;
      if remaining < len then (EINVAL, offset, depth, NO_DESC.(name := Some(at + 4)))
      else (Ok, offset + 4 + Aligned(len), depth + 1, NO_DESC.(name := Some(at + 4)))
    else if ReadBe32(b.mem, at) == END_NODE then
      if depth < 0 then (EINVAL, offset, depth, NO_DESC)
      else if depth == 0 then (ENOENT, offset, depth - 1, NO_DESC)
      else (Ok, offset + 4, depth - 1, NO_DESC)
    else if ReadBe32(b.mem, at) == PROP then StepProp(b, offset, depth, remaining)
    else if ReadBe32(b.mem, at) == NOP then (Ok, offset + 4, depth, NO_DESC)
    else (EINVAL, offset, depth, NO_DESC)
  }

  function StepProp(b: Blob, offset: int, depth: int, remaining: int): (Rc, int, int, Desc) {
    var at := b.structure + offset + 4;
    var len := ReadBe32(b.mem, at);
    var nameOff := ReadBe32(b.mem, at + 4);
    var desc := Desc(None, Some(at + 8), len);
    if remaining < 8 then (EINVAL, offset, depth, NO_DESC)
    else if remaining < 8 + len then (EINVAL, offset, depth, desc)
    else if nameOff > b.stringsLen then (EINVAL, offset, depth, desc)
    else (Ok, offset + 4 + Aligned(8 + len), depth, desc.(name := Some(b.strings + nameOff)))
  }

  // ---- Well-formed trees --------------------------------------------------

  ghost predicate Holds(mem: int -> byte, at: int, s: seq<byte>) {
    forall i {:trigger s[i]} :: 0 <= i < |s| ==> mem(at + i) == s[i]
  }

  ghost predicate ValidTok(b: Blob, t: Tok) {
    match t
    case Begin(name) => NoNul(name)
    case Property(nameOff, data) => 0 <= nameOff <= b.stringsLen < 0x1_0000_0000 && |data| < 0x1_0000_0000
    case End => true
    case Skip => true
  }

  // The structure block consists of these tokens.
  ghost predicate Encoded(b: Blob, toks: seq<Tok>) {
    && 0 <= b.structure && b.structure + |Flat(toks)| <= b.len && Holds(b.mem, b.structure, Flat(toks))
    && forall i :: 0 <= i < |toks| ==> ValidTok(b, toks[i])
  }

  lemma HoldsPart(mem: int -> byte, at: int, s: seq<byte>, lo: int, hi: int)
    requires Holds(mem, at, s) && 0 <= lo <= hi <= |s|
    ensures Holds(mem, at + lo, s[lo..hi])
  {
    forall i | 0 <= i < |s[lo..hi]|
      ensures mem(at + lo + i) == s[lo..hi][i]
    {
      assert s[lo..hi][i] == s[lo + i];
    }
  }

  lemma HoldsSplit(mem: int -> byte, at: int, a: seq<byte>, b: seq<byte>)
    requires Holds(mem, at, a + b)
    ensures Holds(mem, at, a) && Holds(mem, at + |a|, b)
  {
    HoldsPart(mem, at, a + b, 0, |a|);
    HoldsPart(mem, at, a + b, |a|, |a + b|);
    assert (a + b)[0..|a|] == a && (a + b)[|a|..|a + b|] == b;
  }

  lemma ReadBack(mem: int -> byte, at: int, n: int)
    requires Holds(mem, at, Be32(n)) && 0 <= n < 0x1_0000_0000
    ensures ReadBe32(mem, at) == n
  {
    var s := Be32(n);
    assert mem(at + 0) == s[0] && mem(at + 1) == s[1] && mem(at + 2) == s[2] && mem(at + 3) == s[3];
    hide Holds;
    Digits(n);
  }

  lemma Digits(n: int)
    requires 0 <= n < 0x1_0000_0000
    ensures n == n / 0x100_0000 % 256 * 0x100_0000 + n / 0x1_0000 % 256 * 0x1_0000 + n / 0x100 % 256 * 0x100 + n % 256
  {
    var a := n / 0x100;
    assert a / 0x100 == n / 0x1_0000;
    var b := n / 0x1_0000;
    assert b / 0x100 == n / 0x100_0000;
  }

  // A name, its terminator, and no other terminator before that.
  lemma NameHeld(mem: int -> byte, at: int, name: seq<byte>)
    requires Holds(mem, at, name) && NoNul(name)
    ensures forall j :: at <= j < at + |name| ==> mem(j) == name[j - at] && mem(j) != 0
  {
    forall j | at <= j < at + |name|
      ensures mem(j) == name[j - at] && mem(j) != 0
    {
      assert mem(at + (j - at)) == name[j - at];
    }
  }

  lemma NameLength(mem: int -> byte, at: int, name: seq<byte>, max: nat)
    requires Holds(mem, at, name + [0]) && NoNul(name) && |name| < max
    ensures Strnlen(mem, at, max) == |name|
  {
    HoldsSplit(mem, at, name, [0]);
    NameHeld(mem, at, name);
    assert mem(at + |name| + 0) == [0][0];
  }

  lemma NameMatches(mem: int -> byte, at: int, name: seq<byte>, other: seq<byte>)
    requires Holds(mem, at, name + [0]) && NoNul(name) && NoNul(other)
    ensures StrEq(mem, at, other) <==> name == other
  {
    HoldsSplit(mem, at, name, [0]);
    NameHeld(mem, at, name);
    assert mem(at + |name| + 0) == [0][0];
    if StrEq(mem, at, other) {
      assert Holds(mem, at, other);
      NameHeld(mem, at, other);
      assert |name| == |other|;
      assert forall i :: 0 <= i < |name| ==> name[i] == mem(at + i) == other[i];
    }
  }

  // ---- One token ----------------------------------------------------------

  // The bytes of token i are in memory.
  lemma TokenHeld(b: Blob, toks: seq<Tok>, i: int)
    requires Encoded(b, toks) && 0 <= i < |toks|
    ensures 0 <= Start(toks, i) && Start(toks, i + 1) == Start(toks, i) + |Bytes(toks[i])| <= b.len - b.structure
    ensures Holds(b.mem, b.structure + Start(toks, i), Bytes(toks[i])) && ValidTok(b, toks[i])
  {
    hide Bytes, Flat, ValidTok;
    StartNext(toks, i);
    HoldsPart(b.mem, b.structure, Flat(toks), Start(toks, i), Start(toks, i + 1));
  }

  // What fdt_traverse() returns for a token at this offset.
  function Lexed(b: Blob, t: Tok, offset: int, depth: int): (Rc, int, int, Desc) {
    var next := offset + |Bytes(t)|;
    match t
    case Begin(_) => (Ok, next, depth + 1, NO_DESC.(name := Some(b.structure + offset + 4)))
    case End =>
      if depth < 0 then (EINVAL, offset, depth, NO_DESC)
      else if depth == 0 then (ENOENT, offset, depth - 1, NO_DESC)
      else (Ok, next, depth - 1, NO_DESC)
    case Property(nameOff, data) =>
      (Ok, next, depth, Desc(Some(b.strings + nameOff), Some(b.structure + offset + 12), |data|))
    case Skip => (Ok, next, depth, NO_DESC)
  }

  lemma StepToken(b: Blob, t: Tok, offset: int, depth: int)
    requires 0 <= offset && 0 <= b.structure && b.structure + offset + |Bytes(t)| <= b.len && ValidTok(b, t)
    requires Holds(b.mem, b.structure + offset, Bytes(t))
    ensures Step(b, offset, depth) == Lexed(b, t, offset, depth)
  {
    hide Holds, ReadBe32, Be32, Strnlen, Padded;
    var at := b.structure + offset;
    match t
    case Begin(name) =>
      HoldsSplit(b.mem, at, Be32(BEGIN_NODE), Padded(name + [0]));
      ReadBack(b.mem, at, BEGIN_NODE);
      HoldsPadded(b.mem, at + 4, name + [0]);
      NameLength(b.mem, at + 4, name, b.len - offset - 4);
    case End =>
      ReadBack(b.mem, at, END_NODE);
    case Property(nameOff, data) =>
      PropHeld(b.mem, at, nameOff, data);
    case Skip =>
      ReadBack(b.mem, at, NOP);
  }

  lemma HoldsPadded(mem: int -> byte, at: int, s: seq<byte>)
    requires Holds(mem, at, Padded(s))
    ensures Holds(mem, at, s) && |Padded(s)| == Aligned(|s|)
  {
    HoldsPart(mem, at, Padded(s), 0, |s|);
    assert Padded(s)[0..|s|] == s;
  }

  lemma PropHeld(mem: int -> byte, at: int, nameOff: int, data: seq<byte>)
    requires Holds(mem, at, Bytes(Property(nameOff, data)))
    requires 0 <= nameOff < 0x1_0000_0000 && |data| < 0x1_0000_0000
    ensures ReadBe32(mem, at) == PROP && ReadBe32(mem, at + 4) == |data| && ReadBe32(mem, at + 8) == nameOff
    ensures Holds(mem, at + 12, data) && |Bytes(Property(nameOff, data))| == 4 + Aligned(8 + |data|)
  {
    hide Holds, ReadBe32, Be32, Padded;
    HoldsSplit(mem, at, Be32(PROP) + Be32(|data|) + Be32(nameOff), Padded(data));
    HoldsSplit(mem, at, Be32(PROP) + Be32(|data|), Be32(nameOff));
    HoldsSplit(mem, at, Be32(PROP), Be32(|data|));
    ReadBack(mem, at, PROP);
    ReadBack(mem, at + 4, |data|);
    ReadBack(mem, at + 8, nameOff);
    HoldsPadded(mem, at + 12, data);
  }

  class Cursor {
    var offset: int
    var depth: int

    constructor (offset: int, depth: int)
      ensures this.offset == offset && this.depth == depth
    {
      this.offset, this.depth := offset, depth;
    }

    // fdt_traverse()
    method Traverse(b: Blob) returns (rc: Rc, desc: Desc)
      requires 0 <= offset <= b.len
      modifies this
      ensures (rc, offset, depth, desc) == Step(b, old(offset), old(depth))
    {
      hide ReadBe32, Strnlen;
      desc := NO_DESC;
      var at := b.structure + offset;
      var remaining := b.len - offset;
      if remaining < 4 {
        return EINVAL, desc;
      }
      remaining := remaining - 4;
      var len := 0;
      var token := ReadBe32(b.mem, at);
      if token == BEGIN_NODE {
        desc := desc.(name := Some(at + 4));
        len := Strnlen(b.mem, at + 4, remaining) + 1;
        if remaining < len {
          return EINVAL, desc;
        }
        depth := depth + 1;
      } else if token == END_NODE {
        if depth < 0 {
          return EINVAL, desc;
        }
        depth := depth - 1;
        if depth < 0 {
          return ENOENT, desc;
        }
      } else if token == PROP {
        if remaining < 8 {
          return EINVAL, desc;
        }
        desc := desc.(data := Some(at + 12), len := ReadBe32(b.mem, at + 4));
        len := 8 + desc.len;
        if remaining < len {
          return EINVAL, desc;
        }
        var nameOff := ReadBe32(b.mem, at + 8);
        if nameOff > b.stringsLen {
          return EINVAL, desc;
        }
        desc := desc.(name := Some(b.strings + nameOff));
      } else if token == NOP {
      } else {
        return EINVAL, desc;
      }
      offset := offset + 4 + Aligned(len);
      rc := Ok;
    }
  }

  // ---- Searches -----------------------------------------------------------

  function PropNamed(b: Blob, name: seq<byte>): Want {
    PropWhere(off => StrEq(b.mem, b.strings + off, name))
  }

  // The test that fdt_child() makes of each token
  predicate IsChild(b: Blob, depth: int, desc: Desc, name: seq<byte>) {
    depth == 1 && desc.name.Some? && desc.data.None? && StrEq(b.mem, desc.name.value, name)
  }

  // The test that fdt_property() makes of each token
  predicate IsProp(b: Blob, depth: int, desc: Desc, name: seq<byte>) {
    depth == 0 && desc.data.Some? && desc.name.Some? && StrEq(b.mem, desc.name.value, name)
  }

  // One step of a search over the tokens
  lemma StepScan(b: Blob, toks: seq<Tok>, i: int, depth: int, want: Want)
    requires Encoded(b, toks) && 0 <= i < |toks| && Scan(toks, i, depth, want) != Invalid
    ensures 0 <= Start(toks, i) <= b.len && Start(toks, i + 1) <= b.len
    ensures var (rc, offset, after, desc) := Step(b, Start(toks, i), depth);
            && (rc == Ok ==> offset == Start(toks, i + 1) && after == After(toks[i], depth))
            && (rc == Ok && !Hit(want, toks[i], after) ==>
                  Scan(toks, i + 1, after, want) == Scan(toks, i, depth, want) && i + 1 < |toks|)
            && (rc == Ok && Hit(want, toks[i], after) ==> Scan(toks, i, depth, want) == At(i))
            && (rc != Ok ==> rc == ENOENT && Scan(toks, i, depth, want) == NoEntry)
  {
    hide Bytes, Hit, Start, Holds, Step, Encoded;
    assert b.structure >= 0 by { EncodedStart(b, toks); }
    TokenHeld(b, toks, i);
    StepToken(b, toks[i], Start(toks, i), depth);
  }

  lemma EncodedStart(b: Blob, toks: seq<Tok>)
    requires Encoded(b, toks)
    ensures b.structure >= 0
  {
  }

  lemma StepIsChild(b: Blob, toks: seq<Tok>, i: int, depth: int, name: seq<byte>)
    requires Encoded(b, toks) && 0 <= i < |toks| && NoNul(name) && 0 <= Start(toks, i) <= b.len
    ensures var (rc, _, after, desc) := Step(b, Start(toks, i), depth);
            rc == Ok ==> (IsChild(b, after, desc, name) <==> Hit(ChildNamed(name), toks[i], after))
  {
    hide Start, Holds, Step, StrEq, Be32, Padded, Encoded;
    assert b.structure >= 0 by { EncodedStart(b, toks); }
    TokenHeld(b, toks, i);
    StepToken(b, toks[i], Start(toks, i), depth);
    if toks[i].Begin? {
      var at := b.structure + Start(toks, i);
      HoldsSplit(b.mem, at, Be32(BEGIN_NODE), Padded(toks[i].name + [0]));
      HoldsPadded(b.mem, at + 4, toks[i].name + [0]);
      NameMatches(b.mem, at + 4, toks[i].name, name);
    }
  }

  lemma StepIsProp(b: Blob, toks: seq<Tok>, i: int, depth: int, name: seq<byte>)
    requires Encoded(b, toks) && 0 <= i < |toks| && 0 <= Start(toks, i) <= b.len
    ensures var (rc, _, after, desc) := Step(b, Start(toks, i), depth);
            rc == Ok ==>
              && (IsProp(b, after, desc, name) <==> Hit(PropNamed(b, name), toks[i], after))
              && (toks[i].Property? ==>
                    desc.data.Some? && desc.len == |toks[i].data| && Holds(b.mem, desc.data.value, toks[i].data))
  {
    hide Start, Holds, Step, StrEq, Be32, Padded, Encoded;
    assert b.structure >= 0 by { EncodedStart(b, toks); }
    TokenHeld(b, toks, i);
    StepToken(b, toks[i], Start(toks, i), depth);
    if toks[i].Property? {
      PropHeld(b.mem, b.structure + Start(toks, i), toks[i].nameOff, toks[i].data);
    }
  }

  // A node starts at this offset, or after tokens there that mean nothing.
  ghost predicate NodeAt(b: Blob, toks: seq<Tok>, offset: int, s: int, node: Item) {
    && node.Child? && Encoded(b, toks) && Here(toks, s, NodeToks(node))
    && exists s0 :: LeadsTo(toks, s0, s) && offset == Start(toks, s0)
  }

  lemma NodeHere(b: Blob, toks: seq<Tok>, s: int, node: Item)
    requires node.Child? && Encoded(b, toks) && Here(toks, s, NodeToks(node))
    ensures 0 <= s < |toks| && NodeAt(b, toks, Start(toks, s), s, node)
  {
    hide Encoded, Start;
    assert LeadsTo(toks, s, s);
  }

  // fdt_child(): the first immediate child of the name, and no deeper node
  method FindChild(b: Blob, offset: int, name: seq<byte>, ghost toks: seq<Tok>, ghost s: int, ghost node: Item)
      returns (rc: Rc, child: int)
    requires NodeAt(b, toks, offset, s, node) && NoNul(name)
    ensures match First(node.items, ChildNamed(name))
            case None => rc == ENOENT
            case Some(k) => rc == Ok && NodeAt(b, toks, child, ItemStart(s, node.items, k), node.items[k])
  {
    hide Start, Step, Scan, Hit, StrEq, Encoded, NodeToks, Here, First, NodeAt;
    ghost var want := ChildNamed(name);
    ghost var s0 := NodeStart(b, toks, offset, s, node, want);
    ChildHereIf(b, toks, s, node, want);
    var pos := new Cursor(offset, -1);
    ghost var i := s0;
    while true
      invariant 0 <= i < |toks| && pos.offset == Start(toks, i)
      invariant Scan(toks, i, pos.depth, want) == Scan(toks, s0, -1, want)
      decreases |toks| - i
    {
      child := pos.offset;
      StepScan(b, toks, i, pos.depth, want);
      StepIsChild(b, toks, i, pos.depth, name);
      var desc;
      rc, desc := pos.Traverse(b);
      if rc != Ok {
        return;
      }
      if IsChild(b, pos.depth, desc, name) {
        return;
      }
      i := i + 1;
    }
  }

  // Where a search of a node starts, and what it finds
  lemma NodeStart(b: Blob, toks: seq<Tok>, offset: int, s: int, node: Item, want: Want) returns (s0: int)
    requires NodeAt(b, toks, offset, s, node)
    ensures Encoded(b, toks) && node.Child? && Here(toks, s, NodeToks(node))
    ensures 0 <= s0 < |toks| && offset == Start(toks, s0)
    ensures Scan(toks, s0, -1, want) ==
            match First(node.items, want)
            case None => NoEntry
            case Some(k) => At(ItemStart(s, node.items, k))
  {
    hide Start, Scan, Encoded, NodeToks, Here;
    s0 :| LeadsTo(toks, s0, s) && offset == Start(toks, s0);
    ScanLead(toks, s0, s, -1, want);
    ScanNode(toks, s, node, want);
  }

  lemma ChildHereIf(b: Blob, toks: seq<Tok>, s: int, node: Item, want: Want)
    requires node.Child? && Encoded(b, toks) && Here(toks, s, NodeToks(node)) && want.ChildNamed?
    ensures First(node.items, want).Some? ==>
              var k := First(node.items, want).value;
              var i := ItemStart(s, node.items, k);
              0 <= k < |node.items| && 0 <= i < |toks| && NodeAt(b, toks, Start(toks, i), i, node.items[k])
  {
    hide NodeAt, NodeToks, Here, Encoded, Start;
    var r := First(node.items, want);
    if r.Some? {
      ChildHere(toks, s, node, r.value);
      NodeHere(b, toks, ItemStart(s, node.items, r.value), node.items[r.value]);
    }
  }

  // fdt_property(): the first of the node's own properties of the name, never
  // one of a node below it
  method FindProperty(b: Blob, offset: int, name: seq<byte>, ghost toks: seq<Tok>, ghost s: int, ghost node: Item)
      returns (rc: Rc, desc: Desc)
    requires NodeAt(b, toks, offset, s, node)
    ensures match First(node.items, PropNamed(b, name))
            case None => rc == ENOENT
            case Some(k) =>
              && rc == Ok && desc.len == |node.items[k].data|
              && desc.data.Some? && Holds(b.mem, desc.data.value, node.items[k].data)
  {
    hide Start, Step, Scan, Hit, StrEq, Encoded, NodeToks, Here, First, Holds, PropNamed, NodeAt;
    ghost var want := PropNamed(b, name);
    ghost var s0 := NodeStart(b, toks, offset, s, node, want);
    PropHere(b, toks, s, node, name);
    var pos := new Cursor(offset, -1);
    ghost var i := s0;
    while true
      invariant 0 <= i < |toks| && pos.offset == Start(toks, i)
      invariant Scan(toks, i, pos.depth, want) == Scan(toks, s0, -1, want)
      decreases |toks| - i
    {
      StepScan(b, toks, i, pos.depth, want);
      StepIsProp(b, toks, i, pos.depth, name);
      rc, desc := pos.Traverse(b);
      if rc != Ok {
        return;
      }
      if IsProp(b, pos.depth, desc, name) {
        return;
      }
      i := i + 1;
    }
  }

  lemma PropHere(b: Blob, toks: seq<Tok>, s: int, node: Item, name: seq<byte>)
    requires node.Child? && Here(toks, s, NodeToks(node))
    ensures var r := First(node.items, PropNamed(b, name));
            r.Some? ==>
              && 0 <= r.value < |node.items| && node.items[r.value].Prop?
              && 0 <= ItemStart(s, node.items, r.value) < |toks|
              && toks[ItemStart(s, node.items, r.value)] == Property(node.items[r.value].nameOff, node.items[r.value].data)
  {
    var r := First(node.items, PropNamed(b, name));
    if r.Some? {
      ItemHere(toks, s, node, r.value);
      var item := node.items[r.value];
      Next(toks, ItemStart(s, node.items, r.value), Property(item.nameOff, item.data));
    }
  }
}
