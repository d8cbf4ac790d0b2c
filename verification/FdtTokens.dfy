/**
 What fdt_traverse() makes of memory that may hold anything: it accepts exactly
 the tokens of the structure block that are there in full.
 */
module FdtTokens {
  import opened Words
  import opened DeviceTree
  import opened Fdt

  // The bytes of a token without those that fill up its last word, which may
  // have any value.
  function Written(t: Tok): seq<byte> {
    match t
    case Begin(name) => [0, 0, 0, 1] + name + [0]
    case End => [0, 0, 0, 2]
    case Property(nameOff, data) => [0, 0, 0, 3] + Be32(|data|) + Be32(nameOff) + data
    case Skip => [0, 0, 0, 4]
  }

  // The token is in memory at this offset, before the end.
  ghost predicate Present(b: Blob, t: Tok, offset: int) {
    ValidTok(b, t) && Holds(b.mem, b.structure + offset, Written(t)) && offset + |Written(t)| <= b.len
  }

  lemma SmallBe32(n: byte)
    ensures Be32(n) == [0, 0, 0, n]
  {
  }

  lemma Lengths(t: Tok)
    ensures t.Begin? ==> |Bytes(t)| == 4 + Aligned(|t.name| + 1)
    ensures t.Property? ==> |Bytes(t)| == 4 + Aligned(8 + |t.data|)
  {
    match t
    case Begin(name) => PaddedLength(name + [0]);
    case Property(_, data) =>
      PaddedLength(data);
      assert Aligned(8 + |data|) == 8 + Aligned(|data|);
    case End =>
    case Skip =>
  }

  lemma PaddedLength(s: seq<byte>)
    ensures |Padded(s)| == Aligned(|s|)
  {
  }

  // A token that is there is read as what it is.
  lemma TokenRead(b: Blob, t: Tok, offset: int, depth: int)
    requires 0 <= offset <= b.len && Present(b, t, offset)
    ensures Step(b, offset, depth) == Lexed(b, t, offset, depth)
  {
    hide Holds, ReadBe32, Be32, Strnlen, Bytes;
    var at := b.structure + offset;
    Lengths(t);
    match t
    case Begin(name) =>
      SmallBe32(1);
      assert [0, 0, 0, 1] + name + [0] == Be32(1) + (name + [0]);
      HoldsSplit(b.mem, at, Be32(1), name + [0]);
      ReadBack(b.mem, at, 1);
      NameLength(b.mem, at + 4, name, b.len - offset - 4);
    case End =>
      SmallBe32(2);
      ReadBack(b.mem, at, 2);
      EndLength();
    case Property(nameOff, data) =>
      PropertyRead(b.mem, at, nameOff, data);
    case Skip =>
      SmallBe32(4);
      ReadBack(b.mem, at, 4);
      EndLength();
  }

  lemma EndLength()
    ensures |Bytes(End)| == 4 && |Bytes(Skip)| == 4
  {
  }

  lemma PropertyRead(mem: int -> byte, at: int, nameOff: int, data: seq<byte>)
    requires Holds(mem, at, Written(Property(nameOff, data)))
    requires 0 <= nameOff < 0x1_0000_0000 && |data| < 0x1_0000_0000
    ensures ReadBe32(mem, at) == 3 && ReadBe32(mem, at + 4) == |data| && ReadBe32(mem, at + 8) == nameOff
  {
    hide Holds, ReadBe32, Be32;
    SmallBe32(3);
    HoldsSplit(mem, at, Be32(3) + Be32(|data|) + Be32(nameOff), data);
    HoldsSplit(mem, at, Be32(3) + Be32(|data|), Be32(nameOff));
    HoldsSplit(mem, at, Be32(3), Be32(|data|));
    ReadBack(mem, at, 3);
    ReadBack(mem, at + 4, |data|);
    ReadBack(mem, at + 8, nameOff);
  }

  // ---- Only such tokens ---------------------------------------------------

  lemma Be32Read(mem: int -> byte, at: int)
    ensures 0 <= ReadBe32(mem, at) < 0x1_0000_0000 && Holds(mem, at, Be32(ReadBe32(mem, at)))
  {
    var a, b, c, d := mem(at), mem(at + 1), mem(at + 2), mem(at + 3);
    var n := ReadBe32(mem, at);
    FourBytes(a, b, c, d);
    assert Be32(n) == [a, b, c, d];
  }

  lemma FourBytes(a: byte, b: byte, c: byte, d: byte)
    ensures var n := a * 0x100_0000 + b * 0x1_0000 + c * 0x100 + d;
            n / 0x100_0000 % 256 == a && n / 0x1_0000 % 256 == b && n / 0x100 % 256 == c && n % 256 == d
  {
    var n := a * 0x100_0000 + b * 0x1_0000 + c * 0x100 + d;
    assert n / 0x100 == a * 0x1_0000 + b * 0x100 + c;
    assert n / 0x1_0000 == a * 0x100 + b;
    assert n / 0x100_0000 == a;
  }

  lemma HoldsBoth(mem: int -> byte, at: int, a: seq<byte>, b: seq<byte>)
    requires Holds(mem, at, a) && Holds(mem, at + |a|, b)
    ensures Holds(mem, at, a + b)
  {
    forall i | 0 <= i < |a + b|
      ensures mem(at + i) == (a + b)[i]
    {
      if i >= |a| {
        assert mem(at + |a| + (i - |a|)) == b[i - |a|];
      } else {
        assert mem(at + i) == a[i];
      }
    }
  }

  // What is in memory
  function Stretch(mem: int -> byte, at: int, n: nat): (s: seq<byte>)
    ensures |s| == n
  {
    seq(n, i requires 0 <= i < n => mem(at + i))
  }

  lemma StretchHeld(mem: int -> byte, at: int, n: nat)
    ensures Holds(mem, at, Stretch(mem, at, n))
  {
  }

  lemma NameThere(b: Blob, offset: int)
    requires 0 <= offset <= b.len - 4 && ReadBe32(b.mem, b.structure + offset) == 1
    requires Strnlen(b.mem, b.structure + offset + 4, b.len - offset - 4) < b.len - offset - 4
    ensures exists t :: Present(b, t, offset) && t.Begin?
  {
    hide Be32, ReadBe32, Holds;
    var at := b.structure + offset;
    var n := Strnlen(b.mem, at + 4, b.len - offset - 4);
    var name := Stretch(b.mem, at + 4, n);
    Be32Read(b.mem, at);
    SmallBe32(1);
    StretchHeld(b.mem, at + 4, n + 1);
    assert Stretch(b.mem, at + 4, n + 1) == name + [0];
    HoldsBoth(b.mem, at, Be32(1), name + [0]);
    assert [0, 0, 0, 1] + name + [0] == Be32(1) + (name + [0]);
    assert Present(b, Begin(name), offset);
  }

  lemma PropertyThere(b: Blob, offset: int)
    requires 0 <= offset <= b.len - 12 && ReadBe32(b.mem, b.structure + offset) == 3
    requires 12 + ReadBe32(b.mem, b.structure + offset + 4) <= b.len - offset
    requires ReadBe32(b.mem, b.structure + offset + 8) <= b.stringsLen < 0x1_0000_0000
    ensures exists t :: Present(b, t, offset) && t.Property?
  {
    hide Be32, ReadBe32, Holds;
    var at := b.structure + offset;
    Be32Read(b.mem, at);
    Be32Read(b.mem, at + 4);
    Be32Read(b.mem, at + 8);
    var len, nameOff := ReadBe32(b.mem, at + 4), ReadBe32(b.mem, at + 8);
    SmallBe32(3);
    StretchHeld(b.mem, at + 12, len);
    HoldsBoth(b.mem, at, Be32(3), Be32(len));
    HoldsBoth(b.mem, at, Be32(3) + Be32(len), Be32(nameOff));
    HoldsBoth(b.mem, at, Be32(3) + Be32(len) + Be32(nameOff), Stretch(b.mem, at + 12, len));
    assert Present(b, Property(nameOff, Stretch(b.mem, at + 12, len)), offset);
  }

  lemma WordThere(b: Blob, offset: int)
    requires 0 <= offset <= b.len - 4
    ensures ReadBe32(b.mem, b.structure + offset) == 2 ==> Present(b, End, offset)
    ensures ReadBe32(b.mem, b.structure + offset) == 4 ==> Present(b, Skip, offset)
  {
    hide Be32, ReadBe32, Holds;
    Be32Read(b.mem, b.structure + offset);
    SmallBe32(2);
    SmallBe32(4);
  }

  // The memory is refused if and only if no token is there in full, or one that
  // ends a node which was never begun.
  lemma RefusedExactly(b: Blob, offset: int, depth: int)
    requires 0 <= offset <= b.len && 0 <= b.stringsLen < 0x1_0000_0000
    ensures Step(b, offset, depth).0 == EINVAL <==> !exists t :: Present(b, t, offset) && (t.End? ==> depth >= 0)
  {
    hide Present, Lexed, Strnlen, ReadBe32;
    if t :| Present(b, t, offset) && (t.End? ==> depth >= 0) {
      TokenRead(b, t, offset, depth);
      NotRefused(b, t, offset, depth);
    }
    if Step(b, offset, depth).0 != EINVAL {
      var token := ReadBe32(b.mem, b.structure + offset);
      WordThere(b, offset);
      if token == 1 {
        NameThere(b, offset);
      } else if token == 3 {
        PropertyThere(b, offset);
      }
    }
  }

  lemma NotRefused(b: Blob, t: Tok, offset: int, depth: int)
    ensures Lexed(b, t, offset, depth).0 == EINVAL <==> t.End? && depth < 0
  {
  }

  lemma SmallBegin(name: seq<byte>)
    requires name == [0x61]
    ensures Bytes(Begin(name)) == [0, 0, 0, 1, 0x61, 0, 0, 0]
  {
    assert name + [0] == [0x61, 0];
    assert Padded([0x61, 0]) == [0x61, 0, 0, 0];
  }

  lemma SmallProperty(data: seq<byte>)
    requires data == [7, 8]
    ensures Bytes(Property(5, data)) == [0, 0, 0, 3, 0, 0, 0, 2, 0, 0, 0, 5, 7, 8, 0, 0]
  {
    hide Be32;
    SmallBe32(3);
    SmallBe32(2);
    SmallBe32(5);
    assert Padded(data) == [7, 8, 0, 0];
  }

  // A node "a" that contains a property of two bytes, in memory
  lemma SmallTree(name: seq<byte>, data: seq<byte>)
    requires name == [0x61] && data == [7, 8]
    ensures Flat(NodeToks(Child(name, [Prop(5, data)]))) ==
            [0, 0, 0, 1, 0x61, 0, 0, 0,
             0, 0, 0, 3, 0, 0, 0, 2, 0, 0, 0, 5, 7, 8, 0, 0,
             0, 0, 0, 2]
  {
    hide Bytes, Flat;
    SmallBegin(name);
    SmallProperty(data);
    SmallEnd();
    var a, b, c := Begin(name), Property(5, data), End;
    OneItem(name, Prop(5, data));
    FlatConcat([a, b], [c]);
    FlatConcat([a], [b]);
    FlatOne(a);
    FlatOne(b);
    FlatOne(c);
    assert [a] + [b] == [a, b] && [a, b] + [c] == [a, b, c];
  }

  lemma SmallEnd()
    ensures Bytes(End) == [0, 0, 0, 2]
  {
    SmallBe32(2);
  }

  lemma OneItem(name: seq<byte>, item: Item)
    requires item.Prop?
    ensures NodeToks(Child(name, [item])) == [Begin(name), Property(item.nameOff, item.data), End]
  {
    var items := [item];
    assert items[1..] == [];
    assert Toks(items) == ItemToks(item) + Toks(items[1..]);
    assert Toks(items) == [Property(item.nameOff, item.data)];
  }

  lemma FlatOne(t: Tok)
    ensures Flat([t]) == Bytes(t)
  {
    hide Bytes;
    assert [t][1..] == [];
  }
}
