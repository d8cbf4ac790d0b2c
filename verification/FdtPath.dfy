/**
 Device tree paths: fdt_path() of fdt.c, which writes a terminator over each
 delimiter of the path while it looks up a name, and puts the delimiter back.
 */
module FdtPath {
  import opened Words
  import opened DeviceTree
  import opened Fdt

  const SLASH := 0x2f

  // The next character that is a delimiter, or that is not, or the end
  function Until(s: seq<byte>, i: nat, slash: bool): (n: nat)
    requires i <= |s|
    ensures i <= n <= |s| && (n < |s| ==> (s[n] == SLASH) == slash)
    decreases |s| - i
  {
    if i == |s| || (s[i] == SLASH) == slash then i else Until(s, i + 1, slash)
  }

  // The names in a path, from position i
  function Names(s: seq<byte>, i: nat): seq<seq<byte>>
    requires i <= |s|
    decreases |s| - i
  {
    if i == |s| then []
    else
      var start := Until(s, i, false);
      [s[start..Until(s, start, true)]] + Names(s, Until(s, start, true))
  }

  lemma {:induction false} UntilIs(s: seq<byte>, i: nat, slash: bool, n: int)
    requires i <= n <= |s| && (n < |s| ==> (s[n] == SLASH) == slash)
    requires forall j :: i <= j < n ==> (s[j] == SLASH) != slash
    ensures Until(s, i, slash) == n
    decreases n - i
  {
    if i < n {
      UntilIs(s, i + 1, slash, n);
    }
  }

  // The first name, from `start` up to `end`
  lemma NamesStep(s: seq<byte>, i: nat, start: int, end: int)
    requires i < |s| && i <= start <= end <= |s|
    requires (forall j :: i <= j < start ==> s[j] == SLASH) && (start < |s| ==> s[start] != SLASH)
    requires (forall j :: start <= j < end ==> s[j] != SLASH) && (end < |s| ==> s[end] == SLASH)
    ensures Names(s, i) == [s[start..end]] + Names(s, end)
  {
    hide Until;
    UntilIs(s, i, false, start);
    UntilIs(s, start, true, end);
  }

  // ---- Joining names ------------------------------------------------------

  predicate IsName(s: seq<byte>) {
    s != [] && forall i :: 0 <= i < |s| ==> s[i] != SLASH
  }

  function Join(names: seq<seq<byte>>): seq<byte> {
    if names == [] then [] else [SLASH] + names[0] + Join(names[1..])
  }

  // A path: names that were joined, and perhaps a delimiter at the end
  ghost predicate Path(s: seq<byte>, i: nat, names: seq<seq<byte>>, trailing: bool) {
    && i <= |s| && s[i..] == Join(names) + (if trailing then [SLASH] else [])
    && forall k :: 0 <= k < |names| ==> IsName(names[k])
  }

  lemma PathStep(s: seq<byte>, i: nat, names: seq<seq<byte>>, trailing: bool)
    requires Path(s, i, names, trailing) && names != []
    ensures var end := i + 1 + |names[0]|;
            && i < |s| && end <= |s| && s[i] == SLASH && s[i + 1..end] == names[0]
            && (i + 1 < |s| ==> s[i + 1] != SLASH) && (forall j :: i + 1 <= j < end ==> s[j] != SLASH)
            && (end < |s| ==> s[end] == SLASH) && Path(s, end, names[1..], trailing)
  {
    var name, rest := names[0], Join(names[1..]) + (if trailing then [SLASH] else []);
    var end := i + 1 + |name|;
    assert s[i..] == [SLASH] + name + rest;
    assert s[i..][0] == SLASH && s[i..][1..1 + |name|] == name && s[i..][1 + |name|..] == rest;
    assert s[end..] == rest;
    assert s[i + 1..end] == name && IsName(name);
    assert forall j :: i + 1 <= j < end ==> s[j] == name[j - (i + 1)];
    assert end < |s| ==> s[end..][0] == SLASH;
  }

  // The names of a joined path are the names that were joined; a delimiter at
  // the end asks for one more name, the empty one.
  lemma {:induction false} NamesOfPath(s: seq<byte>, i: nat, names: seq<seq<byte>>, trailing: bool)
    requires Path(s, i, names, trailing)
    ensures Names(s, i) == names + (if trailing then [[]] else [])
    decreases |names|
  {
    hide Names, Path, IsName;
    var tail: seq<seq<byte>> := if trailing then [[]] else [];
    if names == [] {
      NamesAtEnd(s, i, trailing);
      assert names + tail == tail;
    } else {
      var end := i + 1 + |names[0]|;
      PathStep(s, i, names, trailing);
      NamesOfPath(s, end, names[1..], trailing);
      NamesStep(s, i, i + 1, end);
      Associative([names[0]], names[1..], tail);
      assert names == [names[0]] + names[1..];
    }
  }

  lemma NamesAtEnd(s: seq<byte>, i: nat, trailing: bool)
    requires Path(s, i, [], trailing)
    ensures Names(s, i) == if trailing then [[]] else []
  {
    assert s[i..] == if trailing then [SLASH] else [];
    if trailing {
      assert s[i] == s[i..][0] == SLASH;
      NamesStep(s, i, |s|, |s|);
      assert s[|s|..|s|] == [] && Names(s, |s|) == [];
    }
  }

  // ---- Lookup -------------------------------------------------------------

  // A string of length n in an array, with its terminator
  ghost predicate CString(path: array<byte>, n: int)
    reads path
  {
    0 <= n < path.Length && path[n] == 0 && NoNul(path[..n])
  }

  method ReadString(path: array<byte>, from: int, ghost n: int) returns (name: seq<byte>)
    requires 0 <= from <= n < path.Length && path[n] == 0
    requires forall i :: from <= i < n ==> path[i] != 0
    ensures name == path[from..n]
  {
    name := [];
    var i := from;
    while path[i] != 0
      invariant from <= i <= n && name == path[from..i]
      decreases n - i
    {
      name := name + [path[i]];
      i := i + 1;
    }
  }

  // Skip delimiters and find the end of the name that follows them.
  method NextName(path: array<byte>, from: int, ghost n: int) returns (start: int, end: int)
    requires CString(path, n) && 0 <= from < n
    ensures from <= start <= end <= n && from < end
    ensures Names(path[..n], from) == [path[start..end]] + Names(path[..n], end)
    ensures end < n ==> path[end] == SLASH
    ensures forall i :: start <= i < end ==> path[..n][i] != SLASH
  {
    hide Names;
    start := from;
    while path[start] == SLASH
      invariant from <= start <= n && forall i :: from <= i < start ==> path[i] == SLASH
      decreases n - start
    {
      start := start + 1;
    }
    end := start;
    while path[end] != 0 && path[end] != SLASH
      invariant start <= end <= n && forall i :: start <= i < end ==> path[i] != SLASH
      decreases n - end
    {
      end := end + 1;
    }
    NamesStep(path[..n], from, start, end);
    assert path[..n][start..end] == path[start..end];
  }

  // Look up one name, with a terminator in place of the delimiter after it.
  method LookupName(b: Blob, path: array<byte>, start: int, end: int, offset: int, ghost n: int,
                    ghost toks: seq<Tok>, ghost p: Place)
      returns (rc: Rc, child: int)
    requires CString(path, n) && 0 <= start <= end <= n && (end < n ==> path[end] == SLASH)
    requires NodeAt(b, toks, offset, p.s, p.node)
    modifies path
    ensures path[..] == old(path[..])
    ensures match First(p.node.items, ChildNamed(path[start..end]))
            case None => rc == ENOENT
            case Some(k) => rc == Ok && NodeAt(b, toks, child, ItemStart(p.s, p.node.items, k), p.node.items[k])
  {
    hide NodeAt, First, ItemStart;
    var delimited := path[end] == SLASH;
    if delimited {
      path[end] := 0;
    }
    assert forall i :: start <= i < end ==> path[i] == old(path[..n])[i];
    var name := ReadString(path, start, end);
    assert name == old(path[start..end]);
    rc, child := FindChild(b, offset, name, toks, p.s, p.node);
    if delimited {
      path[end] := SLASH;
    }
    assert path[..] == old(path[..]);
  }

  lemma ResolveStep(p: Place, name: seq<byte>, rest: seq<seq<byte>>)
    requires p.node.Child?
    ensures Resolve(p, [name] + rest) ==
            match First(p.node.items, ChildNamed(name))
            case None => None
            case Some(k) => Resolve(Place(ItemStart(p.s, p.node.items, k), p.node.items[k]), rest)
  {
    assert ([name] + rest)[1..] == rest;
  }

  // fdt_path()
  method Lookup(b: Blob, path: array<byte>, ghost n: int, ghost toks: seq<Tok>, ghost root: Place)
      returns (rc: Rc, offset: int)
    requires NodeAt(b, toks, 0, root.s, root.node) && CString(path, n)
    modifies path
    ensures path[..] == old(path[..])
    ensures match Resolve(root, Names(old(path[..n]), 0))
            case None => rc == ENOENT
            case Some(p) => rc == Ok && NodeAt(b, toks, offset, p.s, p.node)
  {
    hide NodeAt, Resolve, Names;
    offset := 0;
    var tmp := 0;
    ghost var all := path[..n];
    ghost var p := root;
    NodeIs(b, toks, 0, p);
    while path[tmp] != 0
      invariant 0 <= tmp <= n && path[..] == old(path[..]) && path[..n] == all
      invariant NodeAt(b, toks, offset, p.s, p.node) && p.node.Child?
      invariant Resolve(p, Names(all, tmp)) == Resolve(root, Names(all, 0))
      decreases n - tmp
    {
      var start, end := NextName(path, tmp, n);
      ghost var name := path[start..end];
      ResolveStep(p, name, Names(all, end));
      rc, offset := LookupName(b, path, start, end, offset, n, toks, p);
      assert path[..n] == path[..][..n] == all;
      if rc != Ok {
        return;
      }
      ghost var k := First(p.node.items, ChildNamed(name)).value;
      p := Place(ItemStart(p.s, p.node.items, k), p.node.items[k]);
      tmp := start;
      while path[tmp] != 0 && path[tmp] != SLASH
        invariant start <= tmp <= end
        decreases end - tmp
      {
        tmp := tmp + 1;
      }
      assert tmp == end;
      NodeIs(b, toks, offset, p);
    }
    assert tmp == n;
    PathDone(p, all);
    rc := Ok;
  }

  lemma PathDone(p: Place, s: seq<byte>)
    requires p.node.Child?
    ensures Resolve(p, Names(s, |s|)) == Some(p)
  {
  }

  lemma NodeIs(b: Blob, toks: seq<Tok>, offset: int, p: Place)
    requires NodeAt(b, toks, offset, p.s, p.node)
    ensures p.node.Child?
  {
  }

  // ---- What a list of names leads to --------------------------------------

  // The first of the node's own children with that name
  ghost predicate FirstChild(node: Item, name: seq<byte>, child: Item) {
    node.Child? && exists k :: ChildAt(node.items, name, child, k)
  }

  ghost predicate ChildAt(items: seq<Item>, name: seq<byte>, child: Item, k: int) {
    && 0 <= k < |items| && items[k] == child && child.Child? && child.name == name
    && forall j :: 0 <= j < k ==> !(items[j].Child? && items[j].name == name)
  }

  // Each node of the trail is such a child of the one before it.
  ghost predicate Trail(trail: seq<Item>, names: seq<seq<byte>>) {
    |trail| == |names| + 1 && forall i :: 0 <= i < |names| ==> FirstChild(trail[i], names[i], trail[i + 1])
  }

  lemma FirstChildIs(node: Item, name: seq<byte>)
    requires node.Child?
    ensures var r := First(node.items, ChildNamed(name));
            && (r.Some? ==> FirstChild(node, name, node.items[r.value]))
            && forall child :: FirstChild(node, name, child) ==> r.Some? && node.items[r.value] == child
  {
    var r := First(node.items, ChildNamed(name));
    if r.Some? {
      assert ChildAt(node.items, name, node.items[r.value], r.value);
    }
    forall child | FirstChild(node, name, child)
      ensures r.Some? && node.items[r.value] == child
    {
      var k :| ChildAt(node.items, name, child, k);
      assert Matches(ChildNamed(name), node.items[k]);
    }
  }

  // The names lead to a node exactly if there is a trail of children with those
  // names, and then to its end.
  lemma {:induction false} ResolveExactly(p: Place, names: seq<seq<byte>>)
    requires p.node.Child?
    ensures Resolve(p, names).Some? ==> exists trail :: IsTrail(trail, names, p.node, Resolve(p, names).value.node)
    ensures forall trail, last :: IsTrail(trail, names, p.node, last) ==>
              Resolve(p, names).Some? && Resolve(p, names).value.node == last
    decreases |names|
  {
    hide First, FirstChild;
    if names == [] {
      assert IsTrail([p.node], names, p.node, p.node);
    } else {
      FirstChildIs(p.node, names[0]);
      var r := First(p.node.items, ChildNamed(names[0]));
      if r.Some? {
        var q := Place(ItemStart(p.s, p.node.items, r.value), p.node.items[r.value]);
        ResolveExactly(q, names[1..]);
        if Resolve(q, names[1..]).Some? {
          var last := Resolve(q, names[1..]).value.node;
          var rest :| IsTrail(rest, names[1..], q.node, last);
          LongerTrail(rest, names, p.node, q.node, last);
        }
      }
      forall trail, last | IsTrail(trail, names, p.node, last)
        ensures Resolve(p, names).Some? && Resolve(p, names).value.node == last
      {
        assert FirstChild(trail[0], names[0], trail[1]);
        ShorterTrail(trail, names, p.node, last);
      }
    }
  }

  ghost predicate IsTrail(trail: seq<Item>, names: seq<seq<byte>>, first: Item, last: Item) {
    Trail(trail, names) && trail[0] == first && trail[|names|] == last
  }

  lemma LongerTrail(rest: seq<Item>, names: seq<seq<byte>>, node: Item, child: Item, last: Item)
    requires names != [] && FirstChild(node, names[0], child) && IsTrail(rest, names[1..], child, last)
    ensures IsTrail([node] + rest, names, node, last)
  {
    hide FirstChild;
    var trail := [node] + rest;
    forall i | 0 <= i < |names|
      ensures FirstChild(trail[i], names[i], trail[i + 1])
    {
      if i > 0 {
        assert FirstChild(rest[i - 1], names[1..][i - 1], rest[i - 1 + 1]);
      }
    }
  }

  lemma ShorterTrail(trail: seq<Item>, names: seq<seq<byte>>, node: Item, last: Item)
    requires names != [] && IsTrail(trail, names, node, last)
    ensures IsTrail(trail[1..], names[1..], trail[1], last)
  {
    hide FirstChild;
    forall i | 0 <= i < |names[1..]|
      ensures FirstChild(trail[1..][i], names[1..][i], trail[1..][i + 1])
    {
      assert FirstChild(trail[i + 1], names[i + 1], trail[i + 1 + 1]);
    }
  }
}
