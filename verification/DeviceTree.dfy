/**
 Flattened device trees: trees of nodes and properties, and how section 5.4 of
 the Devicetree Specification lays them out in memory.
 */
module DeviceTree {
  import opened Words

  const BEGIN_NODE := 1
  const END_NODE := 2
  const PROP := 3
  const NOP := 4

  /** What a node contains, in any order.  A property names itself by an offset
      into the strings block. */
  datatype Item = Nothing | Prop(nameOff: int, data: seq<byte>) | Child(name: seq<byte>, items: seq<Item>)

  /** A lexical token of the structure block */
  datatype Tok = Begin(name: seq<byte>) | End | Property(nameOff: int, data: seq<byte>) | Skip

  function NodeToks(node: Item): seq<Tok>
    requires node.Child?
  {
    [Begin(node.name)] + Toks(node.items) + [End]
  }

  function ItemToks(item: Item): seq<Tok> {
    match item
    case Nothing => [Skip]
    case Prop(nameOff, data) => [Property(nameOff, data)]
    case Child(name, items) => [Begin(name)] + Toks(items) + [End]
  }

  function Toks(items: seq<Item>): seq<Tok> {
    if items == [] then [] else ItemToks(items[0]) + Toks(items[1..])
  }

  // ---- Bytes --------------------------------------------------------------

  function Be32(n: int): (s: seq<byte>)
    ensures |s| == 4
  {
    [n / 0x100_0000 % 256, n / 0x1_0000 % 256, n / 0x100 % 256, n % 256]
  }

  function Padded(s: seq<byte>): (r: seq<byte>)
    ensures |r| % 4 == 0 && |s| <= |r| < |s| + 4 && s <= r
  {
    s + seq((4 - |s| % 4) % 4, _ => 0)
  }

  function Bytes(t: Tok): (s: seq<byte>)
    ensures |s| % 4 == 0 && |s| >= 4
  {
    match t
    case Begin(name) => Be32(BEGIN_NODE) + Padded(name + [0])
    case End => Be32(END_NODE)
    case Property(nameOff, data) => Be32(PROP) + Be32(|data|) + Be32(nameOff) + Padded(data)
    case Skip => Be32(NOP)
  }

  function Flat(toks: seq<Tok>): seq<byte> {
    if toks == [] then [] else Bytes(toks[0]) + Flat(toks[1..])
  }

  // Where a token starts.
  function Start(toks: seq<Tok>, i: int): int
    requires 0 <= i <= |toks|
  {
    |Flat(toks[..i])|
  }

  lemma {:induction false} FlatConcat(a: seq<Tok>, b: seq<Tok>)
    ensures Flat(a + b) == Flat(a) + Flat(b)
  {
    hide Bytes;
    if a == [] {
      assert a + b == b;
    } else {
      FlatConcat(a[1..], b);
      assert (a + b)[1..] == a[1..] + b;
      Associative(Bytes(a[0]), Flat(a[1..]), Flat(b));
    }
  }

  // The bytes of a token are the next part of the block.
  lemma StartNext(toks: seq<Tok>, i: int)
    requires 0 <= i < |toks|
    ensures Start(toks, i + 1) == Start(toks, i) + |Bytes(toks[i])| <= |Flat(toks)|
    ensures Flat(toks)[Start(toks, i)..Start(toks, i + 1)] == Bytes(toks[i])
  {
    hide Bytes;
    assert toks[..i + 1] == toks[..i] + [toks[i]];
    assert toks == toks[..i + 1] + toks[i + 1..];
    FlatConcat(toks[..i], [toks[i]]);
    FlatConcat(toks[..i + 1], toks[i + 1..]);
    assert Flat([toks[i]]) == Bytes(toks[i]);
  }

  lemma {:induction false} ToksConcat(a: seq<Item>, b: seq<Item>)
    ensures Toks(a + b) == Toks(a) + Toks(b)
  {
    hide ItemToks;
    if a == [] {
      assert a + b == b;
    } else {
      ToksConcat(a[1..], b);
      assert (a + b)[1..] == a[1..] + b;
      Associative(ItemToks(a[0]), Toks(a[1..]), Toks(b));
    }
  }

  // ---- Lookup in the tree -------------------------------------------------

  /** What is looked for: a child node of a name, or a property whose name
      offset satisfies a test. */
  datatype Want = ChildNamed(name: seq<byte>) | PropWhere(named: int -> bool)

  predicate Matches(want: Want, item: Item) {
    match want
    case ChildNamed(name) => item.Child? && item.name == name
    case PropWhere(named) => item.Prop? && named(item.nameOff)
  }

  // The first of a node's own items that matches.
  function First(items: seq<Item>, want: Want): (r: Option<int>)
    ensures r.Some? ==> 0 <= r.value < |items| && Matches(want, items[r.value])
    ensures forall k :: 0 <= k < (if r.Some? then r.value else |items|) ==> !Matches(want, items[k])
  {
    if items == [] then None
    else if Matches(want, items[0]) then Some(0)
    else
      var r := First(items[1..], want);
      assert forall k :: 1 <= k < |items| ==> items[k] == items[1..][k - 1];
      match r
      case None => None
      case Some(k) => Some(k + 1)
  }

  /** A node, and the token it starts with */
  datatype Place = Place(s: int, node: Item)

  // The node that a list of names leads to.
  function Resolve(p: Place, names: seq<seq<byte>>): (r: Option<Place>)
    requires p.node.Child?
    ensures r.Some? ==> r.value.node.Child?
    decreases |names|
  {
    if names == [] then Some(p)
    else
      match First(p.node.items, ChildNamed(names[0]))
      case None => None
      case Some(k) => Resolve(Place(ItemStart(p.s, p.node.items, k), p.node.items[k]), names[1..])
  }

  // ---- Scanning the tokens ------------------------------------------------

  datatype Found = At(i: int) | NoEntry | Invalid

  // A token that matches, with the depth after it.
  predicate Hit(want: Want, t: Tok, depth: int) {
    match want
    case ChildNamed(name) => depth == 1 && t.Begin? && t.name == name
    case PropWhere(named) => depth == 0 && t.Property? && named(t.nameOff)
  }

  function After(t: Tok, depth: int): int {
    match t
    case Begin(_) => depth + 1
    case End => depth - 1
    case Property(_, _) => depth
    case Skip => depth
  }

  // fdt_child() and fdt_property() over the tokens: a depth counter that
  // starts at -1
  function Scan(toks: seq<Tok>, i: int, depth: int, want: Want): (r: Found)
    requires 0 <= i <= |toks|
    ensures r.At? ==> i <= r.i < |toks|
    decreases |toks| - i
  {
    if i == |toks| then Invalid
    else if toks[i] == End && depth < 0 then Invalid
    else if toks[i] == End && depth == 0 then NoEntry
    else if Hit(want, toks[i], After(toks[i], depth)) then At(i)
    else Scan(toks, i + 1, After(toks[i], depth), want)
  }

  // These tokens are the next ones.
  ghost predicate Here(toks: seq<Tok>, i: int, part: seq<Tok>) {
    0 <= i <= i + |part| <= |toks| && toks[i..i + |part|] == part
  }

  lemma HereSplit(toks: seq<Tok>, i: int, a: seq<Tok>, b: seq<Tok>)
    requires Here(toks, i, a + b)
    ensures Here(toks, i, a) && Here(toks, i + |a|, b)
  {
    assert toks[i..i + |a|] == (a + b)[..|a|];
    assert toks[i + |a|..i + |a| + |b|] == (a + b)[|a|..];
  }

  // Inside a child nothing matches, and the depth comes back to what it was.
  lemma {:induction false} SkipItems(toks: seq<Tok>, i: int, items: seq<Item>, depth: int, want: Want)
    requires Here(toks, i, Toks(items)) && depth >= 1
    ensures Scan(toks, i, depth, want) == Scan(toks, i + |Toks(items)|, depth, want)
    decreases items
  {
    hide Here, ItemToks;
    if items != [] {
      var first := ItemToks(items[0]);
      HereSplit(toks, i, first, Toks(items[1..]));
      SkipItem(toks, i, items[0], depth, want);
      SkipItems(toks, i + |first|, items[1..], depth, want);
    }
  }

  lemma {:induction false} SkipItem(toks: seq<Tok>, i: int, item: Item, depth: int, want: Want)
    requires Here(toks, i, ItemToks(item))
    requires depth >= 1 || (depth == 0 && !Matches(want, item))
    ensures Scan(toks, i, depth, want) == Scan(toks, i + |ItemToks(item)|, depth, want)
    decreases item
  {
    hide Here, Toks;
    match item
    case Nothing =>
      Next(toks, i, Skip);
    case Prop(nameOff, data) =>
      Next(toks, i, Property(nameOff, data));
    case Child(n, items) =>
      ChildParts(toks, i, n, items);
      SkipItems(toks, i + 1, items, depth + 1, want);
  }

  lemma ChildParts(toks: seq<Tok>, i: int, n: seq<byte>, items: seq<Item>)
    requires Here(toks, i, ItemToks(Child(n, items)))
    ensures |ItemToks(Child(n, items))| == |Toks(items)| + 2 && Here(toks, i + 1, Toks(items))
    ensures 0 <= i && i + 1 + |Toks(items)| < |toks| && toks[i] == Begin(n) && toks[i + 1 + |Toks(items)|] == End
  {
    hide Here, Toks;
    HereSplit(toks, i, [Begin(n)] + Toks(items), [End]);
    HereSplit(toks, i, [Begin(n)], Toks(items));
    Next(toks, i, Begin(n));
    Next(toks, i + 1 + |Toks(items)|, End);
  }

  lemma Next(toks: seq<Tok>, i: int, t: Tok)
    requires Here(toks, i, [t])
    ensures 0 <= i < |toks| && toks[i] == t
  {
    assert toks[i..i + 1][0] == t;
  }

  lemma ScanEnd(toks: seq<Tok>, i: int, want: Want)
    requires 0 <= i < |toks| && toks[i] == End
    ensures Scan(toks, i, 0, want) == NoEntry
  {
  }

  lemma ScanMatch(toks: seq<Tok>, i: int, item: Item, want: Want)
    requires Here(toks, i, ItemToks(item)) && Matches(want, item)
    ensures 0 <= i < |toks| && Scan(toks, i, 0, want) == At(i)
  {
    assert toks[i] == ItemToks(item)[0];
  }

  lemma ToksTake(items: seq<Item>, n: int)
    requires 1 <= n <= |items|
    ensures Toks(items[..n]) == ItemToks(items[0]) + Toks(items[1..][..n - 1])
  {
    hide ItemToks;
    assert items[..n][1..] == items[1..][..n - 1];
  }

  // Where an item starts, in a node whose first token is token s.
  function ItemStart(s: int, items: seq<Item>, k: int): int
    requires 0 <= k <= |items|
  {
    s + 1 + |Toks(items[..k])|
  }

  // Among a node's own items, the first match is found.
  lemma {:induction false} ScanItems(toks: seq<Tok>, i: int, items: seq<Item>, want: Want)
    requires Here(toks, i, Toks(items) + [End])
    ensures Scan(toks, i, 0, want) ==
            match First(items, want)
            case None => NoEntry
            case Some(k) => At(i + |Toks(items[..k])|)
    decreases |items|
  {
    hide ItemToks, Here, Scan;
    if items == [] {
      assert Toks(items) + [End] == [End];
      Next(toks, i, End);
      ScanEnd(toks, i, want);
    } else {
      var first := ItemToks(items[0]);
      Associative(first, Toks(items[1..]), [End]);
      HereSplit(toks, i, first, Toks(items[1..]) + [End]);
      if Matches(want, items[0]) {
        ScanMatch(toks, i, items[0], want);
      } else {
        SkipItem(toks, i, items[0], 0, want);
        ScanItems(toks, i + |first|, items[1..], want);
        var r := First(items[1..], want);
        if r.Some? {
          ToksTake(items, r.value + 1);
        }
      }
    }
  }

  // Tokens that mean nothing, up to token s
  ghost predicate LeadsTo(toks: seq<Tok>, s0: int, s: int) {
    0 <= s0 <= s < |toks| && forall i :: s0 <= i < s ==> toks[i] == Skip
  }

  lemma {:induction false} ScanLead(toks: seq<Tok>, s0: int, s: int, depth: int, want: Want)
    requires LeadsTo(toks, s0, s)
    ensures Scan(toks, s0, depth, want) == Scan(toks, s, depth, want)
    decreases s - s0
  {
    if s0 < s {
      ScanLead(toks, s0 + 1, s, depth, want);
    }
  }

  // A search of a node finds the first of its own items that matches, or none.
  lemma ScanNode(toks: seq<Tok>, s: int, node: Item, want: Want)
    requires node.Child? && Here(toks, s, NodeToks(node))
    ensures Scan(toks, s, -1, want) ==
            match First(node.items, want)
            case None => NoEntry
            case Some(k) => At(ItemStart(s, node.items, k))
  {
    hide Toks;
    Associative([Begin(node.name)], Toks(node.items), [End]);
    HereSplit(toks, s, [Begin(node.name)], Toks(node.items) + [End]);
    Next(toks, s, Begin(node.name));
    ScanItems(toks, s + 1, node.items, want);
  }

  lemma Regroup<T>(a: T, b: seq<T>, c: seq<T>, d: seq<T>, e: T)
    ensures [a] + (b + (c + d)) + [e] == ([a] + b) + (c + (d + [e]))
  {
  }

  lemma ToksHead(items: seq<Item>)
    requires items != []
    ensures Toks(items) == ItemToks(items[0]) + Toks(items[1..])
  {
  }

  // That is where the item itself is.
  lemma ItemHere(toks: seq<Tok>, s: int, node: Item, k: int)
    requires node.Child? && Here(toks, s, NodeToks(node)) && 0 <= k < |node.items|
    ensures Here(toks, ItemStart(s, node.items, k), ItemToks(node.items[k]))
  {
    hide Here, Toks, ItemToks;
    var items := node.items;
    assert items == items[..k] + items[k..];
    ToksConcat(items[..k], items[k..]);
    ToksHead(items[k..]);
    var before, item, after := Toks(items[..k]), ItemToks(items[k]), Toks(items[k..][1..]);
    Regroup(Begin(node.name), before, item, after, End);
    HereSplit(toks, s, [Begin(node.name)] + before, item + (after + [End]));
    HereSplit(toks, s + 1 + |before|, item, after + [End]);
  }

  lemma ChildHere(toks: seq<Tok>, s: int, node: Item, k: int)
    requires node.Child? && Here(toks, s, NodeToks(node)) && 0 <= k < |node.items| && node.items[k].Child?
    ensures Here(toks, ItemStart(s, node.items, k), NodeToks(node.items[k]))
  {
    ItemHere(toks, s, node, k);
    assert ItemToks(node.items[k]) == NodeToks(node.items[k]);
  }
}
