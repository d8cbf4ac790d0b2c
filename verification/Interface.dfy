/**
 Object interfaces and reference counts as a value: the plugs of interface.c
 and the counters of refcnt.c, and what holds of them at all times.
 */
module Interface {
  import opened Words

  type Intf = nat
  type Obj = nat

  // The null interface.
  const NULL_INTF: Intf := 0

  /** What a close handler does to interfaces of its own object. */
  datatype Action =
    | Nullify(intf: Intf)
    | Shut(intf: Intf)
    | Restart(intf: Intf)
    | Reinit(intf: Intf)

  /** An interface descriptor: the null descriptor, whose close operation does
      nothing; one with a close handler; or one without, which may pass
      operations through to another interface of the same object. */
  datatype Desc =
    | NullDesc
    | Handler(script: seq<Action>)
    | NoHandler(passthru: Option<Intf>)

  /** What does not change: the original descriptor of each interface, and the
      reference-counted object it belongs to, if any. */
  datatype World = World(original: seq<Desc>, owner: seq<Option<Obj>>)

  function Owner(w: World, i: Intf): Option<Obj> {
    if i < |w.owner| then w.owner[i] else None
  }

  predicate Sibling(w: World, i: Intf, j: Intf) {
    j < |w.original| && j != NULL_INTF && Owner(w, j) == Owner(w, i)
  }

  predicate DescOk(w: World, i: Intf, d: Desc) {
    match d
    case NullDesc => true
    case Handler(script) => forall k :: 0 <= k < |script| ==> Sibling(w, i, script[k].intf)
    case NoHandler(passthru) => passthru.Some? ==> Sibling(w, i, passthru.value)
  }

  ghost predicate ValidWorld(w: World) {
    && NULL_INTF < |w.original| && w.original[NULL_INTF] == NullDesc
    && Owner(w, NULL_INTF) == None
    && forall i :: 0 <= i < |w.original| ==> DescOk(w, i, w.original[i])
  }

  /** `owners` are the references held by the rest of the program and `temps`
      those held by calls in progress; `freed` records calls to free(). */
  datatype Net = Net(dest: seq<Intf>, desc: seq<Desc>, count: seq<int>,
                     freed: seq<Obj>, owners: multiset<Obj>, temps: multiset<Obj>)

  // The interfaces plugged into an interface of object o.
  function Into(w: World, dest: seq<Intf>, o: Obj): set<Intf> {
    set i | 0 <= i < |dest| && Owner(w, dest[i]) == Some(o)
  }

  function PluggedSet(dest: seq<Intf>): set<Intf> {
    set i | 0 <= i < |dest| && dest[i] != NULL_INTF
  }

  function Plugged(dest: seq<Intf>): nat {
    |PluggedSet(dest)|
  }

  function Refs(w: World, s: Net, o: Obj): int {
    s.owners[o] + |Into(w, s.dest, o)| + s.temps[o]
  }

  // Every reference to o is counted, once.
  ghost predicate Counted(w: World, s: Net, o: Obj)
    requires o < |s.count|
  {
    && s.count[o] + 1 == Refs(w, s, o)
    && (o in s.freed <==> s.count[o] == -1)
  }

  ghost predicate Wired(w: World, dest: seq<Intf>, desc: seq<Desc>) {
    && |dest| == |desc| == |w.original| > NULL_INTF
    && dest[NULL_INTF] == NULL_INTF && desc[NULL_INTF] == NullDesc
    && (forall i :: 0 <= i < |dest| ==> dest[i] < |w.original|)
    && (forall i :: 0 <= i < |desc| ==> desc[i] == NullDesc || desc[i] == w.original[i])
  }

  ghost predicate AllCounted(w: World, count: seq<int>) {
    forall i {:trigger Owner(w, i)} :: 0 <= i < |w.original| && Owner(w, i).Some? ==> Owner(w, i).value < |count|
  }

  // No object is freed twice.
  ghost predicate FreedOnce(freed: seq<Obj>) {
    forall i, j :: 0 <= i < j < |freed| ==> freed[i] != freed[j]
  }

  ghost predicate Inv(w: World, s: Net) {
    && Wired(w, s.dest, s.desc) && AllCounted(w, s.count) && FreedOnce(s.freed)
    && forall o :: 0 <= o < |s.count| ==> Counted(w, s, o)
  }

  // The object of i has not been freed.
  predicate Alive(w: World, s: Net, i: Intf) {
    Owner(w, i).Some? ==> Owner(w, i).value !in s.freed
  }

  // Some caller holds a reference to the object of i.
  ghost predicate Held(w: World, s: Net, i: Intf) {
    Owner(w, i).Some? ==> s.owners[Owner(w, i).value] + s.temps[Owner(w, i).value] > 0
  }

  // ---- Counting plugs -----------------------------------------------------

  // Pointing i somewhere else moves one reference.
  lemma IntoUpdate(w: World, dest: seq<Intf>, i: Intf, d: Intf, o: Obj)
    requires i < |dest|
    ensures |Into(w, dest[i := d], o)| ==
            |Into(w, dest, o)| - (if Owner(w, dest[i]) == Some(o) then 1 else 0)
                               + (if Owner(w, d) == Some(o) then 1 else 0)
  {
    var old_, new_ := Into(w, dest, o), Into(w, dest[i := d], o);
    var rest := old_ - {i};
    assert new_ == if Owner(w, d) == Some(o) then rest + {i} else rest;
    assert old_ == if Owner(w, dest[i]) == Some(o) then rest + {i} else rest;
  }

  lemma PluggedUpdate(dest: seq<Intf>, i: Intf)
    requires i < |dest|
    ensures Plugged(dest[i := NULL_INTF]) == Plugged(dest) - (if dest[i] != NULL_INTF then 1 else 0)
  {
    var rest := PluggedSet(dest) - {i};
    assert PluggedSet(dest[i := NULL_INTF]) == rest;
    assert PluggedSet(dest) == if dest[i] != NULL_INTF then rest + {i} else rest;
  }

  // ---- References ---------------------------------------------------------

  // ref_get()
  function Get(w: World, s: Net, i: Intf): Net {
    var o := Owner(w, i);
    if o.None? || o.value >= |s.count| then s
    else s.(count := s.count[o.value := s.count[o.value] + 1], temps := s.temps + multiset{o.value})
  }

  // ref_put() of a reference held by a call in progress
  function Put(w: World, s: Net, i: Intf): Net {
    var o := Owner(w, i);
    if o.None? || o.value >= |s.count| then s
    else s.(count := s.count[o.value := s.count[o.value] - 1], temps := s.temps - multiset{o.value},
            freed := if s.count[o.value] == 0 then s.freed + [o.value] else s.freed)
  }

  lemma GetKeeps(w: World, s: Net, i: Intf)
    requires ValidWorld(w) && Inv(w, s) && i < |w.original| && Alive(w, s, i)
    ensures Inv(w, Get(w, s, i)) && Held(w, Get(w, s, i), i)
  {
    hide Wired, FreedOnce, ValidWorld;
    var t := Get(w, s, i);
    AllCountedUpdate(w, s.count, t.count);
    forall o | 0 <= o < |t.count|
      ensures Counted(w, t, o)
    {
      assert Counted(w, s, o);
      assert Into(w, t.dest, o) == Into(w, s.dest, o);
    }
  }

  lemma AllCountedUpdate(w: World, count: seq<int>, count': seq<int>)
    requires AllCounted(w, count) && |count| <= |count'|
    ensures AllCounted(w, count')
  {
  }

  lemma FreedOnceMore(freed: seq<Obj>, o: Obj)
    requires FreedOnce(freed) && o !in freed
    ensures FreedOnce(freed + [o])
  {
  }

  lemma PutKeeps(w: World, s: Net, i: Intf)
    requires ValidWorld(w) && Inv(w, s) && i < |w.original|
    requires Owner(w, i).Some? ==> Owner(w, i).value in s.temps
    ensures Inv(w, Put(w, s, i))
  {
    hide Wired, FreedOnce, ValidWorld;
    var t := Put(w, s, i);
    AllCountedUpdate(w, s.count, t.count);
    forall o | 0 <= o < |t.count|
      ensures Counted(w, t, o)
    {
      assert Counted(w, s, o);
      assert Into(w, t.dest, o) == Into(w, s.dest, o);
    }
    if Owner(w, i).Some? {
      var o := Owner(w, i).value;
      assert Counted(w, s, o);
      if s.count[o] == 0 {
        FreedOnceMore(s.freed, o);
      }
    }
  }

  lemma HeldIsAlive(w: World, s: Net, i: Intf)
    requires Inv(w, s) && i < |w.original| && Held(w, s, i)
    ensures Alive(w, s, i)
  {
    if Owner(w, i).Some? {
      assert Counted(w, s, Owner(w, i).value);
    }
  }

  // What an interface is plugged into is alive.
  lemma DestAlive(w: World, s: Net, i: Intf)
    requires ValidWorld(w) && Inv(w, s) && i < |s.dest|
    ensures Alive(w, s, s.dest[i])
  {
    match Owner(w, s.dest[i])
    case None =>
    case Some(o) =>
      assert Counted(w, s, o);
      assert i in Into(w, s.dest, o);
      assert |Into(w, s.dest, o)| > 0;
  }

  // ---- Cascades -----------------------------------------------------------

  // What a cascade may do: unplug interfaces, change descriptors, and drop the
  // references that go with the plugs.
  ghost predicate Later(s: Net, t: Net) {
    && |t.dest| == |s.dest|
    && (forall j :: 0 <= j < |s.dest| ==> t.dest[j] == s.dest[j] || t.dest[j] == NULL_INTF)
    && t.owners == s.owners && t.temps == s.temps
    && s.freed <= t.freed
  }

  lemma LaterTrans(s: Net, t: Net, u: Net)
    requires Later(s, t) && Later(t, u)
    ensures Later(s, u)
  {
  }

  // Moving the destination of i into a temporary interface keeps the count.
  function Detach(w: World, s: Net, i: Intf): Net
    requires i < |s.dest|
  {
    var o := Owner(w, s.dest[i]);
    s.(dest := s.dest[i := NULL_INTF], desc := if i < |s.desc| then s.desc[i := NullDesc] else s.desc,
       temps := if o.Some? then s.temps + multiset{o.value} else s.temps)
  }

  lemma DetachKeeps(w: World, s: Net, i: Intf)
    requires ValidWorld(w) && Inv(w, s) && i < |w.original|
    ensures i < |s.dest| && Inv(w, Detach(w, s, i)) && s.dest[i] < |w.original|
    ensures Held(w, Detach(w, s, i), s.dest[i])
  {
    hide FreedOnce, AllCounted;
    var t := Detach(w, s, i);
    assert Wired(w, t.dest, t.desc);
    forall o | 0 <= o < |t.count|
      ensures Counted(w, t, o)
    {
      assert Counted(w, s, o);
      IntoUpdate(w, s.dest, i, NULL_INTF, o);
    }
  }

  function SetDesc(s: Net, i: Intf, d: Desc): Net {
    if i < |s.desc| then s.(desc := s.desc[i := d]) else s
  }

  lemma SetDescKeeps(w: World, s: Net, i: Intf, d: Desc)
    requires ValidWorld(w) && Inv(w, s) && i < |w.original| && i != NULL_INTF
    requires d == NullDesc || d == w.original[i]
    ensures Inv(w, SetDesc(s, i, d)) && Later(s, SetDesc(s, i, d))
  {
    hide FreedOnce, AllCounted, ValidWorld;
    assert Wired(w, s.dest, s.desc[i := d]);
    var t := SetDesc(s, i, d);
    forall o | 0 <= o < |t.count|
      ensures Counted(w, t, o)
    {
      assert Counted(w, s, o);
    }
  }

  lemma CountedOwner(w: World, s: Net, i: Intf)
    requires Inv(w, s) && i < |w.original| && Owner(w, i).Some?
    ensures Owner(w, i).value < |s.count| && s.count[Owner(w, i).value] >= -1
  {
    assert Counted(w, s, Owner(w, i).value);
  }

  // Every number below the number of objects stands for one.
  predicate IsObject(o: Obj) {
    true
  }

  lemma InitialCounts(w: World, s: Net, objects: nat)
    requires ValidWorld(w) && s.count == seq(objects, _ => 0) && s.freed == [] && s.temps == multiset{}
    requires s.owners == multiset(set o: Obj | 0 <= o < objects && IsObject(o))
    requires forall i :: 0 <= i < |s.dest| ==> s.dest[i] == NULL_INTF
    ensures forall o :: 0 <= o < |s.count| ==> Counted(w, s, o)
  {
    forall o | 0 <= o < |s.count|
      ensures Counted(w, s, o)
    {
      assert Into(w, s.dest, o) == {};
      assert IsObject(o);
    }
  }

  ghost predicate Unplugged(dest: seq<Intf>, i: Intf) {
    i < |dest| && dest[i] == NULL_INTF
  }

  lemma InvWired(w: World, s: Net)
    requires Inv(w, s)
    ensures Wired(w, s.dest, s.desc) && AllCounted(w, s.count)
  {
  }

  // Dropping a reference just taken restores the state.
  lemma PutGet(w: World, s: Net, i: Intf)
    requires Inv(w, s) && i < |w.original| && Alive(w, s, i)
    ensures Put(w, Get(w, s, i), i) == s
    ensures Owner(w, i).Some? ==> Owner(w, i).value in Get(w, s, i).temps
  {
    if Owner(w, i).Some? {
      assert Counted(w, s, Owner(w, i).value);
      var o := Owner(w, i).value;
      assert s.count[o := s.count[o] + 1][o := s.count[o]] == s.count;
    }
  }

  // After a cascade that began with a reference taken, the reference is dropped.
  lemma DropGet(w: World, s: Net, t: Net, u: Net, cur: Intf)
    requires cur < |w.original| && t == Get(w, s, cur) && Later(t, u) && Inv(w, s) && Inv(w, u)
    ensures Owner(w, cur).Some? ==> Owner(w, cur).value in u.temps
    ensures Later(s, Put(w, u, cur))
  {
    if Owner(w, cur).Some? {
      assert Owner(w, cur).value < |s.count| && Owner(w, cur).value < |u.count|;
    }
  }

  lemma DropTemp(w: World, s: Net, t: Net, u: Net, i: Intf)
    requires i < |w.original| && Inv(w, s) && t == Detach(w, s, i) && Later(t, u) && Inv(w, u)
    ensures Owner(w, s.dest[i]).Some? ==> Owner(w, s.dest[i]).value in u.temps
    ensures Later(s, Put(w, u, s.dest[i])) && Unplugged(u.dest, i)
  {
    if Owner(w, s.dest[i]).Some? {
      assert Owner(w, s.dest[i]).value < |u.count|;
    }
  }

  // The plug of i holds the reference to d that was taken, and the one to the
  // old destination is left for the caller to drop.
  function Replug(w: World, s: Net, i: Intf, d: Intf): Net
    requires i < |s.dest|
  {
    var o, o' := Owner(w, d), Owner(w, s.dest[i]);
    var less := if o.Some? then s.temps - multiset{o.value} else s.temps;
    s.(dest := s.dest[i := d], temps := if o'.Some? then less + multiset{o'.value} else less)
  }

  lemma ReplugKeeps(w: World, s: Net, i: Intf, d: Intf)
    requires ValidWorld(w) && Inv(w, s) && 0 < i < |w.original| && d < |w.original|
    requires Owner(w, d).Some? ==> Owner(w, d).value in s.temps
    ensures i < |s.dest| && s.dest[i] < |w.original|
    ensures Inv(w, Replug(w, s, i, d))
    ensures Owner(w, s.dest[i]).Some? ==> Owner(w, s.dest[i]).value in Replug(w, s, i, d).temps
  {
    hide FreedOnce, AllCounted;
    var t := Replug(w, s, i, d);
    forall q | 0 <= q < |t.count|
      ensures Counted(w, t, q)
    {
      assert Counted(w, s, q);
      IntoUpdate(w, s.dest, i, d, q);
    }
  }

  // intf_plug(): i is plugged into d.
  function PlugTo(w: World, s: Net, i: Intf, d: Intf): Net
    requires i < |s.dest|
  {
    Put(w, Replug(w, Get(w, s, d), i, d), s.dest[i])
  }

  lemma PlugKeeps(w: World, s: Net, i: Intf, d: Intf)
    requires ValidWorld(w) && Inv(w, s) && 0 < i < |w.original| && d < |w.original| && Alive(w, s, d)
    ensures i < |s.dest| && s.dest[i] < |w.original|
    ensures var u := PlugTo(w, s, i, d);
            && Inv(w, u) && u.dest == s.dest[i := d] && u.desc == s.desc && |u.count| == |s.count|
            && u.owners == s.owners && u.temps == s.temps && s.freed <= u.freed
  {
    hide Wired, FreedOnce;
    GetKeeps(w, s, d);
    ReplugKeeps(w, Get(w, s, d), i, d);
    PutKeeps(w, Replug(w, Get(w, s, d), i, d), s.dest[i]);
    InvWired(w, s);
  }

  // The plug of i is the only reference to the object of i, and goes away.
  ghost predicate OnlyReference(w: World, s: Net, i: Intf, d: Intf) {
    var o := Owner(w, i);
    && i < |s.dest| && o.Some? && Owner(w, s.dest[i]) == o && Owner(w, d) != o
    && o.value < |s.count| && Refs(w, s, o.value) == 1
  }

  // When intf_plug() updates i, after it has dropped the reference to the old
  // destination, i is still part of a live object unless that was the last one.
  lemma PlugWrites(w: World, s: Net, i: Intf, d: Intf)
    requires ValidWorld(w) && Inv(w, s) && 0 < i < |w.original| && d < |w.original| && Alive(w, s, i)
    requires i < |s.dest|
    ensures Alive(w, Put(w, Get(w, s, d), s.dest[i]), i) <==> !OnlyReference(w, s, i, d)
    ensures Held(w, s, i) ==> !OnlyReference(w, s, i, d)
  {
    hide FreedOnce;
    if Owner(w, i).Some? {
      assert Counted(w, s, Owner(w, i).value);
      assert Owner(w, s.dest[i]) == Owner(w, i) ==> i in Into(w, s.dest, Owner(w, i).value);
    }
  }

  // A reference taken (1) or given up (-1) by the rest of the program
  function Referred(s: Net, o: Obj, step: int): Net
    requires o < |s.count|
  {
    s.(count := s.count[o := s.count[o] + step],
       owners := if step == 1 then s.owners + multiset{o} else s.owners - multiset{o},
       freed := if s.count[o] + step == -1 then s.freed + [o] else s.freed)
  }

  lemma ReferredKeeps(w: World, s: Net, o: Obj, step: int)
    requires Inv(w, s) && o < |s.count| && (step == 1 || step == -1)
    requires step == 1 ==> o !in s.freed
    requires step == -1 ==> o in s.owners
    ensures s.count[o] >= 0 && Inv(w, Referred(s, o, step))
  {
    hide Wired;
    var t := Referred(s, o, step);
    assert Counted(w, s, o);
    AllCountedUpdate(w, s.count, t.count);
    if s.count[o] + step == -1 { FreedOnceMore(s.freed, o); }
    forall q | 0 <= q < |t.count|
      ensures Counted(w, t, q)
    {
      assert Counted(w, s, q);
    }
  }

  // Once everything is unplugged and no call is in progress, only the owners'
  // references are left, and objects without owners are the freed ones.
  lemma QuietCounts(w: World, s: Net, o: Obj)
    requires ValidWorld(w) && Inv(w, s) && o < |s.count| && s.temps == multiset{}
    requires forall i :: 0 <= i < |s.dest| ==> s.dest[i] == NULL_INTF
    ensures s.count[o] + 1 == s.owners[o]
    ensures o in s.freed <==> o !in s.owners
  {
    assert Counted(w, s, o);
    assert Into(w, s.dest, o) == {};
  }
}
