/**
 The plumbing of interface.c and refcnt.c in place: every operation leaves the
 state that the functions of Cascade give, and touches only live objects.
 */
module Plumbing {
  import opened Words
  import opened Interface
  import opened PassThrough
  import opened Cascade

  class Plumbing {
    const w: World
    var dest: seq<Intf>
    var desc: seq<Desc>
    var count: seq<int>
    var freed: seq<Obj>
    ghost var owners: multiset<Obj>
    ghost var temps: multiset<Obj>

    ghost function State(): Net
      reads this
    {
      Net(dest, desc, count, freed, owners, temps)
    }

    ghost predicate Valid()
      reads this
    {
      Fit(w, State()) && Inv(w, State())
    }

    // Newly initialised objects, each with the one reference of its creator.
    constructor (w: World, objects: nat)
      requires ValidWorld(w)
      requires forall i {:trigger Owner(w, i)} :: 0 <= i < |w.original| && Owner(w, i).Some? ==>
                 Owner(w, i).value < objects
      ensures Valid() && this.w == w && freed == [] && |count| == objects && temps == multiset{}
      ensures forall o :: 0 <= o < objects ==> count[o] == 0 && owners[o] == 1
      ensures desc == w.original && forall i :: 0 <= i < |w.original| ==> Unplugged(dest, i)
    {
      this.w := w;
      dest, desc := seq(|w.original|, _ => NULL_INTF), w.original;
      count, freed := seq(objects, _ => 0), [];
      owners, temps := multiset(set o: Obj | 0 <= o < objects && IsObject(o)), multiset{};
      new;
      InitialCounts(w, State(), objects);
      assert forall o :: 0 <= o < objects ==> IsObject(o);
    }

    // intf_get()
    method IntfGet(i: Intf)
      requires Valid() && i < |w.original| && Alive(w, State(), i)
      modifies this
      ensures Valid() && State() == Get(w, old(State()), i) && Held(w, State(), i)
    {
      hide Inv, ValidWorld;
      GetKeeps(w, State(), i);
      GetIs(w, State(), i);
      var o := Owner(w, i);
      if o.Some? {
        CountedOwner(w, State(), i);
        count := count[o.value := count[o.value] + 1];
        temps := temps + multiset{o.value};
      }
    }

    // ref_decrement(): the object is freed when the count falls below zero, and
    // never a second time.
    method RefDecrement(o: Obj)
      requires o < |count| && count[o] >= -1
      modifies this`count, this`freed
      ensures count == old(count)[o := old(count)[o] - 1]
      ensures freed == if old(count)[o] == 0 then old(freed) + [o] else old(freed)
    {
      count := count[o := count[o] - 1];
      if count[o] >= 0 {
        return;
      }
      if count[o] < -1 {
        return;
      }
      freed := freed + [o];
    }

    // intf_put(), apart from whose reference it is
    method IntfUnref(i: Intf)
      requires AllCounted(w, count) && i < |w.original|
      requires Owner(w, i).Some? && Owner(w, i).value < |count| ==> count[Owner(w, i).value] >= -1
      modifies this`count, this`freed
      ensures count == Put(w, old(State()), i).count && freed == Put(w, old(State()), i).freed
    {
      var o := Owner(w, i);
      if o.Some? {
        RefDecrement(o.value);
      }
    }

    // intf_put()
    method IntfPut(i: Intf)
      requires Valid() && i < |w.original|
      requires Owner(w, i).Some? ==> Owner(w, i).value in temps
      modifies this
      ensures Valid() && State() == Put(w, old(State()), i)
    {
      hide Inv, ValidWorld;
      PutKeeps(w, State(), i);
      PutIs(w, State(), i);
      InvWired(w, State());
      if Owner(w, i).Some? {
        CountedOwner(w, State(), i);
      }
      ghost var s := State();
      IntfUnref(i);
      temps := Put(w, s, i).temps;
    }

    // intf_get_dest_op(): the interface that handles a close of d, with a
    // reference to it.
    method FindOp(d: Intf) returns (cur: Intf)
      requires Valid() && d < |w.original| && Alive(w, State(), d) && Ends(State(), d)
      modifies this
      ensures Valid() && cur < |w.original| && Found(old(State()), d) == Some(cur)
      ensures State() == Get(w, old(State()), cur) && Held(w, State(), cur)
    {
      hide Inv, Fit, Ends, Search, Get, Put;
      ghost var s := State();
      FoundExactly(s, d);
      FitWorld(w, s);
      cur := d;
      ghost var n: nat := |desc|;
      IntfGet(cur);
      GetIs(w, s, cur);
      while desc[cur].NoHandler? && desc[cur].passthru.Some?
        invariant Valid() && cur < |w.original| && Alive(w, s, cur) && Wired(w, dest, desc)
        invariant State() == Get(w, s, cur) && Held(w, State(), cur) && dest == s.dest && desc == s.desc
        invariant Search(s, cur, n) == Found(s, d) && Found(s, d).Some?
        decreases n
      {
        SearchMore(s, cur, n);
        cur := Follow(cur, s);
        GetIs(w, s, cur);
        n := n - 1;
      }
      SearchDone(s, cur, n);
    }

    // One round of the pass-through loop: the reference to cur is exchanged for
    // one to the destination of its pass-through interface, which is alive.
    method Follow(cur: Intf, ghost s: Net) returns (next: Intf)
      requires Valid() && cur < |w.original| && Fit(w, s) && Inv(w, s) && Alive(w, s, cur)
      requires State() == Get(w, s, cur) && desc == s.desc && PassesOn(s, cur)
      modifies this
      ensures Valid() && next < |w.original| && Alive(w, s, next) && next == NextInChain(s, cur)
      ensures State() == Get(w, s, next) && Held(w, State(), next)
    {
      hide Inv, Fit, Get, Put;
      var p := desc[cur].passthru.value;
      PassedOn(w, s, cur);
      PutGet(w, s, cur);
      IntfPut(cur);
      assert State() == s;
      assert Alive(w, State(), p);
      next := dest[p];
      IntfGet(next);
    }

    // intf_close(), through a temporary interface that holds a reference to d.
    method IntfClose(d: Intf)
      requires Valid() && d < |w.original| && Closed(w, State(), d).Some?
      requires Owner(w, d).Some? ==> Owner(w, d).value in temps
      modifies this
      ensures Valid() && Some(State()) == Closed(w, old(State()), d)
      decreases if d == NULL_INTF then 0 else Plugged(dest) + 1, 1
    {
      hide Inv, Fit, Ends, Search, Dispatched, Get, Put, Plugged;
      ghost var s := State();
      HeldIsAlive(w, s, d);
      ClosedFinds(w, s, d);
      FoundFits(w, s, d);
      var cur := FindOp(d);
      ghost var t := State();
      GetIs(w, s, cur);
      DispatchedKeeps(w, t, cur);
      Dispatch(cur);
      DropGet(w, s, t, State(), cur);
      IntfPut(cur);
    }

    // Call the close operation of cur; the default is to restart it.
    method Dispatch(cur: Intf)
      requires Valid() && cur < |w.original| && Held(w, State(), cur) && Dispatched(w, State(), cur).Some?
      modifies this
      ensures Valid() && Some(State()) == Dispatched(w, old(State()), cur)
      decreases if cur == NULL_INTF then 0 else Plugged(dest) + 1, 0
    {
      hide Inv, Scripted, Restarted, Plugged, Held;
      match desc[cur] {
        case NullDesc =>
        case Handler(script) =>
          ScriptFits(w, State(), cur);
          RunScript(cur, script);
        case NoHandler(_) =>
          IntfRestart(cur);
      }
    }

    // A close handler at work on the interfaces of the object of cur.
    method RunScript(cur: Intf, script: seq<Action>)
      requires Valid() && Held(w, State(), cur) && ScriptInside(w, script)
      requires forall k :: 0 <= k < |script| ==> Sibling(w, cur, script[k].intf)
      requires Scripted(w, State(), script, 0).Some?
      modifies this
      ensures Valid() && Some(State()) == Scripted(w, old(State()), script, 0)
      decreases Plugged(dest), 5
    {
      hide Inv, Fit, Acted, Plugged, Held, Later;
      var k := 0;
      while k < |script|
        invariant 0 <= k <= |script| && Valid() && Held(w, State(), cur) && Plugged(dest) <= old(Plugged(dest))
        invariant Scripted(w, State(), script, k) == Scripted(w, old(State()), script, 0)
      {
        ghost var s := State();
        KeptItself(w, s);
        HeldLater(w, s, s, cur, script[k].intf);
        ActedKeeps(w, s, script[k]);
        Act(script[k]);
        HeldLater(w, s, State(), cur, cur);
        k := k + 1;
      }
    }

    method Act(action: Action)
      requires Valid() && 0 < action.intf < |w.original| && Held(w, State(), action.intf)
      requires Acted(w, State(), action).Some?
      modifies this
      ensures Valid() && Some(State()) == Acted(w, old(State()), action)
      decreases Plugged(dest), 4
    {
      hide Inv, ShutDown, Restarted, Plugged;
      var i := action.intf;
      HeldIsAlive(w, State(), i);
      match action {
        case Nullify(_) =>
          SetDescKeeps(w, State(), i, NullDesc);
          SetDescFits(w, State(), i);
          desc := desc[i := NullDesc];
        case Shut(_) => IntfShutdown(i);
        case Restart(_) => IntfRestart(i);
        case Reinit(_) =>
          SetDescKeeps(w, State(), i, w.original[i]);
          SetDescFits(w, State(), i);
          desc := desc[i := w.original[i]];
      }
    }

    // intf_shutdown(), of an interface of a live object; once the destination
    // is in the temporary interface, the object may go.
    method IntfShutdown(i: Intf)
      requires Valid() && 0 < i < |w.original| && Alive(w, State(), i) && ShutDown(w, State(), i).Some?
      modifies this
      ensures Valid() && Some(State()) == ShutDown(w, old(State()), i)
      decreases Plugged(dest), 2
    {
      hide Inv, Closed, Plugged, Later, Put;
      ghost var s := State();
      DetachFits(w, s, i);
      DetachKeeps(w, s, i);
      DetachIs(w, s, i);
      desc := desc[i := NullDesc];
      var d := dest[i];
      dest := dest[i := NULL_INTF];
      ghost var o := Owner(w, d);
      temps := if o.Some? then temps + multiset{o.value} else temps;
      ghost var t := State();
      assert t == Detach(w, s, i);
      ClosedKeeps(w, t, d);
      IntfClose(d);
      DropTemp(w, s, t, State(), i);
      IntfPut(d);
    }

    // intf_restart()
    method IntfRestart(i: Intf)
      requires Valid() && 0 < i < |w.original| && Held(w, State(), i) && Restarted(w, State(), i).Some?
      modifies this
      ensures Valid() && Some(State()) == Restarted(w, old(State()), i)
      decreases Plugged(dest), 3
    {
      hide Inv, ShutDown, Plugged, Later;
      ghost var s := State();
      HeldIsAlive(w, s, i);
      ShutDownKeeps(w, s, i);
      IntfShutdown(i);
      HeldLater(w, s, State(), i, i);
      HeldIsAlive(w, State(), i);
      assert Alive(w, State(), i);
      SetDescKeeps(w, State(), i, w.original[i]);
      SetDescFits(w, State(), i);
      desc := desc[i := w.original[i]];
    }

    // intfs_shutdown(): nullify all interfaces, then shut them all down.
    method IntfsShutdown(intfs: seq<Intf>)
      requires Valid() && forall k :: 0 <= k < |intfs| ==> MayUse(w, State(), intfs[k])
      requires Performed(w, State(), ShuttingAll(intfs)).Some?
      modifies this
      ensures Valid() && Some(State()) == Performed(w, old(State()), ShuttingAll(intfs))
    {
      hide Inv, ShutDown, Later, Held;
      ghost var s := State();
      for k := 0 to |intfs|
        invariant Valid() && State() == NullifiedAll(s, intfs, k)
      {
        SetDescKeeps(w, State(), intfs[k], NullDesc);
        SetDescFits(w, State(), intfs[k]);
        desc := desc[intfs[k] := NullDesc];
      }
      ghost var t := State();
      NullifiedKeeps(w, s, intfs, |intfs|);
      KeptItself(w, s);
      for k := 0 to |intfs|
        invariant Valid() && Kept(w, s, State())
        invariant ShutAll(w, State(), intfs, k) == ShutAll(w, t, intfs, 0)
      {
        ghost var u := State();
        HeldLater(w, s, u, intfs[k], intfs[k]);
        HeldIsAlive(w, u, intfs[k]);
        ShutDownKeeps(w, u, intfs[k]);
        IntfShutdown(intfs[k]);
        KeptTrans(w, s, u, State());
      }
    }

    // intf_plug(): the reference to the old destination is dropped before the
    // destination is updated. The object of i is live at that point, `live`,
    // unless its own plug was the only reference to it.
    method IntfPlug(i: Intf, d: Intf) returns (ghost live: bool)
      requires Valid() && 0 < i < |w.original| && d < |w.original|
      requires Alive(w, State(), i) && Alive(w, State(), d)
      modifies this
      ensures Valid() && State() == PlugTo(w, old(State()), i, d)
      ensures live <==> !OnlyReference(w, old(State()), i, d)
    {
      hide Inv, Fit, Get, Put, Replug, OnlyReference, PlugTo;
      ghost var s := State();
      FitWorld(w, s);
      PlugKeeps(w, s, i, d);
      PlugWrites(w, s, i, d);
      PlugFits(w, s, i, d);
      IntfGet(d);
      ghost var t := State();
      InvWired(w, t);
      if Owner(w, dest[i]).Some? {
        CountedOwner(w, t, dest[i]);
      }
      IntfUnref(dest[i]);
      live := Alive(w, State(), i);
      dest := dest[i := d];
      temps := PlugTo(w, s, i, d).temps;
    }

    // intf_plug_plug()
    method IntfPlugPlug(a: Intf, b: Intf) returns (ghost live: bool)
      requires Valid() && MayUse(w, State(), a) && MayUse(w, State(), b)
      modifies this
      ensures Valid() && live && a < |old(dest)| && b < |old(dest)|
      ensures State() == PlugTo(w, PlugTo(w, old(State()), a, b), b, a)
      ensures dest == old(dest)[a := b][b := a]
    {
      hide Inv, PlugTo;
      ghost var s := State();
      HeldIsAlive(w, s, a);
      HeldIsAlive(w, s, b);
      PlugKeeps(w, s, a, b);
      PlugWrites(w, s, a, b);
      ghost var first := IntfPlug(a, b);
      HeldIsAlive(w, State(), a);
      HeldIsAlive(w, State(), b);
      PlugKeeps(w, State(), b, a);
      PlugWrites(w, State(), b, a);
      live := IntfPlug(b, a);
      live := live && first;
    }

    // intf_unplug()
    method IntfUnplug(i: Intf) returns (ghost live: bool)
      requires Valid() && 0 < i < |w.original| && Alive(w, State(), i)
      modifies this
      ensures Valid() && State() == PlugTo(w, old(State()), i, NULL_INTF)
      ensures live <==> !OnlyReference(w, old(State()), i, NULL_INTF)
    {
      hide Inv, PlugTo;
      NullAlive(w, State());
      live := IntfPlug(i, NULL_INTF);
    }

    // The rest of the program takes, or gives up, a reference of its own.
    method TakeReference(o: Obj)
      requires Valid() && o < |count| && o !in freed
      modifies this
      ensures Valid() && State() == Referred(old(State()), o, 1)
    {
      hide Inv;
      ReferredSteps(w, State(), o, 1);
      ReferredKeeps(w, State(), o, 1);
      count := count[o := count[o] + 1];
      owners := owners + multiset{o};
    }

    method DropReference(o: Obj)
      requires Valid() && o < |count| && o in owners
      modifies this
      ensures Valid() && State() == Referred(old(State()), o, -1)
    {
      hide Inv;
      ReferredSteps(w, State(), o, -1);
      ReferredKeeps(w, State(), o, -1);
      RefDecrement(o);
      owners := owners - multiset{o};
    }

    method Perform(call: Call)
      requires Valid() && Legal(w, State(), call) && Performed(w, State(), call).Some?
      modifies this
      ensures Valid() && Some(State()) == Performed(w, old(State()), call)
    {
      hide Inv, ShutDown, ShutAll, Restarted, PlugTo, Held;
      ghost var live;
      match call {
        case Plugging(a, b) =>
          HeldIsAlive(w, State(), a);
          PlugWrites(w, State(), a, b);
          live := IntfPlug(a, b);
          assert live;
        case Unplugging(a) =>
          HeldIsAlive(w, State(), a);
          PlugWrites(w, State(), a, NULL_INTF);
          live := IntfUnplug(a);
          assert live;
        case ShuttingDown(a) => IntfShutdown(a);
        case ShuttingAll(intfs) => IntfsShutdown(intfs);
        case Restarting(a) => IntfRestart(a);
        case Taking(o) => TakeReference(o);
        case Dropping(o) => DropReference(o);
      }
    }

    // Any run of legal calls that all end
    method PerformAll(calls: seq<Call>)
      requires Valid() && LegalRun(w, State(), calls) && Run(w, State(), calls).Some?
      modifies this
      ensures Valid() && LegalRun(w, old(State()), calls) && Some(State()) == Run(w, old(State()), calls)
    {
      hide Inv, Fit, Performed, Legal;
      var k := 0;
      assert calls[0..] == calls;
      while k < |calls|
        invariant 0 <= k <= |calls| && Valid() && LegalRun(w, State(), calls[k..])
        invariant Run(w, State(), calls[k..]) == Run(w, old(State()), calls)
      {
        assert calls[k..][0] == calls[k] && calls[k..][1..] == calls[k + 1..];
        PerformedKeeps(w, State(), calls[k]);
        Perform(calls[k]);
        k := k + 1;
      }
    }
  }

  lemma SearchMore(s: Net, d: Intf, n: nat)
    requires PassesOn(s, d) && Search(s, d, n).Some?
    ensures n > 0 && Search(s, NextInChain(s, d), n - 1) == Search(s, d, n)
  {
  }

  lemma SearchDone(s: Net, d: Intf, n: nat)
    requires !PassesOn(s, d)
    ensures Search(s, d, n) == Some(d)
  {
  }

  lemma PlugFits(w: World, s: Net, i: Intf, d: Intf)
    requires Fit(w, s) && Inv(w, s) && 0 < i < |w.original| && d < |w.original| && Alive(w, s, d)
    ensures i < |s.dest| && Fit(w, PlugTo(w, s, i, d))
    ensures Get(w, s, d).dest == s.dest && Get(w, s, d).desc == s.desc && Get(w, s, d).owners == s.owners
    ensures var t := Put(w, Get(w, s, d), s.dest[i]);
            PlugTo(w, s, i, d).count == t.count && PlugTo(w, s, i, d).freed == t.freed
  {
    hide Inv, PlugTo, Put, Get;
    PlugSteps(w, s, i, d);
    GetIs(w, s, d);
    PlugCounts(w, s, i, d);
  }

  lemma PlugCounts(w: World, s: Net, i: Intf, d: Intf)
    requires i < |s.dest|
    ensures Get(w, s, d).dest == s.dest && Get(w, s, d).owners == s.owners
    ensures var t := Put(w, Get(w, s, d), s.dest[i]);
            PlugTo(w, s, i, d).count == t.count && PlugTo(w, s, i, d).freed == t.freed
  {
    SameCounts(w, Get(w, s, d), Replug(w, Get(w, s, d), i, d), s.dest[i]);
  }

  lemma SameCounts(w: World, s: Net, t: Net, i: Intf)
    requires s.count == t.count && s.freed == t.freed
    ensures Put(w, s, i).count == Put(w, t, i).count && Put(w, s, i).freed == Put(w, t, i).freed
  {
  }
}
