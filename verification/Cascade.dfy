/**
 The mutual close cascades of interface.c as functions on the state, which have
 no result if the program would search for ever; what every cascade keeps; when
 every shutdown ends; and whole runs of calls.
 */
module Cascade {
  import opened Words
  import opened Interface
  import opened PassThrough

  ghost predicate Fit(w: World, s: Net) {
    ValidWorld(w) && Wired(w, s.dest, s.desc)
  }

  // intf_close(), through a temporary interface that is plugged into d
  ghost function Closed(w: World, s: Net, d: Intf): (r: Option<Net>)
    requires Fit(w, s) && d < |w.original|
    ensures r.Some? ==> Fit(w, r.value) && Plugged(r.value.dest) <= Plugged(s.dest)
    decreases if d == NULL_INTF then 0 else Plugged(s.dest) + 1, 1
  {
    match Found(s, d)
    case None => None
    case Some(cur) =>
      FoundFits(w, s, d);
      match Dispatched(w, Get(w, s, cur), cur)
      case None => None
      case Some(t) => Some(Put(w, t, cur))
  }

  // The close operation of cur; the default is to restart it.
  ghost function Dispatched(w: World, s: Net, cur: Intf): (r: Option<Net>)
    requires Fit(w, s) && cur < |w.original|
    ensures r.Some? ==> Fit(w, r.value) && Plugged(r.value.dest) <= Plugged(s.dest)
    decreases if cur == NULL_INTF then 0 else Plugged(s.dest) + 1, 0
  {
    match s.desc[cur]
    case NullDesc => Some(s)
    case Handler(script) => ScriptFits(w, s, cur); Scripted(w, s, script, 0)
    case NoHandler(_) => Restarted(w, s, cur)
  }

  ghost predicate ScriptInside(w: World, script: seq<Action>) {
    forall k :: 0 <= k < |script| ==> 0 < script[k].intf < |w.original|
  }

  // A close handler, from its k-th action on
  ghost function Scripted(w: World, s: Net, script: seq<Action>, k: nat): (r: Option<Net>)
    requires Fit(w, s) && k <= |script| && ScriptInside(w, script)
    ensures r.Some? ==> Fit(w, r.value) && Plugged(r.value.dest) <= Plugged(s.dest)
    decreases Plugged(s.dest), 5, |script| - k
  {
    if k == |script| then Some(s)
    else
      match Acted(w, s, script[k])
      case None => None
      case Some(t) => Scripted(w, t, script, k + 1)
  }

  ghost function Acted(w: World, s: Net, action: Action): (r: Option<Net>)
    requires Fit(w, s) && 0 < action.intf < |w.original|
    ensures r.Some? ==> Fit(w, r.value) && Plugged(r.value.dest) <= Plugged(s.dest)
    decreases Plugged(s.dest), 4
  {
    match action
    case Nullify(i) => SetDescFits(w, s, i); Some(SetDesc(s, i, NullDesc))
    case Shut(i) => ShutDown(w, s, i)
    case Restart(i) => Restarted(w, s, i)
    case Reinit(i) => SetDescFits(w, s, i); Some(SetDesc(s, i, w.original[i]))
  }

  // intf_shutdown()
  ghost function ShutDown(w: World, s: Net, i: Intf): (r: Option<Net>)
    requires Fit(w, s) && 0 < i < |w.original|
    ensures r.Some? ==> Fit(w, r.value) && Plugged(r.value.dest) <= Plugged(s.dest)
    decreases Plugged(s.dest), 2
  {
    DetachFits(w, s, i);
    match Closed(w, Detach(w, s, i), s.dest[i])
    case None => None
    case Some(t) => Some(Put(w, t, s.dest[i]))
  }

  // intf_restart()
  ghost function Restarted(w: World, s: Net, i: Intf): (r: Option<Net>)
    requires Fit(w, s) && 0 < i < |w.original|
    ensures r.Some? ==> Fit(w, r.value) && Plugged(r.value.dest) <= Plugged(s.dest)
    decreases Plugged(s.dest), 3
  {
    match ShutDown(w, s, i)
    case None => None
    case Some(t) => SetDescFits(w, t, i); Some(SetDesc(t, i, w.original[i]))
  }

  lemma FoundFits(w: World, s: Net, d: Intf)
    requires Fit(w, s) && d < |w.original| && Found(s, d).Some?
    ensures Found(s, d).value < |w.original| && (d == NULL_INTF ==> Found(s, d).value == NULL_INTF)
    ensures !PassesOn(s, Found(s, d).value)
  {
    SearchFits(w, s, d, |s.desc|);
  }

  lemma {:induction false} SearchFits(w: World, s: Net, d: Intf, n: nat)
    requires Fit(w, s) && d < |w.original| && Search(s, d, n).Some?
    ensures Search(s, d, n).value < |w.original| && (d == NULL_INTF ==> Search(s, d, n).value == NULL_INTF)
    ensures !PassesOn(s, Search(s, d, n).value)
    decreases n
  {
    if PassesOn(s, d) {
      SearchFits(w, s, NextInChain(s, d), n - 1);
    }
  }

  lemma ScriptFits(w: World, s: Net, cur: Intf)
    requires Fit(w, s) && cur < |w.original| && s.desc[cur].Handler?
    ensures ScriptInside(w, s.desc[cur].script) && cur != NULL_INTF
    ensures forall k :: 0 <= k < |s.desc[cur].script| ==> Sibling(w, cur, s.desc[cur].script[k].intf)
  {
    assert DescOk(w, cur, w.original[cur]);
  }

  lemma SetDescFits(w: World, s: Net, i: Intf)
    requires Fit(w, s) && 0 < i < |w.original|
    ensures Fit(w, SetDesc(s, i, NullDesc)) && Fit(w, SetDesc(s, i, w.original[i]))
  {
  }

  lemma DetachFits(w: World, s: Net, i: Intf)
    requires Fit(w, s) && 0 < i < |w.original|
    ensures Fit(w, Detach(w, s, i)) && s.dest[i] < |w.original|
    ensures Plugged(Detach(w, s, i).dest) == Plugged(s.dest) - (if s.dest[i] != NULL_INTF then 1 else 0)
  {
    PluggedUpdate(s.dest, i);
  }

  // ---- When shutdowns end -------------------------------------------------

  // All descriptors in force
  ghost function Original(w: World, s: Net): Net {
    s.(desc := w.original)
  }

  // The search that shutting down i begins with comes to an end.
  ghost predicate SafeAt(w: World, s: Net, i: Intf)
    requires i < |s.dest|
  {
    Ends(Detach(w, Original(w, s), i), s.dest[i])
  }

  // No interface leads to a ring of pass-through interfaces other than through
  // itself.
  ghost predicate Safe(w: World, s: Net) {
    |s.dest| == |w.original| && forall i :: 0 < i < |s.dest| ==> SafeAt(w, s, i)
  }

  // t is s with some interfaces unplugged; descriptors may differ.
  ghost predicate FewerPlugs(s: Net, t: Net) {
    |t.dest| == |s.dest| && forall j :: 0 <= j < |s.dest| ==> t.dest[j] == s.dest[j] || t.dest[j] == NULL_INTF
  }

  lemma NullEnds(s: Net)
    requires NULL_INTF < |s.desc| && s.desc[NULL_INTF] == NullDesc
    ensures Ends(s, NULL_INTF)
  {
    assert !PassesOn(s, ChainAt(s, NULL_INTF, 0));
  }

  // Unplugging and nullifying make nothing unsafe.
  lemma SafeLater(w: World, s: Net, t: Net)
    requires Fit(w, s) && Safe(w, s) && FewerPlugs(s, t)
    ensures Safe(w, t)
  {
    hide Ends;
    forall i | 0 < i < |t.dest|
      ensures SafeAt(w, t, i)
    {
      var a, b := Detach(w, Original(w, s), i), Detach(w, Original(w, t), i);
      if t.dest[i] == NULL_INTF {
        NullEnds(b);
      } else {
        assert SafeAt(w, s, i);
        EndsFewer(a, b, s.dest[i]);
      }
    }
  }

  lemma SafeFinds(w: World, s: Net, i: Intf)
    requires Fit(w, s) && Safe(w, s) && 0 < i < |w.original|
    ensures Ends(Detach(w, s, i), s.dest[i])
  {
    hide Ends;
    assert SafeAt(w, s, i);
    EndsFewer(Detach(w, Original(w, s), i), Detach(w, s, i), s.dest[i]);
  }

  // An order on the pass-through interfaces makes everything safe.
  lemma RankedSafe(w: World, s: Net, rank: seq<nat>)
    requires Fit(w, s) && Descends(Original(w, s), rank)
    ensures Safe(w, s)
  {
    hide Ends;
    forall i | 0 < i < |s.dest|
      ensures SafeAt(w, s, i)
    {
      DescentEnds(Original(w, s), rank, s.dest[i]);
      EndsFewer(Original(w, s), Detach(w, Original(w, s), i), s.dest[i]);
    }
  }

  // ---- What every cascade keeps -------------------------------------------

  ghost predicate Kept(w: World, s: Net, t: Net) {
    Inv(w, t) && Later(s, t) && |t.count| == |s.count|
  }

  lemma KeptTrans(w: World, s: Net, t: Net, u: Net)
    requires Kept(w, s, t) && Kept(w, t, u)
    ensures Kept(w, s, u)
  {
    LaterTrans(s, t, u);
  }

  // The descriptor of d makes a close of d unplug d itself.
  predicate ClosesItself(desc: Desc, d: Intf) {
    match desc
    case NullDesc => false
    case Handler(script) => Shut(d) in script || Restart(d) in script
    case NoHandler(passthru) => passthru.None?
  }

  lemma {:induction false} ClosedKeeps(w: World, s: Net, d: Intf)
    requires Fit(w, s) && Inv(w, s) && d < |w.original|
    requires Owner(w, d).Some? ==> Owner(w, d).value in s.temps
    ensures Safe(w, s) && Ends(s, d) ==> Closed(w, s, d).Some?
    ensures Closed(w, s, d).Some? ==>
              var t := Closed(w, s, d).value;
              Kept(w, s, t) && (ClosesItself(s.desc[d], d) ==> Unplugged(t.dest, d))
    decreases if d == NULL_INTF then 0 else Plugged(s.dest) + 1, 1
  {
    hide Inv, Later, Safe, Ends, Dispatched, Search, Get, Put, Plugged;
    FoundExactly(s, d);
    if Found(s, d).Some? {
      var cur := Found(s, d).value;
      FoundFits(w, s, d);
      FoundItself(s, d);
      var t := Get(w, s, cur);
      HeldIsAlive(w, s, d);
      SearchAlive(w, s, d, |s.desc|);
      GetKeeps(w, s, cur);
      GetIs(w, s, cur);
      DispatchedKeeps(w, t, cur);
      if Dispatched(w, t, cur).Some? {
        var u := Dispatched(w, t, cur).value;
        DropGet(w, s, t, u, cur);
        PutKeeps(w, u, cur);
        PutIs(w, u, cur);
      }
    }
  }

  lemma {:induction false} DispatchedKeeps(w: World, s: Net, cur: Intf)
    requires Fit(w, s) && Inv(w, s) && cur < |w.original| && Held(w, s, cur)
    ensures Safe(w, s) ==> Dispatched(w, s, cur).Some?
    ensures Dispatched(w, s, cur).Some? ==>
              var t := Dispatched(w, s, cur).value;
              Kept(w, s, t) && (ClosesItself(s.desc[cur], cur) ==> Unplugged(t.dest, cur))
    decreases if cur == NULL_INTF then 0 else Plugged(s.dest) + 1, 0
  {
    hide Inv, Safe, Scripted, Restarted, Plugged, Held;
    match s.desc[cur]
    case NullDesc =>
      KeptItself(w, s);
    case Handler(script) =>
      ScriptFits(w, s, cur);
      ScriptedKeeps(w, s, cur, script, 0);
    case NoHandler(_) =>
      RestartedKeeps(w, s, cur);
  }

  lemma KeptItself(w: World, s: Net)
    requires Inv(w, s)
    ensures Kept(w, s, s)
  {
  }

  lemma {:induction false} ScriptedKeeps(w: World, s: Net, cur: Intf, script: seq<Action>, k: nat)
    requires Fit(w, s) && Inv(w, s) && k <= |script| && ScriptInside(w, script) && Held(w, s, cur)
    requires forall j :: 0 <= j < |script| ==> Sibling(w, cur, script[j].intf)
    ensures Safe(w, s) ==> Scripted(w, s, script, k).Some?
    ensures Scripted(w, s, script, k).Some? ==>
              var t := Scripted(w, s, script, k).value;
              && Kept(w, s, t)
              && forall j :: k <= j < |script| && (script[j].Shut? || script[j].Restart?) ==>
                               Unplugged(t.dest, script[j].intf)
    decreases Plugged(s.dest), 5, |script| - k
  {
    hide Inv, Safe, Acted, Plugged, Held, Fit, Unplugged, Later;
    KeptItself(w, s);
    if k < |script| {
      HeldLater(w, s, s, cur, script[k].intf);
      ActedKeeps(w, s, script[k]);
      if Acted(w, s, script[k]).Some? {
        var t := Acted(w, s, script[k]).value;
        HeldLater(w, s, t, cur, cur);
        KeptSafe(w, s, t);
        ScriptedKeeps(w, t, cur, script, k + 1);
        if Scripted(w, t, script, k + 1).Some? {
          var u := Scripted(w, t, script, k + 1).value;
          KeptTrans(w, s, t, u);
          StaysUnplugged(w, t, u, script[k].intf);
        }
      }
    }
  }

  lemma HeldLater(w: World, s: Net, t: Net, cur: Intf, i: Intf)
    requires Later(s, t) && Held(w, s, cur) && Owner(w, i) == Owner(w, cur)
    ensures Held(w, t, i)
  {
  }

  lemma KeptSafe(w: World, s: Net, t: Net)
    requires Fit(w, s) && Kept(w, s, t)
    ensures Safe(w, s) ==> Safe(w, t)
  {
    if Safe(w, s) {
      SafeLater(w, s, t);
    }
  }

  lemma StaysUnplugged(w: World, t: Net, u: Net, i: Intf)
    requires Later(t, u)
    ensures Unplugged(t.dest, i) ==> Unplugged(u.dest, i)
  {
  }

  lemma {:induction false} ActedKeeps(w: World, s: Net, action: Action)
    requires Fit(w, s) && Inv(w, s) && 0 < action.intf < |w.original| && Held(w, s, action.intf)
    ensures Safe(w, s) ==> Acted(w, s, action).Some?
    ensures Acted(w, s, action).Some? ==>
              var t := Acted(w, s, action).value;
              && Kept(w, s, t) && (action.Shut? || action.Restart? ==> Unplugged(t.dest, action.intf))
              && (action.Restart? || action.Reinit? ==> t.desc[action.intf] == w.original[action.intf])
              && (action.Nullify? ==> t.desc[action.intf] == NullDesc)
              && (action.Nullify? || action.Reinit? ==> t.dest == s.dest)
    decreases Plugged(s.dest), 4
  {
    hide Inv, Safe, ShutDown, Restarted, Plugged, Held, Later;
    match action
    case Nullify(i) => SetDescKeeps(w, s, i, NullDesc);
    case Shut(i) => ShutDownKeeps(w, s, i);
    case Restart(i) => RestartedKeeps(w, s, i);
    case Reinit(i) => SetDescKeeps(w, s, i, w.original[i]);
  }

  lemma {:induction false} ShutDownKeeps(w: World, s: Net, i: Intf)
    requires Fit(w, s) && Inv(w, s) && 0 < i < |w.original|
    ensures Safe(w, s) ==> ShutDown(w, s, i).Some?
    ensures ShutDown(w, s, i).Some? ==>
              var t, d := ShutDown(w, s, i).value, s.dest[i];
              Kept(w, s, t) && Unplugged(t.dest, i) && (ClosesItself(s.desc[d], d) ==> Unplugged(t.dest, d))
    decreases Plugged(s.dest), 2
  {
    hide Inv, Safe, Closed, Plugged, Later, Detach, Put, Ends;
    var d, t := s.dest[i], Detach(w, s, i);
    DetachFits(w, s, i);
    DetachKeeps(w, s, i);
    DetachIs(w, s, i);
    ClosedKeeps(w, t, d);
    if Safe(w, s) {
      SafeLater(w, s, t);
      SafeFinds(w, s, i);
    }
    if Closed(w, t, d).Some? {
      var u := Closed(w, t, d).value;
      DropTemp(w, s, t, u, i);
      PutKeeps(w, u, d);
      PutIs(w, u, d);
    }
  }

  lemma DetachIs(w: World, s: Net, i: Intf)
    requires Fit(w, s) && 0 < i < |w.original|
    ensures var t := Detach(w, s, i);
            && FewerPlugs(s, t) && |t.count| == |s.count|
            && t.desc == s.desc[i := NullDesc] && t.dest == s.dest[i := NULL_INTF]
            && (Owner(w, s.dest[i]).Some? ==> Owner(w, s.dest[i]).value in t.temps)
  {
  }

  lemma PutIs(w: World, u: Net, d: Intf)
    ensures Put(w, u, d).dest == u.dest && Put(w, u, d).desc == u.desc && |Put(w, u, d).count| == |u.count|
  {
  }

  lemma {:induction false} RestartedKeeps(w: World, s: Net, i: Intf)
    requires Fit(w, s) && Inv(w, s) && 0 < i < |w.original|
    ensures Safe(w, s) ==> Restarted(w, s, i).Some?
    ensures Restarted(w, s, i).Some? ==>
              var t := Restarted(w, s, i).value;
              Kept(w, s, t) && Unplugged(t.dest, i) && i < |t.desc| && t.desc[i] == w.original[i]
    decreases Plugged(s.dest), 3
  {
    hide Inv, Safe, ShutDown, Plugged, Later;
    ShutDownKeeps(w, s, i);
    if ShutDown(w, s, i).Some? {
      var t := ShutDown(w, s, i).value;
      SetDescKeeps(w, t, i, w.original[i]);
      SetDescFits(w, t, i);
      KeptTrans(w, s, t, SetDesc(t, i, w.original[i]));
    }
  }

  lemma FoundItself(s: Net, d: Intf)
    ensures !PassesOn(s, d) ==> Found(s, d) == Some(d)
  {
  }

  // Every interface that a search looks at belongs to a live object.
  lemma {:induction false} SearchAlive(w: World, s: Net, d: Intf, n: nat)
    requires Fit(w, s) && Inv(w, s) && d < |w.original| && Alive(w, s, d) && Search(s, d, n).Some?
    ensures Alive(w, s, Search(s, d, n).value)
    decreases n
  {
    hide Inv, Alive;
    if PassesOn(s, d) {
      PassedOn(w, s, d);
      SearchAlive(w, s, NextInChain(s, d), n - 1);
    }
  }

  // The interface passed on to is plugged in at a sibling of d.
  lemma PassedOn(w: World, s: Net, d: Intf)
    requires Fit(w, s) && Inv(w, s) && d < |w.original| && PassesOn(s, d)
    ensures var p := s.desc[d].passthru.value;
            && p < |s.dest| && Sibling(w, d, p) && d != NULL_INTF
            && NextInChain(s, d) == s.dest[p] < |w.original| && Alive(w, s, s.dest[p])
  {
    hide Inv;
    assert DescOk(w, d, w.original[d]);
    DestAlive(w, s, s.desc[d].passthru.value);
  }

  lemma GetIs(w: World, s: Net, cur: Intf)
    ensures Get(w, s, cur).dest == s.dest && Get(w, s, cur).desc == s.desc && |Get(w, s, cur).count| == |s.count|
    ensures Fit(w, s) ==> Fit(w, Get(w, s, cur))
    ensures Fit(w, s) && Safe(w, s) ==> Safe(w, Get(w, s, cur))
  {
    var t := Get(w, s, cur);
    if Fit(w, s) && Safe(w, s) {
      SafeLater(w, s, t);
    }
  }

  // ---- Which networks are safe --------------------------------------------

  // Every shutdown ends, in this network and in all that unplugging and changes
  // of descriptors can make of it, if and only if no interface leads to a ring
  // of pass-through interfaces that it is not itself part of.
  lemma ShutdownsEndExactly(w: World, s: Net)
    requires Fit(w, s) && Inv(w, s)
    ensures Safe(w, s) <==> AllEnd(w, s)
  {
    hide Inv, Safe, ShutDown, FewerPlugs;
    if Safe(w, s) {
      forall t: Net, i: Intf | Fit(w, t) && Inv(w, t) && FewerPlugs(s, t) && 0 < i < |w.original|
        ensures ShutDown(w, t, i).Some?
      {
        SafeLater(w, s, t);
        ShutDownKeeps(w, t, i);
      }
    }
    if AllEnd(w, s) {
      OriginalKeeps(w, s);
      AllEndSafe(w, s);
    }
  }

  ghost predicate AllEnd(w: World, s: Net) {
    forall t: Net, i: Intf :: Fit(w, t) && Inv(w, t) && FewerPlugs(s, t) && 0 < i < |w.original| ==>
                                ShutDown(w, t, i).Some?
  }

  lemma OriginalKeeps(w: World, s: Net)
    requires Fit(w, s) && Inv(w, s)
    ensures Fit(w, Original(w, s)) && Inv(w, Original(w, s)) && FewerPlugs(s, Original(w, s))
  {
    hide FreedOnce, AllCounted;
    var t := Original(w, s);
    forall o | 0 <= o < |t.count|
      ensures Counted(w, t, o)
    {
      assert Counted(w, s, o);
    }
  }

  lemma AllEndSafe(w: World, s: Net)
    requires Fit(w, s) && AllEnd(w, s)
    requires Fit(w, Original(w, s)) && Inv(w, Original(w, s)) && FewerPlugs(s, Original(w, s))
    ensures Safe(w, s)
  {
    hide Inv, Closed, Ends, FewerPlugs;
    var t := Original(w, s);
    forall i | 0 < i < |s.dest|
      ensures SafeAt(w, s, i)
    {
      assert ShutDown(w, t, i).Some?;
      DetachFits(w, t, i);
      ClosedFinds(w, Detach(w, t, i), t.dest[i]);
    }
  }

  lemma ClosedFinds(w: World, s: Net, d: Intf)
    requires Fit(w, s) && d < |w.original| && Closed(w, s, d).Some?
    ensures Ends(s, d)
  {
    hide Dispatched, Search, Ends;
    FoundExactly(s, d);
  }

  // In terms of rings, of any length
  lemma SafeMeans(w: World, s: Net, i: Intf)
    requires i < |s.dest|
    ensures SafeAt(w, s, i) <==> !MeetsRing(Detach(w, Original(w, s), i), s.dest[i])
  {
    hide Ends, MeetsRing;
    FoundExactly(Detach(w, Original(w, s), i), s.dest[i]);
  }

  // Interface 1 passes on to 2, which is plugged into 1; shutting down 3, which
  // is plugged into 1 too, searches for ever.
  lemma RingHangs()
    ensures var w := World([NullDesc, NoHandler(Some(2)), NoHandler(None), NoHandler(None)], [None, None, None, None]);
            var s := Net([0, 0, 1, 1], w.original, [], [], multiset{}, multiset{});
            Fit(w, s) && Inv(w, s) && ShutDown(w, s, 3).None?
  {
    hide MeetsRing, Ends, Dispatched;
    var w := World([NullDesc, NoHandler(Some(2)), NoHandler(None), NoHandler(None)], [None, None, None, None]);
    var s := Net([0, 0, 1, 1], w.original, [], [], multiset{}, multiset{});
    assert ValidWorld(w);
    var t := Detach(w, s, 3);
    assert PassesOn(t, 1) && NextInChain(t, 1) == 1;
    assert ChainAt(t, 1, 0) == 1;
    assert ChainAt(t, 1, 1) == 1;
    assert Ring(t, 1, 1);
    RingMet(t, 1, 1);
    FoundExactly(t, 1);
  }

  lemma RingMet(s: Net, x: Intf, m: nat)
    requires Ring(s, x, m)
    ensures MeetsRing(s, x)
  {
    assert ChainAt(s, x, 0) == x;
  }

  // ---- The other end ------------------------------------------------------

  // Shutting down an interface that is not plugged in changes no plug.
  lemma IdleShutDown(w: World, s: Net, e: Intf)
    requires Fit(w, s) && 0 < e < |w.original| && s.dest[e] == NULL_INTF
    ensures ShutDown(w, s, e).Some? && ShutDown(w, s, e).value.dest == s.dest
  {
    var t := Detach(w, s, e);
    DetachFits(w, s, e);
    assert t.dest == s.dest;
    FoundItself(t, NULL_INTF);
    assert Dispatched(w, Get(w, t, NULL_INTF), NULL_INTF) == Some(Get(w, t, NULL_INTF));
  }

  // No interface of the object of d is plugged in, other than d.
  ghost predicate Alone(w: World, dest: seq<Intf>, d: Intf) {
    forall j :: 0 <= j < |dest| && j != d && Sibling(w, d, j) ==> dest[j] == NULL_INTF
  }

  predicate Spares(script: seq<Action>, d: Intf) {
    Shut(d) !in script && Restart(d) !in script
  }

  // A handler that neither shuts down nor restarts d then changes no plug.
  lemma {:induction false} IdleScript(w: World, s: Net, d: Intf, script: seq<Action>, k: nat)
    requires Fit(w, s) && k <= |script| && ScriptInside(w, script) && Alone(w, s.dest, d) && Spares(script, d)
    requires forall j :: 0 <= j < |script| ==> Sibling(w, d, script[j].intf)
    ensures Scripted(w, s, script, k).Some? && Scripted(w, s, script, k).value.dest == s.dest
    decreases |script| - k
  {
    hide ShutDown, Restarted;
    if k < |script| {
      IdleAct(w, s, d, script[k]);
      IdleScript(w, Acted(w, s, script[k]).value, d, script, k + 1);
    }
  }

  lemma IdleAct(w: World, s: Net, d: Intf, action: Action)
    requires Fit(w, s) && 0 < action.intf < |w.original| && Alone(w, s.dest, d) && Sibling(w, d, action.intf)
    requires action != Shut(d) && action != Restart(d)
    ensures Acted(w, s, action).Some? && Acted(w, s, action).value.dest == s.dest
  {
    hide ShutDown;
    if action.Shut? || action.Restart? {
      IdleShutDown(w, s, action.intf);
    }
  }

  // A close of d that d does not answer by closing itself changes no plug, if d
  // is plugged into an interface that has been nullified.
  lemma IdleClose(w: World, s: Net, d: Intf)
    requires Fit(w, s) && 0 < d < |w.original| && Alone(w, s.dest, d) && !ClosesItself(s.desc[d], d)
    requires s.desc[s.dest[d]] == NullDesc
    ensures Closed(w, s, d).Some? && Closed(w, s, d).value.dest == s.dest
  {
    hide Scripted, Restarted;
    match s.desc[d]
    case NullDesc =>
      FoundItself(s, d);
      assert Dispatched(w, Get(w, s, d), d) == Some(Get(w, s, d));
    case Handler(script) =>
      FoundItself(s, d);
      ScriptFits(w, s, d);
      GetIs(w, s, d);
      IdleScript(w, Get(w, s, d), d, script, 0);
    case NoHandler(passthru) =>
      PassedToIdle(w, s, d);
      var cur := NextInChain(s, d);
      assert Dispatched(w, Get(w, s, cur), cur) == Some(Get(w, s, cur));
  }

  // Such an interface passes the close on to the null interface, or to the
  // nullified one.
  lemma PassedToIdle(w: World, s: Net, d: Intf)
    requires Fit(w, s) && 0 < d < |w.original| && Alone(w, s.dest, d) && PassesOn(s, d)
    requires s.desc[s.dest[d]] == NullDesc
    ensures var cur := NextInChain(s, d);
            cur < |w.original| && s.desc[cur] == NullDesc && Found(s, d) == Some(cur)
  {
    assert DescOk(w, d, w.original[d]);
    var p, cur := s.desc[d].passthru.value, NextInChain(s, d);
    assert cur == s.dest[p];
    assert p != d ==> cur == NULL_INTF;
    assert Search(s, cur, |s.desc| - 1) == Some(cur);
  }

  // Two interfaces are plugged into each other, and no other interface of the
  // object of d is plugged in. Shutting down one of them leaves d plugged into
  // it unless d closes itself.
  lemma OtherEndExactly(w: World, s: Net, i: Intf, d: Intf)
    requires Fit(w, s) && Inv(w, s) && 0 < i < |w.original| && 0 < d < |w.original| && i != d
    requires s.dest[i] == d && s.dest[d] == i
    requires Alone(w, s.dest[i := NULL_INTF], d)
    ensures ShutDown(w, s, i).Some? ==>
              var t := ShutDown(w, s, i).value;
              Unplugged(t.dest, i) && (Unplugged(t.dest, d) <==> ClosesItself(s.desc[d], d))
    ensures !ClosesItself(s.desc[d], d) ==>
              ShutDown(w, s, i).Some? && ShutDown(w, s, i).value.dest == s.dest[i := NULL_INTF]
  {
    hide Closed, Inv;
    ShutDownKeeps(w, s, i);
    if !ClosesItself(s.desc[d], d) {
      DetachFits(w, s, i);
      IdleClose(w, Detach(w, s, i), d);
    }
  }

  // With the default close operation both are unplugged, the one shut down is
  // nullified and the other ready for use, and nothing else changes.
  lemma PairClosed(w: World, s: Net, i: Intf, d: Intf)
    requires Fit(w, s) && 0 < i < |w.original| && 0 < d < |w.original| && i != d
    requires s.dest[i] == d && s.dest[d] == i && s.desc[d] == NoHandler(None)
    ensures ShutDown(w, s, i).Some?
    ensures var t := ShutDown(w, s, i).value;
            && t.dest == s.dest[i := NULL_INTF][d := NULL_INTF]
            && t.desc == s.desc[i := NullDesc] && t.desc[d] == w.original[d]
  {
    hide Closed, Get, Put, Restarted, Plugged;
    var t := Detach(w, s, i);
    DetachFits(w, s, i);
    var v := Get(w, t, d);
    GetFits(w, t, d);
    RestartIdle(w, v, d, i);
    assert Dispatched(w, v, d) == Restarted(w, v, d);
    ClosesAs(w, t, d);
    PutIs(w, Closed(w, t, d).value, d);
  }

  // Restarting an interface whose other end is nullified
  lemma RestartIdle(w: World, s: Net, d: Intf, i: Intf)
    requires Fit(w, s) && 0 < d < |w.original| && s.dest[d] == i != d && s.desc[i] == NullDesc
    ensures Restarted(w, s, d).Some?
    ensures var t := Restarted(w, s, d).value;
            t.dest == s.dest[d := NULL_INTF] && t.desc == s.desc[d := w.original[d]]
  {
    hide Closed, Put, Plugged;
    var t := Detach(w, s, d);
    DetachFits(w, s, d);
    NullIgnores(w, t, i);
    PutIs(w, Closed(w, t, i).value, i);
  }

  lemma GetFits(w: World, s: Net, cur: Intf)
    requires Fit(w, s)
    ensures Fit(w, Get(w, s, cur)) && Get(w, s, cur).dest == s.dest && Get(w, s, cur).desc == s.desc
  {
  }

  // A nullified interface ignores a close.
  lemma NullIgnores(w: World, s: Net, d: Intf)
    requires Fit(w, s) && d < |w.original| && s.desc[d] == NullDesc
    ensures Closed(w, s, d).Some? && Closed(w, s, d).value.dest == s.dest && Closed(w, s, d).value.desc == s.desc
  {
    FoundItself(s, d);
    assert Dispatched(w, Get(w, s, d), d) == Some(Get(w, s, d));
  }

  lemma ClosesAs(w: World, s: Net, d: Intf)
    requires Fit(w, s) && d < |w.original| && !PassesOn(s, d)
    ensures Fit(w, Get(w, s, d)) && Closed(w, s, d).Some? == Dispatched(w, Get(w, s, d), d).Some?
    ensures Closed(w, s, d).Some? ==>
              && Closed(w, s, d).value.dest == Dispatched(w, Get(w, s, d), d).value.dest
              && Closed(w, s, d).value.desc == Dispatched(w, Get(w, s, d), d).value.desc
  {
    hide Dispatched;
    FoundItself(s, d);
  }

  // The actions of a handler are performed in order.
  lemma {:induction false} ScriptedInOrder(w: World, s: Net, a: seq<Action>, b: seq<Action>, k: nat)
    requires Fit(w, s) && k <= |a| && ScriptInside(w, a) && ScriptInside(w, b)
    ensures ScriptInside(w, a + b)
    ensures Scripted(w, s, a + b, k) ==
            match Scripted(w, s, a, k) {
              case None => None
              case Some(t) => Scripted(w, t, b, 0)
            }
    decreases |a| - k
  {
    hide Acted, Fit, Plugged;
    if k < |a| {
      assert (a + b)[k] == a[k];
      if Acted(w, s, a[k]).Some? {
        ScriptedInOrder(w, Acted(w, s, a[k]).value, a, b, k + 1);
      }
    } else {
      ScriptedTail(w, s, a, b, 0);
    }
  }

  lemma {:induction false} ScriptedTail(w: World, s: Net, a: seq<Action>, b: seq<Action>, k: nat)
    requires Fit(w, s) && k <= |b| && ScriptInside(w, a + b) && ScriptInside(w, b)
    ensures Scripted(w, s, a + b, |a| + k) == Scripted(w, s, b, k)
    decreases |b| - k
  {
    hide Acted, Fit, Plugged;
    if k < |b| {
      assert (a + b)[|a| + k] == b[k];
      if Acted(w, s, b[k]).Some? {
        ScriptedTail(w, Acted(w, s, b[k]).value, a, b, k + 1);
      }
    }
  }

  // A close handler that does nothing: the other end stays plugged in.
  lemma OtherEndStays()
    ensures var w := World([NullDesc, NoHandler(None), Handler([])], [None, None, None]);
            var s := Net([0, 2, 1], w.original, [], [], multiset{}, multiset{});
            Fit(w, s) && Inv(w, s) && ShutDown(w, s, 1).Some? && ShutDown(w, s, 1).value.dest == [0, 0, 1]
  {
    hide Closed;
    var w := World([NullDesc, NoHandler(None), Handler([])], [None, None, None]);
    var s := Net([0, 2, 1], w.original, [], [], multiset{}, multiset{});
    assert ValidWorld(w);
    DetachFits(w, s, 1);
    var t := Detach(w, s, 1);
    assert Alone(w, t.dest, 2);
    IdleClose(w, t, 2);
    assert t.dest == [0, 0, 1];
  }

  // ---- Several interfaces -------------------------------------------------

  ghost function NullifiedAll(s: Net, intfs: seq<Intf>, k: nat): Net
    requires k <= |intfs|
  {
    if k == 0 then s else SetDesc(NullifiedAll(s, intfs, k - 1), intfs[k - 1], NullDesc)
  }

  ghost predicate AllInside(w: World, intfs: seq<Intf>) {
    forall k :: 0 <= k < |intfs| ==> 0 < intfs[k] < |w.original|
  }

  // intfs_shutdown(), after all have been nullified, from the k-th on
  ghost function ShutAll(w: World, s: Net, intfs: seq<Intf>, k: nat): Option<Net>
    requires Fit(w, s) && k <= |intfs| && AllInside(w, intfs)
    decreases |intfs| - k
  {
    if k == |intfs| then Some(s)
    else
      match ShutDown(w, s, intfs[k])
      case None => None
      case Some(t) => ShutAll(w, t, intfs, k + 1)
  }

  lemma {:induction false} NullifiedKeeps(w: World, s: Net, intfs: seq<Intf>, k: nat)
    requires Fit(w, s) && Inv(w, s) && k <= |intfs| && AllInside(w, intfs)
    ensures Fit(w, NullifiedAll(s, intfs, k)) && Kept(w, s, NullifiedAll(s, intfs, k))
  {
    hide Inv, Later, Fit;
    if k == 0 {
      KeptItself(w, s);
    } else {
      var t := NullifiedAll(s, intfs, k - 1);
      NullifiedKeeps(w, s, intfs, k - 1);
      SetDescFits(w, t, intfs[k - 1]);
      assert ValidWorld(w) by { FitWorld(w, s); }
      SetDescKeeps(w, t, intfs[k - 1], NullDesc);
      KeptTrans(w, s, t, SetDesc(t, intfs[k - 1], NullDesc));
    }
  }

  lemma FitWorld(w: World, s: Net)
    requires Fit(w, s)
    ensures ValidWorld(w) && Wired(w, s.dest, s.desc)
  {
  }

  lemma {:induction false} ShutAllKeeps(w: World, s: Net, intfs: seq<Intf>, k: nat)
    requires Fit(w, s) && Inv(w, s) && k <= |intfs| && AllInside(w, intfs)
    ensures Safe(w, s) ==> ShutAll(w, s, intfs, k).Some?
    ensures ShutAll(w, s, intfs, k).Some? ==>
              var t := ShutAll(w, s, intfs, k).value;
              Fit(w, t) && Kept(w, s, t) && forall j :: k <= j < |intfs| ==> Unplugged(t.dest, intfs[j])
    decreases |intfs| - k
  {
    hide Inv, Later, Fit, Safe, ShutDown, Unplugged;
    if k == |intfs| {
      KeptItself(w, s);
    } else {
      ShutDownKeeps(w, s, intfs[k]);
      if ShutDown(w, s, intfs[k]).Some? {
        var t := ShutDown(w, s, intfs[k]).value;
        KeptSafe(w, s, t);
        ShutAllKeeps(w, t, intfs, k + 1);
        if ShutAll(w, t, intfs, k + 1).Some? {
          var u := ShutAll(w, t, intfs, k + 1).value;
          KeptTrans(w, s, t, u);
          StaysUnplugged(w, t, u, intfs[k]);
        }
      }
    }
  }

  // ---- Runs ---------------------------------------------------------------

  /** A call from the rest of the program. */
  datatype Call =
    | Plugging(a: Intf, b: Intf)
    | Unplugging(a: Intf)
    | ShuttingDown(a: Intf)
    | ShuttingAll(intfs: seq<Intf>)
    | Restarting(a: Intf)
    | Taking(o: Obj)
    | Dropping(o: Obj)

  // The caller has a reference to the object of i.
  ghost predicate MayUse(w: World, s: Net, i: Intf) {
    0 < i < |w.original| && Held(w, s, i)
  }

  ghost predicate Legal(w: World, s: Net, call: Call) {
    match call
    case Plugging(a, b) => MayUse(w, s, a) && b < |w.original| && Alive(w, s, b)
    case Unplugging(a) => MayUse(w, s, a)
    case ShuttingDown(a) => 0 < a < |w.original| && Alive(w, s, a)
    case ShuttingAll(intfs) => forall k :: 0 <= k < |intfs| ==> MayUse(w, s, intfs[k])
    case Restarting(a) => MayUse(w, s, a)
    case Taking(o) => o < |s.count| && o !in s.freed
    case Dropping(o) => o < |s.count| && o in s.owners
  }

  // What the call does, if it ends
  ghost function Performed(w: World, s: Net, call: Call): Option<Net>
    requires Fit(w, s) && Inv(w, s) && Legal(w, s, call)
  {
    match call
    case Plugging(a, b) => Some(PlugTo(w, s, a, b))
    case Unplugging(a) => Some(PlugTo(w, s, a, NULL_INTF))
    case ShuttingDown(a) => ShutDown(w, s, a)
    case ShuttingAll(intfs) =>
      NullifiedKeeps(w, s, intfs, |intfs|);
      ShutAll(w, NullifiedAll(s, intfs, |intfs|), intfs, 0)
    case Restarting(a) => Restarted(w, s, a)
    case Taking(o) => Some(Referred(s, o, 1))
    case Dropping(o) => Some(Referred(s, o, -1))
  }

  // The references of the rest of the program after a call
  function OwnersAfter(owners: multiset<Obj>, call: Call): multiset<Obj> {
    match call
    case Taking(o) => owners + multiset{o}
    case Dropping(o) => owners - multiset{o}
    case _ => owners
  }

  // What every call keeps, and that nothing is ever freed twice or un-freed.
  ghost predicate Steps(w: World, s: Net, t: Net, owners: multiset<Obj>) {
    && Fit(w, t) && Inv(w, t) && |t.count| == |s.count|
    && t.temps == s.temps && s.freed <= t.freed && t.owners == owners
  }

  lemma PerformedKeeps(w: World, s: Net, call: Call)
    requires Fit(w, s) && Inv(w, s) && Legal(w, s, call)
    ensures Performed(w, s, call).Some? ==>
              Steps(w, s, Performed(w, s, call).value, OwnersAfter(s.owners, call))
    ensures Safe(w, s) ==> Performed(w, s, call).Some?
  {
    hide Inv, ShutDown, ShutAll, Restarted, PlugTo, Safe, Referred;
    match call
    case Plugging(a, b) => PlugSteps(w, s, a, b);
    case Unplugging(a) => NullAlive(w, s); PlugSteps(w, s, a, NULL_INTF);
    case ShuttingDown(a) => ShutDownKeeps(w, s, a);
    case ShuttingAll(intfs) =>
      var t := NullifiedAll(s, intfs, |intfs|);
      NullifiedKeeps(w, s, intfs, |intfs|);
      KeptSafe(w, s, t);
      ShutAllKeeps(w, t, intfs, 0);
    case Restarting(a) => RestartedKeeps(w, s, a);
    case Taking(o) => ReferredSteps(w, s, o, 1);
    case Dropping(o) => ReferredSteps(w, s, o, -1);
  }

  lemma NullAlive(w: World, s: Net)
    requires ValidWorld(w)
    ensures Alive(w, s, NULL_INTF)
  {
  }

  lemma PlugSteps(w: World, s: Net, i: Intf, d: Intf)
    requires Fit(w, s) && Inv(w, s) && 0 < i < |w.original| && d < |w.original| && Alive(w, s, d)
    ensures Steps(w, s, PlugTo(w, s, i, d), s.owners)
  {
    hide Inv, PlugTo;
    PlugKeeps(w, s, i, d);
    InvWired(w, PlugTo(w, s, i, d));
  }

  lemma ReferredSteps(w: World, s: Net, o: Obj, step: int)
    requires Fit(w, s) && Inv(w, s) && o < |s.count| && (step == 1 || step == -1)
    requires step == 1 ==> o !in s.freed
    requires step == -1 ==> o in s.owners
    ensures Steps(w, s, Referred(s, o, step), if step == 1 then s.owners + multiset{o} else s.owners - multiset{o})
  {
    hide Inv;
    ReferredKeeps(w, s, o, step);
  }

  // Every call is legal when its turn comes.
  ghost predicate LegalRun(w: World, s: Net, calls: seq<Call>)
    requires Fit(w, s) && Inv(w, s)
    decreases |calls|
  {
    calls == [] ||
    (Legal(w, s, calls[0]) && (PerformedKeeps(w, s, calls[0]); true) &&
     match Performed(w, s, calls[0]) {
       case None => true
       case Some(t) => LegalRun(w, t, calls[1..])
     })
  }

  ghost function Run(w: World, s: Net, calls: seq<Call>): Option<Net>
    requires Fit(w, s) && Inv(w, s) && LegalRun(w, s, calls)
    decreases |calls|
  {
    if calls == [] then Some(s)
    else
      PerformedKeeps(w, s, calls[0]);
      match Performed(w, s, calls[0])
      case None => None
      case Some(t) => Run(w, t, calls[1..])
  }

  function OwnersAll(owners: multiset<Obj>, calls: seq<Call>): multiset<Obj>
    decreases |calls|
  {
    if calls == [] then owners else OwnersAll(OwnersAfter(owners, calls[0]), calls[1..])
  }

  // After any run all references are accounted for: those of the rest of the
  // program are the ones it has taken and not dropped.
  lemma {:induction false} RunKeeps(w: World, s: Net, calls: seq<Call>)
    requires Fit(w, s) && Inv(w, s) && LegalRun(w, s, calls) && Run(w, s, calls).Some?
    ensures Steps(w, s, Run(w, s, calls).value, OwnersAll(s.owners, calls))
    decreases |calls|
  {
    hide Inv, Performed, Fit, Legal;
    if calls != [] {
      PerformedKeeps(w, s, calls[0]);
      RunKeeps(w, Performed(w, s, calls[0]).value, calls[1..]);
    }
  }

  // No plug of the run makes the network unsafe.
  ghost predicate PlugsSafely(w: World, s: Net, calls: seq<Call>)
    requires Fit(w, s) && Inv(w, s) && LegalRun(w, s, calls)
    decreases |calls|
  {
    calls == [] ||
    ((PerformedKeeps(w, s, calls[0]); true) &&
     match Performed(w, s, calls[0]) {
       case None => true
       case Some(t) => (calls[0].Plugging? ==> Safe(w, t)) && PlugsSafely(w, t, calls[1..])
     })
  }

  // Then every call of the run ends.
  lemma {:induction false} RunEnds(w: World, s: Net, calls: seq<Call>)
    requires Fit(w, s) && Inv(w, s) && LegalRun(w, s, calls) && Safe(w, s) && PlugsSafely(w, s, calls)
    ensures Run(w, s, calls).Some?
    decreases |calls|
  {
    hide Inv, Performed, Fit, Legal, Safe;
    if calls != [] {
      PerformedKeeps(w, s, calls[0]);
      SafeStep(w, s, calls[0]);
      RunEnds(w, Performed(w, s, calls[0]).value, calls[1..]);
    }
  }

  lemma SafeStep(w: World, s: Net, call: Call)
    requires Fit(w, s) && Inv(w, s) && Legal(w, s, call) && Safe(w, s) && Performed(w, s, call).Some?
    ensures !call.Plugging? ==> Safe(w, Performed(w, s, call).value)
  {
    hide Inv, Safe, ShutDown, ShutAll, Restarted, PlugTo;
    PerformedKeeps(w, s, call);
    match call
    case Plugging(_, _) =>
    case Unplugging(a) =>
      NullAlive(w, s);
      PlugKeeps(w, s, a, NULL_INTF);
      SafeLater(w, s, PlugTo(w, s, a, NULL_INTF));
    case ShuttingDown(a) => ShutDownKeeps(w, s, a); KeptSafe(w, s, ShutDown(w, s, a).value);
    case ShuttingAll(intfs) =>
      var t := NullifiedAll(s, intfs, |intfs|);
      NullifiedKeeps(w, s, intfs, |intfs|);
      KeptSafe(w, s, t);
      ShutAllKeeps(w, t, intfs, 0);
      KeptSafe(w, t, ShutAll(w, t, intfs, 0).value);
    case Restarting(a) => RestartedKeeps(w, s, a); KeptSafe(w, s, Restarted(w, s, a).value);
    case Taking(o) => SafeLater(w, s, Referred(s, o, 1));
    case Dropping(o) => SafeLater(w, s, Referred(s, o, -1));
  }

  // A run that leaves everything unplugged has freed exactly the objects that
  // the rest of the program has no reference to, each of them once.
  lemma RunFrees(w: World, s: Net, calls: seq<Call>, o: Obj)
    requires Fit(w, s) && Inv(w, s) && LegalRun(w, s, calls) && Run(w, s, calls).Some?
    requires s.temps == multiset{} && o < |s.count|
    requires var t := Run(w, s, calls).value; forall i :: 0 <= i < |t.dest| ==> t.dest[i] == NULL_INTF
    ensures var t := Run(w, s, calls).value;
            (o in t.freed <==> o !in OwnersAll(s.owners, calls)) && FreedOnce(t.freed)
  {
    hide Run, LegalRun;
    RunKeeps(w, s, calls);
    QuietCounts(w, Run(w, s, calls).value, o);
  }
}
