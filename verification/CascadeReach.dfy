/**
 How far a close cascade of interface.c goes: the interfaces that it is bound to
 unplug, however long the way to them.
 */
module CascadeReach {
  import opened Words
  import opened Interface
  import opened PassThrough
  import opened Cascade

  // ---- What a cascade is bound to do --------------------------------------

  predicate Names(script: seq<Action>, j: Intf) {
    Shut(j) in script || Restart(j) in script
  }

  // A close of e shuts down or restarts j.
  predicate NamedBy(desc: Desc, e: Intf, j: Intf) {
    match desc
    case NullDesc => false
    case Handler(script) => Names(script, j)
    case NoHandler(passthru) => passthru.None? && j == e
  }

  // A handler shuts down, restarts or nullifies e.
  predicate Disables(desc: Desc, e: Intf) {
    desc.Handler? && (Names(desc.script, e) || Nullify(e) in desc.script)
  }

  // must[e] are interfaces that a close of e has to leave unplugged. Whatever
  // disables e has to see to them as well: a handler that shuts down, restarts
  // or nullifies e names them too.
  ghost predicate Agreed(w: World, must: seq<set<Intf>>) {
    && |must| == |w.original|
    && (forall e, j :: 0 <= e < |must| && j in must[e] ==> NamedBy(w.original[e], e, j))
    && (forall x, e, j :: 0 <= x < |w.original| && 0 <= e < |must| && Disables(w.original[x], e) && j in must[e] ==>
                            Names(w.original[x].script, j))
  }

  // If e answers in s, what it has to unplug is unplugged in t.
  ghost predicate Answered(must: seq<set<Intf>>, s: Net, t: Net, e: Intf) {
    e < |s.desc| && e < |must| && s.desc[e] != NullDesc ==> forall j :: j in must[e] ==> Unplugged(t.dest, j)
  }

  // The other end of every plug that was taken out has answered, and so has
  // every interface that was nullified, apart from some exceptions.
  ghost predicate Spread(must: seq<set<Intf>>, s: Net, t: Net, except: set<Intf>) {
    && |s.dest| == |t.dest| && |s.desc| == |t.desc|
    && (forall x :: 0 <= x < |s.dest| && s.dest[x] != NULL_INTF && t.dest[x] == NULL_INTF && s.dest[x] !in except ==>
                      Answered(must, s, t, s.dest[x]))
    && (forall e :: 0 <= e < |s.desc| && s.desc[e] != NullDesc && t.desc[e] == NullDesc && e !in except ==>
                      Answered(must, s, t, e))
  }

  lemma SpreadTrans(w: World, must: seq<set<Intf>>, s: Net, t: Net, u: Net, except: set<Intf>)
    requires Fit(w, s) && Fit(w, t) && Fit(w, u) && FewerPlugs(s, t) && FewerPlugs(t, u)
    requires Spread(must, s, t, except) && Spread(must, t, u, except)
    ensures Spread(must, s, u, except)
  {
    hide ValidWorld;
    forall x | 0 <= x < |s.dest| && s.dest[x] != NULL_INTF && u.dest[x] == NULL_INTF && s.dest[x] !in except
      ensures Answered(must, s, u, s.dest[x])
    {
      var e := s.dest[x];
      assert t.dest[x] == NULL_INTF ==> Answered(must, s, t, e);
      assert t.dest[x] != NULL_INTF ==> Answered(must, t, u, e);
    }
    forall e | 0 <= e < |s.desc| && s.desc[e] != NullDesc && u.desc[e] == NullDesc && e !in except
      ensures Answered(must, s, u, e)
    {
      assert t.desc[e] == NullDesc ==> Answered(must, s, t, e);
      assert t.desc[e] != NullDesc ==> Answered(must, t, u, e);
    }
  }

  lemma SpreadMore(must: seq<set<Intf>>, s: Net, t: Net, few: set<Intf>, many: set<Intf>)
    requires Spread(must, s, t, few) && few <= many
    ensures Spread(must, s, t, many)
  {
  }

  lemma SpreadNone(must: seq<set<Intf>>, s: Net, t: Net, except: set<Intf>)
    requires s.dest == t.dest && |s.desc| == |t.desc|
    requires forall e :: 0 <= e < |s.desc| && s.desc[e] != NullDesc && t.desc[e] == NullDesc ==> e in except
    ensures Spread(must, s, t, except)
  {
  }

  // Exceptions that have answered after all
  lemma SpreadSettled(must: seq<set<Intf>>, s: Net, t: Net, except: set<Intf>)
    requires Spread(must, s, t, except) && forall e :: e in except ==> Answered(must, s, t, e)
    ensures Spread(must, s, t, {})
  {
  }

  lemma KeptFewer(w: World, s: Net, t: Net)
    requires Kept(w, s, t) && ValidWorld(w)
    ensures FewerPlugs(s, t) && Fit(w, t)
  {
  }

  lemma {:induction false} ClosedSpreads(w: World, must: seq<set<Intf>>, s: Net, d: Intf)
    requires Fit(w, s) && Inv(w, s) && d < |w.original| && Agreed(w, must) && Closed(w, s, d).Some?
    requires Owner(w, d).Some? ==> Owner(w, d).value in s.temps
    ensures var t := Closed(w, s, d).value;
            && Spread(must, s, t, {}) && Answered(must, s, t, d)
            && Found(s, d).Some? && Answered(must, s, t, Found(s, d).value)
    decreases if d == NULL_INTF then 0 else Plugged(s.dest) + 1, 1
  {
    hide Inv, Agreed, Spread, Dispatched, Search, Get, Put, Plugged;
    var cur := Found(s, d).value;
    FoundFits(w, s, d);
    FoundItself(s, d);
    var t := Get(w, s, cur);
    HeldIsAlive(w, s, d);
    SearchAlive(w, s, d, |s.desc|);
    GetKeeps(w, s, cur);
    GetIs(w, s, cur);
    DispatchedSpreads(w, must, t, cur);
    var u := Dispatched(w, t, cur).value;
    PutIs(w, u, cur);
    SpreadSame(must, t, u, s, Put(w, u, cur), {});
    if PassesOn(s, d) {
      PassingOwesNothing(w, must, s, d);
    }
  }

  // What passes a close on has no interface of its own to unplug.
  lemma PassingOwesNothing(w: World, must: seq<set<Intf>>, s: Net, d: Intf)
    requires Fit(w, s) && d < |w.original| && Agreed(w, must) && PassesOn(s, d)
    ensures must[d] == {}
  {
    assert forall j :: j in must[d] ==> NamedBy(w.original[d], d, j);
  }

  // References do not matter.
  lemma SpreadSame(must: seq<set<Intf>>, s: Net, t: Net, s': Net, t': Net, except: set<Intf>)
    requires Spread(must, s, t, except)
    requires s'.dest == s.dest && s'.desc == s.desc && t'.dest == t.dest && t'.desc == t.desc
    ensures Spread(must, s', t', except)
  {
    assert forall e :: Answered(must, s, t, e) ==> Answered(must, s', t', e);
  }

  lemma {:induction false} DispatchedSpreads(w: World, must: seq<set<Intf>>, s: Net, cur: Intf)
    requires Fit(w, s) && Inv(w, s) && cur < |w.original| && Held(w, s, cur) && Agreed(w, must)
    requires Dispatched(w, s, cur).Some? && !PassesOn(s, cur)
    ensures var t := Dispatched(w, s, cur).value; Spread(must, s, t, {}) && Answered(must, s, t, cur)
    decreases if cur == NULL_INTF then 0 else Plugged(s.dest) + 1, 0
  {
    hide Inv, Agreed, Spread, Scripted, Restarted, Plugged, Held;
    match s.desc[cur]
    case NullDesc =>
      SpreadNone(must, s, s, {});
    case Handler(script) =>
      ScriptFits(w, s, cur);
      ScriptedKeeps(w, s, cur, script, 0);
      ScriptedSpreads(w, must, s, cur, script, 0);
      var t := Scripted(w, s, script, 0).value;
      ScriptSettles(w, must, s, t, cur, script);
      SpreadSettled(must, s, t, Touched(script));
    case NoHandler(_) =>
      RestartedKeeps(w, s, cur);
      RestartedSpreads(w, must, s, cur);
      DefaultSettles(w, must, s, Restarted(w, s, cur).value, cur);
      SpreadSettled(must, s, Restarted(w, s, cur).value, {cur});
  }

  lemma DefaultSettles(w: World, must: seq<set<Intf>>, s: Net, t: Net, cur: Intf)
    requires Fit(w, s) && cur < |w.original| && Agreed(w, must) && s.desc[cur].NoHandler? && Unplugged(t.dest, cur)
    ensures Answered(must, s, t, cur)
  {
    assert forall j :: j in must[cur] ==> NamedBy(w.original[cur], cur, j);
  }

  // The interfaces that a handler may disable
  function Touched(script: seq<Action>): set<Intf> {
    set a | a in script && !a.Reinit? :: a.intf
  }

  lemma ScriptSettles(w: World, must: seq<set<Intf>>, s: Net, t: Net, cur: Intf, script: seq<Action>)
    requires Fit(w, s) && cur < |w.original| && Agreed(w, must) && s.desc[cur] == Handler(script)
    requires forall j :: 0 <= j < |script| && (script[j].Shut? || script[j].Restart?) ==>
                           Unplugged(t.dest, script[j].intf)
    ensures Answered(must, s, t, cur) && forall e :: e in Touched(script) ==> Answered(must, s, t, e)
  {
    hide ValidWorld;
    forall j | Names(script, j)
      ensures Unplugged(t.dest, j)
    {}
    forall j | j in must[cur]
      ensures Names(script, j)
    {
      assert NamedBy(w.original[cur], cur, j);
    }
    forall e | e in Touched(script)
      ensures Answered(must, s, t, e)
    {
      var a :| a in script && !a.Reinit? && a.intf == e;
      assert a == Shut(e) || a == Restart(e) || a == Nullify(e);
      assert Disables(w.original[cur], e);
      assert e < |must| ==> forall j :: j in must[e] ==> Names(script, j);
    }
  }

  lemma {:induction false} ScriptedSpreads(w: World, must: seq<set<Intf>>, s: Net, cur: Intf, script: seq<Action>,
                                           k: nat)
    requires Fit(w, s) && Inv(w, s) && k <= |script| && ScriptInside(w, script) && Held(w, s, cur) && Agreed(w, must)
    requires forall j :: 0 <= j < |script| ==> Sibling(w, cur, script[j].intf)
    requires Scripted(w, s, script, k).Some?
    ensures Spread(must, s, Scripted(w, s, script, k).value, Touched(script))
    decreases Plugged(s.dest), 5, |script| - k
  {
    hide Inv, Agreed, Spread, Acted, Plugged, Held, Later, Touched;
    if k == |script| {
      SpreadNone(must, s, s, Touched(script));
    } else {
      KeptItself(w, s);
      HeldLater(w, s, s, cur, script[k].intf);
      ActedKeeps(w, s, script[k]);
      ActedSpreads(w, must, s, script[k]);
      var t := Acted(w, s, script[k]).value;
      HeldLater(w, s, t, cur, cur);
      ScriptedKeeps(w, t, cur, script, k + 1);
      ScriptedSpreads(w, must, t, cur, script, k + 1);
      var u := Scripted(w, t, script, k + 1).value;
      KeptFewer(w, s, t);
      KeptFewer(w, t, u);
      TouchedHas(script, k);
      SpreadMore(must, s, t, if script[k].Reinit? then {} else {script[k].intf}, Touched(script));
      SpreadTrans(w, must, s, t, u, Touched(script));
    }
  }

  lemma TouchedHas(script: seq<Action>, k: nat)
    requires k < |script|
    ensures !script[k].Reinit? ==> script[k].intf in Touched(script)
  {
  }

  lemma {:induction false} ActedSpreads(w: World, must: seq<set<Intf>>, s: Net, action: Action)
    requires Fit(w, s) && Inv(w, s) && 0 < action.intf < |w.original| && Held(w, s, action.intf) && Agreed(w, must)
    requires Acted(w, s, action).Some?
    ensures Spread(must, s, Acted(w, s, action).value, if action.Reinit? then {} else {action.intf})
    decreases Plugged(s.dest), 4
  {
    hide Inv, Agreed, Spread, ShutDown, Restarted, Plugged, Held;
    match action
    case Nullify(i) => SpreadNone(must, s, SetDesc(s, i, NullDesc), {i});
    case Shut(i) => ShutDownSpreads(w, must, s, i);
    case Restart(i) => RestartedSpreads(w, must, s, i);
    case Reinit(i) => SpreadNone(must, s, SetDesc(s, i, w.original[i]), {});
  }

  // Whatever a shutdown unplugs, on whatever way, the other end of the plug has
  // answered; only i itself does not answer.
  lemma {:induction false} ShutDownSpreads(w: World, must: seq<set<Intf>>, s: Net, i: Intf)
    requires Fit(w, s) && Inv(w, s) && 0 < i < |w.original| && Agreed(w, must) && ShutDown(w, s, i).Some?
    ensures Spread(must, s, ShutDown(w, s, i).value, {i})
    ensures var t, f := Detach(w, s, i), Found(Detach(w, s, i), s.dest[i]);
            f.Some? && Answered(must, t, ShutDown(w, s, i).value, f.value)
    decreases Plugged(s.dest), 2
  {
    hide Inv, Agreed, Spread, Closed, Plugged, Put;
    var d, t := s.dest[i], Detach(w, s, i);
    DetachFits(w, s, i);
    DetachKeeps(w, s, i);
    DetachIs(w, s, i);
    ClosedSpreads(w, must, t, d);
    var u := Closed(w, t, d).value;
    PutIs(w, u, d);
    hide Detach;
    DetachSpreads(must, s, t, u, Put(w, u, d), i);
  }

  lemma DetachSpreads(must: seq<set<Intf>>, s: Net, t: Net, u: Net, v: Net, i: Intf)
    requires |s.dest| == |s.desc| && i < |s.dest|
    requires t.dest == s.dest[i := NULL_INTF] && t.desc == s.desc[i := NullDesc]
    requires Spread(must, t, u, {}) && Answered(must, t, u, s.dest[i]) && v.dest == u.dest && v.desc == u.desc
    ensures Spread(must, s, v, {i})
  {
    forall e | e != i && Answered(must, t, u, e)
      ensures Answered(must, s, v, e)
    {}
    forall x | 0 <= x < |s.dest| && s.dest[x] != NULL_INTF && v.dest[x] == NULL_INTF && s.dest[x] !in {i}
      ensures Answered(must, s, v, s.dest[x])
    {
      assert x != i ==> t.dest[x] == s.dest[x];
    }
    forall e | 0 <= e < |s.desc| && s.desc[e] != NullDesc && v.desc[e] == NullDesc && e !in {i}
      ensures Answered(must, s, v, e)
    {
      assert t.desc[e] == s.desc[e];
    }
  }

  lemma {:induction false} RestartedSpreads(w: World, must: seq<set<Intf>>, s: Net, i: Intf)
    requires Fit(w, s) && Inv(w, s) && 0 < i < |w.original| && Agreed(w, must) && Restarted(w, s, i).Some?
    ensures Spread(must, s, Restarted(w, s, i).value, {i})
    decreases Plugged(s.dest), 3
  {
    hide Inv, Agreed, ShutDown, Plugged;
    ShutDownSpreads(w, must, s, i);
    var t := ShutDown(w, s, i).value;
    var u := SetDesc(t, i, w.original[i]);
    assert forall e :: Answered(must, s, t, e) ==> Answered(must, s, u, e);
  }

  // intfs_shutdown(): only the interfaces shut down do not answer.
  lemma {:induction false} ShutAllSpreads(w: World, must: seq<set<Intf>>, s: Net, intfs: seq<Intf>, k: nat)
    requires Fit(w, s) && Inv(w, s) && k <= |intfs| && AllInside(w, intfs) && Agreed(w, must)
    requires ShutAll(w, s, intfs, k).Some?
    ensures Spread(must, s, ShutAll(w, s, intfs, k).value, Members(intfs))
    decreases |intfs| - k
  {
    hide Inv, Agreed, Spread, ShutDown, Later;
    if k == |intfs| {
      SpreadNone(must, s, s, Members(intfs));
    } else {
      ShutDownKeeps(w, s, intfs[k]);
      ShutDownSpreads(w, must, s, intfs[k]);
      var t := ShutDown(w, s, intfs[k]).value;
      ShutAllKeeps(w, t, intfs, k + 1);
      ShutAllSpreads(w, must, t, intfs, k + 1);
      KeptFewer(w, s, t);
      KeptFewer(w, t, ShutAll(w, t, intfs, k + 1).value);
      SpreadMore(must, s, t, {intfs[k]}, Members(intfs));
      SpreadTrans(w, must, s, t, ShutAll(w, t, intfs, k + 1).value, Members(intfs));
    }
  }

  function Members(intfs: seq<Intf>): set<Intf> {
    set i | i in intfs
  }

  lemma {:induction false} NullifiedIs(w: World, s: Net, intfs: seq<Intf>, k: nat)
    requires Fit(w, s) && k <= |intfs| && AllInside(w, intfs)
    ensures var t := NullifiedAll(s, intfs, k);
            && t.dest == s.dest && |t.desc| == |s.desc|
            && forall e :: 0 <= e < |s.desc| ==> t.desc[e] == if e in intfs[..k] then NullDesc else s.desc[e]
  {
    if k > 0 {
      NullifiedIs(w, s, intfs, k - 1);
      assert intfs[..k] == intfs[..k - 1] + [intfs[k - 1]];
    }
  }

  lemma IntfsShutdownSpreads(w: World, must: seq<set<Intf>>, s: Net, intfs: seq<Intf>)
    requires Fit(w, s) && Inv(w, s) && Agreed(w, must) && Legal(w, s, ShuttingAll(intfs))
    requires Performed(w, s, ShuttingAll(intfs)).Some?
    ensures Spread(must, s, Performed(w, s, ShuttingAll(intfs)).value, Members(intfs))
  {
    hide Inv, Agreed, Spread, ShutAll, Later, NullifiedAll;
    var t := NullifiedAll(s, intfs, |intfs|);
    NullifiedKeeps(w, s, intfs, |intfs|);
    NullifiedIs(w, s, intfs, |intfs|);
    assert intfs[..|intfs|] == intfs;
    SpreadNone(must, s, t, Members(intfs));
    ShutAllSpreads(w, must, t, intfs, 0);
    ShutAllKeeps(w, t, intfs, 0);
    KeptFewer(w, s, t);
    KeptFewer(w, t, ShutAll(w, t, intfs, 0).value);
    SpreadTrans(w, must, s, t, ShutAll(w, t, intfs, 0).value, Members(intfs));
  }

  // ---- The other end, and chains of any length ----------------------------

  // A close of e unplugs j, and so does every handler that disables e.
  ghost predicate Owes(w: World, e: Intf, j: Intf)
    requires e < |w.original|
  {
    && NamedBy(w.original[e], e, j)
    && forall x :: 0 <= x < |w.original| && Disables(w.original[x], e) ==> Names(w.original[x].script, j)
  }

  ghost function Due(w: World): seq<set<Intf>> {
    seq(|w.original|, e requires 0 <= e < |w.original| => set j | 0 <= j < |w.original| && Owes(w, e, j))
  }

  lemma DueAgreed(w: World)
    ensures Agreed(w, Due(w))
  {
    forall e, j | 0 <= e < |Due(w)| && j in Due(w)[e]
      ensures Owes(w, e, j)
    {}
  }

  // y is due when the interface that x is plugged into closes.
  ghost predicate Hop(w: World, s: Net, except: set<Intf>, x: Intf, y: Intf) {
    && |s.dest| == |s.desc| == |w.original| && x < |s.dest| && y < |s.dest|
    && var e := s.dest[x];
    e != NULL_INTF && e < |s.dest| && e !in except && s.desc[e] != NullDesc && Owes(w, e, y)
  }

  ghost predicate HopTo(w: World, s: Net, except: set<Intf>, xs: seq<Intf>, k: int)
    requires 0 < k < |xs|
  {
    Hop(w, s, except, xs[k - 1], xs[k])
  }

  // A chain of such steps
  ghost predicate Chain(w: World, s: Net, except: set<Intf>, xs: seq<Intf>) {
    forall k :: 0 < k < |xs| ==> HopTo(w, s, except, xs, k)
  }

  lemma {:induction false} ChainUnplugged(w: World, s: Net, t: Net, except: set<Intf>, xs: seq<Intf>, k: nat)
    requires Fit(w, s) && Spread(Due(w), s, t, except) && k < |xs| && Chain(w, s, except, xs) && FewerPlugs(s, t)
    requires Unplugged(t.dest, xs[0])
    ensures Unplugged(t.dest, xs[k])
  {
    if k > 0 {
      ChainUnplugged(w, s, t, except, xs, k - 1);
      assert HopTo(w, s, except, xs, k);
      assert Answered(Due(w), s, t, s.dest[xs[k - 1]]);
    }
  }

  // Shutting down an interface unplugs all that any chain from it leads to.
  lemma ShutDownReaches(w: World, s: Net, i: Intf, xs: seq<Intf>)
    requires Fit(w, s) && Inv(w, s) && 0 < i < |w.original| && ShutDown(w, s, i).Some?
    requires xs != [] && xs[0] == i && Chain(w, s, {i}, xs)
    ensures forall k :: 0 <= k < |xs| ==> Unplugged(ShutDown(w, s, i).value.dest, xs[k])
  {
    hide Inv, ShutDown, Agreed, Chain, Due;
    DueAgreed(w);
    ShutDownKeeps(w, s, i);
    ShutDownSpreads(w, Due(w), s, i);
    forall k | 0 <= k < |xs|
      ensures Unplugged(ShutDown(w, s, i).value.dest, xs[k])
    {
      ChainUnplugged(w, s, ShutDown(w, s, i).value, {i}, xs, k);
    }
  }

  // Closing an interface reaches what handles the close at the end of the
  // pass-through interfaces, and from there on all that chains lead to.
  lemma ShutDownPassesOn(w: World, s: Net, i: Intf, j: Intf)
    requires Fit(w, s) && Inv(w, s) && 0 < i < |w.original| && ShutDown(w, s, i).Some?
    requires var f := Found(Detach(w, s, i), s.dest[i]);
             f.Some? && f.value != i && f.value < |w.original| && s.desc[f.value] != NullDesc && Owes(w, f.value, j)
    ensures Unplugged(ShutDown(w, s, i).value.dest, j)
  {
    hide Inv, ShutDown, Agreed, Search;
    DueAgreed(w);
    ShutDownSpreads(w, Due(w), s, i);
    var f := Found(Detach(w, s, i), s.dest[i]).value;
    NamedInside(w, f, j);
    assert j in Due(w)[f];
  }

  lemma NamedInside(w: World, e: Intf, j: Intf)
    requires ValidWorld(w) && e < |w.original| && NamedBy(w.original[e], e, j)
    ensures j < |w.original|
  {
    assert DescOk(w, e, w.original[e]);
  }

  lemma IntfsShutdownReaches(w: World, s: Net, intfs: seq<Intf>, xs: seq<Intf>)
    requires Fit(w, s) && Inv(w, s) && Legal(w, s, ShuttingAll(intfs)) && Performed(w, s, ShuttingAll(intfs)).Some?
    requires xs != [] && xs[0] in intfs && Chain(w, s, Members(intfs), xs)
    ensures forall k :: 0 <= k < |xs| ==> Unplugged(Performed(w, s, ShuttingAll(intfs)).value.dest, xs[k])
  {
    hide Inv, ShutAll, Agreed, Chain, NullifiedAll, Due;
    DueAgreed(w);
    IntfsShutdownSpreads(w, Due(w), s, intfs);
    var v := NullifiedAll(s, intfs, |intfs|);
    var t := Performed(w, s, ShuttingAll(intfs)).value;
    NullifiedKeeps(w, s, intfs, |intfs|);
    ShutAllKeeps(w, v, intfs, 0);
    assert FewerPlugs(s, t);
    forall k | 0 <= k < |xs|
      ensures Unplugged(t.dest, xs[k])
    {
      ChainUnplugged(w, s, t, Members(intfs), xs, k);
    }
  }

  // No handler nullifies an interface that closes itself without shutting it
  // down or restarting it as well.
  ghost predicate Tidy(w: World) {
    forall x, e :: 0 <= x < |w.original| && 0 <= e < |w.original| && ClosesItself(w.original[e], e) ==>
                     Disables(w.original[x], e) ==> Names(w.original[x].script, e)
  }

  // The other end of every plug taken out is unplugged too, if it is one that
  // closes itself.
  ghost predicate FarEndsClosed(s: Net, t: Net) {
    && |s.dest| == |t.dest| == |s.desc|
    && forall x :: 0 <= x < |s.dest| && s.dest[x] < |s.desc| && t.dest[x] == NULL_INTF ==>
                     ClosesItself(s.desc[s.dest[x]], s.dest[x]) ==> Unplugged(t.dest, s.dest[x])
  }

  ghost function Selves(w: World): seq<set<Intf>> {
    seq(|w.original|, e requires 0 <= e < |w.original| => if ClosesItself(w.original[e], e) then {e} else {})
  }

  lemma SelvesAgreed(w: World)
    requires Tidy(w)
    ensures Agreed(w, Selves(w))
  {
  }

  lemma SpreadCloses(w: World, s: Net, t: Net, except: set<Intf>)
    requires Fit(w, s) && Spread(Selves(w), s, t, except) && FewerPlugs(s, t)
    requires forall e :: e in except && e < |s.desc| && ClosesItself(s.desc[e], e) ==> Unplugged(t.dest, e)
    ensures FarEndsClosed(s, t)
  {
    forall x | 0 <= x < |s.dest| && t.dest[x] == NULL_INTF && ClosesItself(s.desc[s.dest[x]], s.dest[x])
      ensures Unplugged(t.dest, s.dest[x])
    {
      var e := s.dest[x];
      if e !in except && e != NULL_INTF {
        assert Answered(Selves(w), s, t, e);
        assert e in Selves(w)[e];
      }
    }
  }

  // A handler's shutdowns reach their other ends, as do all that follow from
  // them.
  lemma ScriptedReaches(w: World, s: Net, cur: Intf)
    requires Fit(w, s) && Inv(w, s) && cur < |w.original| && Held(w, s, cur) && Tidy(w) && s.desc[cur].Handler?
    requires ScriptInside(w, s.desc[cur].script) && Scripted(w, s, s.desc[cur].script, 0).Some?
    ensures FarEndsClosed(s, Scripted(w, s, s.desc[cur].script, 0).value)
  {
    hide Inv, Scripted, Tidy, Selves, Spread, Held;
    SelvesAgreed(w);
    var script := s.desc[cur].script;
    var t := Scripted(w, s, script, 0).value;
    ScriptFits(w, s, cur);
    ScriptedKeeps(w, s, cur, script, 0);
    ScriptedSpreads(w, Selves(w), s, cur, script, 0);
    ScriptSettles(w, Selves(w), s, t, cur, script);
    SpreadSettled(Selves(w), s, t, Touched(script));
    SpreadCloses(w, s, t, {});
  }

  lemma ActedReaches(w: World, s: Net, action: Action)
    requires Fit(w, s) && Inv(w, s) && 0 < action.intf < |w.original| && Held(w, s, action.intf) && Tidy(w)
    requires (action.Shut? || action.Restart?) && Acted(w, s, action).Some?
    ensures FarEndsClosed(s, Acted(w, s, action).value)
  {
    hide Inv, Acted, Tidy, Selves, Spread, Held;
    SelvesAgreed(w);
    ActedKeeps(w, s, action);
    ActedSpreads(w, Selves(w), s, action);
    SpreadCloses(w, s, Acted(w, s, action).value, {action.intf});
  }

  lemma PerformedReaches(w: World, s: Net, call: Call)
    requires Fit(w, s) && Inv(w, s) && Legal(w, s, call) && Tidy(w) && Performed(w, s, call).Some?
    requires call.ShuttingDown? || call.ShuttingAll? || call.Restarting?
    ensures FarEndsClosed(s, Performed(w, s, call).value)
  {
    hide Inv, ShutDown, Restarted, ShutAll, NullifiedAll, Tidy, Selves, Spread;
    SelvesAgreed(w);
    match call
    case ShuttingDown(a) =>
      ShutDownKeeps(w, s, a);
      ShutDownSpreads(w, Selves(w), s, a);
      SpreadCloses(w, s, ShutDown(w, s, a).value, {a});
    case Restarting(a) =>
      RestartedKeeps(w, s, a);
      RestartedSpreads(w, Selves(w), s, a);
      SpreadCloses(w, s, Restarted(w, s, a).value, {a});
    case ShuttingAll(intfs) =>
      IntfsShutdownSpreads(w, Selves(w), s, intfs);
      var v := NullifiedAll(s, intfs, |intfs|);
      NullifiedKeeps(w, s, intfs, |intfs|);
      ShutAllKeeps(w, v, intfs, 0);
      SpreadCloses(w, s, ShutAll(w, v, intfs, 0).value, Members(intfs));
  }
}
