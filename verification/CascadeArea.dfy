/**
 What a close cascade of interface.c leaves alone: a bound on the interfaces
 that it may unplug, nullify or restart.
 */
module CascadeArea {
  import opened Words
  import opened Interface
  import opened PassThrough
  import opened Cascade
  import opened CascadeReach

  // ---- What a cascade leaves alone ----------------------------------------

  // A close of an interface of `reach` acts on interfaces of `area` only, and so
  // on; those in `dead` are nullified for good.
  ghost predicate Confined(w: World, s: Net, dead: set<Intf>, reach: set<Intf>, area: set<Intf>) {
    && (forall x :: 0 <= x < |s.dest| && x in area ==> s.dest[x] == NULL_INTF || s.dest[x] in reach)
    && (forall e :: 0 <= e < |w.original| && e in reach && e !in dead ==>
                      Within(w.original[e], e, s, dead, reach, area))
    && (forall e :: 0 <= e < |s.desc| && e in dead ==> s.desc[e] == NullDesc)
  }

  ghost predicate Within(desc: Desc, e: Intf, s: Net, dead: set<Intf>, reach: set<Intf>, area: set<Intf>) {
    match desc
    case NullDesc => true
    case Handler(script) => forall a :: a in script ==> Allowed(a, dead, area)
    case NoHandler(None) => e in area
    case NoHandler(Some(p)) => p < |s.dest| && (s.dest[p] == NULL_INTF || s.dest[p] in reach)
  }

  predicate Allowed(a: Action, dead: set<Intf>, area: set<Intf>) {
    a.intf in area && (a.Restart? || a.Reinit? ==> a.intf !in dead)
  }

  // Plugs and descriptors are as before outside `area`, plugs that are left are
  // where they were, and `dead` interfaces stay nullified.
  ghost predicate Undisturbed(s: Net, t: Net, dead: set<Intf>, area: set<Intf>) {
    && FewerPlugs(s, t) && |t.desc| == |s.desc|
    && (forall x :: 0 <= x < |s.dest| && x !in area ==> t.dest[x] == s.dest[x])
    && (forall x :: 0 <= x < |s.desc| && x !in area ==> t.desc[x] == s.desc[x])
    && (forall e :: 0 <= e < |t.desc| && e in dead ==> t.desc[e] == NullDesc)
  }

  lemma UndisturbedTrans(s: Net, t: Net, u: Net, dead: set<Intf>, area: set<Intf>)
    requires Undisturbed(s, t, dead, area) && Undisturbed(t, u, dead, area)
    ensures Undisturbed(s, u, dead, area)
  {
  }

  lemma ConfinedLater(w: World, s: Net, t: Net, dead: set<Intf>, reach: set<Intf>, area: set<Intf>)
    requires Confined(w, s, dead, reach, area) && Undisturbed(s, t, dead, area)
    ensures Confined(w, t, dead, reach, area)
  {
    forall e | 0 <= e < |w.original| && e in reach && e !in dead
      ensures Within(w.original[e], e, t, dead, reach, area)
    {
      assert Within(w.original[e], e, s, dead, reach, area);
    }
  }

  lemma ConfinedSame(w: World, s: Net, t: Net, dead: set<Intf>, reach: set<Intf>, area: set<Intf>)
    requires Confined(w, s, dead, reach, area) && t.dest == s.dest && t.desc == s.desc
    ensures Confined(w, t, dead, reach, area) && Undisturbed(s, t, dead, area)
  {
    ConfinedLater(w, s, t, dead, reach, area);
  }

  lemma {:induction false} SearchConfined(w: World, s: Net, d: Intf, n: nat,
                                          dead: set<Intf>, reach: set<Intf>, area: set<Intf>)
    requires Fit(w, s) && Confined(w, s, dead, reach, area) && d < |w.original| && (d == NULL_INTF || d in reach)
    requires Search(s, d, n).Some?
    ensures var f := Search(s, d, n).value; f == NULL_INTF || f in reach
    decreases n
  {
    if PassesOn(s, d) {
      assert Within(w.original[d], d, s, dead, reach, area);
      SearchConfined(w, s, NextInChain(s, d), n - 1, dead, reach, area);
    }
  }

  lemma {:induction false} ClosedConfined(w: World, s: Net, d: Intf, dead: set<Intf>, reach: set<Intf>, area: set<Intf>)
    requires Fit(w, s) && Confined(w, s, dead, reach, area) && d < |w.original| && (d == NULL_INTF || d in reach)
    requires Closed(w, s, d).Some?
    ensures Undisturbed(s, Closed(w, s, d).value, dead, area)
    decreases if d == NULL_INTF then 0 else Plugged(s.dest) + 1, 1
  {
    hide Confined, Undisturbed, Dispatched, Search, Get, Put, Plugged, Safe;
    var cur := Found(s, d).value;
    FoundFits(w, s, d);
    SearchConfined(w, s, d, |s.desc|, dead, reach, area);
    var t := Get(w, s, cur);
    GetIs(w, s, cur);
    ConfinedSame(w, s, t, dead, reach, area);
    DispatchedConfined(w, t, cur, dead, reach, area);
    var u := Dispatched(w, t, cur).value;
    PutIs(w, u, cur);
    UndisturbedTrans(s, t, u, dead, area);
    UndisturbedSame(s, u, Put(w, u, cur), dead, area);
  }

  lemma UndisturbedSame(s: Net, t: Net, u: Net, dead: set<Intf>, area: set<Intf>)
    requires Undisturbed(s, t, dead, area) && u.dest == t.dest && u.desc == t.desc
    ensures Undisturbed(s, u, dead, area)
  {
  }

  lemma {:induction false} DispatchedConfined(w: World, s: Net, cur: Intf,
                                              dead: set<Intf>, reach: set<Intf>, area: set<Intf>)
    requires Fit(w, s) && Confined(w, s, dead, reach, area) && cur < |w.original| && (cur == NULL_INTF || cur in reach)
    requires !PassesOn(s, cur) && Dispatched(w, s, cur).Some?
    ensures Undisturbed(s, Dispatched(w, s, cur).value, dead, area)
    decreases if cur == NULL_INTF then 0 else Plugged(s.dest) + 1, 0
  {
    hide Confined, Undisturbed, Scripted, Restarted, Plugged;
    AnswersWithin(w, s, cur, dead, reach, area);
    match s.desc[cur]
    case NullDesc => ConfinedSame(w, s, s, dead, reach, area);
    case Handler(script) =>
      ScriptFits(w, s, cur);
      ScriptedConfined(w, s, script, 0, dead, reach, area);
    case NoHandler(_) => RestartedConfined(w, s, cur, dead, reach, area);
  }

  lemma AnswersWithin(w: World, s: Net, cur: Intf, dead: set<Intf>, reach: set<Intf>, area: set<Intf>)
    requires Fit(w, s) && Confined(w, s, dead, reach, area) && cur < |w.original| && (cur == NULL_INTF || cur in reach)
    ensures s.desc[cur] != NullDesc ==> cur !in dead && Within(s.desc[cur], cur, s, dead, reach, area)
  {
  }

  lemma {:induction false} ScriptedConfined(w: World, s: Net, script: seq<Action>, k: nat,
                                            dead: set<Intf>, reach: set<Intf>, area: set<Intf>)
    requires Fit(w, s) && Confined(w, s, dead, reach, area) && k <= |script| && ScriptInside(w, script)
    requires (forall a :: a in script ==> Allowed(a, dead, area)) && Scripted(w, s, script, k).Some?
    ensures Undisturbed(s, Scripted(w, s, script, k).value, dead, area)
    decreases Plugged(s.dest), 5, |script| - k
  {
    hide Confined, Undisturbed, Acted, Plugged, Allowed;
    if k == |script| {
      ConfinedSame(w, s, s, dead, reach, area);
    } else {
      assert script[k] in script;
      ActedConfined(w, s, script[k], dead, reach, area);
      var t := Acted(w, s, script[k]).value;
      ConfinedLater(w, s, t, dead, reach, area);
      ScriptedConfined(w, t, script, k + 1, dead, reach, area);
      UndisturbedTrans(s, t, Scripted(w, t, script, k + 1).value, dead, area);
    }
  }

  lemma SetDescUndisturbed(w: World, s: Net, i: Intf, desc: Desc, dead: set<Intf>, reach: set<Intf>, area: set<Intf>)
    requires Confined(w, s, dead, reach, area) && i < |s.desc| && i in area && (i in dead ==> desc == NullDesc)
    ensures Undisturbed(s, SetDesc(s, i, desc), dead, area)
  {
  }

  lemma {:induction false} ActedConfined(w: World, s: Net, action: Action,
                                         dead: set<Intf>, reach: set<Intf>, area: set<Intf>)
    requires Fit(w, s) && Confined(w, s, dead, reach, area) && 0 < action.intf < |w.original|
    requires Allowed(action, dead, area) && Acted(w, s, action).Some?
    ensures Undisturbed(s, Acted(w, s, action).value, dead, area)
    decreases Plugged(s.dest), 4
  {
    hide Confined, Undisturbed, ShutDown, Restarted, Plugged;
    match action
    case Nullify(i) => SetDescUndisturbed(w, s, i, NullDesc, dead, reach, area);
    case Shut(i) => ShutDownConfined(w, s, i, dead, reach, area);
    case Restart(i) => RestartedConfined(w, s, i, dead, reach, area);
    case Reinit(i) => SetDescUndisturbed(w, s, i, w.original[i], dead, reach, area);
  }

  // A shutdown changes nothing outside the area it is confined to.
  lemma {:induction false} ShutDownConfined(w: World, s: Net, i: Intf,
                                            dead: set<Intf>, reach: set<Intf>, area: set<Intf>)
    requires Fit(w, s) && Confined(w, s, dead, reach, area) && 0 < i < |w.original| && i in area
    requires ShutDown(w, s, i).Some?
    ensures Undisturbed(s, ShutDown(w, s, i).value, dead, area)
    decreases Plugged(s.dest), 2
  {
    hide Confined, Undisturbed, Closed, Plugged, Put;
    var d, t := s.dest[i], Detach(w, s, i);
    DetachFits(w, s, i);
    DetachUndisturbed(w, s, i, dead, reach, area);
    ConfinedLater(w, s, t, dead, reach, area);
    ClosedConfined(w, t, d, dead, reach, area);
    var u := Closed(w, t, d).value;
    PutIs(w, u, d);
    UndisturbedTrans(s, t, u, dead, area);
    UndisturbedSame(s, u, Put(w, u, d), dead, area);
  }

  lemma DetachUndisturbed(w: World, s: Net, i: Intf, dead: set<Intf>, reach: set<Intf>, area: set<Intf>)
    requires Fit(w, s) && Confined(w, s, dead, reach, area) && 0 < i < |w.original| && i in area
    ensures Undisturbed(s, Detach(w, s, i), dead, area) && (s.dest[i] == NULL_INTF || s.dest[i] in reach)
  {
  }

  lemma {:induction false} RestartedConfined(w: World, s: Net, i: Intf,
                                             dead: set<Intf>, reach: set<Intf>, area: set<Intf>)
    requires Fit(w, s) && Confined(w, s, dead, reach, area) && 0 < i < |w.original| && i in area && i !in dead
    requires Restarted(w, s, i).Some?
    ensures Undisturbed(s, Restarted(w, s, i).value, dead, area)
    decreases Plugged(s.dest), 3
  {
    hide Confined, Undisturbed, ShutDown, Plugged;
    ShutDownConfined(w, s, i, dead, reach, area);
    var t := ShutDown(w, s, i).value;
    ConfinedLater(w, s, t, dead, reach, area);
    SetDescUndisturbed(w, t, i, w.original[i], dead, reach, area);
    UndisturbedTrans(s, t, SetDesc(t, i, w.original[i]), dead, area);
  }

  lemma {:induction false} ShutAllConfined(w: World, s: Net, intfs: seq<Intf>, k: nat,
                                           dead: set<Intf>, reach: set<Intf>, area: set<Intf>)
    requires Fit(w, s) && Confined(w, s, dead, reach, area) && k <= |intfs| && AllInside(w, intfs)
    requires (forall i :: i in intfs ==> i in area) && ShutAll(w, s, intfs, k).Some?
    ensures Undisturbed(s, ShutAll(w, s, intfs, k).value, dead, area)
    decreases |intfs| - k
  {
    hide Confined, Undisturbed, ShutDown;
    if k == |intfs| {
      ConfinedSame(w, s, s, dead, reach, area);
    } else {
      ShutDownConfined(w, s, intfs[k], dead, reach, area);
      var t := ShutDown(w, s, intfs[k]).value;
      ConfinedLater(w, s, t, dead, reach, area);
      ShutAllConfined(w, t, intfs, k + 1, dead, reach, area);
      UndisturbedTrans(s, t, ShutAll(w, t, intfs, k + 1).value, dead, area);
    }
  }

  ghost function AllNull(s: Net, intfs: seq<Intf>): Net {
    s.(desc := seq(|s.desc|, e requires 0 <= e < |s.desc| => if e in intfs then NullDesc else s.desc[e]))
  }

  // intfs_shutdown() nullifies its interfaces before it shuts down the first,
  // so none of them answers while the others close: nothing that only they
  // would have closed is touched, and they are still nullified at the end.
  lemma IntfsShutdownConfined(w: World, s: Net, intfs: seq<Intf>, reach: set<Intf>, area: set<Intf>)
    requires Fit(w, s) && Inv(w, s) && Legal(w, s, ShuttingAll(intfs)) && Performed(w, s, ShuttingAll(intfs)).Some?
    requires Members(intfs) <= area
    requires Confined(w, AllNull(s, intfs), Members(intfs), reach, area)
    ensures var t := Performed(w, s, ShuttingAll(intfs)).value;
            && FewerPlugs(s, t) && |t.desc| == |s.desc|
            && (forall x :: 0 <= x < |s.dest| && x !in area ==> t.dest[x] == s.dest[x] && t.desc[x] == s.desc[x])
            && forall i :: i in intfs ==> i < |t.desc| && t.desc[i] == NullDesc && Unplugged(t.dest, i)
  {
    hide Inv, ShutAll, NullifiedAll, Confined, Later;
    var v := NullifiedAll(s, intfs, |intfs|);
    NullifiedKeeps(w, s, intfs, |intfs|);
    NullifiedIs(w, s, intfs, |intfs|);
    assert intfs[..|intfs|] == intfs;
    assert AllNull(s, intfs).desc == v.desc;
    ConfinedSame(w, AllNull(s, intfs), v, Members(intfs), reach, area);
    ShutAllConfined(w, v, intfs, 0, Members(intfs), reach, area);
    ShutAllKeeps(w, v, intfs, 0);
  }

  // intf_shutdown() nullifies its interface before it closes the other end.
  lemma ShutDownDead(w: World, s: Net, i: Intf, reach: set<Intf>, area: set<Intf>)
    requires Fit(w, s) && 0 < i < |w.original| && i in area && ShutDown(w, s, i).Some?
    requires s.dest[i] == NULL_INTF || s.dest[i] in reach
    requires Confined(w, s.(dest := s.dest[i := NULL_INTF], desc := s.desc[i := NullDesc]), {i}, reach, area)
    ensures var t := ShutDown(w, s, i).value;
            && FewerPlugs(s, t) && |t.desc| == |s.desc| && t.desc[i] == NullDesc && t.dest[i] == NULL_INTF
            && forall x :: 0 <= x < |s.dest| && x !in area ==> t.dest[x] == s.dest[x] && t.desc[x] == s.desc[x]
  {
    hide Confined, Closed, Put;
    var d, t := s.dest[i], Detach(w, s, i);
    DetachFits(w, s, i);
    DetachIs(w, s, i);
    var n := s.(dest := s.dest[i := NULL_INTF], desc := s.desc[i := NullDesc]);
    ConfinedSame(w, n, t, {i}, reach, area);
    ClosedConfined(w, t, d, {i}, reach, area);
    PutIs(w, Closed(w, t, d).value, d);
  }
}
