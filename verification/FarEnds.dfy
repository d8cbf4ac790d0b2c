/**
 The condition on close handlers under which a close reaches every far end is
 the right one: where a handler breaks it, there is a network and a call that
 leave a far end plugged in.
 */
module FarEnds {
  import opened Words
  import opened Interface
  import opened PassThrough
  import opened Cascade
  import opened CascadeReach

  // ---- A network in which every object has one owner ----------------------

  ghost predicate Objects(w: World, n: nat) {
    forall i :: 0 <= i < |w.original| && Owner(w, i).Some? ==> Owner(w, i).value < n
  }

  ghost function Everyone(n: nat): multiset<Obj> {
    if n == 0 then multiset{} else Everyone(n - 1) + multiset{n - 1}
  }

  lemma {:induction false} EveryoneOnce(n: nat, o: Obj)
    ensures Everyone(n)[o] == if o < n then 1 else 0
  {
    if n > 0 {
      EveryoneOnce(n - 1, o);
    }
  }

  ghost function Settled(w: World, n: nat, dest: seq<Intf>): Net {
    Net(dest, w.original, seq(n, o requires 0 <= o < n => |Into(w, dest, o)|), [], Everyone(n), multiset{})
  }

  lemma SettledKeeps(w: World, n: nat, dest: seq<Intf>)
    requires ValidWorld(w) && Objects(w, n) && Wired(w, dest, w.original)
    ensures Fit(w, Settled(w, n, dest)) && Inv(w, Settled(w, n, dest))
    ensures forall i :: 0 < i < |w.original| ==> MayUse(w, Settled(w, n, dest), i)
  {
    var s := Settled(w, n, dest);
    forall o | 0 <= o < |s.count|
      ensures Counted(w, s, o)
    {
      EveryoneOnce(n, o);
    }
    forall i | 0 < i < |w.original|
      ensures MayUse(w, s, i)
    {
      if Owner(w, i).Some? {
        EveryoneOnce(n, Owner(w, i).value);
      }
    }
  }

  // ---- A handler whose interfaces are not plugged in ----------------------

  // Shutting down an interface that is not plugged in only nullifies it.
  lemma QuietShutDown(w: World, s: Net, i: Intf)
    requires Fit(w, s) && 0 < i < |w.original| && s.dest[i] == NULL_INTF
    ensures ShutDown(w, s, i).Some?
    ensures var t := ShutDown(w, s, i).value; t.dest == s.dest && t.desc == s.desc[i := NullDesc]
  {
    hide Closed, Put;
    var t := Detach(w, s, i);
    DetachFits(w, s, i);
    DetachIs(w, s, i);
    NullIgnores(w, t, NULL_INTF);
    PutIs(w, Closed(w, t, NULL_INTF).value, NULL_INTF);
    assert s.dest[i := NULL_INTF] == s.dest;
  }

  lemma QuietAct(w: World, s: Net, action: Action)
    requires Fit(w, s) && 0 < action.intf < |w.original|
    requires action.Shut? || action.Restart? ==> s.dest[action.intf] == NULL_INTF
    ensures Acted(w, s, action).Some?
    ensures var t := Acted(w, s, action).value;
            && t.dest == s.dest && |t.desc| == |s.desc|
            && (forall e :: 0 <= e < |s.desc| && e != action.intf ==> t.desc[e] == s.desc[e])
            && (action.Nullify? ==> t.desc[action.intf] == NullDesc)
  {
    hide ShutDown;
    if action.Shut? || action.Restart? {
      QuietShutDown(w, s, action.intf);
    }
  }

  // A handler that nullifies e and does not name it, and names only interfaces
  // that are not plugged in, leaves e nullified and every plug where it is.
  lemma {:induction false} QuietScript(w: World, s: Net, script: seq<Action>, k: nat, e: Intf)
    requires Fit(w, s) && k <= |script| && ScriptInside(w, script) && e < |s.desc|
    requires forall j: Intf :: Names(script, j) ==> j < |s.dest| && s.dest[j] == NULL_INTF
    requires !Names(script, e) && forall a :: a in script ==> !a.Reinit?
    requires s.desc[e] == NullDesc || exists j :: k <= j < |script| && script[j] == Nullify(e)
    ensures Scripted(w, s, script, k).Some?
    ensures var t := Scripted(w, s, script, k).value;
            t.dest == s.dest && |t.desc| == |s.desc| && t.desc[e] == NullDesc
    decreases |script| - k
  {
    hide Acted;
    if k < |script| {
      assert script[k] in script;
      assert script[k].Shut? ==> script[k] == Shut(script[k].intf);
      assert script[k].Restart? ==> script[k] == Restart(script[k].intf);
      QuietAct(w, s, script[k]);
      QuietScript(w, Acted(w, s, script[k]).value, script, k + 1, e);
    }
  }

  // ---- The network --------------------------------------------------------

  // An interface that no handler acts on, and that has none itself
  ghost predicate Spare(w: World, a: Intf) {
    && 0 < a < |w.original| && !w.original[a].Handler?
    && forall x :: 0 <= x < |w.original| && w.original[x].Handler? ==> a !in Touched(w.original[x].script)
  }

  // One spare interface is plugged into x, another into e, and e into the first.
  ghost function Wires(w: World, x: Intf, e: Intf, a: Intf, y: Intf): seq<Intf>
    requires x < |w.original| && e < |w.original| && a < |w.original| && y < |w.original|
  {
    seq(|w.original|, _ => NULL_INTF)[a := x][y := e][e := a]
  }

  ghost predicate Broken(w: World, x: Intf, e: Intf) {
    && x < |w.original| && 0 < e < |w.original| && w.original[x].Handler? && ClosesItself(w.original[e], e)
    && Disables(w.original[x], e) && !Names(w.original[x].script, e)
  }

  lemma BrokenFacts(w: World, x: Intf, e: Intf, a: Intf, y: Intf)
    requires ValidWorld(w) && Broken(w, x, e) && Spare(w, a) && Spare(w, y) && a != y
    ensures 0 < x && x != e && a != x && a != e && y != x && y != e && Nullify(e) in w.original[x].script
    ensures ScriptInside(w, w.original[x].script)
    ensures forall j: Intf :: Names(w.original[x].script, j) ==> j != a && j != y && j != e && 0 < j < |w.original|
  {
    var script := w.original[x].script;
    assert DescOk(w, x, w.original[x]);
    assert Nullify(e) in script;
    forall j: Intf | Names(script, j)
      ensures j in Touched(script) && 0 < j < |w.original|
    {
      var b := if Shut(j) in script then Shut(j) else Restart(j);
      assert b in script && b.intf == j;
      var k :| 0 <= k < |script| && script[k] == b;
      assert Sibling(w, x, script[k].intf);
    }
    assert Nullify(e).intf in Touched(script);
  }

  // The two spare interfaces are shut down together: the first makes x nullify
  // e, and the second then finds e nullified. e stays plugged in.
  lemma BrokenFails(w: World, n: nat, x: Intf, e: Intf, a: Intf, y: Intf)
    requires ValidWorld(w) && Objects(w, n) && Broken(w, x, e) && Spare(w, a) && Spare(w, y) && a != y
    requires forall b :: b in w.original[x].script ==> !b.Reinit?
    ensures var s, call := Settled(w, n, Wires(w, x, e, a, y)), ShuttingAll([a, y]);
            && Fit(w, s) && Inv(w, s) && Legal(w, s, call)
            && Performed(w, s, call).Some? && !FarEndsClosed(s, Performed(w, s, call).value)
  {
    hide Inv, ShutDown, Settled, NullifiedAll, ShutAll, Fit, Disables, ClosesItself, MayUse;
    assert ClosesItself(w.original[e], e);
    BrokenFacts(w, x, e, a, y);
    var dest := Wires(w, x, e, a, y);
    var s := Settled(w, n, dest);
    assert Wired(w, dest, w.original);
    SettledKeeps(w, n, dest);
    SettledIs(w, n, dest);
    var intfs := [a, y];
    NullifiedKeeps(w, s, intfs, 2);
    NullifiedIs(w, s, intfs, 2);
    assert intfs[..2] == intfs;
    var t := NullifiedAll(s, intfs, 2);
    FirstShut(w, t, x, e, a, y);
    var u := ShutDown(w, t, a).value;
    QuietlyIgnored(w, u, y, e);
    var v := ShutDown(w, u, y).value;
    TwoShut(w, t, a, y);
    assert s.dest[y] == e && v.dest[y] == NULL_INTF && v.dest[e] == a;
  }

  lemma TwoShut(w: World, t: Net, a: Intf, y: Intf)
    requires Fit(w, t) && AllInside(w, [a, y]) && 0 < a < |w.original| && 0 < y < |w.original|
    requires ShutDown(w, t, a).Some? && ShutDown(w, ShutDown(w, t, a).value, y).Some?
    ensures ShutAll(w, t, [a, y], 0) == ShutDown(w, ShutDown(w, t, a).value, y)
  {
    hide ShutDown;
    var u := ShutDown(w, t, a).value;
    var v := ShutDown(w, u, y).value;
    assert ShutAll(w, v, [a, y], 2) == Some(v);
    assert ShutAll(w, u, [a, y], 1) == Some(v);
  }

  lemma SettledIs(w: World, n: nat, dest: seq<Intf>)
    ensures Settled(w, n, dest).dest == dest && Settled(w, n, dest).desc == w.original
  {
  }

  lemma FirstShut(w: World, t: Net, x: Intf, e: Intf, a: Intf, y: Intf)
    requires Fit(w, t) && Broken(w, x, e) && Spare(w, a) && Spare(w, y) && a != y
    requires forall b :: b in w.original[x].script ==> !b.Reinit?
    requires t.dest == Wires(w, x, e, a, y) && t.desc[x] == w.original[x]
    ensures ShutDown(w, t, a).Some?
    ensures var u := ShutDown(w, t, a).value;
            |u.desc| == |t.desc| && u.dest == t.dest[a := NULL_INTF] && u.desc[e] == NullDesc
  {
    hide Closed, Scripted, Put;
    BrokenFacts(w, x, e, a, y);
    var d := Detach(w, t, a);
    DetachFits(w, t, a);
    DetachIs(w, t, a);
    var g := Get(w, d, x);
    GetFits(w, d, x);
    var script := w.original[x].script;
    var j :| 0 <= j < |script| && script[j] == Nullify(e);
    QuietScript(w, g, script, 0, e);
    ClosesAs(w, d, x);
    assert Dispatched(w, g, x) == Scripted(w, g, script, 0);
    PutIs(w, Closed(w, d, x).value, x);
  }

  // Shutting down an interface whose other end is nullified only unplugs and
  // nullifies it.
  lemma QuietlyIgnored(w: World, s: Net, i: Intf, d: Intf)
    requires Fit(w, s) && 0 < i < |w.original| && s.dest[i] == d != i && s.desc[d] == NullDesc
    ensures ShutDown(w, s, i).Some? && ShutDown(w, s, i).value.dest == s.dest[i := NULL_INTF]
  {
    hide Closed, Put;
    var t := Detach(w, s, i);
    DetachFits(w, s, i);
    DetachIs(w, s, i);
    NullIgnores(w, t, d);
    PutIs(w, Closed(w, t, d).value, d);
  }

  // ---- Exactly ------------------------------------------------------------

  ghost predicate Closes(call: Call) {
    call.ShuttingDown? || call.ShuttingAll? || call.Restarting?
  }

  // Every call that closes leaves every far end closed, in every network.
  ghost predicate AlwaysReaches(w: World) {
    forall s: Net, call: Call ::
      Fit(w, s) && Inv(w, s) && Legal(w, s, call) && Closes(call) && Performed(w, s, call).Some? ==>
        FarEndsClosed(s, Performed(w, s, call).value)
  }

  // Where two interfaces are spare and handlers do not reinitialise interfaces
  // themselves, the far ends are always closed if and only if no handler
  // nullifies an interface that closes itself without shutting it down or
  // restarting it.
  lemma TidyExactly(w: World, n: nat, a: Intf, y: Intf)
    requires ValidWorld(w) && Objects(w, n) && Spare(w, a) && Spare(w, y) && a != y
    requires forall x, b :: 0 <= x < |w.original| && w.original[x].Handler? && b in w.original[x].script ==> !b.Reinit?
    ensures Tidy(w) <==> AlwaysReaches(w)
  {
    hide Inv, Fit, Legal, Performed, FarEndsClosed, Disables, ClosesItself, Spare;
    if Tidy(w) {
      forall s: Net, call: Call | Fit(w, s) && Inv(w, s) && Legal(w, s, call) && Closes(call)
                                  && Performed(w, s, call).Some?
        ensures FarEndsClosed(s, Performed(w, s, call).value)
      {
        PerformedReaches(w, s, call);
      }
    } else {
      var x, e := NotTidy(w);
      BrokenFails(w, n, x, e, a, y);
    }
  }

  lemma NotTidy(w: World) returns (x: Intf, e: Intf)
    requires ValidWorld(w) && !Tidy(w)
    ensures Broken(w, x, e)
  {
    x, e :| x < |w.original| && e < |w.original| && ClosesItself(w.original[e], e)
            && Disables(w.original[x], e) && !Names(w.original[x].script, e);
  }
}
