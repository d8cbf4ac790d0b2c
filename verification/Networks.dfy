/**
 Three small networks of interfaces: one whose close reaches beyond the next
 object, and two that show what the conditions on handlers are for.
 */
module Networks {
  import opened Words
  import opened Interface
  import opened PassThrough
  import opened Cascade
  import opened CascadeReach

  function Unowned(original: seq<Desc>): World {
    World(original, seq(|original|, _ => None))
  }

  function Wiring(w: World, dest: seq<Intf>): Net {
    Net(dest, w.original, [], [], multiset{}, multiset{})
  }

  function Neighbours(): World {
    Unowned([NullDesc, NoHandler(None), Handler([Shut(2), Shut(3)]), NoHandler(None), NoHandler(None)])
  }

  lemma NeighboursFit()
    ensures var w := Neighbours();
            var s := Wiring(w, [0, 2, 1, 4, 3]);
            Fit(w, s) && Inv(w, s) && ShutDown(w, s, 1).Some? && ShutDown(w, s, 1).value.dest[0] == 0
  {
    hide ShutDown, Safe;
    var w := Neighbours();
    var s := Wiring(w, [0, 2, 1, 4, 3]);
    RankedSafe(w, s, [0, 0, 0, 0, 0]);
    ShutDownKeeps(w, s, 1);
  }

  lemma NeighboursOwe()
    ensures var w := Neighbours(); Owes(w, 2, 2) && Owes(w, 2, 3) && Owes(w, 4, 4)
  {
    var w := Neighbours();
    assert w.original[2].script[0] == Shut(2) && w.original[2].script[1] == Shut(3);
  }

  // The handler of 2 shuts down 3 as well: shutting down 1, at the other end of
  // 2, reaches 4, at the other end of 3.
  lemma NeighbourCloses()
    ensures var w := Neighbours();
            var s := Wiring(w, [0, 2, 1, 4, 3]);
            && Fit(w, s) && Inv(w, s) && ShutDown(w, s, 1).Some?
            && ShutDown(w, s, 1).value.dest == [0, 0, 0, 0, 0]
  {
    hide ShutDown, Inv, Owes, Fit;
    NeighboursFit();
    NeighboursOwe();
    var w := Neighbours();
    var s := Wiring(w, [0, 2, 1, 4, 3]);
    var xs, ys := [1, 2], [1, 3, 4];
    assert HopTo(w, s, {1}, xs, 1) && HopTo(w, s, {1}, ys, 1) && HopTo(w, s, {1}, ys, 2);
    ShutDownReaches(w, s, 1, xs);
    ShutDownReaches(w, s, 1, ys);
    var t := ShutDown(w, s, 1).value;
    assert Unplugged(t.dest, xs[0]) && Unplugged(t.dest, xs[1]) && Unplugged(t.dest, ys[1]) && Unplugged(t.dest, ys[2]);
    FitWorld(w, t);
    assert t.dest == [0, 0, 0, 0, 0];
  }

  function Untidy(): World {
    Unowned([NullDesc, NoHandler(None), Handler([Nullify(3), Shut(2)]), NoHandler(None)])
  }

  lemma UntidyFits()
    ensures var w := Untidy(); var s := Wiring(w, [0, 2, 3, 2]); Fit(w, s) && Inv(w, s) && !Tidy(w)
  {
    hide Inv;
    var w := Untidy();
    WiringKeeps(w, [0, 2, 3, 2]);
    assert w.original[2].script[0] == Nullify(3) && Disables(w.original[2], 3);
    assert ClosesItself(w.original[3], 3) && !Names(w.original[2].script, 3);
  }

  // The handler of 2 nullifies 3 and leaves it plugged in: the shutdown of 2 that
  // follows does not reach 3, which would have closed itself.
  lemma UntidyHandler()
    ensures var w := Untidy();
            var s := Wiring(w, [0, 2, 3, 2]);
            && Fit(w, s) && Inv(w, s) && !Tidy(w) && ClosesItself(s.desc[3], 3)
            && ShutDown(w, s, 1).Some? && ShutDown(w, s, 1).value.dest == [0, 0, 0, 2]
  {
    hide Closed, Acted, Inv, Scripted, Tidy, Fit;
    UntidyFits();
    UntidyScript();
    var w := Untidy();
    var s := Wiring(w, [0, 2, 3, 2]);
    var t := Detach(w, s, 1);
    DetachFits(w, s, 1);
    Handles(w, t, t.(dest := [0, 0, 0, 2], desc := t.desc[3 := NullDesc][2 := NullDesc]), 2);
  }

  lemma WiringKeeps(w: World, dest: seq<Intf>)
    requires ValidWorld(w) && Wired(w, dest, w.original) && forall i :: Owner(w, i) == None
    ensures Inv(w, Wiring(w, dest))
  {
  }

  lemma UntidyScript()
    ensures var w := Untidy();
            var t := Detach(w, Wiring(w, [0, 2, 3, 2]), 1);
            var v := t.(dest := [0, 0, 0, 2], desc := t.desc[3 := NullDesc][2 := NullDesc]);
            Fit(w, t) && ScriptInside(w, t.desc[2].script) && Scripted(w, t, t.desc[2].script, 0) == Some(v)
  {
    hide Closed, Fit, ShutDown;
    var w := Untidy();
    var s := Wiring(w, [0, 2, 3, 2]);
    UntidyFits();
    var t := Detach(w, s, 1);
    DetachFits(w, s, 1);
    var u := SetDesc(t, 3, NullDesc);
    SetDescFits(w, t, 3);
    var v := Detach(w, u, 2);
    Quietly(w, u, 2);
    assert v == t.(dest := [0, 0, 0, 2], desc := t.desc[3 := NullDesc][2 := NullDesc]);
    Performs(w, t, t.desc[2].script, 0, u);
    DetachFits(w, u, 2);
    Performs(w, u, t.desc[2].script, 1, v);
  }

  function Disagreeing(): World {
    Unowned([NullDesc, NoHandler(None), Handler([Shut(3), Shut(5)]), Handler([Shut(3), Shut(4)]), NoHandler(None),
             NoHandler(None)])
  }

  lemma DisagreeingFits()
    ensures var w := Disagreeing();
            var s := Wiring(w, [0, 2, 0, 0, 1, 3]);
            Fit(w, s) && Inv(w, s) && NamedBy(w.original[3], 3, 4) && !Owes(w, 3, 4)
  {
    hide Inv;
    var w := Disagreeing();
    WiringKeeps(w, [0, 2, 0, 0, 1, 3]);
    assert w.original[3].script[1] == Shut(4);
    assert w.original[2].script[0] == Shut(3) && Disables(w.original[2], 3) && !Names(w.original[2].script, 4);
  }

  // The handler of 3 shuts down 4. The handler of 2 shuts down 3, but not 4, and
  // then 5, which is plugged into 3: 3 no longer answers, and 4 stays plugged in.
  lemma HandlersDisagree()
    ensures var w := Disagreeing();
            var s := Wiring(w, [0, 2, 0, 0, 1, 3]);
            && Fit(w, s) && Inv(w, s) && NamedBy(w.original[3], 3, 4) && !Owes(w, 3, 4)
            && ShutDown(w, s, 1).Some? && ShutDown(w, s, 1).value.dest == [0, 0, 0, 0, 1, 0]
  {
    hide Closed, Acted, Inv, Scripted, Owes, NamedBy, Fit;
    DisagreeingFits();
    DisagreeingScript();
    var w := Disagreeing();
    var s := Wiring(w, [0, 2, 0, 0, 1, 3]);
    var t := Detach(w, s, 1);
    DetachFits(w, s, 1);
    Handles(w, t, t.(dest := [0, 0, 0, 0, 1, 0], desc := t.desc[3 := NullDesc][5 := NullDesc]), 2);
  }

  lemma DisagreeingScript()
    ensures var w := Disagreeing();
            var t := Detach(w, Wiring(w, [0, 2, 0, 0, 1, 3]), 1);
            var v := t.(dest := [0, 0, 0, 0, 1, 0], desc := t.desc[3 := NullDesc][5 := NullDesc]);
            Fit(w, t) && ScriptInside(w, t.desc[2].script) && Scripted(w, t, t.desc[2].script, 0) == Some(v)
  {
    hide Closed, Fit, ShutDown;
    var w := Disagreeing();
    var s := Wiring(w, [0, 2, 0, 0, 1, 3]);
    DisagreeingFits();
    var t := Detach(w, s, 1);
    DetachFits(w, s, 1);
    var u := Detach(w, t, 3);
    Quietly(w, t, 3);
    var v := Detach(w, u, 5);
    DetachFits(w, t, 3);
    Quietly(w, u, 5);
    assert v == t.(dest := [0, 0, 0, 0, 1, 0], desc := t.desc[3 := NullDesc][5 := NullDesc]);
    Performs(w, t, t.desc[2].script, 0, u);
    DetachFits(w, u, 5);
    Performs(w, u, t.desc[2].script, 1, v);
  }

  // Shutting down an interface whose other end is nullified
  lemma Quietly(w: World, s: Net, i: Intf)
    requires Fit(w, s) && 0 < i < |w.original| && s.dest[i] != i && s.desc[s.dest[i]] == NullDesc
    requires Owner(w, s.dest[i]).None?
    ensures ShutDown(w, s, i) == Some(Detach(w, s, i))
  {
    hide Closed;
    DetachFits(w, s, i);
    Ignored(w, Detach(w, s, i), s.dest[i]);
  }

  // A nullified interface ignores a close.
  lemma Ignored(w: World, s: Net, d: Intf)
    requires Fit(w, s) && d < |w.original| && s.desc[d] == NullDesc && Owner(w, d).None?
    ensures Closed(w, s, d) == Some(s)
  {
  }

  lemma Performs(w: World, s: Net, script: seq<Action>, k: nat, t: Net)
    requires Fit(w, s) && k < |script| && ScriptInside(w, script) && Acted(w, s, script[k]) == Some(t)
    ensures Scripted(w, s, script, k) == Scripted(w, t, script, k + 1)
  {
  }

  // The close of an interface that has a handler and no owner
  lemma Handles(w: World, s: Net, t: Net, d: Intf)
    requires Fit(w, s) && d < |w.original| && s.desc[d].Handler? && Owner(w, d).None?
    requires ScriptInside(w, s.desc[d].script) && Scripted(w, s, s.desc[d].script, 0) == Some(t)
    ensures Closed(w, s, d) == Some(t)
  {
    FoundItself(s, d);
    assert Dispatched(w, s, d) == Some(t);
  }
}
