/**
 Cooperative processes: the run queue of process.c.  A step of a process may add
 and remove processes and may itself step the queue, to any depth.
 */
module RunQueue {

  /** What a step of a process does: add or remove a process, or call step(), in
      which some process runs and does what the body says. */
  datatype Action = Add(p: nat) | Del(p: nat) | Step(body: seq<Action>)

  /** A process ran, or process_add() or process_del() was called for it. */
  datatype Event = Ran(p: nat) | Asked(p: nat) | Removed(p: nat)

  /** The queue, the references held on each process by anyone, and what has
      happened */
  datatype State = State(queue: seq<nat>, refs: seq<int>, log: seq<Event>)

  /** The processes that are put back on the queue when they run */
  type Table = seq<bool>

  ghost predicate Distinct(q: seq<nat>) {
    forall i, j :: 0 <= i < j < |q| ==> q[i] != q[j]
  }

  function IndexOf(q: seq<nat>, p: nat): (i: nat)
    ensures i <= |q| && (i < |q| ==> q[i] == p) && forall j :: 0 <= j < i ==> q[j] != p
  {
    if q == [] || q[0] == p then 0 else 1 + IndexOf(q[1..], p)
  }

  function Without(q: seq<nat>, p: nat): seq<nat> {
    var i := IndexOf(q, p);
    if i < |q| then q[..i] + q[i + 1..] else q
  }

  function Get(refs: seq<int>, p: nat): seq<int> {
    if p < |refs| then refs[p := refs[p] + 1] else refs
  }

  function Put(refs: seq<int>, p: nat): seq<int> {
    if p < |refs| then refs[p := refs[p] - 1] else refs
  }

  // process_add()
  function Added(s: State, p: nat): State {
    if p in s.queue then s else s.(queue := s.queue + [p], refs := Get(s.refs, p))
  }

  // process_del()
  function Deleted(s: State, p: nat): State {
    if p in s.queue then s.(queue := Without(s.queue, p), refs := Put(s.refs, p)) else s
  }

  // The queue when its first process is about to run
  function Started(c: Table, s: State): State
    requires s.queue != []
  {
    var p := s.queue[0];
    var t := s.(refs := Get(s.refs, p), log := s.log + [Ran(p)]);
    if p < |c| && c[p] then t.(queue := s.queue[1..] + [p]) else Deleted(t, p)
  }

  function Do(c: Table, s: State, a: Action): State
    decreases a
  {
    match a
    case Add(p) => Added(s, p).(log := s.log + [Asked(p)])
    case Del(p) => Deleted(s, p).(log := s.log + [Removed(p)])
    case Step(body) => Stepped(c, s, body)
  }

  function DoAll(c: Table, s: State, acts: seq<Action>): State
    decreases acts, 0
  {
    if acts == [] then s
    else DoAll(c, Do(c, s, acts[0]), acts[1..])
  }

  // step()
  function Stepped(c: Table, s: State, body: seq<Action>): State
    decreases body, 1
  {
    if s.queue == [] then s
    else
      var t := DoAll(c, Started(c, s), body);
      t.(refs := Put(t.refs, s.queue[0]))
  }

  // ---- One reference for each place in the queue --------------------------

  // `base` are the references held by others.
  ghost predicate Inv(s: State, base: seq<int>) {
    && Distinct(s.queue) && |s.refs| == |base| && (forall i :: 0 <= i < |s.queue| ==> s.queue[i] < |base|)
    && forall p :: 0 <= p < |base| ==> s.refs[p] == base[p] + (if p in s.queue then 1 else 0)
  }

  lemma WithoutIs(q: seq<nat>, p: nat)
    requires Distinct(q)
    ensures Distinct(Without(q, p)) && forall x :: x in Without(q, p) <==> x in q && x != p
  {
    hide IndexOf;
    var i, r := IndexOf(q, p), Without(q, p);
    if i < |q| {
      assert forall j :: 0 <= j < |r| ==> r[j] == q[if j < i then j else j + 1];
      forall x
        ensures x in r <==> x in q && x != p
      {
        if x in q && x != p {
          var j :| 0 <= j < |q| && q[j] == x;
          assert x == r[if j < i then j else j - 1];
        }
      }
    }
  }

  lemma AddedKeeps(s: State, base: seq<int>, p: nat)
    requires Inv(s, base) && p < |base|
    ensures Inv(Added(s, p), base)
  {
  }

  lemma DeletedKeeps(s: State, base: seq<int>, p: nat)
    requires Inv(s, base) && p < |base|
    ensures Inv(Deleted(s, p), base)
  {
    WithoutIs(s.queue, p);
    hide Without;
    assert p in s.queue ==> forall x :: x in Without(s.queue, p) ==> x < |base|;
  }

  lemma StartedKeeps(c: Table, s: State, base: seq<int>)
    requires Inv(s, base) && s.queue != []
    ensures Inv(Started(c, s), Get(base, s.queue[0]))
  {
    var p := s.queue[0];
    var t := s.(refs := Get(s.refs, p), log := s.log + [Ran(p)]);
    assert Inv(t, Get(base, p));
    if p < |c| && c[p] {
      var q := s.queue[1..] + [p];
      assert forall x :: x in q <==> x in s.queue;
      assert Distinct(q);
    } else {
      DeletedKeeps(t, Get(base, p), p);
    }
  }

  // The processes an action names
  predicate Known(a: Action, n: nat)
    decreases a
  {
    match a
    case Add(p) => p < n
    case Del(p) => p < n
    case Step(body) => AllKnown(body, n)
  }

  predicate AllKnown(acts: seq<Action>, n: nat)
    decreases acts, 0
  {
    acts == [] || (Known(acts[0], n) && AllKnown(acts[1..], n))
  }

  // Whatever the steps do, no process is queued twice, and the references are
  // those held by others and one for each process in the queue.
  lemma {:induction false} DoKeeps(c: Table, s: State, base: seq<int>, a: Action)
    requires Inv(s, base) && Known(a, |base|)
    ensures Inv(Do(c, s, a), base)
    decreases a
  {
    hide Inv;
    match a
    case Add(p) =>
      AddedKeeps(s, base, p);
      LogOnly(Added(s, p), base, s.log + [Asked(p)]);
    case Del(p) =>
      DeletedKeeps(s, base, p);
      LogOnly(Deleted(s, p), base, s.log + [Removed(p)]);
    case Step(body) =>
      SteppedKeeps(c, s, base, body);
  }

  lemma LogOnly(s: State, base: seq<int>, log: seq<Event>)
    requires Inv(s, base)
    ensures Inv(s.(log := log), base)
  {
  }

  lemma {:induction false} DoAllKeeps(c: Table, s: State, base: seq<int>, acts: seq<Action>)
    requires Inv(s, base) && AllKnown(acts, |base|)
    ensures Inv(DoAll(c, s, acts), base)
    decreases acts, 0
  {
    hide Inv, Do, Known;
    if acts != [] {
      DoKeeps(c, s, base, acts[0]);
      DoAllKeeps(c, Do(c, s, acts[0]), base, acts[1..]);
    }
  }

  lemma {:induction false} SteppedKeeps(c: Table, s: State, base: seq<int>, body: seq<Action>)
    requires Inv(s, base) && AllKnown(body, |base|)
    ensures Inv(Stepped(c, s, body), base)
    decreases body, 1
  {
    hide DoAll, Started;
    if s.queue != [] {
      var p := s.queue[0];
      StartedKeeps(c, s, base);
      DoAllKeeps(c, Started(c, s), Get(base, p), body);
      Released(DoAll(c, Started(c, s), body), base, p);
    }
  }

  lemma Released(t: State, base: seq<int>, p: nat)
    requires p < |base| && Inv(t, Get(base, p))
    ensures Inv(t.(refs := Put(t.refs, p)), base)
  {
  }

  // ---- Every process gets its turn ----------------------------------------

  // p has run, or has been removed, since `log`.
  ghost predicate Served(s: State, log: seq<Event>, p: nat) {
    log <= s.log && exists i :: |log| <= i < |s.log| && (s.log[i] == Ran(p) || s.log[i] == Removed(p))
  }

  // p has been served, or is in the queue with at most k processes before it.
  ghost predicate Within(s: State, log: seq<Event>, p: nat, k: int) {
    log <= s.log && (Served(s, log, p) || exists i :: 0 <= i <= k && i < |s.queue| && s.queue[i] == p)
  }

  lemma {:induction false} DoWithin(c: Table, s: State, log: seq<Event>, p: nat, k: int, a: Action)
    requires Distinct(s.queue) && Within(s, log, p, k)
    ensures Within(Do(c, s, a), log, p, k) && Distinct(Do(c, s, a).queue)
    decreases a
  {
    hide Within, Distinct;
    match a
    case Add(x) =>
      AddedWithin(s, log, p, k, x);
    case Del(x) =>
      DeletedWithin(s, log, p, k, x);
    case Step(body) =>
      SteppedWithin(c, s, log, p, k, body);
  }

  lemma AddedWithin(s: State, log: seq<Event>, p: nat, k: int, x: nat)
    requires Distinct(s.queue) && Within(s, log, p, k)
    ensures var t := Added(s, x).(log := s.log + [Asked(x)]); Within(t, log, p, k) && Distinct(t.queue)
  {
    var t := Added(s, x).(log := s.log + [Asked(x)]);
    if Served(s, log, p) {
      ServedStays(s, t, log, p);
    } else {
      var i :| 0 <= i <= k && i < |s.queue| && s.queue[i] == p;
      assert t.queue[i] == p;
    }
  }

  lemma DeletedWithin(s: State, log: seq<Event>, p: nat, k: int, x: nat)
    requires Distinct(s.queue) && Within(s, log, p, k)
    ensures var t := Deleted(s, x).(log := s.log + [Removed(x)]);
            Within(t, log, p, k) && Distinct(t.queue)
  {
    var t := Deleted(s, x).(log := s.log + [Removed(x)]);
    WithoutIs(s.queue, x);
    if Served(s, log, p) {
      ServedStays(s, t, log, p);
    } else if p == x {
      assert t.log[|s.log|] == Removed(p);
    } else {
      var i :| 0 <= i <= k && i < |s.queue| && s.queue[i] == p;
      Nearer(s.queue, x, i);
    }
  }

  lemma ServedStays(s: State, t: State, log: seq<Event>, p: nat)
    requires Served(s, log, p) && s.log <= t.log
    ensures Served(t, log, p)
  {
    var i :| |log| <= i < |s.log| && (s.log[i] == Ran(p) || s.log[i] == Removed(p));
    assert t.log[i] == s.log[i];
  }

  // Removing another process brings a process no further back.
  lemma Nearer(q: seq<nat>, x: nat, i: int)
    requires 0 <= i < |q| && q[i] != x
    ensures exists j :: 0 <= j <= i && j < |Without(q, x)| && Without(q, x)[j] == q[i]
  {
    hide IndexOf;
    var m := IndexOf(q, x);
    var j := if m < i then i - 1 else i;
    assert Without(q, x)[j] == q[i];
  }

  lemma {:induction false} DoAllWithin(c: Table, s: State, log: seq<Event>, p: nat, k: int, acts: seq<Action>)
    requires Distinct(s.queue) && Within(s, log, p, k)
    ensures Within(DoAll(c, s, acts), log, p, k) && Distinct(DoAll(c, s, acts).queue)
    decreases acts, 0
  {
    hide Within, Distinct, Do;
    if acts != [] {
      DoWithin(c, s, log, p, k, acts[0]);
      DoAllWithin(c, Do(c, s, acts[0]), log, p, k, acts[1..]);
    }
  }

  // Each call of step() brings a waiting process one place nearer.
  lemma {:induction false} SteppedNearer(c: Table, s: State, log: seq<Event>, p: nat, k: int, body: seq<Action>)
    requires Distinct(s.queue) && Within(s, log, p, k)
    ensures Within(Stepped(c, s, body), log, p, k - 1) && Distinct(Stepped(c, s, body).queue)
    decreases body, 1
  {
    hide DoAll;
    if s.queue == [] {
      assert Served(s, log, p);
    } else {
      StartedNearer(c, s, log, p, k);
      DoAllWithin(c, Started(c, s), log, p, k - 1, body);
      hide Started;
    }
  }

  lemma SteppedWithin(c: Table, s: State, log: seq<Event>, p: nat, k: int, body: seq<Action>)
    requires Distinct(s.queue) && Within(s, log, p, k)
    ensures Within(Stepped(c, s, body), log, p, k) && Distinct(Stepped(c, s, body).queue)
    decreases body, 2
  {
    hide Stepped, Distinct;
    SteppedNearer(c, s, log, p, k, body);
  }

  lemma StartedNearer(c: Table, s: State, log: seq<Event>, p: nat, k: int)
    requires Distinct(s.queue) && Within(s, log, p, k) && s.queue != []
    ensures Within(Started(c, s), log, p, k - 1) && Distinct(Started(c, s).queue)
  {
    hide Started, Distinct;
    var t := Started(c, s);
    StartedIs(c, s);
    if Served(s, log, p) {
      ServedStays(s, t, log, p);
    } else {
      var i :| 0 <= i <= k && i < |s.queue| && s.queue[i] == p;
      if i == 0 {
        assert t.log[|s.log|] == Ran(p);
      } else {
        assert t.queue[i - 1] == s.queue[1..][i - 1] == p;
      }
    }
  }

  lemma StartedIs(c: Table, s: State)
    requires Distinct(s.queue) && s.queue != []
    ensures var t := Started(c, s);
            s.queue[1..] <= t.queue && Distinct(t.queue) && t.log == s.log + [Ran(s.queue[0])]
  {
    var x := s.queue[0];
    assert IndexOf(s.queue, x) == 0;
    assert Without(s.queue, x) == s.queue[1..];
    Rotated(s.queue);
    hide Distinct, Without;
  }

  lemma Rotated(q: seq<nat>)
    requires Distinct(q) && q != []
    ensures Distinct(q[1..]) && Distinct(q[1..] + [q[0]])
  {
    var r := q[1..] + [q[0]];
    forall i, j | 0 <= i < j < |r|
      ensures r[i] != r[j]
    {
      assert r[i] == q[i + 1] && r[j] == q[if j + 1 < |q| then j + 1 else 0];
    }
  }

  // Calls of step(), one after another
  function Steps(c: Table, s: State, bodies: seq<seq<Action>>): State
    decreases |bodies|
  {
    if bodies == [] then s else Steps(c, Stepped(c, s, bodies[0]), bodies[1..])
  }

  lemma {:induction false} StepsNearer(c: Table, s: State, log: seq<Event>, p: nat, k: int, bodies: seq<seq<Action>>)
    requires Distinct(s.queue) && Within(s, log, p, k)
    ensures Within(Steps(c, s, bodies), log, p, k - |bodies|)
    decreases |bodies|
  {
    hide Within, Distinct, Stepped;
    if bodies != [] {
      SteppedNearer(c, s, log, p, k, bodies[0]);
      StepsNearer(c, Stepped(c, s, bodies[0]), log, p, k - 1, bodies[1..]);
    }
  }

  // A process with k others before it runs within k + 1 calls of step(), or is
  // removed, whatever the steps do.
  lemma EveryTurn(c: Table, s: State, k: nat, bodies: seq<seq<Action>>)
    requires Distinct(s.queue) && k < |s.queue| && |bodies| == k + 1
    ensures Served(Steps(c, s, bodies), s.log, s.queue[k])
  {
    hide Steps;
    var p := s.queue[k];
    assert Within(s, s.log, p, k);
    StepsNearer(c, s, s.log, p, k, bodies);
  }

  // ---- Who is in the queue, and in which order ----------------------------

  // Whether p is queued after these events: it depends on the last one that
  // concerns p.
  function Queued(c: Table, events: seq<Event>, p: nat, before: bool): bool {
    if events == [] then before
    else
      var last := events[|events| - 1];
      if last.p != p then Queued(c, events[..|events| - 1], p, before)
      else last.Asked? || (last.Ran? && p < |c| && c[p])
  }

  // The events since s account for p being in the queue of t.
  ghost predicate Accounts(c: Table, s: State, t: State, p: nat) {
    s.log <= t.log && (p in t.queue <==> Queued(c, t.log[|s.log|..], p, p in s.queue))
  }

  lemma {:induction false} QueuedConcat(c: Table, a: seq<Event>, b: seq<Event>, p: nat, before: bool)
    ensures Queued(c, a + b, p, before) == Queued(c, b, p, Queued(c, a, p, before))
    decreases |b|
  {
    if b == [] {
      assert a + b == a;
    } else {
      assert (a + b)[..|a + b| - 1] == a + b[..|b| - 1];
      QueuedConcat(c, a, b[..|b| - 1], p, before);
    }
  }

  lemma AccountsBoth(c: Table, s: State, t: State, u: State, p: nat)
    requires Accounts(c, s, t, p) && Accounts(c, t, u, p)
    ensures Accounts(c, s, u, p)
  {
    var a, b := t.log[|s.log|..], u.log[|t.log|..];
    assert u.log[|s.log|..] == a + b;
    QueuedConcat(c, a, b, p, p in s.queue);
  }

  lemma AccountsOne(c: Table, s: State, t: State, e: Event, p: nat)
    requires t.log == s.log + [e]
    requires p in t.queue <==> if e.p != p then p in s.queue else e.Asked? || (e.Ran? && p < |c| && c[p])
    ensures Accounts(c, s, t, p)
  {
    var events := t.log[|s.log|..];
    assert events == [e] && events[..0] == [];
  }

  lemma {:induction false} DoAccounts(c: Table, s: State, a: Action, p: nat)
    requires Distinct(s.queue)
    ensures Accounts(c, s, Do(c, s, a), p) && Distinct(Do(c, s, a).queue)
    decreases a
  {
    hide Accounts, Distinct, Without;
    match a
    case Add(x) =>
      AddedDistinct(s, x);
      AccountsOne(c, s, Do(c, s, a), Asked(x), p);
    case Del(x) =>
      WithoutIs(s.queue, x);
      AccountsOne(c, s, Do(c, s, a), Removed(x), p);
    case Step(body) =>
      SteppedAccounts(c, s, body, p);
  }

  lemma AddedDistinct(s: State, x: nat)
    requires Distinct(s.queue)
    ensures Distinct(Added(s, x).queue)
  {
  }

  lemma {:induction false} DoAllAccounts(c: Table, s: State, acts: seq<Action>, p: nat)
    requires Distinct(s.queue)
    ensures Accounts(c, s, DoAll(c, s, acts), p) && Distinct(DoAll(c, s, acts).queue)
    decreases acts, 0
  {
    hide Distinct, Do, Accounts;
    if acts == [] {
      AccountsNone(c, s, p);
    } else {
      DoAccounts(c, s, acts[0], p);
      var t := Do(c, s, acts[0]);
      DoAllAccounts(c, t, acts[1..], p);
      AccountsBoth(c, s, t, DoAll(c, t, acts[1..]), p);
    }
  }

  lemma AccountsNone(c: Table, s: State, p: nat)
    ensures Accounts(c, s, s, p)
  {
  }

  // Whatever the steps do, at any depth, a process is in the queue exactly if
  // the last thing that concerned it was a request to add it, or a run of it
  // after which it is to be put back.
  lemma {:induction false} SteppedAccounts(c: Table, s: State, body: seq<Action>, p: nat)
    requires Distinct(s.queue)
    ensures Accounts(c, s, Stepped(c, s, body), p) && Distinct(Stepped(c, s, body).queue)
    decreases body, 1
  {
    hide DoAll, Accounts, Distinct;
    if s.queue == [] {
      AccountsNone(c, s, p);
    } else {
      var t := Started(c, s);
      StartedAccounts(c, s, p);
      DoAllAccounts(c, t, body, p);
      var u := DoAll(c, t, body);
      AccountsBoth(c, s, t, u, p);
      AccountsRefs(c, s, u, Put(u.refs, s.queue[0]), p);
    }
  }

  lemma AccountsRefs(c: Table, s: State, t: State, refs: seq<int>, p: nat)
    requires Accounts(c, s, t, p)
    ensures Accounts(c, s, t.(refs := refs), p)
  {
  }

  lemma StartedAccounts(c: Table, s: State, p: nat)
    requires Distinct(s.queue) && s.queue != []
    ensures Accounts(c, s, Started(c, s), p) && Distinct(Started(c, s).queue)
  {
    hide Accounts, Distinct, Without;
    var x := s.queue[0];
    StartedIs(c, s);
    WithoutIs(s.queue, x);
    assert forall y :: y in s.queue <==> y == x || y in s.queue[1..];
    assert x !in s.queue[1..] by { FirstOnly(s.queue); }
    AccountsOne(c, s, Started(c, s), Ran(x), p);
  }

  lemma FirstOnly(q: seq<nat>)
    requires Distinct(q) && q != []
    ensures q[0] !in q[1..]
  {
  }

  // The processes that go back to the queue, and the record of their runs
  function Recurring(c: Table, q: seq<nat>): seq<nat> {
    if q == [] then []
    else
      var p := q[|q| - 1];
      Recurring(c, q[..|q| - 1]) + if p < |c| && c[p] then [p] else []
  }

  function Runs(q: seq<nat>): seq<Event> {
    seq(|q|, i requires 0 <= i < |q| => Ran(q[i]))
  }

  // Calls of step() run the processes in the order of the queue, each once, and
  // put those that recur back at its end in that order.
  lemma {:induction false} InTurn(c: Table, s: State, k: nat)
    requires Distinct(s.queue) && k <= |s.queue|
    ensures var t := Steps(c, s, seq(k, _ => []));
            t.queue == s.queue[k..] + Recurring(c, s.queue[..k]) && t.log == s.log + Runs(s.queue[..k])
  {
    hide Stepped, Distinct;
    if k > 0 {
      InTurn(c, s, k - 1);
      var bodies: seq<seq<Action>> := seq(k - 1, _ => []);
      var all: seq<seq<Action>> := seq(k, _ => []);
      assert all == bodies + [[]];
      StepsLast(c, s, bodies, []);
      var t := Steps(c, s, bodies);
      var q, p := s.queue, s.queue[k - 1];
      assert t.queue == [p] + (q[k..] + Recurring(c, q[..k - 1]));
      assert q[..k][..k - 1] == q[..k - 1];
      StepsDistinct(c, s, bodies);
      QuietStep(c, t);
      assert Runs(q[..k]) == Runs(q[..k - 1]) + [Ran(p)];
    }
  }

  lemma {:induction false} StepsLast(c: Table, s: State, bodies: seq<seq<Action>>, body: seq<Action>)
    ensures Steps(c, s, bodies + [body]) == Stepped(c, Steps(c, s, bodies), body)
    decreases |bodies|
  {
    hide Stepped;
    if bodies == [] {
      assert (bodies + [body])[1..] == [];
    } else {
      assert (bodies + [body])[1..] == bodies[1..] + [body];
      StepsLast(c, Stepped(c, s, bodies[0]), bodies[1..], body);
    }
  }

  lemma {:induction false} StepsDistinct(c: Table, s: State, bodies: seq<seq<Action>>)
    requires Distinct(s.queue)
    ensures Distinct(Steps(c, s, bodies).queue)
    decreases |bodies|
  {
    hide Stepped, Distinct, Accounts;
    if bodies != [] {
      SteppedAccounts(c, s, bodies[0], 0);
      StepsDistinct(c, Stepped(c, s, bodies[0]), bodies[1..]);
    }
  }

  // A step that does nothing but run
  lemma QuietStep(c: Table, s: State)
    requires Distinct(s.queue) && s.queue != []
    ensures var p, t := s.queue[0], Stepped(c, s, []);
            t.queue == s.queue[1..] + (if p < |c| && c[p] then [p] else []) && t.log == s.log + [Ran(p)]
  {
    var p := s.queue[0];
    assert IndexOf(s.queue, p) == 0;
    assert Without(s.queue, p) == s.queue[1..];
    assert s.queue[1..] + [] == s.queue[1..];
  }

  // ---- The queue in place -------------------------------------------------

  class Scheduler {
    const c: Table
    var queue: seq<nat>
    var refs: seq<int>
    ghost var log: seq<Event>

    ghost function Abs(): State
      reads this
    {
      State(queue, refs, log)
    }

    constructor (c: Table, n: nat)
      ensures Abs() == State([], seq(n, _ => 0), []) && this.c == c
    {
      this.c := c;
      queue, refs, log := [], seq(n, _ => 0), [];
    }

    // process_add()
    method ProcessAdd(p: nat)
      modifies this
      ensures Abs() == Added(old(Abs()), p)
    {
      if p !in queue {
        refs := Get(refs, p);
        queue := queue + [p];
      }
    }

    // process_del()
    method ProcessDel(p: nat)
      modifies this
      ensures Abs() == Deleted(old(Abs()), p)
    {
      if p in queue {
        queue := Without(queue, p);
        refs := Put(refs, p);
      }
    }

    // step()
    method StepOnce(body: seq<Action>)
      modifies this
      ensures Abs() == Stepped(c, old(Abs()), body)
      decreases body, 1
    {
      hide DoAll;
      if queue != [] {
        var p := queue[0];
        refs := Get(refs, p);
        log := log + [Ran(p)];
        if p < |c| && c[p] {
          queue := queue[1..];
          queue := queue + [p];
        } else {
          ProcessDel(p);
        }
        Perform(body);
        refs := Put(refs, p);
      }
    }

    // The body of a step
    method Perform(acts: seq<Action>)
      modifies this
      ensures Abs() == DoAll(c, old(Abs()), acts)
      decreases acts, 0
    {
      hide Added, Deleted, Stepped;
      if acts != [] {
        match acts[0] {
          case Add(p) =>
            log := log + [Asked(p)];
            ProcessAdd(p);
            LogApart(old(Abs()), p);
          case Del(p) =>
            log := log + [Removed(p)];
            ProcessDel(p);
            LogApart(old(Abs()), p);
          case Step(body) =>
            StepOnce(body);
        }
        Perform(acts[1..]);
      }
    }
  }

  lemma LogApart(s: State, p: nat)
    ensures Deleted(s.(log := s.log + [Removed(p)]), p) == Deleted(s, p).(log := s.log + [Removed(p)])
    ensures Added(s.(log := s.log + [Asked(p)]), p) == Added(s, p).(log := s.log + [Asked(p)])
  {
  }
}
