/**
 The ping sender of pinger.c: a timer, replies, and a count of packets.
 */
module Pinger {
  import opened Words

  const ETIMEDOUT := -1
  const EPROTO_LEN := -2
  const EPROTO_DATA := -3
  const EPROTO_SEQ := -4

  // pinger_generate()
  function Payload(len: nat): seq<byte> {
    seq(len, i requires i >= 0 => i % 256)
  }

  method Generate(len: nat) returns (data: seq<byte>)
    ensures data == Payload(len)
  {
    data := [];
    for i := 0 to len
      invariant data == Payload(i)
    {
      data := data + [i % 256];
    }
  }

  // pinger_verify(), once the length has been checked
  method Verify(len: nat, data: seq<byte>) returns (rc: int)
    requires |data| == len
    ensures rc == if data == Payload(len) then 0 else EPROTO_DATA
  {
    for i := 0 to len
      invariant forall j :: 0 <= j < i ==> data[j] == j % 256
    {
      if data[i] != i % 256 {
        assert data[i] != Payload(len)[i];
        return EPROTO_DATA;
      }
    }
    return 0;
  }

  // ---- Events -------------------------------------------------------------

  /** The transmit window opens, the timer expires (with or without memory for a
      packet), a packet arrives, or another party closes an interface. */
  datatype Event = Window | Expire(memory: bool) | Deliver(sequence: int, data: seq<byte>) | Abort(rc: int)

  /** A packet is sent, the callback is told of a timeout or a packet, or the
      pinger closes.  `ping` counts packets without wrapping. */
  datatype Out = Transmit(sequence: int, ping: nat, data: seq<byte>) | TimedOut(sequence: int, ping: nat)
    | Report(sequence: int, len: nat, rc: int) | Closed(rc: int)

  /** The fields of a pinger; whether the timer runs and the interfaces are open;
      and the number of packets due so far */
  datatype State = State(len: nat, sequence: int, pending: bool, remaining: nat, rc: int,
                         timer: bool, open: bool, ping: nat)

  // create_pinger()
  function Init(len: nat, count: nat): State {
    State(len, 0, false, if count > 0 then count + 1 else 0, ETIMEDOUT, false, true, 0)
  }

  function Shut(s: State, outs: seq<Out>, rc: int): (State, seq<Out>) {
    (s.(timer := false, open := false), outs + [Closed(rc)])
  }

  // pinger_expired()
  function Expired(s: State, memory: bool): (State, seq<Out>) {
    var outs := if s.pending then [TimedOut(s.sequence, s.ping)] else [];
    if s.remaining == 1 then Shut(s.(remaining := 0), outs, s.rc)
    else
      var next := s.(remaining := if s.remaining > 0 then s.remaining - 1 else 0,
                     sequence := (s.sequence + 1) % 0x1_0000, pending := true, timer := true, ping := s.ping + 1);
      (next, outs + (if memory then [Transmit(next.sequence, next.ping, Payload(s.len))] else []))
  }

  // The status of a packet
  function Status(s: State, sequence: int, data: seq<byte>): int {
    if |data| != s.len then EPROTO_LEN
    else if data != Payload(s.len) then EPROTO_DATA
    else if sequence != s.sequence then EPROTO_SEQ
    else 0
  }

  // pinger_deliver()
  function Delivered(s: State, offset: int, data: seq<byte>): (State, seq<Out>) {
    var sequence := offset % 0x1_0000;
    var rc := Status(s, sequence, data);
    var next := s.(pending := s.pending && sequence != s.sequence, rc := if rc == 0 then 0 else s.rc);
    var outs := [Report(sequence, |data|, rc)];
    var terminate :=
      if rc == EPROTO_LEN || rc == EPROTO_DATA then s.remaining != 0 else rc == 0 && s.remaining == 1;
    if terminate then Shut(next, outs, rc) else (next, outs)
  }

  // One event; a closed pinger receives none.
  function Step(s: State, e: Event): (State, seq<Out>) {
    if !s.open then (s, [])
    else
      match e
      case Window => (s.(timer := true), [])
      case Expire(memory) => if s.timer then Expired(s.(timer := false), memory) else (s, [])
      case Deliver(sequence, data) => Delivered(s, sequence, data)
      case Abort(rc) => Shut(s, [], rc)
  }

  function Run(s: State, es: seq<Event>): State {
    if es == [] then s else Step(Run(s, es[..|es| - 1]), es[|es| - 1]).0
  }

  function Outs(s: State, es: seq<Event>): seq<Out> {
    if es == [] then []
    else Outs(s, es[..|es| - 1]) + Step(Run(s, es[..|es| - 1]), es[|es| - 1]).1
  }

  class Pinger {
    const len: nat
    var sequence: int
    var pending: bool
    var remaining: nat
    var rc: int
    var timer: bool
    var open: bool
    ghost var ping: nat
    ghost var log: seq<Out>

    ghost function Abs(): State
      reads this
    {
      State(len, sequence, pending, remaining, rc, timer, open, ping)
    }

    constructor (len: nat, count: nat)
      ensures Abs() == Init(len, count) && log == []
    {
      this.len := len;
      sequence, pending, rc, timer, open := 0, false, ETIMEDOUT, false, true;
      remaining := if count > 0 then count + 1 else 0;
      ping, log := 0, [];
    }

    // pinger_close()
    method Close(why: int)
      modifies this
      ensures (Abs(), log) == Shut(old(Abs()), old(log), why)
    {
      timer := false;
      open := false;
      log := log + [Closed(why)];
    }

    // pinger_expired()
    method Expiry(memory: bool)
      requires open && timer
      modifies this
      ensures Abs() == Step(old(Abs()), Expire(memory)).0 && log == old(log) + Step(old(Abs()), Expire(memory)).1
    {
      timer := false;
      if pending {
        log := log + [TimedOut(sequence, ping)];
      }
      if remaining != 0 {
        remaining := remaining - 1;
        if remaining == 0 {
          Close(rc);
          return;
        }
      }
      sequence := (sequence + 1) % 0x1_0000;
      timer := true;
      pending := true;
      ping := ping + 1;
      if !memory {
        return;
      }
      var data := Generate(len);
      log := log + [Transmit(sequence, ping, data)];
    }

    // pinger_deliver()
    method Receive(offset: int, data: seq<byte>) returns (status: int)
      requires open
      modifies this
      ensures Abs() == Step(old(Abs()), Deliver(offset, data)).0
      ensures log == old(log) + Step(old(Abs()), Deliver(offset, data)).1
    {
      hide Payload;
      var sequence := offset % 0x1_0000;
      var terminate := false;
      if sequence == this.sequence {
        pending := false;
      }
      if |data| != len {
        status := EPROTO_LEN;
        terminate := remaining != 0;
      } else {
        status := Verify(len, data);
        if status != 0 {
          terminate := remaining != 0;
        } else if sequence != this.sequence {
          status := EPROTO_SEQ;
        } else {
          rc := 0;
          terminate := remaining == 1;
        }
      }
      log := log + [Report(sequence, |data|, status)];
      if terminate {
        Close(status);
      }
    }
  }

  // ---- Every run ----------------------------------------------------------

  // What holds of a pinger for `count` packets, in every run.
  ghost predicate Inv(s: State, len: nat, count: nat) {
    && s.len == len && s.sequence == s.ping % 0x1_0000 && (s.pending ==> s.ping >= 1)
    && (s.open && count > 0 ==> s.ping <= count && s.remaining == count + 1 - s.ping)
    && (count > 0 ==> s.ping <= count)
    && (count == 0 ==> s.remaining == 0)
    && (s.rc == 0 || s.rc == ETIMEDOUT)
  }

  lemma StepKeeps(s: State, e: Event, len: nat, count: nat)
    requires Inv(s, len, count)
    ensures Inv(Step(s, e).0, len, count)
    ensures s.ping <= Step(s, e).0.ping <= s.ping + 1
  {
  }

  lemma {:induction false} RunKeeps(len: nat, count: nat, es: seq<Event>)
    ensures Inv(Run(Init(len, count), es), len, count)
  {
    hide Step;
    if es != [] {
      RunKeeps(len, count, es[..|es| - 1]);
      StepKeeps(Run(Init(len, count), es[..|es| - 1]), es[|es| - 1], len, count);
    }
  }

  // The packets sent, in order, are numbers 1, 2, ... without repetition, at
  // most `count` of them; and no timeout is reported twice.
  ghost predicate Ordered(outs: seq<Out>, last: nat) {
    && (forall i :: 0 <= i < |outs| && outs[i].Transmit? ==>
          1 <= outs[i].ping <= last && outs[i].sequence == outs[i].ping % 0x1_0000)
    && (forall i, j :: 0 <= i < j < |outs| && outs[i].Transmit? && outs[j].Transmit? ==> outs[i].ping < outs[j].ping)
  }

  ghost predicate OncePerPing(outs: seq<Out>, last: nat, pending: bool) {
    && (forall i :: 0 <= i < |outs| && outs[i].TimedOut? ==>
          && 1 <= outs[i].ping <= last && (pending ==> outs[i].ping < last)
          && outs[i].sequence == outs[i].ping % 0x1_0000)
    && (forall i, j :: 0 <= i < j < |outs| && outs[i].TimedOut? && outs[j].TimedOut? ==> outs[i].ping < outs[j].ping)
  }

  // What one event causes
  lemma StepOuts(s: State, e: Event, len: nat, count: nat)
    requires Inv(s, len, count)
    ensures var (t, outs) := Step(s, e);
            && (forall i :: 0 <= i < |outs| && outs[i].Transmit? ==>
                  outs[i].ping == t.ping == s.ping + 1 && outs[i].sequence == t.sequence)
            && (forall i :: 0 <= i < |outs| && outs[i].TimedOut? ==>
                  && s.open && s.timer && e.Expire? && s.pending && outs[i].ping == s.ping
                  && outs[i].sequence == s.sequence && (t.open ==> t.ping == s.ping + 1))
            && (forall i, j :: 0 <= i < j < |outs| ==> !(outs[i].Transmit? && outs[j].Transmit?))
            && (forall i, j :: 0 <= i < j < |outs| ==> !(outs[i].TimedOut? && outs[j].TimedOut?))
            && (s.open && s.timer && e.Expire? && s.pending ==> exists i :: 0 <= i < |outs| && outs[i].TimedOut?)
            && (t.open && t.pending ==> s.pending || t.ping == s.ping + 1)
  {
    if s.open && s.timer && e.Expire? && s.pending {
      assert Step(s, e).1[0].TimedOut?;
    }
  }

  lemma {:induction false} SentInOrder(len: nat, count: nat, es: seq<Event>)
    ensures var s := Run(Init(len, count), es);
            Ordered(Outs(Init(len, count), es), s.ping) && (count > 0 ==> s.ping <= count)
  {
    hide Step;
    RunKeeps(len, count, es);
    if es != [] {
      var front := es[..|es| - 1];
      SentInOrder(len, count, front);
      RunKeeps(len, count, front);
      StepKeeps(Run(Init(len, count), front), es[|es| - 1], len, count);
      StepOuts(Run(Init(len, count), front), es[|es| - 1], len, count);
    }
  }

  lemma {:induction false} TimedOutOnce(len: nat, count: nat, es: seq<Event>)
    ensures var s := Run(Init(len, count), es);
            OncePerPing(Outs(Init(len, count), es), s.ping, s.open && s.pending)
  {
    hide Step;
    if es != [] {
      var front := es[..|es| - 1];
      var s, e := Run(Init(len, count), front), es[|es| - 1];
      TimedOutOnce(len, count, front);
      RunKeeps(len, count, front);
      StepKeeps(s, e, len, count);
      StepOuts(s, e, len, count);
      ClosedStays(s, e);
      OnceMore(Outs(Init(len, count), front), s, e, len, count);
    }
  }

  lemma ClosedStays(s: State, e: Event)
    ensures Step(s, e).0.open ==> s.open
  {
  }

  lemma OnceMore(outs: seq<Out>, s: State, e: Event, len: nat, count: nat)
    requires Inv(s, len, count) && OncePerPing(outs, s.ping, s.open && s.pending)
    ensures var (t, more) := Step(s, e);
            OncePerPing(outs + more, t.ping, t.open && t.pending)
  {
    hide Step;
    StepKeeps(s, e, len, count);
    StepOuts(s, e, len, count);
    ClosedStays(s, e);
  }

  // ---- When a timeout is reported -----------------------------------------

  // The state before event i
  function Before(len: nat, count: nat, es: seq<Event>, i: nat): State
    requires i <= |es|
  {
    Run(Init(len, count), es[..i])
  }

  // Event i makes packet number `ping` due.
  ghost predicate Makes(len: nat, count: nat, es: seq<Event>, i: int, ping: nat) {
    0 <= i < |es| && Before(len, count, es, i).ping + 1 == ping == Before(len, count, es, i + 1).ping
  }

  // Event i is a packet with the number of ping `ping`.
  ghost predicate Answers(es: seq<Event>, i: int, ping: nat) {
    0 <= i < |es| && es[i].Deliver? && es[i].sequence % 0x1_0000 == ping % 0x1_0000
  }

  // Ping `ping` is due at event i, and unanswered up to event j.
  ghost predicate Unanswered(len: nat, count: nat, es: seq<Event>, i: int, j: int, ping: nat) {
    Makes(len, count, es, i, ping) && i < j <= |es| && forall m :: i < m < j ==> !Answers(es, m, ping)
  }

  ghost predicate Waiting(len: nat, count: nat, es: seq<Event>, j: int, ping: nat) {
    exists i :: Unanswered(len, count, es, i, j, ping)
  }

  lemma BeforeNext(len: nat, count: nat, es: seq<Event>, i: nat)
    requires i < |es|
    ensures Before(len, count, es, i + 1) == Step(Before(len, count, es, i), es[i]).0
  {
    assert es[..i + 1][..i] == es[..i];
  }

  // While open, a response is pending exactly if the last ping is unanswered.
  lemma {:induction false} PendingMeans(len: nat, count: nat, es: seq<Event>, j: nat)
    requires j <= |es|
    ensures var s := Before(len, count, es, j);
            s.open ==> (s.pending <==> Waiting(len, count, es, j, s.ping))
    decreases j
  {
    hide Before, Step;
    if j == 0 {
      BeforeFirst(len, count, es);
      assert !Waiting(len, count, es, 0, 0);
    } else {
      BeforeNext(len, count, es, j - 1);
      PendingMeans(len, count, es, j - 1);
      PendingStep(len, count, es, j);
    }
  }

  lemma BeforeFirst(len: nat, count: nat, es: seq<Event>)
    ensures Before(len, count, es, 0) == Init(len, count)
  {
  }

  lemma PendingStep(len: nat, count: nat, es: seq<Event>, j: nat)
    requires 0 < j <= |es|
    requires var s := Before(len, count, es, j - 1);
             s.open ==> (s.pending <==> Waiting(len, count, es, j - 1, s.ping))
    ensures var s := Before(len, count, es, j);
            s.open ==> (s.pending <==> Waiting(len, count, es, j, s.ping))
  {
    hide Before, Makes, Step;
    BeforeNext(len, count, es, j - 1);
    var s, t := Before(len, count, es, j - 1), Before(len, count, es, j);
    RunKeeps(len, count, es[..j - 1]);
    InvBefore(len, count, es, j - 1);
    if t.open {
      if t.ping == s.ping + 1 {
        MadeNow(len, count, es, j - 1);
        assert Unanswered(len, count, es, j - 1, j, t.ping);
      } else {
        NotMadeNow(len, count, es, j - 1);
        WaitingStep(len, count, es, j, s.ping);
        PendingKept(s, es[j - 1], len, count);
      }
    }
  }

  lemma WaitingStep(len: nat, count: nat, es: seq<Event>, j: nat, ping: nat)
    requires 0 < j <= |es| && !Makes(len, count, es, j - 1, ping)
    ensures Waiting(len, count, es, j, ping) <==> Waiting(len, count, es, j - 1, ping) && !Answers(es, j - 1, ping)
  {
    hide Makes, Answers;
    if Waiting(len, count, es, j, ping) {
      var i :| Unanswered(len, count, es, i, j, ping);
      assert Unanswered(len, count, es, i, j - 1, ping);
    }
    if Waiting(len, count, es, j - 1, ping) && !Answers(es, j - 1, ping) {
      var i :| Unanswered(len, count, es, i, j - 1, ping);
      assert Unanswered(len, count, es, i, j, ping);
    }
  }

  lemma InvBefore(len: nat, count: nat, es: seq<Event>, j: nat)
    requires j <= |es|
    ensures Inv(Before(len, count, es, j), len, count)
  {
    RunKeeps(len, count, es[..j]);
  }

  lemma MadeNow(len: nat, count: nat, es: seq<Event>, i: nat)
    requires i < |es| && Before(len, count, es, i + 1).ping == Before(len, count, es, i).ping + 1
    ensures Makes(len, count, es, i, Before(len, count, es, i + 1).ping)
    ensures Before(len, count, es, i + 1).open ==> Before(len, count, es, i + 1).pending
  {
    hide Before;
    BeforeNext(len, count, es, i);
  }

  lemma NotMadeNow(len: nat, count: nat, es: seq<Event>, i: nat)
    requires i < |es| && Before(len, count, es, i + 1).ping != Before(len, count, es, i).ping + 1
    ensures !Makes(len, count, es, i, Before(len, count, es, i + 1).ping)
    ensures Before(len, count, es, i + 1).ping == Before(len, count, es, i).ping
  {
    hide Before, Step;
    BeforeNext(len, count, es, i);
    InvBefore(len, count, es, i);
    StepKeeps(Before(len, count, es, i), es[i], len, count);
  }

  lemma PendingKept(s: State, e: Event, len: nat, count: nat)
    requires Inv(s, len, count) && Step(s, e).0.open && Step(s, e).0.ping == s.ping
    ensures s.open
    ensures Step(s, e).0.pending <==> s.pending && !(e.Deliver? && e.sequence % 0x1_0000 == s.ping % 0x1_0000)
  {
  }

  // A timeout is reported, by an expiry of the timer, exactly if no packet with
  // that number has arrived since it became due.
  lemma TimeoutMeans(len: nat, count: nat, es: seq<Event>, j: nat)
    requires j < |es|
    ensures var s := Before(len, count, es, j);
            (exists o :: 0 <= o < |Step(s, es[j]).1| && Step(s, es[j]).1[o].TimedOut?) <==>
            es[j].Expire? && s.open && s.timer && Waiting(len, count, es, j, s.ping)
  {
    hide Before, Step, Waiting;
    PendingMeans(len, count, es, j);
    InvBefore(len, count, es, j);
    StepOuts(Before(len, count, es, j), es[j], len, count);
  }

  // ---- The status when the timer closes -----------------------------------

  // Event m is a good reply to the latest ping.
  ghost predicate Good(len: nat, count: nat, es: seq<Event>, m: int) {
    && 0 <= m < |es| && es[m].Deliver? && Before(len, count, es, m).open
    && es[m].data == Payload(len) && es[m].sequence % 0x1_0000 == Before(len, count, es, m).ping % 0x1_0000
  }

  lemma {:induction false} StatusMeans(len: nat, count: nat, es: seq<Event>, j: nat)
    requires j <= |es|
    ensures Before(len, count, es, j).rc == 0 <==> exists m :: 0 <= m < j && Good(len, count, es, m)
    decreases j
  {
    hide Before, Good;
    if j == 0 {
      BeforeFirst(len, count, es);
    } else {
      StatusMeans(len, count, es, j - 1);
      BeforeNext(len, count, es, j - 1);
      InvBefore(len, count, es, j - 1);
      StatusStep(len, count, es, j - 1);
    }
  }

  lemma StatusStep(len: nat, count: nat, es: seq<Event>, m: nat)
    requires m < |es|
    ensures Before(len, count, es, m + 1).rc == 0 <==> Before(len, count, es, m).rc == 0 || Good(len, count, es, m)
  {
    hide Before, Payload;
    BeforeNext(len, count, es, m);
    InvBefore(len, count, es, m);
    PayloadLength(len);
  }

  lemma PayloadLength(len: nat)
    ensures |Payload(len)| == len
  {
  }

  // When the timer closes the pinger, the status is success exactly if some
  // reply was good; and for a count, that is after `count` pings.
  lemma ClosedByTimer(len: nat, count: nat, es: seq<Event>, j: nat)
    requires j < |es| && es[j].Expire?
    ensures var s := Before(len, count, es, j);
            s.open && !Step(s, es[j]).0.open ==>
              && s.ping == count > 0 && Step(s, es[j]).1 != []
              && var last := Step(s, es[j]).1[|Step(s, es[j]).1| - 1];
                 last.Closed? && (last.rc == 0 <==> exists m :: 0 <= m < j && Good(len, count, es, m))
  {
    hide Before, Good;
    InvBefore(len, count, es, j);
    StatusMeans(len, count, es, j);
  }

  // ---- What a packet and an expiry lead to --------------------------------

  // The data that is sent: the bytes 0, 1, 2, ...
  ghost predicate Counting(data: seq<byte>) {
    forall i :: 0 <= i < |data| ==> data[i] == i % 256
  }

  lemma CountingIs(len: nat, data: seq<byte>)
    ensures data == Payload(len) <==> |data| == len && Counting(data)
  {
    if |data| == len && Counting(data) {
      assert forall i :: 0 <= i < len ==> data[i] == Payload(len)[i];
    }
  }

  // Whatever arrives is reported with its number, its length and a status. It
  // closes the pinger, with that status, exactly if a count was given and the
  // packet is either damaged or a good reply to the last ping of that count.
  lemma PacketMeans(len: nat, count: nat, es: seq<Event>, j: nat)
    requires j < |es| && es[j].Deliver? && Before(len, count, es, j).open
    ensures var s, data, number := Before(len, count, es, j), es[j].data, es[j].sequence % 0x1_0000;
            var (t, outs) := Step(s, es[j]);
            var right := |data| == len && Counting(data);
            var status := if |data| != len then EPROTO_LEN
                          else if !right then EPROTO_DATA
                          else if number != s.ping % 0x1_0000 then EPROTO_SEQ
                          else 0;
            && (status == 0 <==> Good(len, count, es, j)) && t.ping == s.ping
            && (!t.open <==> count > 0 && (!right || (status == 0 && s.ping == count)))
            && outs == [Report(number, |data|, status)] + if t.open then [] else [Closed(status)]
  {
    hide Before, Payload, Counting;
    InvBefore(len, count, es, j);
    CountingIs(len, es[j].data);
    PayloadLength(len);
  }

  // When the timer expires, an unanswered ping is reported first. Then the pinger
  // closes if that was the last of the count; otherwise the next ping is due,
  // the timer runs again, and a packet with the new number is sent if there is
  // memory for it.
  lemma ExpiryMeans(len: nat, count: nat, es: seq<Event>, j: nat)
    requires j < |es| && es[j].Expire? && Before(len, count, es, j).open && Before(len, count, es, j).timer
    ensures var s := Before(len, count, es, j);
            var (t, outs) := Step(s, es[j]);
            var late := if Waiting(len, count, es, j, s.ping) then [TimedOut(s.ping % 0x1_0000, s.ping)] else [];
            if count > 0 && s.ping == count
            then
              && !t.open
              && outs == late + [Closed(if exists m :: 0 <= m < j && Good(len, count, es, m) then 0 else ETIMEDOUT)]
            else
              && t.open && t.timer && t.pending && t.ping == s.ping + 1
              && if es[j].memory
                 then exists data :: |data| == len && Counting(data)
                                     && outs == late + [Transmit(t.ping % 0x1_0000, t.ping, data)]
                 else outs == late
  {
    hide Before, Waiting, Good, Payload, Counting;
    InvBefore(len, count, es, j);
    CountingIs(len, Payload(len));
    PendingMeans(len, count, es, j);
    StatusMeans(len, count, es, j);
    ModAdd(Before(len, count, es, j).ping, 1, 0x1_0000);
  }

  // The timer runs from the first opening of the window on, while the pinger is
  // open; and another party's close closes it with the same status.
  lemma {:induction false} TimerRuns(len: nat, count: nat, es: seq<Event>, j: nat)
    requires j <= |es|
    ensures var s := Before(len, count, es, j);
            s.timer <==> s.open && exists m :: 0 <= m < j && es[m] == Window
    decreases j
  {
    hide Before;
    if j == 0 {
      BeforeFirst(len, count, es);
    } else {
      TimerRuns(len, count, es, j - 1);
      BeforeNext(len, count, es, j - 1);
    }
  }

  lemma AbortMeans(s: State, rc: int)
    ensures s.open ==> !Step(s, Abort(rc)).0.open && Step(s, Abort(rc)).1 == [Closed(rc)]
    ensures !s.open ==> forall e :: Step(s, e) == (s, [])
  {
  }
}
