/** Order of service on the wait list of a semaphore. */
module SemaphoreOrder {
  import opened OrderedList
  import opened IpcList
  import opened ServiceOrder
  import opened SemaphoreSpec
  import TimerTheory
  import SemaphoreTheory

  /** The wait list after each step of a run. */
  ghost function Lists(s: Sem, ops: seq<(Op, Priorities)>): History
    decreases |ops|
  {
    if ops == [] || !Legal(s, ops[0].0, ops[0].1) then []
    else var m := Step(s, ops[0].0, ops[0].1); [m.wait] + Lists(m, ops[1..])
  }

  lemma {:induction false} FailAllFlag(s: Sem)
    requires Known(s.wheel.pending, s.wheel.due) && forall t :: t in s.wait ==> t in s.asked && t in s.wheel.timers
    ensures FailAll(s).wait == [] && FailAll(s).flag == s.flag
    decreases |s.wait|
  {
    if s.wait != [] {
      var t := s.wait[0];
      StopKeys(s.wheel, t);
      FailAllFlag(s.(wait := s.wait[1..], wheel := TimerSpec.StopTimer(s.wheel, t).0,
                     log := s.log + [Answer(t, s.asked[t], Failed, s.wheel.now)]));
    }
  }

  lemma {:induction false} ExpireAllSub(s: Sem, fired: seq<Tid>)
    requires forall t :: t in fired ==> t in s.asked
    ensures Sub(ExpireAll(s, fired).wait, s.wait) && ExpireAll(s, fired).flag == s.flag
    decreases |fired|
  {
    if fired == [] {
      SubSelf(s.wait);
    } else {
      var m := s.(wait := Remove(s.wait, fired[0]), log := s.log + [Answer(fired[0], s.asked[fired[0]], TimedOut, s.wheel.now)]);
      RemoveIsSub(s.wait, fired[0]);
      ExpireAllSub(m, fired[1..]);
      TimerTheory.SubTransitive(ExpireAll(s, fired).wait, m.wait, s.wait);
    }
  }

  lemma {:induction false} StepChange(s: Sem, op: Op, prio: Priorities)
    requires Legal(s, op, prio)
    ensures Change(s.wait, Step(s, op, prio).wait, s.flag, prio) && Step(s, op, prio).flag == s.flag
  {
    hide Change, Enqueue, ArmTimer, TimerSpec.StopTimer, NextFired, TimerSpec.Tick;
    SameChange(s.wait, s.flag, prio);
    match op
    case DoTake(t, time) => JoinChange(s.wait, t, s.flag, prio);
    case DoRelease => if s.wait != [] { TailChange(s.wait, s.flag, prio); }
    case DoTick =>
      ExpireAllSub(s.(wheel := TimerSpec.Tick(s.wheel, map[])), NextFired(s));
      SubChange(s.wait, PassTick(s).wait, s.flag, prio);
    case DoReset(value) =>
      FailAllFlag(s);
      EmptyChange(s.wait, s.flag, prio);
  }

  lemma {:induction false} ListsLawful(s: Sem, ops: seq<(Op, Priorities)>, g: Sem, prio: Priorities, h: History)
    requires Reaches(s, ops, g) && Constant(ops, prio) && Lawful(h, s.flag, prio) && Now(h) == s.wait
    ensures var l := h + Lists(s, ops); Lawful(l, s.flag, prio) && Now(l) == g.wait
    decreases |ops|
  {
    hide Step, Lawful, Change, Legal, Now;
    if ops == [] {
      NoMore(h);
    } else {
      var m := Step(s, ops[0].0, ops[0].1);
      StepChange(s, ops[0].0, prio);
      Extend(h, m.wait, s.flag, prio);
      ListsLawful(m, ops[1..], g, prio, h + [m.wait]);
      Shift(h, m.wait, Lists(m, ops[1..]));
    }
  }

  /** While priorities stay as they are, the waiting threads stand in order of service. */
  lemma {:induction false} Served(
      flag: Flag, value: nat, wheel: TimerSpec.Wheel, ops: seq<(Op, Priorities)>, g: Sem, prio: Priorities, i: nat, j: nat)
    requires Reaches(Init(flag, value, wheel), ops, g) && Constant(ops, prio) && i < j < |g.wait|
    ensures Precedes(Lists(Init(flag, value, wheel), ops), g.wait[i], g.wait[j], flag, prio)
  {
    var s := Init(flag, value, wheel);
    ListsLawful(s, ops, g, prio, []);
    NoMore(Lists(s, ops));
    ServedInOrder(Lists(s, ops), flag, prio, i, j);
  }
}

/** Order of service on the wait list of a mutex. The owner's boost does not
    matter: everybody who waits has the base priority. */
module MutexOrder {
  import opened Machine
  import opened OrderedList
  import opened IpcList
  import opened ServiceOrder
  import opened MutexSpec
  import MutexTheory

  ghost function Lists(m: Mx, ops: seq<Op>): History
    decreases |ops|
  {
    if ops == [] || !Legal(m, ops[0]) then []
    else var g := Step(m, ops[0]); [g.wait] + Lists(g, ops[1..])
  }

  lemma {:induction false} InsertFrame(s: seq<Tid>, t: Tid, p: Priorities, q: Priorities)
    requires Known(s, p) && Known(s, q) && t in p && t in q && p[t] == q[t] && forall x :: x in s ==> p[x] == q[x]
    ensures Insert(s, t, p) == Insert(s, t, q)
  {
    if s != [] { InsertFrame(s[1..], t, p, q); }
  }

  lemma {:induction false} ParkChange(m: Mx, t: Tid, time: int, base: Priorities)
    requires m.Inv(base) && t in m.prio && t !in m.wait
    ensures Change(m.wait, Take(m, t, time).0.wait, m.flag, base)
  {
    hide Change;
    SameChange(m.wait, m.flag, base);
    if m.owner != Some(t) && m.value == 0 && time != 0 {
      var o := m.owner.value;
      var boosted := if m.prio[t] < m.prio[o] then m.prio[o := m.prio[t]] else m.prio;
      if m.flag.Prio? { InsertFrame(m.wait, t, boosted, base); }
      JoinChange(m.wait, t, m.flag, base);
    }
  }

  lemma {:induction false} StepChange(m: Mx, op: Op, base: Priorities)
    requires m.Inv(base) && Legal(m, op)
    ensures Change(m.wait, Step(m, op).wait, m.flag, base) && Step(m, op).flag == m.flag
  {
    hide Change;
    SameChange(m.wait, m.flag, base);
    match op
    case DoTake(t, time) => ParkChange(m, t, time, base);
    case DoRelease(t) => if m.wait != [] { TailChange(m.wait, m.flag, base); }
    case DoExpire(t) => ExpireChange(m.wait, t, m.flag, base);
  }

  lemma {:induction false} ListsLawful(m: Mx, ops: seq<Op>, g: Mx, base: Priorities, h: History)
    requires m.Inv(base) && Reaches(m, ops, g) && Lawful(h, m.flag, base) && Now(h) == m.wait
    ensures var l := h + Lists(m, ops); Lawful(l, m.flag, base) && Now(l) == g.wait
    decreases |ops|
  {
    hide Step, Lawful, Change, Mx.Inv, Legal, Now;
    if ops == [] {
      NoMore(h);
    } else {
      var n := Step(m, ops[0]);
      StepChange(m, ops[0], base);
      MutexTheory.StepInv(m, ops[0], base);
      Extend(h, n.wait, m.flag, base);
      ListsLawful(n, ops[1..], g, base, h + [n.wait]);
      Shift(h, n.wait, Lists(n, ops[1..]));
    }
  }

  /** The first waiter, to whom the next release hands the mutex, is the most
      urgent one and among equals the one that has waited longest under PRIO,
      and the one that has waited longest under FIFO. */
  lemma {:induction false} Served(flag: Flag, base: Priorities, ops: seq<Op>, g: Mx, i: nat, j: nat)
    requires Reaches(Init(flag, base), ops, g) && i < j < |g.wait|
    ensures Precedes(Lists(Init(flag, base), ops), g.wait[i], g.wait[j], flag, base)
  {
    var m := Init(flag, base);
    MutexTheory.InitInv(flag, base);
    ListsLawful(m, ops, g, base, []);
    NoMore(Lists(m, ops));
    ServedInOrder(Lists(m, ops), flag, base, i, j);
  }
}

/** Order of service on the wait list of an event set: rt_event_send resumes the
    satisfied threads in this order. */
module EventOrder {
  import opened OrderedList
  import opened IpcList
  import opened ServiceOrder
  import opened EventSpec

  ghost function Lists(e: Ev, ops: seq<(Op, Priorities)>): History
    decreases |ops|
  {
    if ops == [] || !Legal(e, ops[0].0, ops[0].1) then []
    else var m := Step(e, ops[0].0, ops[0].1); [m.wait] + Lists(m, ops[1..])
  }

  lemma {:induction false} SweepSub(wait: seq<Tid>, info: Info, events: Bits)
    requires forall t :: t in wait ==> t in info
    ensures Sub(Sweep(wait, info, events).kept, wait)
    decreases |wait|
  {
    hide Satisfied, Left, Granted;
    if wait != [] {
      var w := info[wait[0]];
      if Satisfied(w, events) {
        SweepSub(wait[1..], info, Left(w, events));
        SubCons(Sweep(wait[1..], info, Left(w, events)).kept, wait[0], wait[1..]);
        assert [wait[0]] + wait[1..] == wait;
      } else {
        SweepSub(wait[1..], info, events);
        Cons(wait[0], Sweep(wait[1..], info, events).kept);
      }
    }
  }

  lemma {:induction false} StepChange(e: Ev, op: Op, prio: Priorities)
    requires Legal(e, op, prio)
    ensures Change(e.wait, Step(e, op, prio).wait, e.flag, prio) && Step(e, op, prio).flag == e.flag
  {
    hide Change, Satisfied, Sweep, Either, Woken, Still, Enqueue;
    SameChange(e.wait, e.flag, prio);
    match op
    case DoSend(bits) =>
      SweepSub(e.wait, e.info, Either(e.events, bits));
      SubChange(e.wait, Sweep(e.wait, e.info, Either(e.events, bits)).kept, e.flag, prio);
    case DoRecv(t, bits, option, timeout) => JoinChange(e.wait, t, e.flag, prio);
    case DoFinish(t) =>
    case DoExpire(t) => ExpireChange(e.wait, t, e.flag, prio);
    case DoReset => EmptyChange(e.wait, e.flag, prio);
  }

  lemma {:induction false} ListsLawful(e: Ev, ops: seq<(Op, Priorities)>, g: Ev, prio: Priorities, h: History)
    requires Reaches(e, ops, g) && Constant(ops, prio) && Lawful(h, e.flag, prio) && Now(h) == e.wait
    ensures var l := h + Lists(e, ops); Lawful(l, e.flag, prio) && Now(l) == g.wait
    decreases |ops|
  {
    hide Step, Lawful, Change, Legal, Now;
    if ops == [] {
      NoMore(h);
    } else {
      var m := Step(e, ops[0].0, ops[0].1);
      StepChange(e, ops[0].0, prio);
      Extend(h, m.wait, e.flag, prio);
      ListsLawful(m, ops[1..], g, prio, h + [m.wait]);
      Shift(h, m.wait, Lists(m, ops[1..]));
    }
  }

  /** While priorities stay as they are, the waiting threads stand in order of service. */
  lemma {:induction false} Served(flag: Flag, ops: seq<(Op, Priorities)>, g: Ev, prio: Priorities, i: nat, j: nat)
    requires Reaches(Init(flag), ops, g) && Constant(ops, prio) && i < j < |g.wait|
    ensures Precedes(Lists(Init(flag), ops), g.wait[i], g.wait[j], flag, prio)
  {
    ListsLawful(Init(flag), ops, g, prio, []);
    NoMore(Lists(Init(flag), ops));
    ServedInOrder(Lists(Init(flag), ops), flag, prio, i, j);
  }
}

/** Order of service on both wait lists of a mailbox. */
module MailboxOrder {
  import opened OrderedList
  import opened IpcList
  import opened ServiceOrder
  import opened Waiters
  import opened MailboxSpec
  import MailboxTheory

  /** The lists of waiting senders or receivers along a run. */
  ghost function Lists(m: Mb, ops: seq<(Op, Priorities)>, senders: bool): History
    decreases |ops|
  {
    if ops == [] || !Legal(m, ops[0].0, ops[0].1) then []
    else var n := Step(m, ops[0].0, ops[0].1); [List(n, senders)] + Lists(n, ops[1..], senders)
  }

  function List(m: Mb, senders: bool): seq<Tid> {
    if senders then m.send.wait else m.recv.wait
  }

  lemma {:induction false} TryChange(m: Mb, t: Tid, r: Request, prio: Priorities, senders: bool)
    requires Known(m.recv.wait, prio) && Known(m.send.wait, prio) && t in prio && t !in m.recv.wait && t !in m.send.wait
    ensures var n := SendTry(m, t, r, prio).0; Change(List(m, senders), List(n, senders), m.flag, prio) && n.flag == m.flag
    ensures var n := RecvTry(m, t, r, prio).0; Change(List(m, senders), List(n, senders), m.flag, prio) && n.flag == m.flag
  {
    hide Change, Enqueue;
    SameChange(List(m, senders), m.flag, prio);
    if List(m, senders) != [] { TailChange(List(m, senders), m.flag, prio); }
    JoinChange(List(m, senders), t, m.flag, prio);
  }

  lemma {:induction false} StepChange(m: Mb, op: Op, prio: Priorities, senders: bool)
    requires m.Inv() && Legal(m, op, prio)
    ensures Change(List(m, senders), List(Step(m, op, prio), senders), m.flag, prio) && Step(m, op, prio).flag == m.flag
  {
    hide Change, SendTry, RecvTry, Sub;
    SameChange(List(m, senders), m.flag, prio);
    match op
    case SendStart(t, r) => TryChange(m, t, r, prio, senders);
    case SendResume(t, e) =>
      var r := m.send.woken[t];
      assert m.send.Has(t) && t !in m.send.parked;
      TryChange(m.(send := Run(m.send, t)), t, r.(timeout := Left(r.timeout, e)), prio, senders);
    case SendExpire(t) => ExpireChange(m.send.wait, t, m.flag, prio);
    case RecvStart(t, r) => TryChange(m, t, r, prio, senders);
    case RecvResume(t, e) =>
      var r := m.recv.woken[t];
      assert m.recv.Has(t) && t !in m.recv.parked;
      TryChange(m.(recv := Run(m.recv, t)), t, r.(timeout := Left(r.timeout, e)), prio, senders);
    case RecvExpire(t) => ExpireChange(m.recv.wait, t, m.flag, prio);
    case ResetAll => EmptyChange(List(m, senders), m.flag, prio);
  }

  lemma {:induction false} ListsLawful(m: Mb, ops: seq<(Op, Priorities)>, g: Mb, prio: Priorities, senders: bool, h: History)
    requires m.Inv() && Reaches(m, ops, g) && Constant(ops, prio) && Lawful(h, m.flag, prio) && Now(h) == List(m, senders)
    ensures var l := h + Lists(m, ops, senders); Lawful(l, m.flag, prio) && Now(l) == List(g, senders)
    decreases |ops|
  {
    hide Step, Lawful, Change, Mb.Inv, List, Legal, Now;
    if ops == [] {
      NoMore(h);
    } else {
      var n := Step(m, ops[0].0, ops[0].1);
      StepChange(m, ops[0].0, prio, senders);
      MailboxTheory.StepInv(m, ops[0].0, prio);
      Extend(h, List(n, senders), m.flag, prio);
      ListsLawful(n, ops[1..], g, prio, senders, h + [List(n, senders)]);
      Shift(h, List(n, senders), Lists(n, ops[1..], senders));
    }
  }

  /** While priorities stay as they are, waiting senders and receivers stand in order of service. */
  lemma {:induction false} Served(
      size: nat, flag: Flag, ops: seq<(Op, Priorities)>, g: Mb, prio: Priorities, senders: bool, i: nat, j: nat)
    requires Reaches(Init(size, flag), ops, g) && Constant(ops, prio) && i < j < |List(g, senders)|
    ensures Precedes(Lists(Init(size, flag), ops, senders), List(g, senders)[i], List(g, senders)[j], flag, prio)
  {
    var m := Init(size, flag);
    ListsLawful(m, ops, g, prio, senders, []);
    NoMore(Lists(m, ops, senders));
    ServedInOrder(Lists(m, ops, senders), flag, prio, i, j);
  }
}

/** Order of service on the list of receivers of a message queue. */
module MsgQueueOrder {
  import opened OrderedList
  import opened IpcList
  import opened ServiceOrder
  import opened Waiters
  import opened MsgQueueSpec
  import MsgQueueTheory

  ghost function Lists(m: Mq, ops: seq<(Op, Priorities)>): History
    decreases |ops|
  {
    if ops == [] || !Legal(m, ops[0].0, ops[0].1) then []
    else var n := Step(m, ops[0].0, ops[0].1); [n.recv.wait] + Lists(n, ops[1..])
  }

  lemma {:induction false} TryChange(m: Mq, t: Tid, timeout: int, prio: Priorities)
    requires Known(m.recv.wait, prio) && t in prio && t !in m.recv.wait && (m.queue != [] ==> m.queue[0] in m.sent)
    ensures var n := RecvTry(m, t, timeout, prio).0; Change(m.recv.wait, n.recv.wait, m.flag, prio) && n.flag == m.flag
  {
    hide Change, Enqueue;
    SameChange(m.recv.wait, m.flag, prio);
    JoinChange(m.recv.wait, t, m.flag, prio);
  }

  lemma {:induction false} StepChange(m: Mq, op: Op, prio: Priorities)
    requires m.Inv() && Legal(m, op, prio)
    ensures Change(m.recv.wait, Step(m, op, prio).recv.wait, m.flag, prio) && Step(m, op, prio).flag == m.flag
  {
    hide Change, RecvTry, Sub, Over, Reversed, Mq.Conserved, Mq.Contents;
    SameChange(m.recv.wait, m.flag, prio);
    match op
    case DoClaim(len, urgent) =>
    case DoFill(n, d) =>
    case DoLink(n) => if m.recv.wait != [] { TailChange(m.recv.wait, m.flag, prio); }
    case DoRecv(t, timeout) => TryChange(m, t, timeout, prio);
    case DoRecvAgain(t, elapsed) =>
      assert t !in m.recv.parked;
      TryChange(m.(recv := Run(m.recv, t)), t, Left(m.recv.woken[t].timeout, elapsed), prio);
    case DoExpire(t) => ExpireChange(m.recv.wait, t, m.flag, prio);
    case DoReturn(n) =>
    case DoReset => EmptyChange(m.recv.wait, m.flag, prio);
  }

  lemma {:induction false} ListsLawful(m: Mq, ops: seq<(Op, Priorities)>, g: Mq, prio: Priorities, h: History)
    requires m.Inv() && Reaches(m, ops, g) && Constant(ops, prio) && Lawful(h, m.flag, prio) && Now(h) == m.recv.wait
    ensures var l := h + Lists(m, ops); Lawful(l, m.flag, prio) && Now(l) == g.recv.wait
    decreases |ops|
  {
    hide Step, Lawful, Change, Mq.Inv, Legal, Now;
    if ops == [] {
      NoMore(h);
    } else {
      var n := Step(m, ops[0].0, ops[0].1);
      StepChange(m, ops[0].0, prio);
      MsgQueueTheory.StepInv(m, ops[0].0, prio);
      Extend(h, n.recv.wait, m.flag, prio);
      ListsLawful(n, ops[1..], g, prio, h + [n.recv.wait]);
      Shift(h, n.recv.wait, Lists(n, ops[1..]));
    }
  }

  /** While priorities stay as they are, the waiting receivers stand in order of service. */
  lemma {:induction false} Served(
      max: nat, size: nat, flag: Flag, ops: seq<(Op, Priorities)>, g: Mq, prio: Priorities, i: nat, j: nat)
    requires Reaches(Init(max, size, flag), ops, g) && Constant(ops, prio) && i < j < |g.recv.wait|
    ensures Precedes(Lists(Init(max, size, flag), ops), g.recv.wait[i], g.recv.wait[j], flag, prio)
  {
    var m := Init(max, size, flag);
    MsgQueueTheory.InitInv(max, size, flag);
    ListsLawful(m, ops, g, prio, []);
    NoMore(Lists(m, ops));
    ServedInOrder(Lists(m, ops), flag, prio, i, j);
  }
}
