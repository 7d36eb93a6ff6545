/** The recursive mutex of ipc.c with priority inheritance, as a step machine. */
module MutexSpec {
  import opened Machine
  import opened OrderedList
  import opened IpcList

  datatype Outcome = Taken | Blocked | TimedOut | Released | Refused

  /** original_priority of an unowned mutex. */
  const NO_PRIORITY: nat := 0xFF

  /** prio holds the current priority of every thread, timed the parked threads
      whose timer runs. */
  datatype Mx = Mx(
    flag: Flag, prio: Priorities, owner: Option<Tid>, value: nat, hold: nat, orig: nat, wait: seq<Tid>, timed: set<Tid>)
  {
    /** The three descriptions of "unowned" agree, and only an owned mutex has waiters. */
    ghost predicate Owned() {
      && value <= 1
      && (owner.None? <==> value == 1) && (owner.None? <==> hold == 0)
      && (owner.Some? ==> owner.value in prio && owner.value !in wait)
      && (wait != [] ==> owner.Some?)
    }

    ghost predicate Queue() {
      && Known(wait, prio) && Distinct(wait)
      && (forall t :: t in timed ==> t in wait)
    }

    /** The owner is at least as urgent as every waiter, and the waiters are in order. */
    ghost predicate NoInversion()
      requires Owned() && Queue()
    {
      && Ordered(wait, prio)
      && forall t :: t in wait ==> prio[owner.value] <= prio[t]
    }

    /** Apart from the owner's boost every thread has its base priority, and the
        mutex remembers the owner's. */
    ghost predicate OnlyOwnerBoosted(base: Priorities) {
      && prio.Keys == base.Keys
      && (forall t :: t in prio && owner != Some(t) ==> prio[t] == base[t])
      && (owner.Some? && owner.value in prio ==> orig == base[owner.value] && prio[owner.value] <= orig)
    }

    /** Nobody who waits is more urgent than the owner. */
    ghost predicate OwnerUrgent() {
      owner.Some? ==> owner.value in prio && forall t :: t in wait ==> t in prio && prio[owner.value] <= prio[t]
    }

    /** Nobody who waits is more urgent than the first waiter. */
    ghost predicate FirstMostUrgent() {
      wait != [] ==> wait[0] in prio && forall t :: t in wait ==> t in prio && prio[wait[0]] <= prio[t]
    }

    ghost predicate Inv(base: Priorities) {
      Owned() && Queue() && OnlyOwnerBoosted(base) && (flag.Prio? ==> NoInversion())
    }
  }

  function Init(flag: Flag, prio: Priorities): Mx {
    Mx(flag, prio, None, 1, 0, NO_PRIORITY, [], {})
  }

  /** rt_mutex_take by the running thread t. */
  function Take(m: Mx, t: Tid, time: int): (Mx, Outcome)
    requires Known(m.wait, m.prio) && t in m.prio && (m.owner.Some? ==> m.owner.value in m.prio)
  {
    if m.owner == Some(t) then (m.(hold := m.hold + 1), Taken)
    else if m.value > 0 then
      (m.(value := m.value - 1, owner := Some(t), orig := m.prio[t], hold := m.hold + 1), Taken)
    else if time == 0 then (m, TimedOut)
    else
      var boosted := if m.owner.Some? && m.prio[t] < m.prio[m.owner.value] then m.prio[m.owner.value := m.prio[t]] else m.prio;
      (m.(prio := boosted, wait := Enqueue(m.wait, t, m.flag, boosted),
          timed := if time > 0 then m.timed + {t} else m.timed), Blocked)
  }

  /** rt_mutex_release by the running thread t. */
  function Release(m: Mx, t: Tid): (Mx, Outcome)
    requires Known(m.wait, m.prio) && t in m.prio
  {
    if m.owner != Some(t) || m.hold == 0 then (m, Refused)
    else if m.hold > 1 then (m.(hold := m.hold - 1), Released)
    else
      var restored := m.prio[t := m.orig];
      if m.wait == [] then
        (m.(prio := restored, hold := 0, value := m.value + 1, owner := None, orig := NO_PRIORITY), Released)
      else
        var n := m.wait[0];
        (m.(prio := restored, hold := 1, owner := Some(n), orig := restored[n],
            wait := m.wait[1..], timed := m.timed - {n}), Released)
  }

  /** The timer of the parked thread t fires. */
  function Expire(m: Mx, t: Tid): Mx {
    m.(wait := Remove(m.wait, t), timed := m.timed - {t})
  }

  datatype Op = DoTake(t: Tid, time: int) | DoRelease(t: Tid) | DoExpire(t: Tid)

  /** Running threads are not parked; the hold count does not wrap. */
  ghost predicate Legal(m: Mx, op: Op) {
    && Known(m.wait, m.prio) && (m.owner.Some? ==> m.owner.value in m.prio)
    && match op
       case DoTake(t, time) => t in m.prio && t !in m.wait && m.hold < 0xFF
       case DoRelease(t) => t in m.prio && t !in m.wait
       case DoExpire(t) => t in m.timed
  }

  function Step(m: Mx, op: Op): Mx
    requires Legal(m, op)
  {
    match op
    case DoTake(t, time) => Take(m, t, time).0
    case DoRelease(t) => Release(m, t).0
    case DoExpire(t) => Expire(m, t)
  }

  ghost predicate Reaches(m: Mx, ops: seq<Op>, g: Mx)
    decreases |ops|
  {
    if ops == [] then g == m else Legal(m, ops[0]) && Reaches(Step(m, ops[0]), ops[1..], g)
  }
}

/** Ownership, inheritance and restoration over every run of one mutex. */
module MutexTheory {
  import opened Machine
  import opened OrderedList
  import opened IpcList
  import opened MutexSpec

  lemma {:induction false} OwnerFacts(m: Mx, base: Priorities)
    requires m.Inv(base)
    ensures m.owner.Some? ==> m.owner.value in m.prio && m.hold > 0
    ensures Known(m.wait, m.prio) && (m.wait != [] ==> m.wait[0] in m.prio)
  {
    assert m.wait != [] ==> m.wait[0] in m.wait;
  }

  lemma {:induction false} TakeInv(m: Mx, t: Tid, time: int, base: Priorities)
    requires m.Inv(base) && t in m.prio && t !in m.wait
    ensures Take(m, t, time).0.Inv(base)
  {
    if m.owner != Some(t) && m.value == 0 && time != 0 {
      ParkInv(m, t, time, base);
    }
  }

  lemma {:induction false} ParkInv(m: Mx, t: Tid, time: int, base: Priorities)
    requires m.Inv(base) && t in m.prio && t !in m.wait && m.owner != Some(t) && m.value == 0 && time != 0
    ensures Take(m, t, time).0.Inv(base)
  {
    var o := m.owner.value;
    var boosted := if m.prio[t] < m.prio[o] then m.prio[o := m.prio[t]] else m.prio;
    EnqueueMembers(m.wait, t, m.flag, boosted);
    EnqueueDistinct(m.wait, t, m.flag, boosted);
    if m.flag.Prio? {
      OrderedFrame(m.wait, m.prio, boosted);
      InsertOrdered(m.wait, t, boosted);
    }
  }

  lemma {:induction false} ReleaseInv(m: Mx, t: Tid, base: Priorities)
    requires m.Inv(base) && t in m.prio && t !in m.wait
    ensures Release(m, t).0.Inv(base)
  {
    if m.owner == Some(t) && m.hold == 1 && m.wait != [] {
      var n := m.wait[0];
      var restored := m.prio[t := m.orig];
      assert forall x :: x in m.wait <==> x == n || x in m.wait[1..];
      if m.flag.Prio? {
        OrderedFrame(m.wait, m.prio, restored);
      }
    }
  }

  lemma {:induction false} ExpireInv(m: Mx, t: Tid, base: Priorities)
    requires m.Inv(base) && t in m.timed
    ensures Expire(m, t).Inv(base)
  {
    RemoveMembers(m.wait, t);
    RemoveDistinct(m.wait, t);
    if m.flag.Prio? {
      RemoveOrdered(m.wait, t, m.prio);
    }
  }

  lemma {:induction false} StepInv(m: Mx, op: Op, base: Priorities)
    requires m.Inv(base) && Legal(m, op)
    ensures Step(m, op).Inv(base)
  {
    match op
    case DoTake(t, time) => TakeInv(m, t, time, base);
    case DoRelease(t) => ReleaseInv(m, t, base);
    case DoExpire(t) => ExpireInv(m, t, base);
  }

  /** In every reachable state ownership is consistent, only the owner is
      boosted, and under RT_IPC_FLAG_PRIO the owner is at least as urgent as
      every parked thread. */
  lemma {:induction false} RunInv(m: Mx, ops: seq<Op>, g: Mx, base: Priorities)
    requires m.Inv(base) && Reaches(m, ops, g)
    ensures g.Inv(base)
    decreases |ops|
  {
    hide Mx.Inv, Step;
    if ops != [] {
      StepInv(m, ops[0], base);
      RunInv(Step(m, ops[0]), ops[1..], g, base);
    }
  }

  lemma {:induction false} InitInv(flag: Flag, base: Priorities)
    ensures Init(flag, base).Inv(base)
  {
  }

  /** Whatever boosts a thread received while it held the mutex, its outermost
      release gives it back the priority it had on acquiring it. */
  lemma {:induction false} ReleaseRestores(flag: Flag, base: Priorities, ops: seq<Op>, g: Mx, t: Tid)
    requires Reaches(Init(flag, base), ops, g) && Legal(g, DoRelease(t)) && g.owner == Some(t) && g.hold == 1
    ensures var r := Release(g, t).0; r.owner != Some(t) && t in r.prio && t in base && r.prio[t] == base[t]
    ensures forall x :: x in base && x != t ==> x in g.prio && Release(g, t).0.prio[x] == g.prio[x] == base[x]
  {
    InitInv(flag, base);
    RunInv(Init(flag, base), ops, g, base);
    assert g.wait != [] ==> g.wait[0] in g.wait;
  }

  /** The release hands the mutex to the first waiter, a most urgent one under
      RT_IPC_FLAG_PRIO, and never leaves it unowned while somebody waits. Who is
      first among equals is said in MutexOrder. */
  lemma {:induction false} HandOff(flag: Flag, base: Priorities, ops: seq<Op>, g: Mx, t: Tid)
    requires Reaches(Init(flag, base), ops, g) && Legal(g, DoRelease(t)) && g.owner == Some(t) && g.hold == 1
    requires g.wait != []
    ensures var r := Release(g, t).0;
      && r.owner == Some(g.wait[0]) && r.value == 0 && r.hold == 1 && r.wait == g.wait[1..]
      && g.wait[0] in base
      && (flag.Prio? ==> forall x :: x in g.wait ==> x in base && base[g.wait[0]] <= base[x])
  {
    InitInv(flag, base);
    RunInv(Init(flag, base), ops, g, base);
    SameFlag(Init(flag, base), ops, g);
    assert g.wait[0] in g.wait;
    if flag.Prio? {
      forall x | x in g.wait ensures x in base && base[g.wait[0]] <= base[x] {
        assert x == g.wait[0] || x in g.wait[1..];
      }
    }
  }

  lemma {:induction false} SameFlag(m: Mx, ops: seq<Op>, g: Mx)
    requires Reaches(m, ops, g)
    ensures g.flag == m.flag
    decreases |ops|
  {
    if ops != [] { SameFlag(Step(m, ops[0]), ops[1..], g); }
  }

  /** The outermost release while somebody waits. */
  ghost predicate HandsOver(m: Mx, op: Op) {
    op.DoRelease? && m.owner == Some(op.t) && m.hold == 1 && m.wait != []
  }

  /** The new owner is urgent enough exactly if the first waiter was most urgent. */
  lemma {:induction false} HandOffUrgentIff(m: Mx, op: Op, base: Priorities)
    requires m.Inv(base) && Legal(m, op) && HandsOver(m, op)
    ensures Step(m, op).OwnerUrgent() <==> m.FirstMostUrgent()
  {
    var n := m.wait[0];
    assert n in m.wait;
    var r := Step(m, op);
    assert r.owner == Some(n) && r.wait == m.wait[1..];
    assert forall x :: x in m.wait ==> x == n || x in r.wait;
    assert forall x :: x in r.wait ==> x in m.wait;
    assert forall x :: x in m.wait ==> x in r.prio && r.prio[x] == m.prio[x];
  }

  /** No other call can break the order, under either flag. */
  lemma {:induction false} KeepsUrgent(m: Mx, op: Op, base: Priorities)
    requires m.Inv(base) && Legal(m, op) && m.OwnerUrgent() && !HandsOver(m, op)
    ensures Step(m, op).OwnerUrgent()
  {
    match op
    case DoTake(t, time) =>
      if m.owner != Some(t) && m.value == 0 && time != 0 {
        var o := m.owner.value;
        var boosted := if m.prio[t] < m.prio[o] then m.prio[o := m.prio[t]] else m.prio;
        EnqueueMembers(m.wait, t, m.flag, boosted);
      }
    case DoRelease(t) =>
    case DoExpire(t) => RemoveMembers(m.wait, t);
  }

  /** The owner is urgent enough at every point of the run. */
  ghost predicate UrgentAlong(m: Mx, ops: seq<Op>)
    decreases |ops|
  {
    m.OwnerUrgent() && (ops != [] ==> Legal(m, ops[0]) && UrgentAlong(Step(m, ops[0]), ops[1..]))
  }

  /** Every hand-over of the run goes to a most urgent waiter. */
  ghost predicate HandOffsUrgent(m: Mx, ops: seq<Op>)
    decreases |ops|
  {
    ops != [] ==>
      && Legal(m, ops[0]) && (HandsOver(m, ops[0]) ==> m.FirstMostUrgent())
      && HandOffsUrgent(Step(m, ops[0]), ops[1..])
  }

  lemma {:induction false} UrgentIff(m: Mx, ops: seq<Op>, g: Mx, base: Priorities)
    requires m.Inv(base) && m.OwnerUrgent() && Reaches(m, ops, g)
    ensures UrgentAlong(m, ops) <==> HandOffsUrgent(m, ops)
    decreases |ops|
  {
    hide Mx.Inv, Mx.OwnerUrgent, Mx.FirstMostUrgent, Step, Legal, HandsOver;
    if ops != [] {
      var m1 := Step(m, ops[0]);
      StepInv(m, ops[0], base);
      if HandsOver(m, ops[0]) { HandOffUrgentIff(m, ops[0], base); } else { KeepsUrgent(m, ops[0], base); }
      if m1.OwnerUrgent() { UrgentIff(m1, ops[1..], g, base); }
    }
  }

  /** On a run of a fresh mutex, under either flag, no waiter is ever more urgent
      than the owner exactly if every hand-over goes to a most urgent waiter. */
  lemma {:induction false} RunUrgentIff(flag: Flag, base: Priorities, ops: seq<Op>, g: Mx)
    requires Reaches(Init(flag, base), ops, g)
    ensures UrgentAlong(Init(flag, base), ops) <==> HandOffsUrgent(Init(flag, base), ops)
  {
    InitInv(flag, base);
    UrgentIff(Init(flag, base), ops, g, base);
  }

  /** Under RT_IPC_FLAG_FIFO the promise can fail: after this run thread 2 owns the
      mutex at priority 9 while thread 3 waits at priority 1. */
  lemma {:induction false} FifoInverts()
    ensures var base := map[1 := 5, 2 := 9, 3 := 1];
      exists g :: Reaches(Init(Fifo, base), [DoTake(1, -1), DoTake(2, -1), DoTake(3, -1), DoRelease(1)], g)
        && g.owner == Some(2) && 2 in g.prio && g.prio[2] == 9 && g.wait == [3] && 3 in g.prio && g.prio[3] == 1
  {
    var base: Priorities := map[1 := 5, 2 := 9, 3 := 1];
    var m1 := Mx(Fifo, base, Some(1), 0, 1, 5, [], {});
    var m2 := m1.(wait := [2]);
    var m3 := m1.(wait := [2, 3], prio := base[1 := 1]);
    var m4 := Mx(Fifo, base, Some(2), 0, 1, 9, [3], {});
    assert m3.prio[1 := 5] == base;
    assert Step(Init(Fifo, base), DoTake(1, -1)) == m1;
    assert Step(m1, DoTake(2, -1)) == m2;
    assert Step(m2, DoTake(3, -1)) == m3 by { assert [2] + [3] == [2, 3]; }
    assert Step(m3, DoRelease(1)) == m4;
    FourSteps(Init(Fifo, base), m1, m2, m3, m4, [DoTake(1, -1), DoTake(2, -1), DoTake(3, -1), DoRelease(1)]);
  }

  lemma {:induction false} FourSteps(m0: Mx, m1: Mx, m2: Mx, m3: Mx, m4: Mx, ops: seq<Op>)
    requires |ops| == 4 && Legal(m0, ops[0]) && Legal(m1, ops[1]) && Legal(m2, ops[2]) && Legal(m3, ops[3])
    requires Step(m0, ops[0]) == m1 && Step(m1, ops[1]) == m2 && Step(m2, ops[2]) == m3 && Step(m3, ops[3]) == m4
    ensures Reaches(m0, ops, m4)
  {
    hide Step, Legal;
    assert Reaches(m4, ops[1..][1..][1..][1..], m4);
    assert Reaches(m3, ops[1..][1..][1..], m4);
    assert Reaches(m2, ops[1..][1..], m4);
    assert Reaches(m1, ops[1..], m4);
  }
}
