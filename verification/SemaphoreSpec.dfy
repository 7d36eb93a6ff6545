/** The counting semaphore of ipc.c together with the thread timers that bound
    its waits (thread.c). Timer number t is thread t's thread_timer, and the
    timeout function of a thread timer is rt_thread_timeout. */
module SemaphoreSpec {
  import opened OrderedList
  import opened IpcList
  import opened TimerSpec

  /** sem->value is an rt_uint16_t. */
  const VALUE_MAX: nat := 0xFFFF

  /** When a waiting thread suspended itself, and for how long; negative is forever. */
  datatype Wait = Wait(since: nat, time: int)

  datatype End = Granted | TimedOut | Failed

  /** How a wait ended, and at which tick. */
  datatype Answer = Answer(t: Tid, wait: Wait, end: End, at: nat)

  datatype Outcome = Taken | Blocked | Refused

  /** parked counts the suspensions of each thread; init, releases and takes count
      since initialisation or the last reset. */
  datatype Sem = Sem(
    flag: Flag, value: nat, wait: seq<Tid>, asked: map<Tid, Wait>, wheel: Wheel,
    log: seq<Answer>, parked: multiset<Tid>, init: nat, releases: nat, takes: nat)

  function Init(flag: Flag, value: nat, wheel: Wheel): Sem {
    Sem(flag, value, [], map[], wheel, [], multiset{}, value, 0, 0)
  }

  ghost predicate Usable(s: Sem, prio: Priorities) {
    Known(s.wait, prio) && Known(s.wheel.pending, s.wheel.due) && forall t :: t in s.wait ==> t in s.asked && t in s.wheel.timers
  }

  /** rt_thread_suspend stops the timer; a positive time sets and starts it. */
  function ArmTimer(w: Wheel, t: Tid, time: int): (r: Wheel)
    requires Known(w.pending, w.due) && t in w.timers && time < HALF
    ensures Known(r.pending, r.due)
  {
    var w1 := StopTimer(w, t).0;
    if time > 0 then Exec(Exec(w1, SetTime(t, time)), Start(t)) else w1
  }

  /** rt_sem_take by the running thread t, up to its suspension. */
  function Take(s: Sem, t: Tid, time: int, prio: Priorities): (Sem, Outcome)
    requires Usable(s, prio) && t in prio && t in s.wheel.timers && time < HALF
  {
    if s.value > 0 then (s.(value := s.value - 1, takes := s.takes + 1), Taken)
    else if time == 0 then (s, Refused)
    else
      (s.(wait := Enqueue(s.wait, t, s.flag, prio), asked := s.asked[t := Wait(s.wheel.now, time)],
          wheel := ArmTimer(s.wheel, t, time), parked := s.parked + multiset{t}), Blocked)
  }

  /** rt_sem_release: hand over to the first waiter, whose timer rt_thread_resume
      stops, or count up. */
  function Release(s: Sem, prio: Priorities): Sem
    requires Usable(s, prio)
  {
    if s.wait != [] then
      var t := s.wait[0];
      s.(wait := s.wait[1..], wheel := StopTimer(s.wheel, t).0, releases := s.releases + 1, takes := s.takes + 1,
         log := s.log + [Answer(t, s.asked[t], Granted, s.wheel.now)])
    else s.(value := s.value + 1, releases := s.releases + 1)
  }

  lemma {:induction false} StopKeys(w: Wheel, t: Tid)
    requires Known(w.pending, w.due) && t in w.timers
    ensures StopTimer(w, t).0.timers.Keys == w.timers.Keys
    ensures Known(StopTimer(w, t).0.pending, StopTimer(w, t).0.due)
  {
  }

  /** The threads leave the list with an error, first to last. */
  function FailAll(s: Sem): Sem
    requires Known(s.wheel.pending, s.wheel.due) && forall t :: t in s.wait ==> t in s.asked && t in s.wheel.timers
    decreases |s.wait|
  {
    if s.wait == [] then s
    else
      var t := s.wait[0];
      assert t in s.wait && forall x :: x in s.wait[1..] ==> x in s.wait;
      StopKeys(s.wheel, t);
      FailAll(s.(wait := s.wait[1..], wheel := StopTimer(s.wheel, t).0,
                 log := s.log + [Answer(t, s.asked[t], Failed, s.wheel.now)]))
  }

  /** rt_sem_control with RT_IPC_CMD_RESET; the value is cut to 16 bits. */
  function Reset(s: Sem, value: nat, prio: Priorities): Sem
    requires Usable(s, prio)
  {
    FailAll(s).(value := value % (VALUE_MAX + 1), init := value % (VALUE_MAX + 1), releases := 0, takes := 0)
  }

  /** rt_thread_timeout of each of the threads. */
  function ExpireAll(s: Sem, fired: seq<Tid>): Sem
    requires forall t :: t in fired ==> t in s.asked
    decreases |fired|
  {
    if fired == [] then s
    else
      ExpireAll(s.(wait := Remove(s.wait, fired[0]),
                   log := s.log + [Answer(fired[0], s.asked[fired[0]], TimedOut, s.wheel.now)]), fired[1..])
  }

  /** The timers that the next tick fires, in order. */
  function NextFired(s: Sem): seq<Tid>
    requires Known(s.wheel.pending, s.wheel.due)
  {
    DueNow(s.wheel.pending, s.wheel.due, s.wheel.now + 1)
  }

  function DueNow(pending: seq<Tid>, due: Key, now: nat): seq<Tid>
    requires Known(pending, due)
  {
    if pending == [] || due[pending[0]] > now then [] else [pending[0]] + DueNow(pending[1..], due, now)
  }

  /** One tick: the thread timers that are due fire. */
  function PassTick(s: Sem): Sem
    requires s.wheel.Quiet() && forall t :: t in NextFired(s) ==> t in s.asked
  {
    ExpireAll(s.(wheel := Tick(s.wheel, map[])), NextFired(s))
  }

  // -------------------------------------------------------------- invariant

  ghost predicate Waiting(s: Sem, t: Tid) {
    && t in s.asked && t in s.wheel.timers && s.asked[t].time != 0 && s.asked[t].since <= s.wheel.now
    && if s.asked[t].time > 0
       then t in s.wheel.pending && t in s.wheel.due && s.wheel.due[t] == s.asked[t].since + s.asked[t].time
       else t !in s.wheel.pending
  }

  ghost predicate Timers(w: Wheel) {
    w.Quiet() && w.FlagsTrue() && forall t :: t in w.timers ==> !w.timers[t].periodic
  }

  /** A wait ends by its timer exactly when its time is over, and by a grant before. */
  ghost predicate OnTime(a: Answer) {
    match a.end
    case Granted => a.wait.since <= a.at && (a.wait.time > 0 ==> a.at < a.wait.since + a.wait.time)
    case TimedOut => a.wait.time > 0 && a.at == a.wait.since + a.wait.time
    case Failed => true
  }

  function Answered(log: seq<Answer>): multiset<Tid> {
    if log == [] then multiset{} else Answered(log[..|log| - 1]) + multiset{log[|log| - 1].t}
  }

  ghost predicate Queue(s: Sem) {
    && Distinct(s.wait)
    && (forall t :: t in s.wait ==> Waiting(s, t))
    && (forall t :: t in s.wheel.pending ==> t in s.wait)
  }

  ghost predicate Books(s: Sem) {
    && s.parked == Answered(s.log) + multiset(s.wait)
    && (forall a :: a in s.log ==> OnTime(a))
  }

  ghost predicate Inv(s: Sem) {
    && Timers(s.wheel) && Queue(s) && Books(s)
    && (s.wait != [] ==> s.value == 0)
    && s.init + s.releases == s.value + s.takes
  }

  // ------------------------------------------------------------------- runs

  datatype Op = DoTake(t: Tid, time: int) | DoRelease | DoTick | DoReset(value: nat)

  /** A waiting thread does nothing; the value does not wrap. */
  ghost predicate Legal(s: Sem, op: Op, prio: Priorities) {
    && Usable(s, prio)
    && match op
       case DoTake(t, time) => t in prio && t in s.wheel.timers && t !in s.wait && time < HALF
       case DoRelease => s.value < VALUE_MAX
       case DoTick => s.wheel.Quiet() && forall t :: t in NextFired(s) ==> t in s.asked
       case DoReset(value) => true
  }

  ghost function Step(s: Sem, op: Op, prio: Priorities): Sem
    requires Legal(s, op, prio)
  {
    match op
    case DoTake(t, time) => Take(s, t, time, prio).0
    case DoRelease => Release(s, prio)
    case DoTick => PassTick(s)
    case DoReset(value) => Reset(s, value, prio)
  }

  ghost predicate Reaches(s: Sem, ops: seq<(Op, Priorities)>, g: Sem)
    decreases |ops|
  {
    if ops == [] then g == s
    else Legal(s, ops[0].0, ops[0].1) && Reaches(Step(s, ops[0].0, ops[0].1), ops[1..], g)
  }
}

/** Conservation, and every wait answered once and on time. */
module SemaphoreTheory {
  import opened OrderedList
  import opened IpcList
  import opened TimerSpec
  import opened TimerTheory
  import opened SemaphoreSpec

  // ----------------------------------------------------------- thread timers

  lemma {:induction false} QuietNow(w: Wheel)
    requires w.Quiet()
    ensures w.Inv(w.now)
  {
  }

  /** Stopping a thread timer unlinks it and leaves the others alone. */
  lemma {:induction false} StopFacts(w: Wheel, t: Tid)
    requires Timers(w) && t in w.timers
    ensures var r := StopTimer(w, t).0;
      && Timers(r) && t !in r.pending && r.now == w.now && r.timers.Keys == w.timers.Keys
      && forall x :: x in w.timers && x != t ==> Same(w, r, x)
  {
    hide Ordered, InTurn, Distinct, Remove;
    StopInv(w, t, w.now + 1);
  }

  lemma {:induction false} ArmFacts(w: Wheel, t: Tid, time: int)
    requires Timers(w) && t in w.timers && time < HALF
    ensures var r := ArmTimer(w, t, time);
      && Timers(r) && r.now == w.now && r.timers.Keys == w.timers.Keys
      && (if time > 0 then t in r.pending && t in r.due && r.due[t] == w.now + time else t !in r.pending)
      && forall x :: x in w.timers && x != t ==> Same(w, r, x)
  {
    StopFacts(w, t);
    if time > 0 {
      StartFacts(StopTimer(w, t).0, t, time);
    }
    hide StopTimer, Exec, Wheel.Quiet, Wheel.FlagsTrue;
  }

  lemma {:induction false} StartFacts(w: Wheel, t: Tid, time: nat)
    requires Timers(w) && t in w.timers && 0 < time < HALF
    ensures var r := Exec(Exec(w, SetTime(t, time)), Start(t));
      && Timers(r) && r.now == w.now && r.timers.Keys == w.timers.Keys
      && t in r.pending && t in r.due && r.due[t] == w.now + time
      && forall x :: x in w.timers && x != t ==> Same(w, r, x)
  {
    hide Ordered, InTurn, Distinct, Remove, Insert;
    var v := Exec(w, SetTime(t, time));
    ExecInv(w, SetTime(t, time), w.now + 1);
    StartInv(v, t, w.now + 1);
  }

  /** With thread timers only, a tick fires exactly the due ones and stops them. */
  lemma {:induction false} TickFacts(w: Wheel)
    requires Timers(w)
    ensures var r := Tick(w, map[]);
      && Timers(r) && r.now == w.now + 1 && r.timers.Keys == w.timers.Keys
      && forall x :: x in w.timers ==> TickOne(w, r, x)
  {
    hide Check, Ordered, InTurn, Distinct;
    var v := w.(now := w.now + 1);
    CheckQuiet(v, map[]);
    CheckFlags(v, map[]);
    forall x | x in w.timers ensures TickOne(w, Tick(w, map[]), x) { TickTimer(w, x); }
  }

  ghost predicate TickOne(w: Wheel, r: Wheel, x: Tid) {
    && x in w.timers && x in r.timers && !r.timers[x].periodic
    && if x in w.pending && x in w.due && w.due[x] > w.now + 1
       then x in r.pending && x in r.due && r.due[x] == w.due[x]
       else x !in r.pending
  }

  lemma {:induction false} TickTimer(w: Wheel, x: Tid)
    requires Timers(w) && x in w.timers
    ensures TickOne(w, Tick(w, map[]), x)
  {
    hide Check, Ordered, InTurn, Distinct, Hits;
    var v := w.(now := w.now + 1);
    assert Untouched(map[], x);
    if x in w.pending {
      if w.due[x] > w.now + 1 {
        CheckWaits(v, map[], x, w.due[x]);
      } else {
        CheckHits(v, map[], x, w.due[x]);
      }
    } else {
      CheckIdle(v, map[], x);
    }
  }

  lemma {:induction false} DueNowIsReady(pending: seq<Tid>, due: Key, now: nat)
    requires Known(pending, due)
    ensures DueNow(pending, due, now) == TimerTheory.Ready(pending, due, now)
  {
    if pending != [] && due[pending[0]] <= now { DueNowIsReady(pending[1..], due, now); }
  }

  /** What fires: the timers that end their wait at the next tick, each once. */
  lemma {:induction false} NextFiredFacts(s: Sem)
    requires Timers(s.wheel)
    ensures Distinct(NextFired(s))
    ensures forall t :: t in NextFired(s) <==> t in s.wheel.pending && s.wheel.due[t] == s.wheel.now + 1
  {
    DueNowIsReady(s.wheel.pending, s.wheel.due, s.wheel.now + 1);
    hide Ordered, InTurn, DueNow, TimerTheory.Ready, Sub;
    ReadyMembers(s.wheel.pending, s.wheel.due, s.wheel.now + 1);
    ReadySub(s.wheel.pending, s.wheel.due, s.wheel.now + 1);
    SubDistinct(NextFired(s), s.wheel.pending);
  }

  // --------------------------------------------------------------- the books

  lemma {:induction false} AnsweredSnoc(log: seq<Answer>, a: Answer)
    ensures Answered(log + [a]) == Answered(log) + multiset{a.t}
  {
    assert (log + [a])[..|log|] == log;
  }

  lemma {:induction false} EnqueueCount(wait: seq<Tid>, t: Tid, flag: Flag, prio: Priorities)
    requires Known(wait, prio) && t in prio
    ensures multiset(Enqueue(wait, t, flag, prio)) == multiset(wait) + multiset{t}
  {
    if flag.Prio? { InsertCount(wait, t, prio); }
  }

  lemma {:induction false} InsertCount(s: seq<Tid>, t: Tid, key: Key)
    requires Known(s, key) && t in key
    ensures multiset(Insert(s, t, key)) == multiset(s) + multiset{t}
  {
    if s != [] && key[t] >= key[s[0]] {
      InsertCount(s[1..], t, key);
      assert s == [s[0]] + s[1..];
    }
  }

  lemma {:induction false} RemoveCount(s: seq<Tid>, t: Tid)
    requires t in s
    ensures multiset(s) == multiset(Remove(s, t)) + multiset{t}
  {
    assert s == [s[0]] + s[1..];
    if s[0] != t { RemoveCount(s[1..], t); }
  }

  lemma {:induction false} BooksAnswer(s: Sem, g: Sem, t: Tid, end: End)
    requires Books(s) && t in s.asked && g.parked == s.parked && multiset(s.wait) == multiset(g.wait) + multiset{t}
    requires g.log == s.log + [Answer(t, s.asked[t], end, s.wheel.now)] && OnTime(Answer(t, s.asked[t], end, s.wheel.now))
    ensures Books(g)
  {
    AnsweredSnoc(s.log, Answer(t, s.asked[t], end, s.wheel.now));
  }

  // ----------------------------------------------------------- the four calls

  lemma {:induction false} TakeInv(s: Sem, t: Tid, time: int, prio: Priorities)
    requires Inv(s) && Usable(s, prio) && t in prio && t in s.wheel.timers && t !in s.wait && time < HALF
    ensures Inv(Take(s, t, time, prio).0)
  {
    if s.value == 0 && time != 0 {
      ParkInv(s, t, time, prio);
    } else {
      SameQueue(s, Take(s, t, time, prio).0);
    }
  }

  lemma {:induction false} SameQueue(s: Sem, g: Sem)
    requires Queue(s) && Books(s) && g.wait == s.wait && g.asked == s.asked && g.wheel == s.wheel
    requires g.log == s.log && g.parked == s.parked
    ensures Queue(g) && Books(g)
  {
    forall x | x in g.wait ensures Waiting(g, x) { assert Waiting(s, x); }
  }

  lemma {:induction false} ParkInv(s: Sem, t: Tid, time: int, prio: Priorities)
    requires Inv(s) && Usable(s, prio) && t in prio && t in s.wheel.timers && t !in s.wait
    requires time < HALF && s.value == 0 && time != 0
    ensures Inv(Take(s, t, time, prio).0)
  {
    hide ArmTimer, Timers, Distinct, Enqueue, Answered;
    var g := Take(s, t, time, prio).0;
    ArmFacts(s.wheel, t, time);
    EnqueueMembers(s.wait, t, s.flag, prio);
    EnqueueDistinct(s.wait, t, s.flag, prio);
    EnqueueCount(s.wait, t, s.flag, prio);
    forall x | x in g.wait ensures Waiting(g, x) {
      if x != t { assert Waiting(s, x) && Same(s.wheel, g.wheel, x); }
    }
    forall x | x in g.wheel.pending ensures x in g.wait {
      if x != t { PendingKnown(g.wheel, x); assert Same(s.wheel, g.wheel, x); }
    }
  }

  lemma {:induction false} PendingKnown(w: Wheel, x: Tid)
    requires Timers(w) && x in w.pending
    ensures x in w.timers
  {
  }

  lemma {:induction false} ReleaseInv(s: Sem, prio: Priorities)
    requires Inv(s) && Usable(s, prio)
    ensures Inv(Release(s, prio))
  {
    var g := Release(s, prio);
    if s.wait == [] {
      SameQueue(s, g);
    } else {
      LeaveInv(s, Granted);
      var m := Leave(s, Granted);
      hide Leave, Timers;
      SameQueue(m, g);
    }
  }

  /** The first waiter leaves the list; its timer is stopped. */
  ghost function Leave(s: Sem, end: End): Sem
    requires s.wait != [] && s.wait[0] in s.asked && s.wait[0] in s.wheel.timers && Known(s.wheel.pending, s.wheel.due)
  {
    var t := s.wait[0];
    s.(wait := s.wait[1..], wheel := StopTimer(s.wheel, t).0, log := s.log + [Answer(t, s.asked[t], end, s.wheel.now)])
  }

  lemma {:induction false} LeaveInv(s: Sem, end: End)
    requires Timers(s.wheel) && Queue(s) && Books(s) && s.wait != [] && !end.TimedOut?
    ensures s.wait[0] in s.asked && s.wait[0] in s.wheel.timers && Known(s.wheel.pending, s.wheel.due)
    ensures Timers(Leave(s, end).wheel) && Queue(Leave(s, end)) && Books(Leave(s, end))
  {
    hide Answered, StopTimer;
    var t := s.wait[0];
    assert Waiting(s, t);
    KnownPending(s.wheel);
    var g := Leave(s, end);
    StopFacts(s.wheel, t);
    WaitingInTime(s, t);
    assert s.wait == [t] + s.wait[1..];
    BooksAnswer(s, g, t, end);
    hide Timers, Books;
    forall x | x in g.wait ensures Waiting(g, x) { assert x in s.wait && Waiting(s, x) && Same(s.wheel, g.wheel, x); }
    forall x | x in g.wheel.pending ensures x in g.wait {
      PendingKnown(g.wheel, x);
      assert x != t && Same(s.wheel, g.wheel, x);
      assert x in s.wait;
    }
  }

  lemma {:induction false} KnownPending(w: Wheel)
    requires Timers(w)
    ensures Known(w.pending, w.due)
  {
  }

  /** A timer that has not fired lies in the future. */
  lemma {:induction false} WaitingInTime(s: Sem, t: Tid)
    requires Timers(s.wheel) && Waiting(s, t)
    ensures s.asked[t].since <= s.wheel.now
    ensures s.asked[t].time > 0 ==> s.wheel.now < s.asked[t].since + s.asked[t].time
  {
  }

  lemma {:induction false} FailAllInv(s: Sem)
    requires Timers(s.wheel) && Queue(s) && Books(s)
    requires Known(s.wheel.pending, s.wheel.due) && forall t :: t in s.wait ==> t in s.asked && t in s.wheel.timers
    ensures var g := FailAll(s); Timers(g.wheel) && Queue(g) && Books(g) && g.wait == []
    decreases |s.wait|
  {
    if s.wait != [] {
      LeaveInv(s, Failed);
      var m := Leave(s, Failed);
      StopKeys(s.wheel, s.wait[0]);
      hide Timers, Queue, Books, StopTimer;
      FailAllInv(m);
    }
  }

  lemma {:induction false} ResetInv(s: Sem, value: nat, prio: Priorities)
    requires Inv(s) && Usable(s, prio)
    ensures Inv(Reset(s, value, prio))
  {
    FailAllInv(s);
    hide FailAll, Timers;
    SameQueue(FailAll(s), Reset(s, value, prio));
  }

  /** What is left after the due threads have timed out. */
  lemma {:induction false} ExpireAllFacts(s: Sem, fired: seq<Tid>)
    requires Distinct(s.wait) && Distinct(fired) && Books(s) && forall t :: t in fired ==> t in s.asked && t in s.wait
    requires forall t :: t in fired ==> s.asked[t].time > 0 && s.wheel.now == s.asked[t].since + s.asked[t].time
    ensures var g := ExpireAll(s, fired);
      && g == s.(wait := g.wait, log := g.log) && Distinct(g.wait) && Books(g)
      && forall t :: t in g.wait <==> t in s.wait && t !in fired
    decreases |fired|
  {
    if fired != [] {
      var t := fired[0];
      var m := s.(wait := Remove(s.wait, t), log := s.log + [Answer(t, s.asked[t], TimedOut, s.wheel.now)]);
      RemoveMembers(s.wait, t);
      RemoveDistinct(s.wait, t);
      RemoveCount(s.wait, t);
      BooksAnswer(s, m, t, TimedOut);
      hide Books, Remove;
      forall x | x in fired[1..] ensures x in m.asked && x in m.wait { assert x in fired && x != t; }
      ExpireAllFacts(m, fired[1..]);
    }
  }

  lemma {:induction false} TickInv(s: Sem)
    requires Inv(s)
    ensures forall t :: t in NextFired(s) ==> t in s.asked
    ensures Inv(PassTick(s))
  {
    NextFiredFacts(s);
    forall t | t in NextFired(s) ensures t in s.asked && t in s.wait && s.asked[t].time > 0
      && s.wheel.now + 1 == s.asked[t].since + s.asked[t].time
    {
      assert Waiting(s, t);
    }
    TickFacts(s.wheel);
    var fired := NextFired(s);
    var m := s.(wheel := Tick(s.wheel, map[]));
    hide Tick, Timers, NextFired, Distinct;
    ExpireAllFacts(m, fired);
    var g := PassTick(s);
    forall x | x in g.wait ensures Waiting(g, x) { assert Waiting(s, x) && TickOne(s.wheel, g.wheel, x); StillWaiting(s, g, x); }
    forall x | x in g.wheel.pending ensures x in g.wait { TickPending(s, g, x); }
  }

  lemma {:induction false} StillWaiting(s: Sem, g: Sem, x: Tid)
    requires Inv(s) && x in s.wait && x !in NextFired(s) && TickOne(s.wheel, g.wheel, x)
    requires g.asked == s.asked && g.wheel.now == s.wheel.now + 1
    ensures Waiting(g, x)
  {
    NextFiredFacts(s);
    assert Waiting(s, x);
    hide NextFired;
  }

  lemma {:induction false} TickPending(s: Sem, g: Sem, x: Tid)
    requires Inv(s) && x in g.wheel.pending && Timers(g.wheel) && g.wheel.timers.Keys == s.wheel.timers.Keys
    requires forall y :: y in s.wheel.timers ==> TickOne(s.wheel, g.wheel, y)
    requires forall t :: t in g.wait <==> t in s.wait && t !in NextFired(s)
    ensures x in g.wait
  {
    NextFiredFacts(s);
    hide NextFired;
    PendingKnown(g.wheel, x);
    assert TickOne(s.wheel, g.wheel, x);
  }

  lemma {:induction false} StepInv(s: Sem, op: SemaphoreSpec.Op, prio: Priorities)
    requires Inv(s) && SemaphoreSpec.Legal(s, op, prio)
    ensures Inv(SemaphoreSpec.Step(s, op, prio))
  {
    match op
    case DoTake(t, time) => TakeInv(s, t, time, prio);
    case DoRelease => ReleaseInv(s, prio);
    case DoTick => TickInv(s);
    case DoReset(value) => ResetInv(s, value, prio);
  }

  /** In every reachable state: initial value plus releases is value plus takes,
      threads wait only at value zero, a linked timer belongs to a waiting thread,
      and every suspension is still waiting or was answered exactly once, by a
      grant before its time was over or by its timer on the very tick. */
  lemma {:induction false} RunInv(s: Sem, ops: seq<(SemaphoreSpec.Op, Priorities)>, g: Sem)
    requires Inv(s) && SemaphoreSpec.Reaches(s, ops, g)
    ensures Inv(g)
    decreases |ops|
  {
    hide SemaphoreSpec.Inv, SemaphoreSpec.Step;
    if ops != [] {
      StepInv(s, ops[0].0, ops[0].1);
      RunInv(SemaphoreSpec.Step(s, ops[0].0, ops[0].1), ops[1..], g);
    }
  }

  lemma {:induction false} InitInv(flag: Flag, value: nat, wheel: Wheel)
    requires Timers(wheel) && wheel.pending == []
    ensures Inv(Init(flag, value, wheel))
  {
  }

  /** The answers of every run are on time, one for each suspension that is over. */
  lemma {:induction false} AnsweredOnceOnTime(flag: Flag, value: nat, wheel: Wheel, ops: seq<(SemaphoreSpec.Op, Priorities)>, g: Sem, t: Tid)
    requires Timers(wheel) && wheel.pending == [] && SemaphoreSpec.Reaches(Init(flag, value, wheel), ops, g)
    ensures g.parked[t] == Answered(g.log)[t] + if t in g.wait then 1 else 0
    ensures forall a :: a in g.log ==> OnTime(a)
    ensures t in g.wheel.pending ==> t in g.wait
  {
    InitInv(flag, value, wheel);
    RunInv(Init(flag, value, wheel), ops, g);
    CountOne(g.wait, t);
  }

  lemma {:induction false} CountOne(s: seq<Tid>, t: Tid)
    requires Distinct(s)
    ensures multiset(s)[t] == if t in s then 1 else 0
  {
    if s != [] {
      CountOne(s[1..], t);
      assert s == [s[0]] + s[1..];
    }
  }
}
