/** The semaphore as its callers see it: their calls, the ticks, and the answers they
    get, but nothing of the semaphore's own state. */
module SemaphoreCalls {
  import opened OrderedList
  import opened IpcList
  import opened TimerSpec
  import opened SemaphoreSpec
  import SemaphoreTheory

  /** The tick, the units to be had, who waits since when and for how long, and how
      each wait that is over has ended, in order. */
  datatype Log = Log(now: nat, count: nat, waiting: map<Tid, Wait>, answers: seq<Answer>)

  /** How rt_sem_take is answered; Blocked for the steps that are no take. */
  function TakeReply(s: Sem, op: SemaphoreSpec.Op, prio: Priorities): Outcome
    requires SemaphoreSpec.Legal(s, op, prio)
  {
    if op.DoTake? then Take(s, op.t, op.time, prio).1 else Blocked
  }

  /** The waiting threads that the step answers, in order. */
  function Answers(s: Sem, op: SemaphoreSpec.Op): seq<Tid>
    requires Known(s.wheel.pending, s.wheel.due)
  {
    match op
    case DoTake(t, time) => []
    case DoRelease => if s.wait == [] then [] else [s.wait[0]]
    case DoTick => NextFired(s)
    case DoReset(value) => s.wait
  }

  /** The wait of t is over. */
  function AnswerOne(l: Log, t: Tid, end: End): Log {
    if t !in l.waiting then l
    else l.(waiting := l.waiting - {t}, answers := l.answers + [Answer(t, l.waiting[t], end, l.now)])
  }

  function AnswerAll(l: Log, order: seq<Tid>, end: End): Log
    decreases |order|
  {
    if order == [] then l else AnswerAll(AnswerOne(l, order[0], end), order[1..], end)
  }

  /** What the callers know after a step. */
  function Note(l: Log, op: SemaphoreSpec.Op, o: Outcome, order: seq<Tid>): Log {
    match op
    case DoTake(t, time) =>
      if o == Taken && l.count > 0 then l.(count := l.count - 1)
      else if o == Blocked then l.(waiting := l.waiting[t := Wait(l.now, time)])
      else l
    case DoRelease => if order == [] then l.(count := l.count + 1) else AnswerAll(l, order, Granted)
    case DoTick => AnswerAll(l.(now := l.now + 1), order, TimedOut)
    case DoReset(value) => AnswerAll(l, order, Failed).(count := value % 0x1_0000)
  }

  ghost function LogOf(s: Sem, ops: seq<(SemaphoreSpec.Op, Priorities)>, l: Log): Log
    decreases |ops|
  {
    if ops == [] || !SemaphoreSpec.Legal(s, ops[0].0, ops[0].1) then l
    else
      var (op, prio) := ops[0];
      LogOf(SemaphoreSpec.Step(s, op, prio), ops[1..], Note(l, op, TakeReply(s, op, prio), Answers(s, op)))
  }

  ghost predicate Agrees(s: Sem, l: Log) {
    && s.wheel.now == l.now && s.value == l.count && s.log == l.answers && Waiters(s, l)
  }

  ghost predicate Waiters(s: Sem, l: Log) {
    forall t :: (t in s.wait <==> t in l.waiting) && (t in l.waiting ==> t in s.asked && s.asked[t] == l.waiting[t])
  }

  /** A unit is taken while there is one; else who will not wait is refused, and
      everybody else waits. */
  ghost predicate TakeAnswer(l: Log, time: int, o: Outcome) {
    && (o == Taken <==> l.count > 0) && (o == Refused <==> l.count == 0 && time == 0)
    && (o == Blocked <==> l.count == 0 && time != 0)
  }

  /** A release answers one waiting thread if there is one, a tick exactly those whose
      time is over, a reset everybody. */
  ghost predicate RightOrder(l: Log, op: SemaphoreSpec.Op, order: seq<Tid>) {
    Distinct(order) &&
    match op
    case DoTake(t, time) => order == []
    case DoRelease => if l.waiting == map[] then order == [] else |order| == 1 && order[0] in l.waiting
    case DoTick =>
      forall t :: t in order <==>
        t in l.waiting && l.waiting[t].time > 0 && l.waiting[t].since + l.waiting[t].time == l.now + 1
    case DoReset(value) => forall t :: t in order <==> t in l.waiting
  }

  ghost predicate RightAnswer(l: Log, op: SemaphoreSpec.Op, o: Outcome, order: seq<Tid>) {
    RightOrder(l, op, order) && (op.DoTake? ==> TakeAnswer(l, op.time, o))
  }

  // ------------------------------------------------------------------- steps

  lemma {:induction false} StopNow(w: Wheel, t: Tid)
    requires Known(w.pending, w.due) && t in w.timers
    ensures StopTimer(w, t).0.now == w.now
  {
  }

  lemma {:induction false} ArmNow(w: Wheel, t: Tid, time: int)
    requires Known(w.pending, w.due) && t in w.timers && time < HALF
    ensures ArmTimer(w, t, time).now == w.now
  {
    StopNow(w, t);
    hide StopTimer, StartTimer;
  }

  lemma {:induction false} TakeAgrees(s: Sem, l: Log, t: Tid, time: int, prio: Priorities)
    requires Agrees(s, l) && Usable(s, prio) && t in prio && t in s.wheel.timers && time < HALF && t !in s.wait
    ensures var (g, o) := Take(s, t, time, prio); TakeAnswer(l, time, o) && Agrees(g, Note(l, DoTake(t, time), o, []))
  {
    hide ArmTimer;
    ArmNow(s.wheel, t, time);
    EnqueueMembers(s.wait, t, s.flag, prio);
  }

  lemma {:induction false} ReleaseAgrees(s: Sem, l: Log, prio: Priorities)
    requires SemaphoreSpec.Inv(s) && Agrees(s, l) && Usable(s, prio)
    ensures var order := Answers(s, DoRelease);
      RightOrder(l, DoRelease, order) && Agrees(Release(s, prio), Note(l, DoRelease, Blocked, order))
  {
    hide StopTimer, Timers, Books, Waiting;
    if s.wait == [] {
      NobodyWaits(s, l);
    } else {
      var t := s.wait[0];
      assert t in s.wait;
      StopNow(s.wheel, t);
      JustOne(l, t, Granted);
      forall x ensures x in s.wait[1..] <==> x in l.waiting && x != t { assert x in s.wait <==> x == t || x in s.wait[1..]; }
    }
  }

  lemma {:induction false} JustOne(l: Log, t: Tid, end: End)
    ensures AnswerAll(l, [t], end) == AnswerOne(l, t, end) && Distinct([t])
  {
    assert [t][1..] == [];
  }

  lemma {:induction false} NobodyWaits(s: Sem, l: Log)
    requires Waiters(s, l)
    ensures s.wait == [] <==> l.waiting == map[]
  {
    if s.wait != [] { assert s.wait[0] in l.waiting; }
    if l.waiting != map[] {
      assert l.waiting.Keys != {};
      var t :| t in l.waiting;
      assert t in s.wait;
    }
  }

  lemma {:induction false} FailAllAgrees(s: Sem, l: Log)
    requires Known(s.wheel.pending, s.wheel.due) && forall t :: t in s.wait ==> t in s.asked && t in s.wheel.timers
    requires s.wheel.now == l.now && s.log == l.answers && Waiters(s, l) && Distinct(s.wait)
    ensures var g, k := FailAll(s), AnswerAll(l, s.wait, Failed);
      g.wheel.now == k.now == l.now && g.log == k.answers && Waiters(g, k)
    decreases |s.wait|
  {
    hide StopTimer;
    if s.wait != [] {
      var t := s.wait[0];
      assert t in s.wait;
      StopKeys(s.wheel, t);
      StopNow(s.wheel, t);
      var m := s.(wait := s.wait[1..], wheel := StopTimer(s.wheel, t).0, log := s.log + [Answer(t, s.asked[t], Failed, s.wheel.now)]);
      var k := AnswerOne(l, t, Failed);
      forall x ensures x in m.wait <==> x in k.waiting { assert x in s.wait <==> x == t || x in s.wait[1..]; }
      FailAllAgrees(m, k);
    }
  }

  lemma {:induction false} ExpireAllAgrees(s: Sem, l: Log, fired: seq<Tid>)
    requires Distinct(s.wait) && Distinct(fired) && forall t :: t in fired ==> t in s.asked && t in s.wait
    requires s.wheel.now == l.now && s.log == l.answers && Waiters(s, l)
    ensures var g, k := ExpireAll(s, fired), AnswerAll(l, fired, TimedOut);
      g.wheel == s.wheel && k.now == l.now && g.log == k.answers && Waiters(g, k) && g.value == s.value && k.count == l.count
    decreases |fired|
  {
    if fired != [] {
      var t := fired[0];
      assert t in fired;
      var m := s.(wait := Remove(s.wait, t), log := s.log + [Answer(t, s.asked[t], TimedOut, s.wheel.now)]);
      var k := AnswerOne(l, t, TimedOut);
      RemoveMembers(s.wait, t);
      RemoveDistinct(s.wait, t);
      hide Remove;
      forall x | x in fired[1..] ensures x in m.asked && x in m.wait { assert x in fired && x != t; }
      ExpireAllAgrees(m, k, fired[1..]);
    }
  }

  lemma {:induction false} AnswerAllCount(l: Log, order: seq<Tid>, end: End)
    ensures AnswerAll(l, order, end).count == l.count
    decreases |order|
  {
    if order != [] { AnswerAllCount(AnswerOne(l, order[0], end), order[1..], end); }
  }

  /** A tick answers exactly the threads whose time is over, each once. */
  lemma {:induction false} TickOrder(s: Sem, l: Log)
    requires SemaphoreSpec.Inv(s) && Agrees(s, l)
    ensures Known(s.wheel.pending, s.wheel.due)
    ensures RightOrder(l, DoTick, NextFired(s)) && forall t :: t in NextFired(s) ==> t in s.asked && t in s.wait
  {
    hide NextFired, Distinct, SemaphoreSpec.Inv;
    NextFiredOnce(s);
    forall t ensures t in NextFired(s) <==>
        t in l.waiting && l.waiting[t].time > 0 && l.waiting[t].since + l.waiting[t].time == l.now + 1 {
      FiredWaits(s, t);
    }
    forall t | t in NextFired(s) ensures t in s.asked && t in s.wait { FiredWaits(s, t); }
  }

  lemma {:induction false} NextFiredOnce(s: Sem)
    requires SemaphoreSpec.Inv(s)
    ensures Known(s.wheel.pending, s.wheel.due) && Distinct(NextFired(s)) && Distinct(s.wait)
  {
    hide NextFired, Distinct;
    SemaphoreTheory.NextFiredFacts(s);
  }

  lemma {:induction false} TickAgrees(s: Sem, l: Log)
    requires SemaphoreSpec.Inv(s) && Agrees(s, l) && s.wheel.Quiet() && Known(s.wheel.pending, s.wheel.due)
    requires forall t :: t in NextFired(s) ==> t in s.asked
    ensures RightOrder(l, DoTick, NextFired(s)) && Agrees(PassTick(s), Note(l, DoTick, Blocked, NextFired(s)))
  {
    hide NextFired, Distinct, SemaphoreSpec.Inv, RightOrder, Tick, ExpireAll, AnswerAll, Wheel.Quiet;
    TickOrder(s, l);
    NextFiredOnce(s);
    TickNow(s);
    ExpireAllAgrees(s.(wheel := Tick(s.wheel, map[])), l.(now := l.now + 1), NextFired(s));
    AnswerAllCount(l.(now := l.now + 1), NextFired(s), TimedOut);
  }

  lemma {:induction false} TickNow(s: Sem)
    requires SemaphoreSpec.Inv(s) && s.wheel.Quiet()
    ensures Tick(s.wheel, map[]).now == s.wheel.now + 1
  {
    hide Tick, Wheel.Quiet;
    SemaphoreTheory.TickFacts(s.wheel);
  }

  /** The timers that fire are those of the threads whose time is over. */
  lemma {:induction false} FiredWaits(s: Sem, t: Tid)
    requires SemaphoreSpec.Inv(s)
    ensures Known(s.wheel.pending, s.wheel.due)
    ensures t in NextFired(s) <==>
      t in s.wait && t in s.asked && s.asked[t].time > 0 && s.asked[t].since + s.asked[t].time == s.wheel.now + 1
  {
    SemaphoreTheory.NextFiredFacts(s);
    hide NextFired;
    if t in s.wait { assert Waiting(s, t); }
    if t in s.wheel.pending { assert t in s.wait; }
  }

  lemma {:induction false} ResetAgrees(s: Sem, l: Log, value: nat, prio: Priorities)
    requires SemaphoreSpec.Inv(s) && Agrees(s, l) && Usable(s, prio)
    ensures RightOrder(l, DoReset(value), s.wait) && Agrees(Reset(s, value, prio), Note(l, DoReset(value), Blocked, s.wait))
  {
    hide FailAll, AnswerAll, Distinct;
    FailAllAgrees(s, l);
  }

  lemma {:induction false} StepAgrees(s: Sem, op: SemaphoreSpec.Op, prio: Priorities, l: Log)
    requires SemaphoreSpec.Inv(s) && SemaphoreSpec.Legal(s, op, prio) && Agrees(s, l)
    ensures Known(s.wheel.pending, s.wheel.due)
    ensures var o, order := TakeReply(s, op, prio), Answers(s, op);
      RightAnswer(l, op, o, order) && Agrees(SemaphoreSpec.Step(s, op, prio), Note(l, op, o, order))
  {
    hide Take, Release, PassTick, Reset, Agrees, NextFired, Note, SemaphoreSpec.Inv;
    match op
    case DoTake(t, time) => TakeAgrees(s, l, t, time, prio); assert Distinct([]);
    case DoRelease => ReleaseAgrees(s, l, prio);
    case DoTick => TickAgrees(s, l);
    case DoReset(value) => ResetAgrees(s, l, value, prio);
  }

  lemma {:induction false} RunAgrees(s: Sem, ops: seq<(SemaphoreSpec.Op, Priorities)>, g: Sem, l: Log)
    requires SemaphoreSpec.Inv(s) && SemaphoreSpec.Reaches(s, ops, g) && Agrees(s, l)
    ensures SemaphoreSpec.Inv(g) && Agrees(g, LogOf(s, ops, l))
    decreases |ops|
  {
    hide SemaphoreSpec.Inv, SemaphoreSpec.Step, SemaphoreSpec.Legal, Agrees, Note, TakeReply, Answers;
    if ops != [] {
      var (op, prio) := ops[0];
      StepAgrees(s, op, prio, l);
      SemaphoreTheory.StepInv(s, op, prio);
      RunAgrees(SemaphoreSpec.Step(s, op, prio), ops[1..], g, Note(l, op, TakeReply(s, op, prio), Answers(s, op)));
    }
  }

  /** What the callers know at the start. */
  function Opening(value: nat, wheel: Wheel): Log { Log(wheel.now, value, map[], []) }

  lemma {:induction false} InitAgrees(flag: Flag, value: nat, wheel: Wheel)
    requires SemaphoreSpec.Timers(wheel) && wheel.pending == []
    ensures var s := SemaphoreSpec.Init(flag, value, wheel); SemaphoreSpec.Inv(s) && Agrees(s, Opening(value, wheel))
  {
    SemaphoreTheory.InitInv(flag, value, wheel);
  }

  /** On every run the semaphore holds the units that its calls and answers leave: one
      more for each release that answered nobody, one less for each take that had one;
      and who waits, since when, for how long and how each wait has ended is what the
      calls and answers say. */
  lemma {:induction false} CountOfCalls(flag: Flag, value: nat, wheel: Wheel, ops: seq<(SemaphoreSpec.Op, Priorities)>, g: Sem)
    requires SemaphoreSpec.Timers(wheel) && wheel.pending == []
    requires SemaphoreSpec.Reaches(SemaphoreSpec.Init(flag, value, wheel), ops, g)
    ensures Agrees(g, LogOf(SemaphoreSpec.Init(flag, value, wheel), ops, Opening(value, wheel)))
  {
    hide Agrees, SemaphoreSpec.Inv, SemaphoreSpec.Timers, SemaphoreSpec.Init, Opening;
    InitAgrees(flag, value, wheel);
    RunAgrees(SemaphoreSpec.Init(flag, value, wheel), ops, g, Opening(value, wheel));
  }

  /** After any run the next call or tick is answered as the calls and answers so far demand. */
  lemma {:induction false} NextAnswer(flag: Flag, value: nat, wheel: Wheel, ops: seq<(SemaphoreSpec.Op, Priorities)>, g: Sem,
      op: SemaphoreSpec.Op, prio: Priorities)
    requires SemaphoreSpec.Timers(wheel) && wheel.pending == []
    requires SemaphoreSpec.Reaches(SemaphoreSpec.Init(flag, value, wheel), ops, g) && SemaphoreSpec.Legal(g, op, prio)
    ensures var l := LogOf(SemaphoreSpec.Init(flag, value, wheel), ops, Opening(value, wheel));
      RightAnswer(l, op, TakeReply(g, op, prio), Answers(g, op))
  {
    hide Agrees, RightAnswer, TakeReply, Answers, LogOf, Opening;
    hide SemaphoreSpec.Inv, SemaphoreSpec.Legal, SemaphoreSpec.Timers, SemaphoreSpec.Init;
    InitAgrees(flag, value, wheel);
    RunAgrees(SemaphoreSpec.Init(flag, value, wheel), ops, g, Opening(value, wheel));
    StepAgrees(g, op, prio, LogOf(SemaphoreSpec.Init(flag, value, wheel), ops, Opening(value, wheel)));
  }
}
