/** The mutex as its callers see it: their calls, the answers they get, and who was
    handed the mutex, but none of the counters. */
module MutexCalls {
  import opened Machine
  import opened OrderedList
  import opened IpcList
  import opened MutexSpec
  import MutexTheory

  /** The reference: nobody holds the mutex, or t holds it, taken `depth` times more
      than released since t got it, at the urgency of the most urgent thread among
      t and those that blocked on t since. */
  datatype Lock = Open | Held(t: Tid, depth: nat, urgency: nat)

  /** waiting tells for how long each blocked thread asked to wait. */
  datatype Log = Log(lock: Lock, waiting: map<Tid, int>)

  const NO_CALLS := Log(Open, map[])

  /** How the call of this step is answered; Refused for an expiry, which answers no call. */
  function Answer(m: Mx, op: Op): Outcome
    requires Legal(m, op)
  {
    match op
    case DoTake(t, time) => Take(m, t, time).1
    case DoRelease(t) => Release(m, t).1
    case DoExpire(t) => Refused
  }

  /** The thread that a hand-over chooses: the first in line. */
  function First(m: Mx): Option<Tid> {
    if m.wait == [] then None else Some(m.wait[0])
  }

  /** What is known after a step: only from the call, its answer and who is first in line. */
  function Note(l: Log, op: Op, o: Outcome, first: Option<Tid>, base: Priorities): Log {
    match op
    case DoTake(t, time) =>
      if t !in base then l
      else if o == Taken then l.(lock := if l.lock.Open? then Held(t, 1, base[t]) else l.lock.(depth := l.lock.depth + 1))
      else if o == Blocked && l.lock.Held? then
        Log(l.lock.(urgency := Min(l.lock.urgency, base[t])), l.waiting[t := time])
      else l
    case DoRelease(t) =>
      if o != Released || l.lock.Open? then l
      else if l.lock.depth > 1 then l.(lock := l.lock.(depth := l.lock.depth - 1))
      else if first.Some? && first.value in base then Log(Held(first.value, 1, base[first.value]), l.waiting - {first.value})
      else l.(lock := Open)
    case DoExpire(t) => l.(waiting := l.waiting - {t})
  }

  ghost function LogOf(m: Mx, ops: seq<Op>, l: Log, base: Priorities): Log
    decreases |ops|
  {
    if ops == [] || !Legal(m, ops[0]) then l
    else LogOf(Step(m, ops[0]), ops[1..], Note(l, ops[0], Answer(m, ops[0]), First(m), base), base)
  }

  ghost predicate Agrees(m: Mx, l: Log) {
    && (match l.lock
        case Open => m.owner.None? && m.hold == 0
        case Held(t, depth, urgency) => m.owner == Some(t) && m.hold == depth > 0 && t in m.prio && m.prio[t] == urgency)
    && (forall t :: t in m.wait <==> t in l.waiting)
    && (forall t :: t in m.timed <==> t in l.waiting && l.waiting[t] > 0)
  }

  /** Who may have the mutex gets it, who will not wait is turned away, all others wait. */
  ghost predicate TakeAnswer(l: Log, t: Tid, time: int, o: Outcome) {
    var mine := l.lock.Open? || l.lock.t == t;
    && (o == Taken <==> mine) && (o == TimedOut <==> !mine && time == 0) && (o == Blocked <==> !mine && time != 0)
  }

  /** Only the holder may release. */
  ghost predicate ReleaseAnswer(l: Log, t: Tid, o: Outcome) {
    && (o == Released <==> l.lock.Held? && l.lock.t == t)
    && (o == Refused <==> !(l.lock.Held? && l.lock.t == t))
  }

  ghost predicate RightAnswer(l: Log, op: Op, o: Outcome) {
    match op
    case DoTake(t, time) => TakeAnswer(l, t, time, o)
    case DoRelease(t) => ReleaseAnswer(l, t, o)
    case DoExpire(t) => true
  }

  lemma {:induction false} TakeAgrees(m: Mx, l: Log, t: Tid, time: int, base: Priorities)
    requires m.Inv(base) && Agrees(m, l) && t in m.prio && t !in m.wait
    ensures var (g, o) := Take(m, t, time);
      TakeAnswer(l, t, time, o) && Agrees(g, Note(l, DoTake(t, time), o, First(m), base))
  {
    if m.owner != Some(t) && m.value == 0 && time != 0 {
      ParkAgrees(m, l, t, time, base);
    }
  }

  lemma {:induction false} ParkAgrees(m: Mx, l: Log, t: Tid, time: int, base: Priorities)
    requires m.Inv(base) && Agrees(m, l) && t in m.prio && t !in m.wait && m.owner != Some(t) && m.value == 0 && time != 0
    ensures var (g, o) := Take(m, t, time);
      o == Blocked && Agrees(g, Note(l, DoTake(t, time), o, First(m), base))
  {
    var o := m.owner.value;
    var boosted := if m.prio[t] < m.prio[o] then m.prio[o := m.prio[t]] else m.prio;
    EnqueueMembers(m.wait, t, m.flag, boosted);
    hide Mx.NoInversion, Distinct;
  }

  lemma {:induction false} ReleaseAgrees(m: Mx, l: Log, t: Tid, base: Priorities)
    requires m.Inv(base) && Agrees(m, l) && t in m.prio && t !in m.wait
    ensures var (g, o) := Release(m, t);
      ReleaseAnswer(l, t, o) && Agrees(g, Note(l, DoRelease(t), o, First(m), base))
  {
    if m.wait != [] {
      assert m.wait[0] in m.wait;
      assert forall x :: x in m.wait <==> x == m.wait[0] || x in m.wait[1..];
    }
  }

  lemma {:induction false} StepAgrees(m: Mx, op: Op, l: Log, base: Priorities)
    requires m.Inv(base) && Legal(m, op) && Agrees(m, l)
    ensures var o := Answer(m, op);
      RightAnswer(l, op, o) && Agrees(Step(m, op), Note(l, op, o, First(m), base))
  {
    hide Take, Release, TakeAnswer, ReleaseAnswer, Mx.NoInversion;
    match op
    case DoTake(t, time) => TakeAgrees(m, l, t, time, base);
    case DoRelease(t) => ReleaseAgrees(m, l, t, base);
    case DoExpire(t) => RemoveMembers(m.wait, t);
  }

  lemma {:induction false} RunAgrees(m: Mx, ops: seq<Op>, g: Mx, l: Log, base: Priorities)
    requires m.Inv(base) && Reaches(m, ops, g) && Agrees(m, l)
    ensures g.Inv(base) && Agrees(g, LogOf(m, ops, l, base))
    decreases |ops|
  {
    hide Mx.Inv, Step, Agrees, Note, Answer, First, Legal;
    if ops != [] {
      StepAgrees(m, ops[0], l, base);
      MutexTheory.StepInv(m, ops[0], base);
      RunAgrees(Step(m, ops[0]), ops[1..], g, Note(l, ops[0], Answer(m, ops[0]), First(m), base), base);
    }
  }

  /** The mutex is the recursive lock that its calls and answers describe: on every
      run `hold` counts the takes of the owner that no release has matched since it
      got the mutex, and the owner runs at the urgency of the most urgent thread
      among itself and those that blocked on it. */
  lemma {:induction false} LockOfCalls(flag: Flag, base: Priorities, ops: seq<Op>, g: Mx)
    requires Reaches(Init(flag, base), ops, g)
    ensures Agrees(g, LogOf(Init(flag, base), ops, NO_CALLS, base))
  {
    MutexTheory.InitInv(flag, base);
    RunAgrees(Init(flag, base), ops, g, NO_CALLS, base);
    hide Agrees;
  }

  /** After any run the next call is answered as the calls and answers so far demand. */
  lemma {:induction false} NextAnswer(flag: Flag, base: Priorities, ops: seq<Op>, g: Mx, op: Op)
    requires Reaches(Init(flag, base), ops, g) && Legal(g, op)
    ensures RightAnswer(LogOf(Init(flag, base), ops, NO_CALLS, base), op, Answer(g, op))
  {
    hide Mx.Inv, RightAnswer, Answer, LogOf, Legal;
    MutexTheory.InitInv(flag, base);
    RunAgrees(Init(flag, base), ops, g, NO_CALLS, base);
    StepAgrees(g, op, LogOf(Init(flag, base), ops, NO_CALLS, base), base);
  }

  /** So a call gives the mutex away only if it is the release that matches its
      owner's first take. */
  lemma {:induction false} OnlyLastRelease(flag: Flag, base: Priorities, ops: seq<Op>, g: Mx, op: Op)
    requires Reaches(Init(flag, base), ops, g) && Legal(g, op) && g.owner.Some?
    ensures var lock := LogOf(Init(flag, base), ops, NO_CALLS, base).lock;
      Step(g, op).owner != g.owner <==> lock.Held? && op == DoRelease(lock.t) && lock.depth == 1
  {
    hide LogOf, Reaches;
    LockOfCalls(flag, base, ops, g);
    MutexTheory.InitInv(flag, base);
    MutexTheory.RunInv(Init(flag, base), ops, g, base);
    assert g.wait != [] ==> g.wait[0] in g.wait;
  }
}
