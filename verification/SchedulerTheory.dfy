/** Preemption and round robin over every run of the scheduler. */
module SchedulerTheory {
  import opened Machine
  import opened OrderedList
  import opened SchedulerSpec

  datatype Op =
    | DoStartup(t: Tid)
    | DoSuspend(t: Tid)
    | DoResume(t: Tid)
    | DoPriority(t: Tid, p: nat)
    | DoTimeout(t: Tid)
    | DoSchedule
    | DoEnter
    | DoExit

  ghost predicate Legal(s: Sched, op: Op) {
    match op
    case DoStartup(t) => s.Is(t, Fresh)
    case DoSuspend(t) => t in s.threads
    case DoResume(t) => t in s.threads
    case DoPriority(t, p) => t in s.threads && p < |s.ready|
    case DoTimeout(t) => s.Is(t, Suspended)
    case _ => true
  }

  ghost function Step(s: Sched, op: Op): Sched
    requires s.Inv() && Legal(s, op)
  {
    match op
    case DoStartup(t) => Startup(s, t)
    case DoSuspend(t) => Suspend(s, t).0
    case DoResume(t) => Resume(s, t).0
    case DoPriority(t, p) => ChangePriority(s, t, p)
    case DoTimeout(t) => Timeout(s, t)
    case DoSchedule => Schedule(s)
    case DoEnter => s.(lock := s.lock + 1)
    case DoExit => ExitCritical(s)
  }

  lemma {:induction false} StepInv(s: Sched, op: Op)
    requires s.Inv() && Legal(s, op)
    ensures Step(s, op).Inv()
  {
    hide Schedule, InsertThread, Suspend, Resume, ChangePriority;
    match op
    case DoStartup(t) =>
      StartedInv(s, t);
      ScheduleInv(InsertThread(SetStat(SetPrio(s, t, s.threads[t].init), t, Suspended), t));
    case DoSuspend(t) => SuspendInv(s, t);
    case DoResume(t) => ResumeInv(s, t);
    case DoPriority(t, p) => ChangeInv(s, t, p);
    case DoTimeout(t) => InsertInv(s, t); ScheduleInv(InsertThread(s, t));
    case DoSchedule => ScheduleInv(s);
    case DoEnter => LockInv(s, s.lock + 1);
    case DoExit =>
      LockInv(s, s.lock - 1);
      LockInv(s, 0);
      ScheduleInv(s.(lock := 0));
  }

  ghost predicate Reaches(s: Sched, ops: seq<Op>, g: Sched)
    requires s.Inv()
    decreases |ops|
  {
    if ops == [] then g == s
    else Legal(s, ops[0]) && (StepInv(s, ops[0]); Reaches(Step(s, ops[0]), ops[1..], g))
  }

  /** In every reachable state each thread is in exactly one place: running, on
      the one list of its priority, or on none. */
  lemma {:induction false} RunInv(s: Sched, ops: seq<Op>, g: Sched)
    requires s.Inv() && Reaches(s, ops, g)
    ensures g.Inv()
    decreases |ops|
  {
    hide Step, Sched.Inv;
    if ops != [] {
      StepInv(s, ops[0]);
      RunInv(Step(s, ops[0]), ops[1..], g);
    }
  }

  // ------------------------------------------------------------ preemption

  lemma {:induction false} ReadyAtLeastTop(s: Sched, t: Tid)
    requires s.Inv() && s.Is(t, Ready)
    ensures Top(s) <= s.threads[t].prio < |s.ready|
  {
    assert s.ListOk(s.threads[t].prio);
    assert t in s.ready[s.threads[t].prio];
  }

  /** Runnable threads stay runnable and the others stay as they are; priorities
      do not change. */
  ghost predicate Alike(s: Sched, g: Sched) {
    && g.threads.Keys == s.threads.Keys && g.lock == s.lock && |g.ready| == |s.ready|
    && forall t :: t in s.threads ==> SameButTurn(s.threads[t], g.threads[t])
  }

  predicate Runnable(a: Thread) {
    a.stat == Ready || a.stat == Running
  }

  predicate SameButTurn(a: Thread, b: Thread) {
    a.prio == b.prio && a.init == b.init && (a.stat == b.stat || (Runnable(a) && Runnable(b)))
  }

  /** rt_schedule loses no thread and makes none runnable. */
  lemma {:induction false} ScheduleKeepsThreads(s: Sched)
    requires s.Inv()
    ensures Alike(s, Schedule(s))
  {
    if s.lock == 0 && Top(s) < |s.ready| { HeadKnown(s, Top(s)); }
  }

  /** After rt_schedule, with the scheduler unlocked and some thread ready, the
      current thread runs and is at least as urgent as every ready thread. */
  lemma {:induction false} ScheduleBest(s: Sched)
    requires s.Inv() && s.lock == 0 && Top(s) < |s.ready|
    ensures var g := Schedule(s);
      && g.Is(g.current, Running)
      && forall t :: g.Is(t, Ready) ==> g.threads[g.current].prio <= g.threads[t].prio
  {
    var g := Schedule(s);
    HeadKnown(s, Top(s));
    forall t | g.Is(t, Ready) ensures g.threads[g.current].prio <= g.threads[t].prio {
      if s.Is(t, Ready) { ReadyAtLeastTop(s, t); }
    }
  }

  // ------------------------------------------------------------ round robin

  /** The current thread runs and no more urgent thread is ready. */
  ghost predicate Peers(s: Sched) {
    && s.Inv() && s.lock == 0 && s.Is(s.current, Running)
    && forall q :: 0 <= q < s.threads[s.current].prio ==> s.ready[q] == []
  }

  /** The threads of the current priority in the order in which they will run. */
  ghost function Line(s: Sched): seq<Tid>
    requires Peers(s)
  {
    [s.current] + s.ready[s.threads[s.current].prio]
  }

  function Rotate(x: seq<Tid>): seq<Tid> {
    if x == [] then [] else x[1..] + [x[0]]
  }

  /** A yield sends the current thread to the end of the line. */
  lemma {:induction false} YieldRotates(s: Sched)
    requires Peers(s)
    ensures var g := Schedule(s);
      && Peers(g) && Line(g) == Rotate(Line(s)) && g.threads[g.current].prio == s.threads[s.current].prio
      && forall q :: 0 <= q < |s.ready| && q != s.threads[s.current].prio ==> g.ready[q] == s.ready[q]
  {
    var g, c, p := Schedule(s), s.current, s.threads[s.current].prio;
    ScheduleInv(s);
    assert s.ListOk(p);
    if s.ready[p] == [] {
      assert Top(s) > p;
      StayIsNothing(s);
      if Top(s) < |s.ready| { HeadKnown(s, Top(s)); }
      assert g == s;
      assert Rotate([c]) == [c];
      assert [c] + [] == [c];
    } else {
      assert Top(s) == p;
      HeadKnown(s, p);
      RemoveHead(s.ready[p], c);
      hide Remove, Distinct, Sched.Inv;
      assert Line(s)[1..] == s.ready[p];
      assert s.ready[p] + [c] == [s.ready[p][0]] + (s.ready[p][1..] + [c]);
    }
  }

  lemma {:induction false} RemoveHead(l: seq<Tid>, c: Tid)
    requires l != []
    ensures Remove(l + [c], l[0]) == l[1..] + [c]
  {
    assert (l + [c])[1..] == l[1..] + [c];
  }

  ghost function Yields(s: Sched, n: nat): Sched
    requires Peers(s)
    decreases n
  {
    if n == 0 then s else YieldRotates(s); Yields(Schedule(s), n - 1)
  }

  function RotateN(x: seq<Tid>, n: nat): seq<Tid>
    decreases n
  {
    if n == 0 then x else RotateN(Rotate(x), n - 1)
  }

  lemma {:induction false} RotateNIs(x: seq<Tid>, y: seq<Tid>)
    ensures RotateN(x + y, |x|) == y + x
    decreases |x|
  {
    if x == [] {
      assert x + y == y && y + x == y;
    } else {
      assert (x + y)[1..] == x[1..] + y;
      assert Rotate(x + y) == x[1..] + (y + [x[0]]);
      RotateNIs(x[1..], y + [x[0]]);
      assert (y + [x[0]]) + x[1..] == y + x;
    }
  }

  lemma {:induction false} AlikeTrans(a: Sched, b: Sched, c: Sched)
    requires Alike(a, b) && Alike(b, c)
    ensures Alike(a, c)
  {
    forall t | t in a.threads ensures SameButTurn(a.threads[t], c.threads[t]) {
      assert t in b.threads && SameButTurn(a.threads[t], b.threads[t]) && SameButTurn(b.threads[t], c.threads[t]);
    }
  }

  lemma {:induction false} YieldsRotate(s: Sched, n: nat)
    requires Peers(s)
    ensures var g := Yields(s, n);
      && Peers(g) && Line(g) == RotateN(Line(s), n) && Alike(s, g)
      && g.threads[g.current].prio == s.threads[s.current].prio
      && forall q :: 0 <= q < |s.ready| && q != s.threads[s.current].prio ==> g.ready[q] == s.ready[q]
    decreases n
  {
    if n > 0 {
      YieldRotates(s);
      ScheduleKeepsThreads(s);
      var m := Schedule(s);
      YieldsRotate(m, n - 1);
      AlikeTrans(s, m, Yields(m, n - 1));
      hide Schedule, Sched.Inv, Peers, Line, Rotate, Alike;
    }
  }

  /** The i-th of k peers runs after i yields, so in k yields each runs once. */
  lemma {:induction false} EachRunsOnce(s: Sched, i: nat)
    requires Peers(s) && i < |Line(s)|
    ensures Peers(Yields(s, i)) && Yields(s, i).current == Line(s)[i] && Distinct(Line(s))
  {
    YieldsRotate(s, i);
    assert s.ListOk(s.threads[s.current].prio);
    Cons(s.current, s.ready[s.threads[s.current].prio]);
    var x := Line(s);
    assert x[..i] + x[i..] == x;
    RotateNIs(x[..i], x[i..]);
    assert Line(Yields(s, i))[0] == (x[i..] + x[..i])[0] == x[i];
  }

  /** After k yields among k peers everything is as it was. */
  lemma {:induction false} FullRound(s: Sched)
    requires Peers(s)
    ensures Yields(s, |Line(s)|) == s
  {
    var x := Line(s);
    var g := Yields(s, |x|);
    YieldsRotate(s, |x|);
    assert x + [] == x && [] + x == x;
    RotateNIs(x, []);
    assert g.current == Line(g)[0] == x[0] == s.current;
    assert Line(g)[1..] == x[1..] == s.ready[s.threads[s.current].prio];
    assert g.ready == s.ready;
    forall t | t in s.threads ensures g.threads[t] == s.threads[t] { SameTurn(s, g, t); }
    assert g.threads == s.threads;
  }

  /** Whose turn it is follows from the current thread and the lists. */
  lemma {:induction false} SameTurn(s: Sched, g: Sched, t: Tid)
    requires Peers(s) && Peers(g) && Alike(s, g) && g.ready == s.ready && g.current == s.current && t in s.threads
    ensures t in g.threads && g.threads[t] == s.threads[t]
  {
    var p := s.threads[t].prio;
    assert SameButTurn(s.threads[t], g.threads[t]);
    assert s.ListOk(p) && g.ListOk(p);
    assert t in s.ready[p] <==> s.Belongs(t, p);
    assert t in g.ready[p] <==> g.Belongs(t, p);
  }
}
