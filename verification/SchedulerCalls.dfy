/** What each scheduling call does to which thread, and to nobody else. */
module SchedulerCalls {
  import opened OrderedList
  import opened SchedulerSpec
  import opened SchedulerTheory

  /** Nobody but t changes, and without t the lists are the same, order included. */
  ghost predicate OnlyMoves(s: Sched, g: Sched, t: Tid) {
    && g.threads.Keys == s.threads.Keys && g.current == s.current && g.lock == s.lock && |g.ready| == |s.ready|
    && (forall x :: x in s.threads && x != t ==> g.threads[x] == s.threads[x])
    && (forall p: nat :: p < |s.ready| ==> Remove(g.ready[p], t) == Remove(s.ready[p], t))
  }

  /** t is ready, behind all others of its priority. */
  ghost predicate LastInLine(s: Sched, t: Tid) {
    && t in s.threads && s.threads[t].prio < |s.ready| && s.threads[t].stat == Ready
    && s.ready[s.threads[t].prio] != [] && s.ready[s.threads[t].prio][|s.ready[s.threads[t].prio]| - 1] == t
  }

  lemma {:induction false} RemoveTwice(l: seq<Tid>, t: Tid)
    requires Distinct(l)
    ensures Remove(Remove(l, t), t) == Remove(l, t) && (t !in l ==> Remove(l, t) == l)
  {
    RemoveMembers(l, t);
    RemoveAbsent(Remove(l, t), t);
    if t !in l { RemoveAbsent(l, t); }
  }

  lemma {:induction false} RemoveLast(l: seq<Tid>, t: Tid)
    requires t !in l
    ensures Remove(l + [t], t) == l
  {
    if l == [] {
      assert [] + [t] == [t] && [t][1..] == [];
    } else {
      assert (l + [t])[1..] == l[1..] + [t];
      RemoveLast(l[1..], t);
    }
  }

  /** A thread that is not ready is on no list. */
  lemma {:induction false} OnNoList(s: Sched, t: Tid, p: nat)
    requires s.Inv() && p < |s.ready| && !s.Belongs(t, p)
    ensures t !in s.ready[p] && Remove(s.ready[p], t) == s.ready[p]
  {
    assert s.ListOk(p);
    RemoveAbsent(s.ready[p], t);
  }

  /** rt_thread_suspend takes a ready or running thread out of the running, and
      refuses any other. */
  lemma {:induction false} SuspendExact(s: Sched, t: Tid)
    requires s.Inv() && t in s.threads
    ensures var (g, ok) := Suspend(s, t);
      && (ok <==> s.Is(t, Ready) || s.Is(t, Running)) && (!ok ==> g == s)
      && (ok ==> OnlyMoves(s, g, t) && g.threads[t] == s.threads[t].(stat := Suspended)
                 && forall p: nat :: p < |g.ready| ==> t !in g.ready[p])
  {
    hide Remove, Distinct;
    if s.Is(t, Ready) || s.Is(t, Running) {
      var g := Suspend(s, t).0;
      SuspendInv(s, t);
      forall p: nat | p < |s.ready| ensures Remove(g.ready[p], t) == Remove(s.ready[p], t) && t !in g.ready[p] {
        assert s.ListOk(p);
        RemoveTwice(s.ready[p], t);
        OnNoList(g, t, p);
      }
    }
  }

  /** rt_thread_resume puts a suspended thread behind its equals, or lets the
      current one go on, and refuses any other. */
  lemma {:induction false} ResumeExact(s: Sched, t: Tid)
    requires s.Inv() && t in s.threads
    ensures var (g, ok) := Resume(s, t);
      && (ok <==> s.Is(t, Suspended)) && (!ok ==> g == s)
      && (ok ==> OnlyMoves(s, g, t) && g.threads[t] == s.threads[t].(stat := if t == s.current then Running else Ready)
                 && (t != s.current ==> LastInLine(g, t)))
  {
    if s.Is(t, Suspended) { InsertExact(s, t); }
  }

  lemma {:induction false} InsertExact(s: Sched, t: Tid)
    requires s.Inv() && s.Is(t, Suspended)
    ensures var g := InsertThread(s, t);
      OnlyMoves(s, g, t) && g.threads[t] == s.threads[t].(stat := if t == s.current then Running else Ready)
      && (t != s.current ==> LastInLine(g, t))
  {
    hide Remove, Distinct;
    forall p: nat | p < |s.ready| ensures t !in s.ready[p] && Remove(s.ready[p], t) == s.ready[p] { OnNoList(s, t, p); }
    RemoveLast(s.ready[s.threads[t].prio], t);
    hide Sched.Lists;
  }

  /** A thread gets its new priority; if it is ready it goes behind its new equals,
      else no list changes. */
  lemma {:induction false} PriorityExact(s: Sched, t: Tid, p: nat)
    requires s.Inv() && t in s.threads && p < |s.ready|
    ensures var g := ChangePriority(s, t, p);
      && OnlyMoves(s, g, t) && g.threads[t] == s.threads[t].(prio := p)
      && (if s.Is(t, Ready) then LastInLine(g, t) else g.ready == s.ready)
  {
    if s.Is(t, Ready) {
      ChangeAsSuspend(s, t, p);
      SuspendInv(s, t);
      SuspendExact(s, t);
      var a := Suspend(s, t).0;
      SetPrioInv(a, t, p);
      ResumeExact(SetPrio(a, t, p), t);
      hide Remove, Distinct, Suspend, Resume, ChangePriority, Sched.Inv;
      ReadyNotCurrent(s, t);
    }
  }

  lemma {:induction false} ReadyNotCurrent(s: Sched, t: Tid)
    requires s.Inv() && s.Is(t, Ready)
    ensures t != s.current
  {
  }

  /** The running thread is at least as urgent as every ready one. */
  ghost predicate BestRuns(g: Sched) {
    g.Is(g.current, Running) && forall t :: g.Is(t, Ready) ==> g.threads[g.current].prio <= g.threads[t].prio
  }

  /** p is the most urgent priority with a ready thread. */
  ghost predicate Busiest(s: Sched, p: nat) {
    p < |s.ready| && s.ready[p] != [] && forall q: nat :: q < p ==> s.ready[q] == []
  }

  /** The scheduler stays with the current thread. */
  ghost predicate Stays(s: Sched) {
    s.lock != 0 || (forall p: nat :: p < |s.ready| ==> s.ready[p] == [])
    || (s.Is(s.current, Running) && forall t :: s.Is(t, Ready) ==> s.threads[s.current].prio < s.threads[t].prio)
  }

  /** The scheduler switches to the thread at the head of the most urgent line; the
      current thread, if it was running, goes behind its equals. Nobody else moves. */
  ghost predicate Switches(s: Sched, g: Sched) {
    && g.current in s.threads && s.Is(g.current, Ready) && Busiest(s, s.threads[g.current].prio)
    && s.ready[s.threads[g.current].prio][0] == g.current
    && s.current in s.threads && g.threads.Keys == s.threads.Keys && g.lock == s.lock && |g.ready| == |s.ready|
    && g.threads[g.current] == s.threads[g.current].(stat := Running)
    && (if s.Is(s.current, Running) then g.threads[s.current] == s.threads[s.current].(stat := Ready) && LastInLine(g, s.current)
        else g.threads[s.current] == s.threads[s.current])
    && (forall x :: x in s.threads && x != s.current && x != g.current ==> g.threads[x] == s.threads[x])
    && (forall p: nat :: p < |s.ready| ==>
          Remove(Remove(g.ready[p], s.current), g.current) == Remove(Remove(s.ready[p], s.current), g.current))
  }

  lemma {:induction false} TopBusiest(s: Sched)
    requires Top(s) < |s.ready|
    ensures Busiest(s, Top(s))
  {
  }

  lemma {:induction false} StaysIff(s: Sched)
    requires s.Inv()
    ensures Stays(s) <==>
      s.lock != 0 || Top(s) == |s.ready| || (s.Is(s.current, Running) && s.threads[s.current].prio < Top(s))
  {
    if s.lock == 0 && Top(s) < |s.ready| {
      HeadKnown(s, Top(s));
      forall t | s.Is(t, Ready) ensures Top(s) <= s.threads[t].prio { ReadyAtLeastTop(s, t); }
      assert s.Is(s.ready[Top(s)][0], Ready);
    }
  }

  /** rt_schedule stays exactly if the scheduler is locked, nobody is ready, or the
      running thread is more urgent than every ready one; else it switches. */
  lemma {:induction false} ScheduleExact(s: Sched)
    requires s.Inv()
    ensures if Stays(s) then Schedule(s) == s else Switches(s, Schedule(s))
  {
    hide Stays, Switches, SwitchTo, Remove, Distinct;
    StaysIff(s);
    if Stays(s) {
      if s.lock == 0 && Top(s) < |s.ready| { StayIsNothing(s); }
    } else {
      SwitchExact(s);
    }
  }

  lemma {:induction false} SwitchExact(s: Sched)
    requires s.Inv() && Top(s) < |s.ready|
    ensures s.ready[Top(s)][0] in s.threads && s.threads[s.ready[Top(s)][0]].prio < |s.ready|
    ensures Switches(s, SwitchTo(s, s.ready[Top(s)][0]))
  {
    hide Remove, Distinct;
    var p := Top(s);
    var to, from := s.ready[p][0], s.current;
    HeadKnown(s, p);
    TopBusiest(s);
    var g := SwitchTo(s, to);
    SwitchInv(s, p);
    forall q: nat | q < |s.ready| ensures Remove(Remove(g.ready[q], from), to) == Remove(Remove(s.ready[q], from), to) {
      SwitchList(s, q);
    }
    if s.Is(from, Running) { SwitchedLast(s); }
    hide Sched.Lists, TopFrom;
  }

  /** One list before and after a switch. */
  lemma {:induction false} SwitchList(s: Sched, q: nat)
    requires s.Inv() && Top(s) < |s.ready| && q < |s.ready|
    ensures var to, from := s.ready[Top(s)][0], s.current;
      to in s.threads && s.threads[to].prio < |s.ready|
      && Remove(Remove(SwitchTo(s, to).ready[q], from), to) == Remove(Remove(s.ready[q], from), to)
  {
    hide Remove, Distinct;
    var p := Top(s);
    var to, from := s.ready[p][0], s.current;
    HeadKnown(s, p);
    var l, g := s.ready[q], SwitchTo(s, to);
    assert s.ListOk(q);
    OnNoList(s, from, q);
    var m := if s.Is(from, Running) && q == s.threads[from].prio then l + [from] else l;
    if s.Is(from, Running) && q == s.threads[from].prio { AppendDistinct(l, from); RemoveLast(l, from); }
    assert g.ready[q] == if q == p then Remove(m, to) else m;
    RemoveSwap(m, to, from);
    RemoveTwice(Remove(m, from), to);
    assert Remove(m, from) == l;
  }

  lemma {:induction false} RemoveSwap(l: seq<Tid>, x: Tid, y: Tid)
    requires Distinct(l)
    ensures Remove(Remove(l, x), y) == Remove(Remove(l, y), x) && Distinct(Remove(l, y))
  {
    RemoveDistinct(l, y);
    if l != [] {
      RemoveSwap(l[1..], x, y);
      if l[0] != x { Cons(l[0], Remove(l[1..], x)); }
      if l[0] != y { Cons(l[0], Remove(l[1..], y)); }
      if l[0] == x && x != y { RemoveAbsent(l[1..], x); RemoveSubset(l[1..], y); RemoveAbsent(Remove(l[1..], y), x); }
      if l[0] == y && x != y { RemoveAbsent(l[1..], y); RemoveSubset(l[1..], x); RemoveAbsent(Remove(l[1..], x), y); }
    }
  }

  lemma {:induction false} SwitchedLast(s: Sched)
    requires s.Inv() && Top(s) < |s.ready| && s.Is(s.current, Running)
    ensures var to := s.ready[Top(s)][0]; to in s.threads && s.threads[to].prio < |s.ready| && LastInLine(SwitchTo(s, to), s.current)
  {
    var p, q := Top(s), s.threads[s.current].prio;
    HeadKnown(s, p);
    if p == q { RemoveHead(s.ready[p], s.current); }
    hide Remove, Distinct, Sched.Lists;
  }

  /** t, started, has its initial priority and is queued behind its equals. */
  ghost predicate Started(s: Sched, m: Sched, t: Tid) {
    && m.Inv() && OnlyMoves(s, m, t) && LastInLine(m, t)
    && t in s.threads && m.threads[t] == s.threads[t].(prio := s.threads[t].init, stat := Ready)
  }

  /** Starting a thread queues it, then lets the scheduler run. */
  lemma {:induction false} StartupExact(s: Sched, t: Tid)
    requires s.Inv() && s.Is(t, Fresh)
    ensures exists m: Sched :: Started(s, m, t) && Startup(s, t) == Schedule(m)
  {
    StartedInv(s, t);
    var a := SetStat(SetPrio(s, t, s.threads[t].init), t, Suspended);
    var m := InsertThread(a, t);
    FreshInv(s, t);
    InsertExact(a, t);
    hide Remove, Distinct, InsertThread, Schedule;
    assert t != s.current;
    assert Started(s, m, t) && Startup(s, t) == Schedule(m);
  }

  lemma {:induction false} FreshInv(s: Sched, t: Tid)
    requires s.Inv() && s.Is(t, Fresh)
    ensures SetStat(SetPrio(s, t, s.threads[t].init), t, Suspended).Inv()
  {
    hide Distinct;
    SetPrioInv(s, t, s.threads[t].init);
    var g := SetPrio(s, t, s.threads[t].init);
    var h := SetStat(g, t, Suspended);
    assert g.ListOk(s.threads[t].init);
    assert h.ready == g.ready[s.threads[t].init := h.ready[s.threads[t].init]];
    OneListInv(g, h, t, s.threads[t].init);
  }

  /** A thread whose waiting time is over is queued like a resumed one before the
      scheduler runs. */
  lemma {:induction false} TimeoutExact(s: Sched, t: Tid)
    requires s.Inv() && s.Is(t, Suspended)
    ensures Resume(s, t).1 && Resume(s, t).0.Inv() && Timeout(s, t) == Schedule(Resume(s, t).0)
  {
    InsertInv(s, t);
    hide Schedule, InsertThread;
  }

  /** Only the outermost exit unlocks the scheduler, and then it runs. */
  lemma {:induction false} ExitExact(s: Sched)
    requires s.Inv()
    ensures if s.lock > 1 then ExitCritical(s) == s.(lock := s.lock - 1)
      else s.(lock := 0).Inv() && ExitCritical(s) == Schedule(s.(lock := 0))
  {
    LockInv(s, 0);
    hide Schedule;
  }

  /** So after a start, a timeout or the outermost exit, with the scheduler unlocked,
      the running thread is at least as urgent as every ready one, or nobody is ready. */
  lemma {:induction false} CallsEndBest(s: Sched, op: Op)
    requires s.Inv() && Legal(s, op) && (op.DoStartup? || op.DoTimeout? || op.DoExit? || op.DoSchedule?)
    requires if op.DoExit? then s.lock <= 1 else s.lock == 0
    ensures var g := Step(s, op); BestRuns(g) || forall p: nat :: p < |g.ready| ==> g.ready[p] == []
  {
    match op
    case DoStartup(t) => StartedInv(s, t); EndsBest(InsertThread(SetStat(SetPrio(s, t, s.threads[t].init), t, Suspended), t));
    case DoTimeout(t) => InsertInv(s, t); EndsBest(InsertThread(s, t));
    case DoSchedule => EndsBest(s);
    case DoExit => LockInv(s, 0); EndsBest(s.(lock := 0));
  }

  lemma {:induction false} EndsBest(s: Sched)
    requires s.Inv() && s.lock == 0
    ensures var g := Schedule(s); BestRuns(g) || forall p: nat :: p < |g.ready| ==> g.ready[p] == []
  {
    if Top(s) < |s.ready| { ScheduleBest(s); }
  }
}
