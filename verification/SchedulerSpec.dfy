/** The single-core scheduler of scheduler.c and thread.c over one first-in
    first-out list of ready threads a priority. */
module SchedulerSpec {
  import opened Machine
  import opened OrderedList

  type Tid = nat

  /** RT_THREAD_INIT, READY, SUSPEND and RUNNING. */
  datatype Stat = Fresh | Ready | Suspended | Running

  datatype Thread = Thread(init: nat, prio: nat, stat: Stat)

  /** ready is rt_thread_priority_table, lock is rt_scheduler_lock_nest. */
  datatype Sched = Sched(threads: map<Tid, Thread>, ready: seq<seq<Tid>>, current: Tid, lock: int) {

    predicate Is(t: Tid, stat: Stat) {
      t in threads && threads[t].stat == stat
    }

    /** t belongs on list p. */
    predicate Belongs(t: Tid, p: nat) {
      Is(t, Ready) && threads[t].prio == p
    }

    ghost predicate ListOk(p: nat)
      requires p < |ready|
    {
      Distinct(ready[p]) && forall t :: t in ready[p] <==> Belongs(t, p)
    }

    /** Every ready thread is on the list of its priority, once, and nobody else is. */
    ghost predicate Lists() {
      forall p: nat :: p < |ready| ==> ListOk(p)
    }

    ghost predicate Priorities() {
      forall t :: t in threads ==> threads[t].prio < |ready| && threads[t].init < |ready|
    }

    /** Nobody but the current thread runs; it is running or just suspended itself. */
    ghost predicate OneCurrent() {
      && current in threads && (Is(current, Running) || Is(current, Suspended))
      && forall t :: t in threads && threads[t].stat == Running ==> t == current
    }

    ghost predicate Inv() {
      Lists() && Priorities() && OneCurrent()
    }
  }

  /** The most urgent priority from i on that has a ready thread. */
  function TopFrom(ready: seq<seq<Tid>>, i: nat): (p: nat)
    requires i <= |ready|
    ensures i <= p <= |ready|
    ensures p < |ready| ==> ready[p] != []
    ensures forall q :: i <= q < p ==> ready[q] == []
    decreases |ready| - i
  {
    if i == |ready| || ready[i] != [] then i else TopFrom(ready, i + 1)
  }

  function Top(s: Sched): nat { TopFrom(s.ready, 0) }

  function SetStat(s: Sched, t: Tid, stat: Stat): Sched
    requires t in s.threads
  {
    s.(threads := s.threads[t := s.threads[t].(stat := stat)])
  }

  function SetPrio(s: Sched, t: Tid, p: nat): Sched
    requires t in s.threads
  {
    s.(threads := s.threads[t := s.threads[t].(prio := p)])
  }

  /** rt_schedule_insert_thread. */
  function InsertThread(s: Sched, t: Tid): Sched
    requires t in s.threads && s.threads[t].prio < |s.ready|
  {
    var p := s.threads[t].prio;
    if t == s.current then SetStat(s, t, Running)
    else SetStat(s, t, Ready).(ready := s.ready[p := s.ready[p] + [t]])
  }

  /** rt_schedule_remove_thread. */
  function RemoveThread(s: Sched, t: Tid): Sched
    requires t in s.threads && s.threads[t].prio < |s.ready|
  {
    var p := s.threads[t].prio;
    s.(ready := s.ready[p := Remove(s.ready[p], t)])
  }

  /** rt_thread_suspend; false is -RT_ERROR. */
  function Suspend(s: Sched, t: Tid): (Sched, bool)
    requires t in s.threads && s.threads[t].prio < |s.ready|
  {
    if s.threads[t].stat != Ready && s.threads[t].stat != Running then (s, false)
    else (SetStat(RemoveThread(s, t), t, Suspended), true)
  }

  /** rt_thread_resume. */
  function Resume(s: Sched, t: Tid): (Sched, bool)
    requires t in s.threads && s.threads[t].prio < |s.ready|
  {
    if s.threads[t].stat != Suspended then (s, false) else (InsertThread(s, t), true)
  }

  /** rt_thread_control with RT_THREAD_CTRL_CHANGE_PRIORITY. */
  function ChangePriority(s: Sched, t: Tid, p: nat): Sched
    requires t in s.threads && s.threads[t].prio < |s.ready| && p < |s.ready|
  {
    if s.threads[t].stat == Ready then InsertThread(SetPrio(RemoveThread(s, t), t, p), t) else SetPrio(s, t, p)
  }

  /** The current thread gives way to thread t. */
  function SwitchTo(s: Sched, t: Tid): Sched
    requires s.current in s.threads && t in s.threads
    requires s.threads[s.current].prio < |s.ready| && s.threads[t].prio < |s.ready|
  {
    var from := s.current;
    var s1 := s.(current := t);
    var s2 := if s.threads[from].stat == Running && from != t then InsertThread(s1, from) else s1;
    SetStat(RemoveThread(s2, t), t, Running)
  }

  /** rt_schedule. A running thread stays when it is strictly more urgent than
      every ready one; otherwise it goes behind its equals. */
  function Schedule(s: Sched): Sched
    requires s.Inv()
  {
    if s.lock != 0 || Top(s) == |s.ready| then s
    else
      var to := s.ready[Top(s)][0];
      HeadKnown(s, Top(s));
      if s.threads[s.current].stat == Running && s.threads[s.current].prio < Top(s)
      then SetStat(RemoveThread(s, s.current), s.current, Running)
      else SwitchTo(s, to)
  }

  lemma {:induction false} HeadKnown(s: Sched, p: nat)
    requires s.Inv() && p < |s.ready| && s.ready[p] != []
    ensures s.Belongs(s.ready[p][0], p) && s.ready[p][0] != s.current
  {
    assert s.ListOk(p) && s.ready[p][0] in s.ready[p];
  }

  /** rt_thread_startup. */
  function Startup(s: Sched, t: Tid): Sched
    requires s.Inv() && s.Is(t, Fresh)
  {
    StartedInv(s, t);
    Schedule(InsertThread(SetStat(SetPrio(s, t, s.threads[t].init), t, Suspended), t))
  }

  /** rt_thread_timeout. */
  function Timeout(s: Sched, t: Tid): Sched
    requires s.Inv() && s.Is(t, Suspended)
  {
    InsertInv(s, t);
    Schedule(InsertThread(s, t))
  }

  /** rt_exit_critical. */
  function ExitCritical(s: Sched): Sched
    requires s.Inv()
  {
    if s.lock - 1 <= 0 then LockInv(s, 0); Schedule(s.(lock := 0)) else s.(lock := s.lock - 1)
  }

  // ------------------------------------------------- what each step keeps

  /** A state that differs from s in thread t and in list p only. */
  lemma {:induction false} OneListInv(s: Sched, g: Sched, t: Tid, p: nat)
    requires s.Lists() && p < |s.ready| == |g.ready| && t in s.threads && t in g.threads
    requires g.threads == s.threads[t := g.threads[t]] && g.ready == s.ready[p := g.ready[p]]
    requires s.Is(t, Ready) ==> s.threads[t].prio == p
    requires g.Is(t, Ready) ==> g.threads[t].prio == p
    requires Distinct(g.ready[p]) && forall x :: x in g.ready[p] <==> if x == t then g.Is(t, Ready) else x in s.ready[p]
    ensures g.Lists()
  {
    forall q: nat | q < |g.ready| ensures g.ListOk(q) {
      assert s.ListOk(q);
      forall x ensures x in g.ready[q] <==> g.Belongs(x, q) { assert x in s.ready[q] <==> s.Belongs(x, q); }
    }
  }

  lemma {:induction false} InsertInv(s: Sched, t: Tid)
    requires s.Inv() && s.Is(t, Suspended)
    ensures InsertThread(s, t).Inv()
  {
    hide Distinct;
    var g, p := InsertThread(s, t), s.threads[t].prio;
    assert s.ListOk(p);
    assert t !in s.ready[p];
    if t == s.current {
      assert g.ready == s.ready[p := g.ready[p]];
      assert g.threads == s.threads[t := g.threads[t]];
    } else {
      AppendDistinct(s.ready[p], t);
    }
    OneListInv(s, g, t, p);
  }

  lemma {:induction false} RemoveList(s: Sched, t: Tid)
    requires s.Lists() && t in s.threads && s.threads[t].prio < |s.ready|
    ensures var l, r := s.ready[s.threads[t].prio], RemoveThread(s, t).ready[s.threads[t].prio];
      Distinct(r) && forall x :: x in r <==> x != t && x in l
  {
    assert s.ListOk(s.threads[t].prio);
    RemoveDistinct(s.ready[s.threads[t].prio], t);
    RemoveMembers(s.ready[s.threads[t].prio], t);
  }

  lemma {:induction false} SuspendInv(s: Sched, t: Tid)
    requires s.Inv() && t in s.threads
    ensures Suspend(s, t).0.Inv()
  {
    hide Distinct, Remove;
    if s.threads[t].stat == Ready || s.threads[t].stat == Running {
      RemoveList(s, t);
      OneListInv(s, Suspend(s, t).0, t, s.threads[t].prio);
    }
  }

  lemma {:induction false} ResumeInv(s: Sched, t: Tid)
    requires s.Inv() && t in s.threads
    ensures Resume(s, t).0.Inv()
  {
    if s.threads[t].stat == Suspended { InsertInv(s, t); }
  }

  lemma {:induction false} SetPrioInv(s: Sched, t: Tid, p: nat)
    requires s.Inv() && t in s.threads && s.threads[t].stat != Ready && p < |s.ready|
    ensures SetPrio(s, t, p).Inv()
  {
    hide Distinct;
    var g := SetPrio(s, t, p);
    assert s.ListOk(p);
    assert g.ready == s.ready[p := g.ready[p]];
    OneListInv(s, g, t, p);
  }

  lemma {:induction false} StartedInv(s: Sched, t: Tid)
    requires s.Inv() && s.Is(t, Fresh)
    ensures InsertThread(SetStat(SetPrio(s, t, s.threads[t].init), t, Suspended), t).Inv()
  {
    hide Distinct;
    SetPrioInv(s, t, s.threads[t].init);
    var g := SetPrio(s, t, s.threads[t].init);
    var h := SetStat(g, t, Suspended);
    var p := s.threads[t].init;
    assert g.ListOk(p);
    assert h.ready == g.ready[p := h.ready[p]];
    OneListInv(g, h, t, p);
    InsertInv(h, t);
  }

  /** A ready thread that changes priority is taken off, then queued anew: the
      same as suspending it, changing its priority and resuming it. */
  lemma {:induction false} ChangeAsSuspend(s: Sched, t: Tid, p: nat)
    requires s.Inv() && s.Is(t, Ready) && p < |s.ready|
    ensures ChangePriority(s, t, p) == Resume(SetPrio(Suspend(s, t).0, t, p), t).0
  {
    var a := ChangePriority(s, t, p);
    var b := Resume(SetPrio(Suspend(s, t).0, t, p), t).0;
    assert a.threads == b.threads;
  }

  lemma {:induction false} ChangeInv(s: Sched, t: Tid, p: nat)
    requires s.Inv() && t in s.threads && p < |s.ready|
    ensures ChangePriority(s, t, p).Inv()
  {
    if s.threads[t].stat == Ready {
      ChangeAsSuspend(s, t, p);
      SuspendInv(s, t);
      SetPrioInv(Suspend(s, t).0, t, p);
      ResumeInv(SetPrio(Suspend(s, t).0, t, p), t);
    } else {
      SetPrioInv(s, t, p);
    }
  }

  /** The thread that stays: nothing changes. */
  lemma {:induction false} StayIsNothing(s: Sched)
    requires s.Inv() && s.Is(s.current, Running)
    ensures SetStat(RemoveThread(s, s.current), s.current, Running) == s
  {
    var p := s.threads[s.current].prio;
    assert s.ListOk(p);
    RemoveAbsent(s.ready[p], s.current);
    assert s.threads[s.current := s.threads[s.current].(stat := Running)] == s.threads;
  }

  /** A switch from a running thread: it goes to the back of its list, the new
      one leaves the front of its own. */
  lemma {:induction false} SwitchInv(s: Sched, p: nat)
    requires s.Inv() && p < |s.ready| && s.ready[p] != []
    requires s.ready[p][0] in s.threads && s.threads[s.ready[p][0]].prio < |s.ready|
    ensures SwitchTo(s, s.ready[p][0]).Inv()
  {
    hide Distinct, Remove;
    var t, from := s.ready[p][0], s.current;
    HeadKnown(s, p);
    var s1 := s.(current := t);
    var s2 := if s.threads[from].stat == Running then InsertThread(s1, from) else s1;
    var g := SwitchTo(s, t);
    if s.threads[from].stat == Running {
      var q := s.threads[from].prio;
      assert s.ListOk(q);
      AppendDistinct(s.ready[q], from);
      OneListInv(s, s2, from, q);
    } else {
      assert s2.threads == s.threads;
      SameLists(s, s2);
    }
    assert s2.ready[p] != [];
    RemoveList(s2, t);
    OneListInv(s2, g, t, p);
  }

  lemma {:induction false} SameLists(s: Sched, g: Sched)
    requires s.Lists() && g.threads == s.threads && g.ready == s.ready
    ensures g.Lists()
  {
    forall q: nat | q < |g.ready| ensures g.ListOk(q) {
      assert s.ListOk(q);
      forall x ensures x in g.ready[q] <==> g.Belongs(x, q) { assert x in s.ready[q] <==> s.Belongs(x, q); }
    }
  }

  lemma {:induction false} LockInv(s: Sched, k: int)
    requires s.Inv()
    ensures s.(lock := k).Inv()
  {
    SameLists(s, s.(lock := k));
  }

  lemma {:induction false} ScheduleInv(s: Sched)
    requires s.Inv()
    ensures Schedule(s).Inv()
  {
    hide SwitchTo;
    if s.lock == 0 && Top(s) < |s.ready| {
      HeadKnown(s, Top(s));
      if s.threads[s.current].stat == Running && s.threads[s.current].prio < Top(s) {
        StayIsNothing(s);
      } else {
        SwitchInv(s, Top(s));
      }
    }
  }
}
