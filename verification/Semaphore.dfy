/** The semaphore of ipc.c as it is written, working on the timer list of
    Timer.dfy. */
module Semaphore {
  import opened OrderedList
  import opened IpcList
  import opened TimerSpec
  import opened SemaphoreSpec
  import SemaphoreTheory
  import TimerTheory
  import Timer

  class Semaphore {
    const flag: Flag
    /** the thread timers */
    const timers: Timer.TimerList
    var value: nat
    var wait: seq<Tid>
    ghost var asked: map<Tid, Wait>
    /** the results that the waiting threads found, in order */
    ghost var log: seq<Answer>
    ghost var parked: multiset<Tid>
    ghost var init: nat
    ghost var releases: nat
    ghost var takes: nat

    ghost predicate Valid()
      reads this, timers
    {
      timers.Valid()
    }

    ghost function Abs(): Sem
      requires Valid()
      reads this, timers
    {
      Sem(flag, value, wait, asked, timers.Abs(), log, parked, init, releases, takes)
    }

    /** rt_sem_init. */
    constructor (flag: Flag, value: nat, timers: Timer.TimerList)
      requires timers.Valid()
      ensures this.timers == timers && Valid() && Abs() == Init(flag, value, timers.Abs())
    {
      this.flag, this.timers, this.value := flag, timers, value;
      wait, asked, log, parked, init, releases, takes := [], map[], [], multiset{}, value, 0, 0;
    }

    /** rt_thread_suspend's and rt_sem_take's handling of the thread timer. */
    method ArmTimer(t: Tid, time: int)
      requires Valid() && Timers(timers.Abs()) && t in timers.timers && time < HALF
      modifies timers
      ensures Valid() && Known(old(timers.Abs()).pending, old(timers.Abs()).due)
      ensures timers.Abs() == SemaphoreSpec.ArmTimer(old(timers.Abs()), t, time)
    {
      hide Wheel.Inv;
      SemaphoreTheory.KnownPending(timers.Abs());
      SemaphoreTheory.QuietNow(timers.Abs());
      SemaphoreTheory.StopFacts(timers.Abs(), t);
      var _ := timers.Stop(t);
      SemaphoreTheory.QuietNow(timers.Abs());
      if time > 0 {
        timers.Obey(SetTime(t, time));
        timers.Obey(Start(t));
      }
    }

    /** rt_sem_take by thread t, up to its suspension. */
    method Take(t: Tid, time: int, prio: Priorities) returns (o: Outcome)
      requires Valid() && Timers(timers.Abs()) && Usable(Abs(), prio) && t in prio && t in timers.timers && t !in wait && time < HALF
      modifies this, timers
      ensures Valid() && (Abs(), o) == SemaphoreSpec.Take(old(Abs()), t, time, prio)
    {
      hide Timers;
      if value > 0 {
        value := value - 1;
        takes := takes + 1;
        return Taken;
      }
      if time == 0 {
        return Refused;
      }
      asked := asked[t := Wait(timers.now, time)];
      ArmTimer(t, time);
      wait := Suspend(wait, t, flag, prio);
      parked := parked + multiset{t};
      return Blocked;
    }

    /** rt_ipc_list_resume: the first waiter leaves with the given result. */
    method Resume(ghost end: End)
      requires Valid() && Timers(timers.Abs()) && wait != [] && wait[0] in asked && wait[0] in timers.timers
      modifies this`wait, this`log, timers
      ensures Valid() && Known(old(timers.Abs()).pending, old(timers.Abs()).due)
      ensures Abs() == SemaphoreTheory.Leave(old(Abs()), end)
    {
      hide Wheel.Inv;
      SemaphoreTheory.QuietNow(timers.Abs());
      SemaphoreTheory.KnownPending(timers.Abs());
      var t := wait[0];
      log := log + [Answer(t, asked[t], end, timers.now)];
      wait := wait[1..];
      var _ := timers.Stop(t);
    }

    /** rt_sem_release. */
    method Release(prio: Priorities)
      requires Valid() && Timers(timers.Abs()) && Usable(Abs(), prio) && value < VALUE_MAX
      modifies this, timers
      ensures Valid() && Abs() == SemaphoreSpec.Release(old(Abs()), prio)
    {
      hide Timers;
      if wait != [] {
        assert wait[0] in wait;
        Resume(Granted);
        takes := takes + 1;
      } else {
        value := value + 1;
      }
      releases := releases + 1;
    }

    /** rt_sem_control(RT_IPC_CMD_RESET). */
    method Control(v: nat, prio: Priorities)
      requires Valid() && Timers(timers.Abs()) && Usable(Abs(), prio)
      modifies this, timers
      ensures Valid() && Abs() == Reset(old(Abs()), v, prio)
    {
      ghost var s := Abs();
      while wait != []
        invariant Valid() && Timers(timers.Abs())
        invariant Known(timers.Abs().pending, timers.Abs().due) && forall t :: t in wait ==> t in asked && t in timers.timers
        invariant FailAll(Abs()) == FailAll(s)
        decreases |wait|
      {
        assert wait[0] in wait;
        FailStep(Abs());
        SemaphoreTheory.StopFacts(timers.Abs(), wait[0]);
        hide Timers, FailAll;
        Resume(Failed);
      }
      assert FailAll(Abs()) == Abs();
      value := v % (VALUE_MAX + 1);
      init, releases, takes := value, 0, 0;
    }

    /** rt_tick_increase: rt_timer_check fires the thread timers that are due, and
        rt_thread_timeout takes their threads off the list. */
    method TickIncrease()
      requires Valid() && Timers(timers.Abs())
      requires Known(timers.Abs().pending, timers.Abs().due) && forall t :: t in NextFired(Abs()) ==> t in asked
      modifies this`wait, this`log, timers
      ensures Valid() && Abs() == PassTick(old(Abs()))
    {
      hide Inv, Queue, Books;
      ghost var s := Abs();
      ghost var final := Tick(timers.Abs(), map[]);
      timers.Advance();
      hide Timers, PassTick;
      TickBegins(s, Abs(), final);
      var more := timers.FirstDue();
      while more
        invariant Valid() && Ticking(Abs(), final) && Pending(Abs(), final) == PassTick(s)
        invariant more == TimerTheory.HeadDue(timers.Abs())
        decreases DueCount(timers.Abs().pending, timers.Abs().due, timers.now), more
      {
        TickGoesOn(Abs(), final);
        FireFirst();
        more := timers.FirstDue();
      }
      TickEnds(Abs(), final);
    }

    /** One round of rt_timer_check: the first timer fires, its thread times out. */
    method FireFirst()
      requires Valid() && timers.Abs().Inv(timers.now) && TimerTheory.HeadDue(timers.Abs())
      requires timers.Abs().pending[0] in timers.timers && timers.Abs().pending[0] in asked
      modifies this`wait, this`log, timers
      ensures Valid() && Abs() == FireNext(old(Abs()))
    {
      hide Wheel.Inv, Fire;
      var t := timers.rows[timers.levels - 1][0];
      log := log + [Answer(t, asked[t], TimedOut, timers.now)];
      wait := Remove(wait, t);
      timers.FireFirst(map[]);
    }
  }

  // -------------------------------------------------- the rounds of one tick

  ghost function FireNext(s: Sem): Sem
    requires s.wheel.Inv(s.wheel.now) && TimerTheory.HeadDue(s.wheel)
    requires s.wheel.pending[0] in s.wheel.timers && s.wheel.pending[0] in s.asked
  {
    var t := s.wheel.pending[0];
    s.(wheel := Fire(s.wheel, map[]), wait := Remove(s.wait, t),
       log := s.log + [Answer(t, s.asked[t], TimedOut, s.wheel.now)])
  }

  /** The timers that are still due, and the state the tick will reach. */
  ghost function Rest(s: Sem): seq<Tid>
    requires Known(s.wheel.pending, s.wheel.due)
  {
    DueNow(s.wheel.pending, s.wheel.due, s.wheel.now)
  }

  ghost predicate Ticking(s: Sem, final: Wheel) {
    && s.wheel.Inv(s.wheel.now) && OneShots(s.wheel) && TimerSpec.Check(s.wheel, map[]) == final
    && forall t :: t in Rest(s) ==> t in s.asked
  }

  ghost function Pending(s: Sem, final: Wheel): Sem
    requires Ticking(s, final)
  {
    ExpireAll(s.(wheel := final), Rest(s))
  }

  lemma {:induction false} TickBegins(s: Sem, g: Sem, final: Wheel)
    requires Timers(s.wheel) && Known(s.wheel.pending, s.wheel.due) && g == s.(wheel := s.wheel.(now := s.wheel.now + 1)) && final == Tick(s.wheel, map[])
    requires forall t :: t in NextFired(s) ==> t in s.asked
    ensures Ticking(g, final) && Pending(g, final) == PassTick(s)
  {
    hide Ordered, InTurn, Distinct, ExpireAll, TimerSpec.Check, DueNow, Wheel.FlagsTrue;
    assert Rest(g) == NextFired(s);
    assert g.wheel.Inv(g.wheel.now);
  }

  lemma {:induction false} TickGoesOn(s: Sem, final: Wheel)
    requires Ticking(s, final) && TimerTheory.HeadDue(s.wheel)
    ensures s.wheel.pending[0] in s.wheel.timers && s.wheel.pending[0] in s.asked
    ensures var g := FireNext(s);
      && Ticking(g, final) && Pending(g, final) == Pending(s, final)
      && DueCount(g.wheel.pending, g.wheel.due, g.wheel.now) < DueCount(s.wheel.pending, s.wheel.due, s.wheel.now)
  {
    TimerTheory.CheckStep(s.wheel, map[]);
    FireOneShot(s.wheel);
    assert Rest(s)[0] == s.wheel.pending[0] && Rest(s)[1..] == DueNow(s.wheel.pending[1..], s.wheel.due, s.wheel.now);
    hide TimerSpec.Check, Fire, Wheel.Inv, DueCount;
    assert s.wheel.pending[0] in Rest(s);
    assert final.now == s.wheel.now by { CheckNow(s.wheel); }
    assert forall t :: t in Rest(FireNext(s)) ==> t in Rest(s);
  }

  lemma {:induction false} CheckNow(w: Wheel)
    requires w.Inv(w.now)
    ensures TimerSpec.Check(w, map[]).now == w.now
  {
  }

  lemma {:induction false} TickEnds(s: Sem, final: Wheel)
    requires Ticking(s, final) && !TimerTheory.HeadDue(s.wheel)
    ensures s == Pending(s, final)
  {
    TimerTheory.CheckDone(s.wheel, map[]);
    NothingDue(s.wheel);
  }

  lemma {:induction false} FailStep(s: Sem)
    requires Known(s.wheel.pending, s.wheel.due) && (forall t :: t in s.wait ==> t in s.asked && t in s.wheel.timers) && s.wait != []
    ensures var m := SemaphoreTheory.Leave(s, Failed);
      && Known(m.wheel.pending, m.wheel.due) && (forall t :: t in m.wait ==> t in m.asked && t in m.wheel.timers)
      && FailAll(s) == FailAll(m)
  {
    StopKeys(s.wheel, s.wait[0]);
    assert forall x :: x in s.wait[1..] ==> x in s.wait;
  }

  ghost predicate OneShots(w: Wheel) {
    forall t :: t in w.timers ==> !w.timers[t].periodic
  }

  /** A thread timer that fires just leaves the list. */
  lemma {:induction false} FireOneShot(w: Wheel)
    requires w.Inv(w.now) && OneShots(w) && TimerTheory.HeadDue(w) && w.pending[0] in w.timers
    ensures var g := Fire(w, map[]); g.pending == w.pending[1..] && g.due == w.due && OneShots(g)
    ensures DueNow(w.pending, w.due, w.now) == [w.pending[0]] + DueNow(w.pending[1..], w.due, w.now)
  {
    assert ExecAll(w.(pending := w.pending[1..], log := w.log + [(w.pending[0], w.now)]), []) ==
      w.(pending := w.pending[1..], log := w.log + [(w.pending[0], w.now)]);
  }

  lemma {:induction false} NothingDue(w: Wheel)
    requires w.Inv(w.now) && !TimerTheory.HeadDue(w)
    ensures DueNow(w.pending, w.due, w.now) == []
  {
  }
}
