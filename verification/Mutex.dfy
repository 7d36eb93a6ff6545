/** The mutex of ipc.c as it is written, with the thread priorities it changes
    through rt_thread_control. */
module Mutex {
  import opened Machine
  import opened OrderedList
  import opened IpcList
  import opened MutexSpec
  import MutexTheory

  class Mutex {
    const flag: Flag
    var value: nat
    var originalPriority: nat
    var hold: nat
    var owner: Option<Tid>
    var wait: seq<Tid>
    /** current_priority of every thread */
    var prio: Priorities
    /** parked threads whose thread_timer is active */
    var timed: set<Tid>

    ghost function Abs(): Mx
      reads this
    {
      Mx(flag, prio, owner, value, hold, originalPriority, wait, timed)
    }

    /** rt_mutex_init. */
    constructor (flag: Flag, prio: Priorities)
      ensures Abs() == Init(flag, prio)
    {
      this.flag, this.prio := flag, prio;
      value, owner, originalPriority, hold := 1, None, NO_PRIORITY, 0;
      wait, timed := [], {};
    }

    /** rt_thread_control(RT_THREAD_CTRL_CHANGE_PRIORITY). */
    method ChangePriority(t: Tid, p: nat)
      modifies this`prio
      ensures prio == old(prio)[t := p]
    {
      prio := prio[t := p];
    }

    /** rt_mutex_take called by thread t, up to its suspension. */
    method Take(t: Tid, time: int, ghost base: Priorities) returns (o: Outcome)
      requires Abs().Inv(base) && t in prio && t !in wait && hold < 0xFF
      modifies this
      ensures Abs().Inv(base) && (Abs(), o) == MutexSpec.Take(old(Abs()), t, time)
    {
      MutexTheory.TakeInv(Abs(), t, time, base);
      if owner == Some(t) {
        hold := hold + 1;
        o := Taken;
      } else if value > 0 {
        value := value - 1;
        owner := Some(t);
        originalPriority := prio[t];
        hold := hold + 1;
        o := Taken;
      } else if time == 0 {
        o := TimedOut;
      } else {
        if prio[t] < prio[owner.value] {
          ChangePriority(owner.value, prio[t]);
        }
        wait := Suspend(wait, t, flag, prio);
        if time > 0 {
          timed := timed + {t};
        }
        o := Blocked;
      }
    }

    /** rt_mutex_release called by thread t. */
    method Release(t: Tid, ghost base: Priorities) returns (o: Outcome)
      requires Abs().Inv(base) && t in prio && t !in wait
      modifies this
      ensures Abs().Inv(base) && (Abs(), o) == MutexSpec.Release(old(Abs()), t)
    {
      hide Mx.Inv;
      MutexTheory.OwnerFacts(Abs(), base);
      MutexTheory.ReleaseInv(Abs(), t, base);
      if owner != Some(t) {
        return Refused;
      }
      hold := hold - 1;
      if hold == 0 {
        if originalPriority != prio[owner.value] {
          ChangePriority(owner.value, originalPriority);
        }
        assert prio == old(prio)[t := originalPriority];
        if wait != [] {
          var next := wait[0];
          owner := Some(next);
          originalPriority := prio[next];
          hold := hold + 1;
          wait := wait[1..];
          timed := timed - {next};
        } else {
          value := value + 1;
          owner := None;
          originalPriority := NO_PRIORITY;
        }
      }
      o := Released;
    }

    /** rt_thread_timeout of a parked thread. */
    method Timeout(t: Tid, ghost base: Priorities)
      requires Abs().Inv(base) && t in timed
      modifies this`wait, this`timed
      ensures Abs().Inv(base) && Abs() == Expire(old(Abs()), t)
    {
      MutexTheory.ExpireInv(Abs(), t, base);
      wait := Remove(wait, t);
      timed := timed - {t};
    }
  }
}
