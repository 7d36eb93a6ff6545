/** The threads blocked on one wait list: parked ones are on the list, woken ones
    were resumed and have not run yet. Every blocking call of ipc.c moves threads
    between these two groups with the operations below. */
module Waiters {
  import opened OrderedList
  import opened IpcList

  /** What a blocked thread carries: the mail it sends (receivers ignore it) and
      the waiting time it asked for, negative for ever. */
  datatype Request = Request(mail: int, timeout: int)

  datatype Side = Side(wait: seq<Tid>, parked: map<Tid, Request>, woken: map<Tid, Request>) {
    predicate Has(t: Tid) { t in parked || t in woken }

    ghost predicate Inv() {
      && Distinct(wait)
      && (forall t :: t in wait <==> t in parked)
      && (forall t :: t in parked ==> t !in woken)
    }
  }

  const NOBODY := Side([], map[], map[])

  /** rt_ipc_list_suspend. */
  function Park(s: Side, t: Tid, r: Request, flag: Flag, prio: Priorities): Side
    requires Known(s.wait, prio) && t in prio
  {
    s.(wait := Enqueue(s.wait, t, flag, prio), parked := s.parked[t := r])
  }

  /** rt_ipc_list_resume, when the list is not empty. */
  function Wake(s: Side): Side {
    if s.wait == [] || s.wait[0] !in s.parked then s else
      Side(s.wait[1..], s.parked - {s.wait[0]}, s.woken[s.wait[0] := s.parked[s.wait[0]]])
  }

  /** A woken thread runs. */
  function Run(s: Side, t: Tid): Side {
    s.(woken := s.woken - {t})
  }

  /** The timer of a parked thread fires: rt_thread_timeout. */
  function Expire(s: Side, t: Tid): Side {
    s.(wait := Remove(s.wait, t), parked := s.parked - {t})
  }

  /** rt_ipc_list_resume_all: the parked threads leave with an error. */
  function Drain(s: Side): Side {
    s.(wait := [], parked := map[])
  }

  /** The waiting time left after `elapsed` ticks; negative means forever. */
  function Left(timeout: int, elapsed: nat): int {
    if timeout <= 0 then timeout else if timeout < elapsed then 0 else timeout - elapsed
  }

  lemma {:induction false} ParkInv(s: Side, t: Tid, r: Request, flag: Flag, prio: Priorities)
    requires s.Inv() && !s.Has(t) && Known(s.wait, prio) && t in prio
    ensures Park(s, t, r, flag, prio).Inv()
    ensures forall x :: Park(s, t, r, flag, prio).Has(x) <==> x == t || s.Has(x)
  {
    EnqueueMembers(s.wait, t, flag, prio);
    EnqueueDistinct(s.wait, t, flag, prio);
  }

  lemma {:induction false} WakeInv(s: Side)
    requires s.Inv()
    ensures Wake(s).Inv()
    ensures forall x :: Wake(s).Has(x) <==> s.Has(x)
    ensures |Wake(s).woken| == |s.woken| + (if s.wait == [] then 0 else 1)
    ensures |Wake(s).wait| == |s.wait| - (if s.wait == [] then 0 else 1)
    ensures s.wait != [] ==> s.wait == [s.wait[0]] + Wake(s).wait && s.wait[0] in Wake(s).woken
  {
    if s.wait != [] {
      var t := s.wait[0];
      var w := s.woken[t := s.parked[t]];
      assert w.Keys == s.woken.Keys + {t};
      assert |w| == |w.Keys| && |s.woken| == |s.woken.Keys|;
      assert forall x :: x in s.wait <==> x == t || x in s.wait[1..];
    }
  }

  lemma {:induction false} RunInv(s: Side, t: Tid)
    requires s.Inv() && t in s.woken
    ensures Run(s, t).Inv() && !Run(s, t).Has(t)
    ensures forall x :: Run(s, t).Has(x) <==> x != t && s.Has(x)
    ensures |Run(s, t).woken| == |s.woken| - 1
  {
    var w := s.woken - {t};
    assert s.woken.Keys == w.Keys + {t};
    assert |w| == |w.Keys| && |s.woken| == |s.woken.Keys|;
  }

  lemma {:induction false} ExpireInv(s: Side, t: Tid)
    requires s.Inv()
    ensures Expire(s, t).Inv()
    ensures forall x :: Expire(s, t).Has(x) ==> s.Has(x)
    ensures Expire(s, t).wait != [] ==> s.wait != []
    ensures Expire(s, t).woken == s.woken
  {
    RemoveMembers(s.wait, t);
    RemoveDistinct(s.wait, t);
  }

  lemma {:induction false} RunKeeps(s: Side, t: Tid)
    ensures Run(s, t).wait == s.wait && Run(s, t).parked == s.parked
  {
  }

  /** rt_ipc_list_suspend on this list. */
  method SuspendOn(s: Side, t: Tid, r: Request, flag: Flag, prio: Priorities) returns (s': Side)
    requires Known(s.wait, prio) && t in prio
    ensures s' == Park(s, t, r, flag, prio)
  {
    var wait := Suspend(s.wait, t, flag, prio);
    s' := s.(wait := wait, parked := s.parked[t := r]);
  }

  /** rt_ipc_list_resume_all: resume the first waiter until none is left. */
  method ResumeAll(s: Side) returns (s': Side)
    requires s.Inv()
    ensures s' == Drain(s)
  {
    s' := s;
    while s'.wait != []
      invariant s'.Inv() && s'.woken == s.woken
      decreases |s'.wait|
    {
      ExpireInv(s', s'.wait[0]);
      s' := Expire(s', s'.wait[0]);
    }
    assert s'.parked == map[];
  }
}

/** Blocking calls as their callers know them: what was asked for, and for how long
    the call has waited. */
module Calls {
  import opened OrderedList
  import opened IpcList
  import opened Waiters

  /** A call in progress: what was asked for, and for how long it has waited. */
  datatype Call = Call(r: Request, waited: nat)

  function Longer(c: Call, elapsed: nat): Call { c.(waited := c.waited + elapsed) }

  /** The call asked not to wait, or has waited for as long as it asked to. */
  ghost predicate TimeUp(c: Call) {
    0 <= c.r.timeout <= c.waited
  }

  /** What is left of the time a call asked for, or forever. */
  ghost predicate Remains(r: Request, c: Call) {
    r.mail == c.r.mail
    && if c.r.timeout > 0 then r.timeout > 0 && r.timeout + c.waited == c.r.timeout else r.timeout == c.r.timeout < 0
  }

  /** The calls in progress are the blocked threads, each with its request. */
  ghost predicate Waits(s: Side, calls: map<Tid, Call>) {
    && (forall t :: t in calls <==> s.Has(t))
    && (forall t :: t in s.parked && t in calls ==> Remains(s.parked[t], calls[t]))
    && (forall t :: t in s.woken && t in calls ==> Remains(s.woken[t], calls[t]))
  }

  lemma {:induction false} WakeWaits(s: Side, calls: map<Tid, Call>)
    requires s.Inv() && Waits(s, calls)
    ensures Waits(Wake(s), calls)
  {
    WakeInv(s);
  }

  /** The thread t, not blocked on s, blocks for the call c. */
  lemma {:induction false} ParkWaits(s: Side, calls: map<Tid, Call>, t: Tid, r: Request, c: Call, flag: Flag, prio: Priorities)
    requires s.Inv() && !s.Has(t) && Known(s.wait, prio) && t in prio
    requires Waits(s, calls - {t}) && Remains(r, c)
    ensures Waits(Park(s, t, r, flag, prio), calls[t := c])
  {
    ParkInv(s, t, r, flag, prio);
    hide Enqueue, Remains, Side.Inv;
    forall x ensures x in calls[t := c] <==> Park(s, t, r, flag, prio).Has(x) {
      assert x != t ==> (x in calls <==> x in calls - {t});
    }
  }

  lemma {:induction false} RunWaits(s: Side, calls: map<Tid, Call>, t: Tid)
    requires s.Inv() && Waits(s, calls) && t in s.woken
    ensures Waits(Run(s, t), calls - {t}) && t in calls && Remains(s.woken[t], calls[t])
  {
    Waiters.RunInv(s, t);
    assert s.Has(t);
  }

  /** Charging the elapsed time leaves what the longer call has left; none is left
      exactly when it has waited for as long as it asked to. */
  lemma {:induction false} ChargeRemains(r: Request, c: Call, elapsed: nat)
    requires Remains(r, c)
    ensures var q, d := r.(timeout := Left(r.timeout, elapsed)), Longer(c, elapsed);
      q.mail == c.r.mail && (q.timeout == 0 <==> TimeUp(d)) && (q.timeout != 0 ==> Remains(q, d))
  {
  }

  lemma {:induction false} ExpireWaits(s: Side, calls: map<Tid, Call>, t: Tid)
    requires s.Inv() && Waits(s, calls) && t in s.parked
    ensures Waits(Expire(s, t), calls - {t})
  {
    ExpireInv(s, t);
  }

  lemma {:induction false} DrainWaits(s: Side, calls: map<Tid, Call>, failed: set<Tid>)
    requires s.Inv() && Waits(s, calls) && s.parked.Keys <= failed && forall t :: t in failed ==> t !in s.woken
    ensures Waits(Drain(s), calls - failed)
  {
  }

  lemma {:induction false} NoCall(calls: map<Tid, Call>, t: Tid)
    requires t !in calls
    ensures calls - {t} == calls
  {
  }

  lemma {:induction false} StartCharge(r: Request)
    ensures (r.timeout == 0 <==> TimeUp(Call(r, 0))) && (r.timeout != 0 ==> Remains(r, Call(r, 0)))
  {
  }

  lemma {:induction false} NobodyWaits()
    ensures Waits(NOBODY, map[])
  {
  }
}
