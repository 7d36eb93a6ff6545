/** The wait lists of ipc.c: rt_ipc_list_suspend inserts a thread first-in
    first-out or by priority, rt_ipc_list_resume takes the first one. */
module IpcList {
  import opened OrderedList

  type Tid = nat

  /** RT_IPC_FLAG_FIFO and RT_IPC_FLAG_PRIO. */
  datatype Flag = Fifo | Prio

  /** Current priority of every thread; smaller is more urgent. */
  type Priorities = Key

  /** The list after rt_ipc_list_suspend. */
  function Enqueue(wait: seq<Tid>, t: Tid, flag: Flag, prio: Priorities): seq<Tid>
    requires Known(wait, prio) && t in prio
  {
    if flag.Fifo? then wait + [t] else Insert(wait, t, prio)
  }

  lemma {:induction false} EnqueueMembers(wait: seq<Tid>, t: Tid, flag: Flag, prio: Priorities)
    requires Known(wait, prio) && t in prio
    ensures forall x :: x in Enqueue(wait, t, flag, prio) <==> x == t || x in wait
  {
    if flag.Prio? {
      forall x ensures x in Insert(wait, t, prio) <==> x == t || x in wait { InsertMembers(wait, t, prio, x); }
    }
  }

  lemma {:induction false} EnqueueDistinct(wait: seq<Tid>, t: Tid, flag: Flag, prio: Priorities)
    requires Known(wait, prio) && t in prio && Distinct(wait) && t !in wait
    ensures Distinct(Enqueue(wait, t, flag, prio))
  {
    if flag.Fifo? { AppendDistinct(wait, t); } else { InsertDistinct(wait, t, prio); }
  }

  lemma {:induction false} InsertStep(wait: seq<Tid>, t: Tid, prio: Priorities, n: nat)
    requires Known(wait, prio) && t in prio && n < |wait|
    ensures wait[..n] + Insert(wait[n..], t, prio) ==
      if prio[t] < prio[wait[n]] then wait[..n] + ([t] + wait[n..]) else wait[..n + 1] + Insert(wait[n + 1..], t, prio)
  {
    assert wait[n..][0] == wait[n] && wait[n..][1..] == wait[n + 1..];
    var rest := Insert(wait[n + 1..], t, prio);
    hide Insert;
    assert wait[..n] + ([wait[n]] + rest) == wait[..n + 1] + rest;
  }

  lemma {:induction false} InsertEnd(wait: seq<Tid>, t: Tid, prio: Priorities)
    requires Known(wait, prio) && t in prio
    ensures wait[..|wait|] + Insert(wait[|wait|..], t, prio) == wait + [t]
  {
    assert wait[|wait|..] == [] && wait[..|wait|] == wait;
  }

  /** rt_ipc_list_suspend's walk over the list. */
  method Suspend(wait: seq<Tid>, t: Tid, flag: Flag, prio: Priorities) returns (r: seq<Tid>)
    requires Known(wait, prio) && t in prio
    ensures r == Enqueue(wait, t, flag, prio)
  {
    if flag.Fifo? {
      return wait + [t];
    }
    hide Insert;
    var n := 0;
    assert wait[..0] == [] && wait[0..] == wait;
    assert [] + Insert(wait, t, prio) == Insert(wait, t, prio);
    while n < |wait|
      invariant n <= |wait|
      invariant Insert(wait, t, prio) == wait[..n] + Insert(wait[n..], t, prio)
    {
      InsertStep(wait, t, prio, n);
      if prio[t] < prio[wait[n]] {
        return wait[..n] + ([t] + wait[n..]);
      }
      n := n + 1;
    }
    InsertEnd(wait, t, prio);
    return wait + [t];
  }
}
