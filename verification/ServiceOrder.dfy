/** Whom a wait list of ipc.c serves first, as long as no thread's priority
    changes: the most urgent waiter under RT_IPC_FLAG_PRIO, the oldest one among
    equals, and simply the oldest one under RT_IPC_FLAG_FIFO. */
module ServiceOrder {
  import opened OrderedList
  import opened IpcList

  /** The wait list after each step of a run that began with nobody waiting. */
  type History = seq<seq<Tid>>

  /** The wait list now. */
  function Now(h: History): seq<Tid> {
    if h == [] then [] else h[|h| - 1]
  }

  /** t suspends itself on the list. */
  ghost predicate Joins(was: seq<Tid>, next: seq<Tid>, t: Tid, flag: Flag, prio: Priorities) {
    Known(was, prio) && t in prio && t !in was && next == Enqueue(was, t, flag, prio)
  }

  /** What one step does to a wait list: threads leave it, or one joins it. */
  ghost predicate Change(was: seq<Tid>, next: seq<Tid>, flag: Flag, prio: Priorities) {
    Sub(next, was) || exists t :: Joins(was, next, t, flag, prio)
  }

  ghost predicate Lawful(h: History, flag: Flag, prio: Priorities) {
    h == [] || (Lawful(h[..|h| - 1], flag, prio) && Change(Now(h[..|h| - 1]), h[|h| - 1], flag, prio))
  }

  /** The step in which t joined the list for the wait it is in now. */
  function Since(h: History, t: Tid): nat {
    if h == [] || t !in Now(h) then |h| else Since(h[..|h| - 1], t)
  }

  /** a is served before b: more urgent under PRIO, else waiting for longer. */
  ghost predicate Precedes(h: History, a: Tid, b: Tid, flag: Flag, prio: Priorities) {
    && a in prio && b in prio
    && match flag
       case Fifo => Since(h, a) < Since(h, b)
       case Prio => prio[a] < prio[b] || (prio[a] == prio[b] && Since(h, a) < Since(h, b))
  }

  // ---------------------------------------------------------------- the proof

  /** Under FIFO all threads are equals. */
  ghost function Rank(flag: Flag, prio: Priorities): Key {
    if flag.Prio? then prio else map t | t in prio :: 0
  }

  ghost function Stamps(h: History): Key {
    map t | t in Now(h) :: Since(h, t)
  }

  /** FIFO is insertion behind one's equals, too. */
  lemma {:induction false} EnqueueByRank(wait: seq<Tid>, t: Tid, flag: Flag, prio: Priorities)
    requires Known(wait, prio) && t in prio
    ensures Known(wait, Rank(flag, prio))
    ensures Enqueue(wait, t, flag, prio) == Insert(wait, t, Rank(flag, prio))
  {
    if flag.Fifo? && wait != [] {
      EnqueueByRank(wait[1..], t, flag, prio);
      assert [wait[0]] + (wait[1..] + [t]) == wait + [t];
    }
  }

  lemma {:induction false} SinceBefore(h: History, t: Tid)
    requires t in Now(h)
    ensures h != [] && Since(h, t) < |h|
    ensures t in Now(h[..|h| - 1]) ==> Since(h[..|h| - 1], t) == Since(h, t)
    ensures t !in Now(h[..|h| - 1]) ==> Since(h, t) == |h| - 1
  {
    var g := h[..|h| - 1];
    if t in Now(g) { SinceBefore(g, t); }
  }

  /** The whole list stands in order of service. */
  lemma {:induction false} ListInTurn(h: History, flag: Flag, prio: Priorities)
    requires Lawful(h, flag, prio)
    ensures Known(Now(h), prio) && InTurn(Now(h), Rank(flag, prio), Stamps(h))
  {
    if h != [] {
      var g, next := h[..|h| - 1], Now(h);
      ListInTurn(g, flag, prio);
      if Sub(next, Now(g)) {
        SubMembers(next, Now(g));
        SubInTurn(next, Now(g), Rank(flag, prio), Stamps(g));
        forall x | x in next ensures Stamps(g)[x] == Stamps(h)[x] { SinceBefore(h, x); }
        InTurnFrame(next, Rank(flag, prio), Stamps(g), Rank(flag, prio), Stamps(h));
      } else {
        var t :| Joins(Now(g), next, t, flag, prio);
        JoinInTurn(h, t, flag, prio);
      }
    }
  }

  lemma {:induction false} JoinInTurn(h: History, t: Tid, flag: Flag, prio: Priorities)
    requires h != [] && Joins(Now(h[..|h| - 1]), Now(h), t, flag, prio)
    requires InTurn(Now(h[..|h| - 1]), Rank(flag, prio), Stamps(h[..|h| - 1]))
    ensures Known(Now(h), prio) && InTurn(Now(h), Rank(flag, prio), Stamps(h))
  {
    hide Enqueue, Since, InTurn, Ordered;
    var was, key := Now(h[..|h| - 1]), Rank(flag, prio);
    EnqueueMembers(was, t, flag, prio);
    EnqueueByRank(was, t, flag, prio);
    forall x | x in Now(h)
      ensures x in was ==> Stamps(h)[x] == Stamps(h[..|h| - 1])[x] && Stamps(h)[x] < |h| - 1
      ensures x == t ==> Stamps(h)[x] == |h| - 1
    {
      SinceBefore(h, x);
      if x in was { SinceBefore(h[..|h| - 1], x); }
    }
    InTurnFrame(was, key, Stamps(h[..|h| - 1]), key, Stamps(h));
    InTurnOrdered(was, key, Stamps(h));
    InTurnInsert(was, t, key, Stamps(h));
  }

  /** At every point of a run whoever is further up the list is to be served first. */
  lemma {:induction false} ServedInOrder(h: History, flag: Flag, prio: Priorities, i: nat, j: nat)
    requires Lawful(h, flag, prio) && i < j < |Now(h)|
    ensures Precedes(h, Now(h)[i], Now(h)[j], flag, prio)
  {
    ListInTurn(h, flag, prio);
    InTurnAt(Now(h), Rank(flag, prio), Stamps(h), i, j);
    hide Since;
  }

  // ----------------------------------------------------------- building blocks

  lemma {:induction false} Extend(h: History, next: seq<Tid>, flag: Flag, prio: Priorities)
    requires Lawful(h, flag, prio) && Change(Now(h), next, flag, prio)
    ensures Lawful(h + [next], flag, prio) && Now(h + [next]) == next
  {
    assert (h + [next])[..|h|] == h;
  }

  lemma {:induction false} Shift(h: History, next: seq<Tid>, rest: History)
    ensures (h + [next]) + rest == h + ([next] + rest)
  {
  }

  lemma {:induction false} NoMore(h: History)
    ensures h + [] == h && [] + h == h
  {
  }

  lemma {:induction false} SameChange(wait: seq<Tid>, flag: Flag, prio: Priorities)
    ensures Change(wait, wait, flag, prio)
  {
    SubSelf(wait);
  }

  lemma {:induction false} TailChange(wait: seq<Tid>, flag: Flag, prio: Priorities)
    requires wait != []
    ensures Change(wait, wait[1..], flag, prio)
  {
    SubSelf(wait);
    SubTail(wait, wait);
  }

  lemma {:induction false} JoinChange(wait: seq<Tid>, t: Tid, flag: Flag, prio: Priorities)
    requires Known(wait, prio) && t in prio && t !in wait
    ensures Change(wait, Enqueue(wait, t, flag, prio), flag, prio)
  {
    assert Joins(wait, Enqueue(wait, t, flag, prio), t, flag, prio);
  }

  lemma {:induction false} SubChange(was: seq<Tid>, next: seq<Tid>, flag: Flag, prio: Priorities)
    requires Sub(next, was)
    ensures Change(was, next, flag, prio)
  {
  }

  lemma {:induction false} ExpireChange(wait: seq<Tid>, t: Tid, flag: Flag, prio: Priorities)
    ensures Change(wait, Remove(wait, t), flag, prio)
  {
    RemoveIsSub(wait, t);
  }

  lemma {:induction false} EmptyChange(wait: seq<Tid>, flag: Flag, prio: Priorities)
    ensures Change(wait, [], flag, prio)
  {
  }

  /** The priorities are the same at every step of a run. */
  ghost predicate Constant<T>(ops: seq<(T, Priorities)>, prio: Priorities) {
    forall i :: 0 <= i < |ops| ==> ops[i].1 == prio
  }
}
