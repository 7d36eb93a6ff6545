/** The event set of ipc.c as it is written: send walks the wait list with a
    cursor, resuming threads and clearing events as it goes. */
module Event {
  import opened OrderedList
  import opened IpcList
  import opened EventSpec
  import EventTheory

  class Event {
    const flag: Flag
    /** event->set */
    var events: Bits
    var wait: seq<Tid>
    /** event_set and event_info of the waiting threads */
    var info: Info
    /** waiting threads whose thread_timer is active */
    var timed: set<Tid>
    /** event_set of the threads resumed and not yet run */
    var woken: map<Tid, Bits>

    ghost function Abs(): Ev
      reads this
    {
      Ev(flag, events, wait, info, timed, woken)
    }

    /** rt_event_init. */
    constructor (flag: Flag)
      ensures Abs() == Init(flag)
    {
      this.flag := flag;
      events, wait, info, timed, woken := 0, [], map[], {}, map[];
    }

    /** rt_event_send. */
    method Send(bits: Bits) returns (o: Outcome)
      requires Abs().Members()
      modifies this`events, this`wait, this`timed, this`woken
      ensures (Abs(), o) == EventSpec.Send(old(Abs()), bits)
    {
      if bits == 0 {
        return Invalid;
      }
      events := Either(events, bits);
      Walk();
      return Done;
    }

    /** The walk of rt_event_send. */
    method Walk()
      requires Distinct(wait) && (forall t :: t in wait ==> t in info) && (forall t :: t in timed ==> t in wait)
      modifies this`events, this`wait, this`timed, this`woken
      ensures var w := Sweep(old(wait), info, old(events));
        && events == w.events && wait == w.kept && woken == Woken(old(woken), w.resumed)
        && timed == Still(old(timed), w.kept)
    {
      hide Satisfied, Granted, Minus, Both;
      ghost var whole := Sweep(wait, info, events);
      ghost var resumed := [];
      var n := 0;
      assert wait[0..] == wait;
      JoinNothing(whole);
      assert Still(timed, wait) == timed;
      hide Sweep, Joined, Woken, Distinct;
      assert woken == Woken(old(woken), []) by { WokenNothing(woken); }
      while n < |wait|
        invariant n <= |wait| && Distinct(wait) && forall t :: t in wait ==> t in info
        invariant whole == Joined(wait[..n], resumed, Sweep(wait[n..], info, events))
        invariant woken == Woken(old(woken), resumed)
        invariant timed == Still(old(timed), wait)
        decreases |wait| - n
      {
        var ok, granted := Check(info[wait[n]], events);
        JoinStep(wait, n, resumed, info, events);
        if ok {
          WokenSnoc(old(woken), resumed, wait[n], granted);
          StillDrop(old(timed), wait, n);
          resumed := resumed + [(wait[n], granted)];
          Resume(n, granted);
        } else {
          n := n + 1;
        }
      }
      assert wait[..n] == wait && wait[n..] == [];
      JoinEnd(wait, resumed, info, events);
    }

    /** Clear the events if the thread asks for it, and take it off the list. */
    method Resume(n: nat, granted: Bits)
      requires n < |wait| && Distinct(wait) && wait[n] in info
      modifies this`events, this`wait, this`timed, this`woken
      ensures events == if IsClear(info[old(wait)[n]].option) then Minus(old(events), granted) else old(events)
      ensures wait == old(wait)[..n] + old(wait)[n + 1..] && Distinct(wait)
      ensures forall x :: x in wait ==> x in old(wait)
      ensures timed == old(timed) - {old(wait)[n]} && woken == old(woken)[old(wait)[n] := granted]
    {
      DropAt(wait, n);
      var thread := wait[n];
      if IsClear(info[thread].option) {
        events := Minus(events, granted);
      }
      wait := wait[..n] + wait[n + 1..];
      timed := timed - {thread};
      woken := woken[thread := granted];
    }

    /** The condition of one waiting thread, and the event set it is given. */
    method Check(w: Waiter, events: Bits) returns (ok: bool, granted: Bits)
      ensures ok == Satisfied(w, events)
      ensures ok ==> granted == Granted(w, events)
    {
      ok, granted := false, w.bits;
      if IsAnd(w.option) {
        if Both(w.bits, events) == w.bits {
          ok := true;
        }
      } else if IsOr(w.option) {
        if Both(w.bits, events) != 0 {
          granted := Both(w.bits, events);
          ok := true;
        }
      }
    }

    /** rt_event_recv up to its suspension. */
    method Receive(t: Tid, bits: Bits, option: Option, timeout: int, prio: Priorities) returns (o: Outcome)
      requires Known(wait, prio) && t in prio && (IsAnd(option) || IsOr(option))
      modifies this
      ensures (Abs(), o) == Recv(old(Abs()), t, bits, option, timeout, prio)
    {
      if bits == 0 {
        return Invalid;
      }
      hide Both, Minus;
      var ok, _ := Check(Waiter(bits, option), events);
      if ok {
        o := Received(Both(events, bits));
        if IsClear(option) {
          events := Minus(events, bits);
        }
      } else if timeout == 0 {
        o := TimedOut;
      } else {
        info := info[t := Waiter(bits, option)];
        wait := Suspend(wait, t, flag, prio);
        if timeout > 0 {
          timed := timed + {t};
        }
        o := Blocked;
      }
    }

    /** rt_event_recv after a send has resumed it: every bit asked for under AND,
        some of them under OR, and nobody else's answer is touched. */
    method ReceiveAfterWake(t: Tid) returns (o: Outcome)
      requires t in woken && Abs().Inv()
      modifies this`woken
      ensures (Abs(), o) == Finish(old(Abs()), t) && Abs().Inv()
      ensures o.Received? && t in info && Answers(info[t], o.bits)
      ensures woken.Keys == old(woken).Keys - {t} && forall x :: x in woken ==> woken[x] == old(woken)[x]
    {
      hide Answers, Satisfied;
      o := Received(woken[t]);
      woken := woken - {t};
    }

    /** rt_thread_timeout of a waiting thread. */
    method Timeout(t: Tid)
      modifies this`wait, this`timed
      ensures Abs() == Expire(old(Abs()), t)
    {
      wait := Remove(wait, t);
      timed := timed - {t};
    }

    /** rt_event_control(RT_IPC_CMD_RESET): resume the first waiter until none is left. */
    method Control()
      requires forall t :: t in timed ==> t in wait
      modifies this`events, this`wait, this`timed
      ensures Abs() == Reset(old(Abs()))
    {
      while wait != []
        invariant forall t :: t in timed ==> t in wait
        decreases |wait|
      {
        timed := timed - {wait[0]};
        forall t | t in timed ensures t in wait[1..] { assert t in wait && t != wait[0]; }
        wait := wait[1..];
      }
      assert timed == {};
      events := 0;
    }
  }

  /** The walk so far in front of the walk to come. */
  ghost function Joined(kept: seq<Tid>, resumed: seq<(Tid, Bits)>, w: EventSpec.Walk): EventSpec.Walk {
    EventSpec.Walk(kept + w.kept, w.events, resumed + w.resumed)
  }

  lemma {:induction false} JoinNothing(w: EventSpec.Walk)
    ensures Joined([], [], w) == w
  {
    assert [] + w.kept == w.kept && [] + w.resumed == w.resumed;
  }

  lemma {:induction false} JoinEnd(kept: seq<Tid>, resumed: seq<(Tid, Bits)>, info: Info, events: Bits)
    ensures Joined(kept, resumed, Sweep([], info, events)) == EventSpec.Walk(kept, events, resumed)
  {
    assert kept + [] == kept && resumed + [] == resumed;
  }

  lemma {:induction false} WokenNothing(m: map<Tid, Bits>)
    ensures Woken(m, []) == m
  {
  }

  /** One turn of the walk. */
  lemma {:induction false} JoinStep(wait: seq<Tid>, n: nat, resumed: seq<(Tid, Bits)>, info: Info, events: Bits)
    requires n < |wait| && forall t :: t in wait ==> t in info
    ensures var w, t := info[wait[n]], wait[n];
      Joined(wait[..n], resumed, Sweep(wait[n..], info, events)) ==
        if Satisfied(w, events)
        then Joined((wait[..n] + wait[n + 1..])[..n], resumed + [(t, Granted(w, events))],
                    Sweep((wait[..n] + wait[n + 1..])[n..], info, Left(w, events)))
        else Joined(wait[..n + 1], resumed, Sweep(wait[n + 1..], info, events))
  {
    hide Satisfied, Granted, Left;
    var w, t := info[wait[n]], wait[n];
    assert wait[n..][0] == t && wait[n..][1..] == wait[n + 1..];
    assert (wait[..n] + wait[n + 1..])[..n] == wait[..n] && (wait[..n] + wait[n + 1..])[n..] == wait[n + 1..];
    if Satisfied(w, events) {
      var rest := Sweep(wait[n + 1..], info, Left(w, events));
      assert resumed + ([(t, Granted(w, events))] + rest.resumed) == (resumed + [(t, Granted(w, events))]) + rest.resumed;
    } else {
      var rest := Sweep(wait[n + 1..], info, events);
      assert wait[..n] + ([t] + rest.kept) == wait[..n + 1] + rest.kept;
    }
  }

  lemma {:induction false} WokenSnoc(m: map<Tid, Bits>, r: seq<(Tid, Bits)>, t: Tid, b: Bits)
    ensures Woken(m, r + [(t, b)]) == Woken(m, r)[t := b]
    decreases |r|
  {
    if r == [] {
      assert [] + [(t, b)] == [(t, b)] && [(t, b)][1..] == [];
    } else {
      assert (r + [(t, b)])[1..] == r[1..] + [(t, b)];
      WokenSnoc(m[r[0].0 := r[0].1], r[1..], t, b);
    }
  }

  lemma {:induction false} StillDrop(timed: set<Tid>, s: seq<Tid>, n: nat)
    requires Distinct(s) && n < |s|
    ensures Still(timed, s[..n] + s[n + 1..]) == Still(timed, s) - {s[n]}
  {
    var r := s[..n] + s[n + 1..];
    forall x: Tid ensures x in Still(timed, r) <==> x in Still(timed, s) - {s[n]} {
      DropMember(s, n, x);
    }
  }

  lemma {:induction false} DropMember(s: seq<Tid>, n: nat, x: Tid)
    requires Distinct(s) && n < |s|
    ensures x in s[..n] + s[n + 1..] <==> x != s[n] && x in s
    decreases n
  {
    if n == 0 {
      assert s[..0] + s[1..] == s[1..];
    } else {
      DropMember(s[1..], n - 1, x);
      var r := s[1..][..n - 1] + s[1..][n..];
      assert s[..n] + s[n + 1..] == [s[0]] + r;
      assert s[1..][n - 1] == s[n] && s[n] in s[1..];
      assert x in s <==> x == s[0] || x in s[1..];
      assert x in [s[0]] + r <==> x == s[0] || x in r;
    }
  }

  lemma {:induction false} DropAt(s: seq<Tid>, n: nat)
    requires Distinct(s) && n < |s|
    ensures Distinct(s[..n] + s[n + 1..])
    ensures forall x :: x in s[..n] + s[n + 1..] ==> x in s
    decreases n
  {
    if n == 0 {
      assert s[..0] + s[1..] == s[1..];
    } else {
      DropAt(s[1..], n - 1);
      var r := s[1..][..n - 1] + s[1..][n..];
      assert s[..n] + s[n + 1..] == [s[0]] + r;
      Cons(s[0], r);
    }
  }
}
