/** The event set of ipc.c: 32 event bits and threads that wait for all or for
    any of the bits they ask for. */
module EventSpec {
  import opened OrderedList
  import opened IpcList

  type Bits = bv32

  /** RT_EVENT_FLAG_AND, RT_EVENT_FLAG_OR and RT_EVENT_FLAG_CLEAR. */
  type Option = bv8

  predicate IsAnd(o: Option) { o & 1 != 0 }
  predicate IsOr(o: Option) { o & 2 != 0 }
  predicate IsClear(o: Option) { o & 4 != 0 }

  /** event_set and event_info of a waiting thread. */
  datatype Waiter = Waiter(bits: Bits, option: Option)

  datatype Outcome = Invalid | Blocked | TimedOut | Received(bits: Bits) | Done

  function Both(a: Bits, b: Bits): Bits { a & b }
  function Either(a: Bits, b: Bits): Bits { a | b }
  function Minus(a: Bits, b: Bits): Bits { a & !b }

  /** AND waits for every bit and takes precedence over OR. */
  predicate Satisfied(w: Waiter, events: Bits) {
    if IsAnd(w.option) then Both(w.bits, events) == w.bits
    else IsOr(w.option) && Both(w.bits, events) != 0
  }

  /** What a thread resumed by a send is told: event_set, which an OR narrows. */
  function Granted(w: Waiter, events: Bits): Bits {
    if IsAnd(w.option) then w.bits else Both(w.bits, events)
  }

  function Left(w: Waiter, events: Bits): Bits {
    if IsClear(w.option) then Minus(events, Granted(w, events)) else events
  }

  predicate Within(a: Bits, b: Bits) { Both(a, b) == a }

  /** What a thread that asked for w may be told: every bit of it under AND, some
      of its bits under OR. */
  predicate Answers(w: Waiter, got: Bits) {
    Within(got, w.bits) && got != 0 && (IsAnd(w.option) ==> got == w.bits)
  }

  type Info = map<Tid, Waiter>

  /** info holds what each waiting thread asked for, woken what each resumed
      thread was granted, timed the waiting threads whose timer runs. */
  datatype Ev = Ev(flag: Flag, events: Bits, wait: seq<Tid>, info: Info, timed: set<Tid>, woken: map<Tid, Bits>) {
    predicate Has(t: Tid) { t in wait || t in woken }

    ghost predicate Members() {
      && Distinct(wait)
      && (forall t :: t in wait ==> t in info && info[t].bits != 0 && t !in woken)
      && (forall t :: t in timed ==> t in wait)
    }

    /** Nobody waits for something that has already happened. */
    ghost predicate NobodySatisfied() {
      forall t :: t in wait && t in info ==> !Satisfied(info[t], events)
    }

    /** Every resumed thread that has yet to run was granted what it asked for. */
    ghost predicate Answered() {
      forall t :: t in woken ==> t in info && Answers(info[t], woken[t])
    }

    ghost predicate Inv() {
      Members() && NobodySatisfied() && Answered()
    }
  }

  /** rt_event_init. */
  function Init(flag: Flag): Ev {
    Ev(flag, 0, [], map[], {}, map[])
  }

  // ------------------------------------------------------------------- send

  /** The walk of rt_event_send: who is left, which events are left, and who was
      resumed with what, in order. */
  datatype Walk = Walk(kept: seq<Tid>, events: Bits, resumed: seq<(Tid, Bits)>)

  function Sweep(wait: seq<Tid>, info: Info, events: Bits): Walk
    requires forall t :: t in wait ==> t in info
    decreases |wait|
  {
    if wait == [] then Walk([], events, [])
    else
      var t, w := wait[0], info[wait[0]];
      if Satisfied(w, events) then
        var rest := Sweep(wait[1..], info, Left(w, events));
        rest.(resumed := [(t, Granted(w, events))] + rest.resumed)
      else
        var rest := Sweep(wait[1..], info, events);
        rest.(kept := [t] + rest.kept)
  }

  /** The timers of the resumed threads are stopped. */
  function Still(timed: set<Tid>, kept: seq<Tid>): set<Tid> {
    set t | t in timed && t in kept
  }

  function Woken(m: map<Tid, Bits>, r: seq<(Tid, Bits)>): map<Tid, Bits>
    decreases |r|
  {
    if r == [] then m else Woken(m[r[0].0 := r[0].1], r[1..])
  }

  /** rt_event_send. */
  function Send(e: Ev, bits: Bits): (Ev, Outcome)
    requires forall t :: t in e.wait ==> t in e.info
  {
    if bits == 0 then (e, Invalid)
    else
      var w := Sweep(e.wait, e.info, Either(e.events, bits));
      (e.(events := w.events, wait := w.kept, timed := Still(e.timed, w.kept), woken := Woken(e.woken, w.resumed)), Done)
  }

  // ---------------------------------------------------------------- receive

  /** rt_event_recv up to its suspension. */
  function Recv(e: Ev, t: Tid, bits: Bits, option: Option, timeout: int, prio: Priorities): (Ev, Outcome)
    requires Known(e.wait, prio) && t in prio && (IsAnd(option) || IsOr(option))
  {
    if bits == 0 then (e, Invalid)
    else if Satisfied(Waiter(bits, option), e.events) then
      (e.(events := if IsClear(option) then Minus(e.events, bits) else e.events), Received(Both(e.events, bits)))
    else if timeout == 0 then (e, TimedOut)
    else
      (e.(wait := Enqueue(e.wait, t, e.flag, prio), info := e.info[t := Waiter(bits, option)],
          timed := if timeout > 0 then e.timed + {t} else e.timed), Blocked)
  }

  /** A resumed thread returns what it was granted. */
  function Finish(e: Ev, t: Tid): (Ev, Outcome)
    requires t in e.woken
  {
    (e.(woken := e.woken - {t}), Received(e.woken[t]))
  }

  /** The timer of the waiting thread t fires. */
  function Expire(e: Ev, t: Tid): Ev {
    e.(wait := Remove(e.wait, t), timed := e.timed - {t})
  }

  /** rt_event_control with RT_IPC_CMD_RESET: the waiting threads leave with an error. */
  function Reset(e: Ev): Ev {
    e.(events := 0, wait := [], timed := {})
  }

  // ------------------------------------------------------------------- runs

  datatype Op =
    | DoSend(bits: Bits)
    | DoRecv(t: Tid, bits: Bits, option: Option, timeout: int)
    | DoFinish(t: Tid)
    | DoExpire(t: Tid)
    | DoReset

  ghost predicate Legal(e: Ev, op: Op, prio: Priorities) {
    && Known(e.wait, prio) && (forall t :: t in e.wait ==> t in e.info)
    && match op
       case DoSend(bits) => true
       case DoRecv(t, bits, option, timeout) => t in prio && !e.Has(t) && (IsAnd(option) || IsOr(option))
       case DoFinish(t) => t in e.woken
       case DoExpire(t) => t in e.timed
       case DoReset => true
  }

  function Step(e: Ev, op: Op, prio: Priorities): Ev
    requires Legal(e, op, prio)
  {
    match op
    case DoSend(bits) => Send(e, bits).0
    case DoRecv(t, bits, option, timeout) => Recv(e, t, bits, option, timeout, prio).0
    case DoFinish(t) => Finish(e, t).0
    case DoExpire(t) => Expire(e, t)
    case DoReset => Reset(e)
  }

  ghost predicate Reaches(e: Ev, ops: seq<(Op, Priorities)>, g: Ev)
    decreases |ops|
  {
    if ops == [] then g == e
    else Legal(e, ops[0].0, ops[0].1) && Reaches(Step(e, ops[0].0, ops[0].1), ops[1..], g)
  }
}

/** One pass is enough: events only disappear while the list is walked. */
module EventTheory {
  import opened OrderedList
  import opened IpcList
  import opened EventSpec

  lemma {:induction false} WithinSelf(a: Bits)
    ensures Within(a, a)
  {
  }

  lemma {:induction false} WithinTrans(a: Bits, b: Bits, c: Bits)
    requires Within(a, b) && Within(b, c)
    ensures Within(a, c)
  {
  }

  lemma {:induction false} AndNotWithin(a: Bits, b: Bits, c: Bits)
    requires c == a & !b
    ensures Within(c, a)
  {
  }

  lemma {:induction false} MinusWithin(a: Bits, b: Bits)
    ensures Within(Minus(a, b), a)
  {
    hide Within;
    AndNotWithin(a, b, Minus(a, b));
  }

  lemma {:induction false} LeftWithin(w: Waiter, events: Bits)
    ensures Within(Left(w, events), events)
  {
    hide Within, Minus, Both;
    WithinSelf(events);
    MinusWithin(events, Granted(w, events));
  }

  lemma {:induction false} AllFewer(w: Bits, few: Bits, many: Bits)
    requires Within(few, many) && Both(w, few) == w
    ensures Both(w, many) == w
  {
  }

  lemma {:induction false} AnyFewer(w: Bits, few: Bits, many: Bits)
    requires Within(few, many) && Both(w, few) != 0
    ensures Both(w, many) != 0
  {
  }

  /** Fewer events satisfy fewer threads. */
  lemma {:induction false} Monotone(w: Waiter, few: Bits, many: Bits)
    requires Within(few, many) && Satisfied(w, few)
    ensures Satisfied(w, many)
  {
    if IsAnd(w.option) { AllFewer(w.bits, few, many); } else { AnyFewer(w.bits, few, many); }
    hide Both, Within;
  }

  lemma {:induction false} SweepShrinks(wait: seq<Tid>, info: Info, events: Bits)
    requires forall t :: t in wait ==> t in info
    ensures Within(Sweep(wait, info, events).events, events)
    decreases |wait|
  {
    hide Within, Satisfied, Left, Granted;
    if wait == [] {
      WithinSelf(events);
    } else {
      var w := info[wait[0]];
      SweepShrinks(wait[1..], info, events);
      SweepShrinks(wait[1..], info, Left(w, events));
      LeftWithin(w, events);
      if Satisfied(w, events) {
        WithinTrans(Sweep(wait[1..], info, Left(w, events)).events, Left(w, events), events);
      }
    }
  }

  /** After the walk nobody who stayed is satisfied by the events left. */
  lemma {:induction false} SweepEnough(wait: seq<Tid>, info: Info, events: Bits)
    requires forall t :: t in wait ==> t in info
    ensures var w := Sweep(wait, info, events); forall t :: t in w.kept ==> t in info && !Satisfied(info[t], w.events)
    decreases |wait|
  {
    hide Within, Satisfied, Left, Granted;
    if wait != [] {
      var w, g := info[wait[0]], Sweep(wait, info, events);
      SweepEnough(wait[1..], info, events);
      SweepEnough(wait[1..], info, Left(w, events));
      SweepShrinks(wait[1..], info, events);
      if !Satisfied(w, events) && Satisfied(w, g.events) { Monotone(w, g.events, events); }
    }
  }

  lemma {:induction false} SweepMembers(wait: seq<Tid>, info: Info, events: Bits)
    requires (forall t :: t in wait ==> t in info) && Distinct(wait)
    ensures var w := Sweep(wait, info, events);
      && Distinct(w.kept)
      && (forall t :: t in wait <==> t in w.kept || InPairs(t, w.resumed))
      && (forall t :: InPairs(t, w.resumed) ==> t !in w.kept)
    decreases |wait|
  {
    hide Satisfied, Left, Granted;
    if wait != [] {
      var t, w := wait[0], info[wait[0]];
      SweepMembers(wait[1..], info, events);
      SweepMembers(wait[1..], info, Left(w, events));
      var rest := Sweep(wait[1..], info, if Satisfied(w, events) then Left(w, events) else events);
      Cons(t, rest.kept);
      forall x ensures InPairs(x, [(t, Granted(w, events))] + rest.resumed) <==> x == t || InPairs(x, rest.resumed) {
        PairsCons(x, (t, Granted(w, events)), rest.resumed);
      }
    }
  }

  /** t is one of the threads of r. */
  ghost predicate InPairs(t: Tid, r: seq<(Tid, Bits)>) {
    r != [] && (r[0].0 == t || InPairs(t, r[1..]))
  }

  lemma {:induction false} PairsCons(t: Tid, p: (Tid, Bits), r: seq<(Tid, Bits)>)
    ensures InPairs(t, [p] + r) <==> p.0 == t || InPairs(t, r)
  {
    assert ([p] + r)[1..] == r;
  }

  lemma {:induction false} WokenKeys(m: map<Tid, Bits>, r: seq<(Tid, Bits)>)
    ensures forall t :: t in Woken(m, r) <==> t in m || InPairs(t, r)
    decreases |r|
  {
    if r != [] { WokenKeys(m[r[0].0 := r[0].1], r[1..]); }
  }

  /** Resuming fairly keeps the answers of the resumed threads fair. */
  lemma {:induction false} WokenAnswered(m: map<Tid, Bits>, r: seq<(Tid, Bits)>, info: Info)
    requires forall t :: t in m ==> t in info && Answers(info[t], m[t])
    requires forall i :: 0 <= i < |r| ==> r[i].0 in info && Answers(info[r[i].0], r[i].1)
    ensures forall t :: t in Woken(m, r) ==> t in info && Answers(info[t], Woken(m, r)[t])
    decreases |r|
  {
    hide Answers;
    if r != [] { WokenAnswered(m[r[0].0 := r[0].1], r[1..], info); }
  }

  lemma {:induction false} SendAnswered(e: Ev, bits: Bits)
    requires e.Members() && e.Answered() && bits != 0
    ensures Send(e, bits).0.Answered()
  {
    hide Satisfied, Left, Granted, Sweep, Answers, Within, Either, Disjoint, Distinct, IsClear;
    var events := Either(e.events, bits);
    SweepConsistent(e.wait, e.info, events);
    WokenAnswered(e.woken, Sweep(e.wait, e.info, events).resumed, e.info);
  }

  lemma {:induction false} SendMembers(e: Ev, bits: Bits)
    requires e.Members() && bits != 0
    ensures Send(e, bits).0.Members()
    ensures forall t :: Send(e, bits).0.Has(t) <==> e.Has(t)
  {
    hide Satisfied, Left, Granted, Sweep, Distinct;
    var events := Either(e.events, bits);
    SweepMembers(e.wait, e.info, events);
    WokenKeys(e.woken, Sweep(e.wait, e.info, events).resumed);
  }

  lemma {:induction false} SendInv(e: Ev, bits: Bits)
    requires e.Inv()
    ensures Send(e, bits).0.Inv()
    ensures bits != 0 ==> forall t :: Send(e, bits).0.Has(t) <==> e.Has(t)
  {
    hide Satisfied, Left, Granted, Sweep, Ev.Has, Distinct, Answers, Woken, Still;
    if bits != 0 {
      SendMembers(e, bits);
      SendAnswered(e, bits);
      SweepEnough(e.wait, e.info, Either(e.events, bits));
    }
  }

  lemma {:induction false} RecvInv(e: Ev, t: Tid, bits: Bits, option: Option, timeout: int, prio: Priorities)
    requires e.Inv() && Known(e.wait, prio) && t in prio && !e.Has(t) && (IsAnd(option) || IsOr(option))
    ensures Recv(e, t, bits, option, timeout, prio).0.Inv()
  {
    hide Satisfied, Left, Granted, Distinct, Minus;
    if bits != 0 {
      if Satisfied(Waiter(bits, option), e.events) {
        MinusWithin(e.events, bits);
        forall x | x in e.wait ensures !Satisfied(e.info[x], Minus(e.events, bits)) {
          if Satisfied(e.info[x], Minus(e.events, bits)) { Monotone(e.info[x], Minus(e.events, bits), e.events); }
        }
      } else if timeout != 0 {
        EnqueueMembers(e.wait, t, e.flag, prio);
        EnqueueDistinct(e.wait, t, e.flag, prio);
      }
    }
  }

  lemma {:induction false} ExpireInv(e: Ev, t: Tid)
    requires e.Inv()
    ensures Expire(e, t).Inv()
  {
    RemoveMembers(e.wait, t);
    RemoveDistinct(e.wait, t);
  }

  lemma {:induction false} StepInv(e: Ev, op: Op, prio: Priorities)
    requires e.Inv() && Legal(e, op, prio)
    ensures Step(e, op, prio).Inv()
  {
    hide Send, Recv, Satisfied;
    match op
    case DoSend(bits) => SendInv(e, bits);
    case DoRecv(t, bits, option, timeout) => RecvInv(e, t, bits, option, timeout, prio);
    case DoFinish(t) =>
    case DoExpire(t) => ExpireInv(e, t);
    case DoReset =>
  }

  /** In every reachable state no waiting thread's condition is satisfied. */
  lemma {:induction false} RunInv(e: Ev, ops: seq<(Op, Priorities)>, g: Ev)
    requires e.Inv() && Reaches(e, ops, g)
    ensures g.Inv()
    decreases |ops|
  {
    hide Ev.Inv, Step;
    if ops != [] {
      StepInv(e, ops[0].0, ops[0].1);
      RunInv(Step(e, ops[0].0, ops[0].1), ops[1..], g);
    }
  }

  lemma {:induction false} RunNobodySatisfied(flag: Flag, ops: seq<(Op, Priorities)>, g: Ev, t: Tid)
    requires Reaches(Init(flag), ops, g) && t in g.wait
    ensures t in g.info && !Satisfied(g.info[t], g.events)
  {
    hide Satisfied;
    RunInv(Init(flag), ops, g);
  }

  // ------------------------------------------------------ what is granted

  predicate Disjoint(a: Bits, b: Bits) { Both(a, b) == 0 }

  /** Every grant answers what was asked with events that were there, and what a clearing thread was granted nobody resumed
      after it gets. */
  ghost predicate Consistent(r: seq<(Tid, Bits)>, info: Info, events: Bits) {
    forall i :: 0 <= i < |r| ==>
      && r[i].0 in info && Answers(info[r[i].0], r[i].1) && Within(r[i].1, events)
      && (IsClear(info[r[i].0].option) ==> forall j :: i < j < |r| ==> Disjoint(r[i].1, r[j].1))
  }

  lemma {:induction false} GrantFair(w: Waiter, events: Bits)
    requires Satisfied(w, events) && w.bits != 0
    ensures Answers(w, Granted(w, events)) && Within(Granted(w, events), events)
  {
    if IsAnd(w.option) {
      WithinSelf(w.bits);
    } else {
      BothWithin(w.bits, events);
    }
  }

  lemma {:induction false} BothWithin(a: Bits, b: Bits)
    ensures Within(Both(a, b), a) && Within(Both(a, b), b)
  {
  }

  lemma {:induction false} ClearedDisjoint(got: Bits, events: Bits, x: Bits)
    requires Within(x, Minus(events, got))
    ensures Disjoint(got, x)
  {
  }

  /** A cleared event is consumed once: no event bit goes to two threads of the
      same send when the first of them clears it. */
  lemma {:induction false} SweepConsistent(wait: seq<Tid>, info: Info, events: Bits)
    requires (forall t :: t in wait ==> t in info && info[t].bits != 0)
    ensures Consistent(Sweep(wait, info, events).resumed, info, events)
    decreases |wait|
  {
    hide Satisfied, Left, Granted, Within, Disjoint, Answers, IsClear, IsAnd;
    if wait != [] {
      var t, w := wait[0], info[wait[0]];
      if Satisfied(w, events) {
        var l := Left(w, events);
        SweepConsistent(wait[1..], info, l);
        LeftWithin(w, events);
        GrantFair(w, events);
        AddGrant(t, w, Sweep(wait[1..], info, l).resumed, info, events);
      } else {
        SweepConsistent(wait[1..], info, events);
      }
    }
  }

  lemma {:induction false} AddGrant(t: Tid, w: Waiter, r: seq<(Tid, Bits)>, info: Info, events: Bits)
    requires t in info && info[t] == w && Consistent(r, info, Left(w, events)) && Within(Left(w, events), events)
    requires Answers(w, Granted(w, events)) && Within(Granted(w, events), events)
    ensures Consistent([(t, Granted(w, events))] + r, info, events)
  {
    hide Within, Disjoint, Granted, IsClear, Answers, Minus;
    var l, got := Left(w, events), Granted(w, events);
    var s := [(t, got)] + r;
    forall i | 0 <= i < |s|
      ensures s[i].0 in info && Answers(info[s[i].0], s[i].1) && Within(s[i].1, events)
    {
      if i > 0 { WithinTrans(r[i - 1].1, l, events); }
    }
    if IsClear(w.option) {
      forall j | 0 < j < |s| ensures Disjoint(got, s[j].1) { ClearedDisjoint(got, events, r[j - 1].1); }
    }
  }

  /** In every reachable state the next send grants consistently. */
  lemma {:induction false} RunConsistent(flag: Flag, ops: seq<(Op, Priorities)>, g: Ev, bits: Bits)
    requires Reaches(Init(flag), ops, g)
    ensures forall t :: t in g.wait ==> t in g.info
    ensures Consistent(Sweep(g.wait, g.info, Either(g.events, bits)).resumed, g.info, Either(g.events, bits))
  {
    hide Consistent, Satisfied, Sweep;
    RunInv(Init(flag), ops, g);
    SweepConsistent(g.wait, g.info, Either(g.events, bits));
  }

  /** In every reachable state a resumed thread that runs is told all it asked for
      under AND, a non-empty part of it under OR. */
  lemma {:induction false} RunAnswered(flag: Flag, ops: seq<(Op, Priorities)>, g: Ev, t: Tid)
    requires Reaches(Init(flag), ops, g) && t in g.woken
    ensures t in g.info && Finish(g, t).1.Received? && Answers(g.info[t], Finish(g, t).1.bits)
  {
    hide Answers;
    RunInv(Init(flag), ops, g);
  }

  /** So is a thread that need not wait. */
  lemma {:induction false} ReceivedAnswers(e: Ev, t: Tid, bits: Bits, option: Option, timeout: int, prio: Priorities)
    requires Known(e.wait, prio) && t in prio && (IsAnd(option) || IsOr(option))
    ensures var o := Recv(e, t, bits, option, timeout, prio).1; o.Received? ==> Answers(Waiter(bits, option), o.bits)
  {
    Commute(e.events, bits);
    BothWithin(bits, e.events);
    hide Within, Both;
  }

  lemma {:induction false} Commute(a: Bits, b: Bits)
    ensures Both(a, b) == Both(b, a)
  {
  }

  /** A second pass over the list would resume nobody. */
  lemma {:induction false} SecondPassIdle(wait: seq<Tid>, info: Info, events: Bits)
    requires forall t :: t in wait ==> t in info
    ensures var w := Sweep(wait, info, events);
      (forall t :: t in w.kept ==> t in info) && Sweep(w.kept, info, w.events) == Walk(w.kept, w.events, [])
  {
    hide Satisfied;
    SweepEnough(wait, info, events);
    Idle(Sweep(wait, info, events).kept, info, Sweep(wait, info, events).events);
  }

  lemma {:induction false} Idle(wait: seq<Tid>, info: Info, events: Bits)
    requires forall t :: t in wait ==> t in info && !Satisfied(info[t], events)
    ensures Sweep(wait, info, events) == Walk(wait, events, [])
    decreases |wait|
  {
    hide Satisfied;
    if wait != [] {
      Idle(wait[1..], info, events);
      assert [wait[0]] + wait[1..] == wait;
    }
  }
}
