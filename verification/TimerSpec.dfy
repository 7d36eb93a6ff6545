/** The hard timers of timer.c as one list of pending timers in firing order.

    Time is unbounded here; the class in Timer.dfy works on 32-bit ticks and a
    skip list, and is proved to do the same. `log` records which timer fired at
    which tick. */
module TimerSpec {
  import opened OrderedList

  type Id = nat

  /** RT_TICK_MAX / 2. */
  const HALF: nat := 0x7FFF_FFFF

  /** active is RT_TIMER_FLAG_ACTIVATED. */
  datatype Timer = Timer(init: nat, periodic: bool, active: bool)

  /** What callers and timeout functions do to timers. */
  datatype Cmd = Start(t: Id) | Stop(t: Id) | SetTime(t: Id, init: nat) | SetMode(t: Id, periodic: bool)

  /** What the timeout function of each timer does, should it run in this check. */
  type Script = map<Id, seq<Cmd>>

  /** born[t] numbers the latest start of t among all starts. */
  datatype Wheel = Wheel(
    now: nat, pending: seq<Id>, due: Key, timers: map<Id, Timer>, born: Key, starts: nat, log: seq<(Id, nat)>)
  {

    /** Periods are positive and below half the tick range. */
    ghost predicate Periods() {
      forall t :: t in timers ==> 1 <= timers[t].init < HALF
    }

    /** Every pending timer is due in [lo, now + HALF). */
    ghost predicate Armed(lo: nat) {
      forall t :: t in pending ==> t in timers && t in due && lo <= due[t] < now + HALF
    }

    ghost predicate Births() {
      InTurn(pending, due, born) && forall t :: t in pending ==> t in born && born[t] < starts
    }

    ghost predicate Inv(lo: nat) {
      Distinct(pending) && Ordered(pending, due) && Births() && Armed(lo) && Periods()
    }

    /** Between calls nothing that is due is left waiting. */
    ghost predicate Quiet() {
      Inv(now + 1)
    }

    /** A timer is linked exactly when its flag says so. */
    ghost predicate FlagsTrue() {
      forall t :: t in timers ==> (timers[t].active <==> t in pending)
    }
  }

  predicate LegalCmd(ids: set<Id>, c: Cmd) {
    c.t in ids && (c.SetTime? ==> 1 <= c.init < HALF)
  }

  ghost predicate LegalCmds(ids: set<Id>, cmds: seq<Cmd>) {
    forall c :: c in cmds ==> LegalCmd(ids, c)
  }

  ghost predicate LegalScript(ids: set<Id>, acts: Script) {
    forall t :: t in acts ==> LegalCmds(ids, acts[t])
  }

  function CmdsOf(acts: Script, t: Id): seq<Cmd> {
    if t in acts then acts[t] else []
  }

  function SetFlag(w: Wheel, t: Id, on: bool): Wheel
    requires t in w.timers
  {
    w.(timers := w.timers[t := w.timers[t].(active := on)])
  }

  /** _rt_timer_remove. */
  function Unlink(w: Wheel, t: Id): Wheel {
    w.(pending := Remove(w.pending, t))
  }

  /** Insert an unlinked timer at its deadline, behind its equals. */
  function Link(w: Wheel, t: Id): (r: Wheel)
    requires Known(w.pending, w.due) && t in w.timers
    ensures Known(r.pending, r.due)
  {
    var due := w.due[t := w.now + w.timers[t].init];
    LinkKnown(w.pending, t, due);
    w.(due := due, pending := Insert(w.pending, t, due), born := w.born[t := w.starts], starts := w.starts + 1)
  }

  lemma {:induction false} LinkKnown(s: seq<Id>, t: Id, due: Key)
    requires Known(s, due) && t in due
    ensures Known(Insert(s, t, due), due)
  {
    forall x | x in Insert(s, t, due) ensures x in due { InsertMembers(s, t, due, x); }
  }

  /** rt_timer_start. */
  function StartTimer(w: Wheel, t: Id): (r: Wheel)
    requires Known(w.pending, w.due) && t in w.timers
    ensures Known(r.pending, r.due)
  {
    RemoveSubset(w.pending, t);
    SetFlag(Link(Unlink(w, t), t), t, true)
  }

  /** rt_timer_stop; false is -RT_ERROR. */
  function StopTimer(w: Wheel, t: Id): (r: (Wheel, bool))
    requires Known(w.pending, w.due) && t in w.timers
    ensures Known(r.0.pending, r.0.due)
  {
    RemoveSubset(w.pending, t);
    if !w.timers[t].active then (w, false) else (SetFlag(Unlink(w, t), t, false), true)
  }

  function Exec(w: Wheel, c: Cmd): (r: Wheel)
    requires Known(w.pending, w.due) && LegalCmd(w.timers.Keys, c)
    ensures Known(r.pending, r.due) && r.timers.Keys == w.timers.Keys && r.now == w.now && r.log == w.log
  {
    match c
    case Start(t) => StartTimer(w, t)
    case Stop(t) => StopTimer(w, t).0
    case SetTime(t, n) => w.(timers := w.timers[t := w.timers[t].(init := n)])
    case SetMode(t, p) => w.(timers := w.timers[t := w.timers[t].(periodic := p)])
  }

  function ExecAll(w: Wheel, cmds: seq<Cmd>): (r: Wheel)
    requires Known(w.pending, w.due) && LegalCmds(w.timers.Keys, cmds)
    ensures Known(r.pending, r.due) && r.timers.Keys == w.timers.Keys && r.now == w.now && r.log == w.log
    decreases |cmds|
  {
    if cmds == [] then w else ExecAll(Exec(w, cmds[0]), cmds[1..])
  }

  /** What follows the timeout function: a periodic timer that is still
      activated is started again, any other is marked stopped. */
  function Rearm(w: Wheel, t: Id): (r: Wheel)
    requires Known(w.pending, w.due) && t in w.timers
    ensures Known(r.pending, r.due)
  {
    if w.timers[t].periodic && w.timers[t].active
    then StartTimer(SetFlag(w, t, false), t)
    else SetFlag(w, t, false)
  }

  /** One iteration of rt_timer_check: the first pending timer fires. */
  function Fire(w: Wheel, acts: Script): (r: Wheel)
    requires Known(w.pending, w.due) && w.pending != [] && w.pending[0] in w.timers && LegalScript(w.timers.Keys, acts)
    ensures Known(r.pending, r.due) && r.timers.Keys == w.timers.Keys && r.now == w.now
    ensures r.log == w.log + [(w.pending[0], w.now)]
  {
    var t := w.pending[0];
    Rearm(ExecAll(w.(pending := w.pending[1..], log := w.log + [(t, w.now)]), CmdsOf(acts, t)), t)
  }

  /** How many timers of the list are due. */
  function DueCount(s: seq<Id>, due: Key, now: nat): nat
    requires Known(s, due)
  {
    if s == [] then 0 else (if due[s[0]] <= now then 1 else 0) + DueCount(s[1..], due, now)
  }

  /** rt_timer_check. */
  function Check(w: Wheel, acts: Script): (r: Wheel)
    requires w.Inv(w.now) && LegalScript(w.timers.Keys, acts)
    ensures r.timers.Keys == w.timers.Keys && r.now == w.now
    decreases DueCount(w.pending, w.due, w.now)
  {
    if w.pending != [] && w.due[w.pending[0]] <= w.now then
      FireInv(w, acts);
      FireShrinks(w, acts);
      Check(Fire(w, acts), acts)
    else w
  }

  /** The tick part of rt_tick_increase. */
  function Tick(w: Wheel, acts: Script): Wheel
    requires w.Quiet() && LegalScript(w.timers.Keys, acts)
  {
    Check(w.(now := w.now + 1), acts)
  }

  // ------------------------------------------------ what each step keeps

  lemma {:induction false} UnlinkInv(w: Wheel, t: Id, lo: nat)
    requires w.Inv(lo)
    ensures Unlink(w, t).Inv(lo) && t !in Unlink(w, t).pending
    ensures forall x :: x in Unlink(w, t).pending <==> x != t && x in w.pending
  {
    RemoveMembers(w.pending, t);
    RemoveDistinct(w.pending, t);
    RemoveOrdered(w.pending, t, w.due);
    InTurnRemove(w.pending, t, w.due, w.born);
  }

  lemma {:induction false} LinkInv(w: Wheel, t: Id, lo: nat)
    requires w.Inv(lo) && t in w.timers && t !in w.pending && lo <= w.now + 1
    ensures Link(w, t).Inv(lo)
    ensures forall x :: x in Link(w, t).pending <==> x == t || x in w.pending
  {
    hide Insert, Ordered, Distinct, InTurn;
    var due := w.due[t := w.now + w.timers[t].init];
    var born := w.born[t := w.starts];
    OrderedFrame(w.pending, w.due, due);
    InsertOrdered(w.pending, t, due);
    InsertDistinct(w.pending, t, due);
    InTurnFrame(w.pending, w.due, w.born, due, born);
    InTurnInsert(w.pending, t, due, born);
    forall x ensures x in Insert(w.pending, t, due) <==> x == t || x in w.pending { InsertMembers(w.pending, t, due, x); }
  }

  lemma {:induction false} StartInv(w: Wheel, t: Id, lo: nat)
    requires w.Inv(lo) && t in w.timers && lo <= w.now + 1
    ensures StartTimer(w, t).Inv(lo)
    ensures forall x :: x in StartTimer(w, t).pending <==> x == t || x in w.pending
  {
    hide Insert, Ordered, Distinct, InTurn, Remove;
    UnlinkInv(w, t, lo);
    LinkInv(Unlink(w, t), t, lo);
  }

  lemma {:induction false} StopInv(w: Wheel, t: Id, lo: nat)
    requires w.Inv(lo) && t in w.timers
    ensures StopTimer(w, t).0.Inv(lo)
    ensures forall x :: x in StopTimer(w, t).0.pending <==> (x != t || !w.timers[t].active) && x in w.pending
  {
    UnlinkInv(w, t, lo);
  }

  lemma {:induction false} ExecInv(w: Wheel, c: Cmd, lo: nat)
    requires w.Inv(lo) && LegalCmd(w.timers.Keys, c) && lo <= w.now + 1
    ensures Exec(w, c).Inv(lo)
  {
    match c
    case Start(t) => StartInv(w, t, lo);
    case Stop(t) => StopInv(w, t, lo);
    case SetTime(t, n) =>
    case SetMode(t, p) =>
  }

  lemma {:induction false} ExecAllInv(w: Wheel, cmds: seq<Cmd>, lo: nat)
    requires w.Inv(lo) && LegalCmds(w.timers.Keys, cmds) && lo <= w.now + 1
    ensures ExecAll(w, cmds).Inv(lo)
    decreases |cmds|
  {
    if cmds != [] {
      ExecInv(w, cmds[0], lo);
      ExecAllInv(Exec(w, cmds[0]), cmds[1..], lo);
    }
  }

  lemma {:induction false} RearmInv(w: Wheel, t: Id, lo: nat)
    requires w.Inv(lo) && t in w.timers && lo <= w.now + 1
    ensures Rearm(w, t).Inv(lo)
  {
    StartInv(SetFlag(w, t, false), t, lo);
  }

  lemma {:induction false} PopInv(w: Wheel, lo: nat)
    requires w.Inv(lo) && w.pending != []
    ensures w.pending[0] in w.timers && w.pending[0] in w.due
    ensures w.(pending := w.pending[1..], log := w.log + [(w.pending[0], w.now)]).Inv(lo)
  {
    assert w.pending[0] in w.pending;
    assert forall x :: x in w.pending[1..] ==> x in w.pending;
  }

  lemma {:induction false} FireInv(w: Wheel, acts: Script)
    requires w.Inv(w.now) && w.pending != [] && LegalScript(w.timers.Keys, acts)
    ensures w.pending[0] in w.timers && Fire(w, acts).Inv(w.now)
  {
    var t := w.pending[0];
    PopInv(w, w.now);
    var p := w.(pending := w.pending[1..], log := w.log + [(t, w.now)]);
    ExecAllInv(p, CmdsOf(acts, t), w.now);
    RearmInv(ExecAll(p, CmdsOf(acts, t)), t, w.now);
  }

  // ---------------------------------------------------------- termination

  lemma {:induction false} DueFrame(s: seq<Id>, p: Key, q: Key, now: nat)
    requires Known(s, p) && Known(s, q) && forall x :: x in s ==> q[x] == p[x]
    ensures DueCount(s, q, now) == DueCount(s, p, now)
  {
    if s != [] { DueFrame(s[1..], p, q, now); }
  }

  lemma {:induction false} DueRemove(s: seq<Id>, t: Id, due: Key, now: nat)
    requires Known(s, due)
    ensures Known(Remove(s, t), due) && DueCount(Remove(s, t), due, now) <= DueCount(s, due, now)
  {
    RemoveSubset(s, t);
    if s != [] && s[0] != t {
      DueRemove(s[1..], t, due, now);
      Cons(s[0], Remove(s[1..], t));
    }
  }

  lemma {:induction false} DueInsert(s: seq<Id>, t: Id, due: Key, now: nat)
    requires Known(s, due) && t in due && due[t] > now
    ensures Known(Insert(s, t, due), due) && DueCount(Insert(s, t, due), due, now) == DueCount(s, due, now)
  {
    LinkKnown(s, t, due);
    if s == [] || due[t] < due[s[0]] {
      Cons(t, s);
    } else {
      DueInsert(s[1..], t, due, now);
      Cons(s[0], Insert(s[1..], t, due));
    }
  }

  /** Starting a timer never adds to what is due now, since its period is positive. */
  lemma {:induction false} DueStart(w: Wheel, t: Id)
    requires w.Inv(w.now) && t in w.timers
    ensures var r := StartTimer(w, t); DueCount(r.pending, r.due, w.now) <= DueCount(w.pending, w.due, w.now)
  {
    hide Insert, Ordered, InTurn, Remove, DueCount;
    var s := Remove(w.pending, t);
    RemoveMembers(w.pending, t);
    DueRemove(w.pending, t, w.due, w.now);
    var due := w.due[t := w.now + w.timers[t].init];
    DueFrame(s, w.due, due, w.now);
    DueInsert(s, t, due, w.now);
  }

  lemma {:induction false} DueExec(w: Wheel, cmds: seq<Cmd>)
    requires w.Inv(w.now) && LegalCmds(w.timers.Keys, cmds)
    ensures var r := ExecAll(w, cmds); DueCount(r.pending, r.due, w.now) <= DueCount(w.pending, w.due, w.now)
    decreases |cmds|
  {
    if cmds != [] {
      assert LegalCmd(w.timers.Keys, cmds[0]);
      match cmds[0] {
        case Start(t) => DueStart(w, t);
        case Stop(t) => DueRemove(w.pending, t, w.due, w.now);
        case SetTime(t, n) =>
        case SetMode(t, p) =>
      }
      ExecInv(w, cmds[0], w.now);
      DueExec(Exec(w, cmds[0]), cmds[1..]);
    }
  }

  lemma {:induction false} DueRearm(w: Wheel, t: Id)
    requires w.Inv(w.now) && t in w.timers
    ensures var r := Rearm(w, t); DueCount(r.pending, r.due, w.now) <= DueCount(w.pending, w.due, w.now)
  {
    hide DueCount, Ordered, Distinct, InTurn, StartTimer;
    DueStart(SetFlag(w, t, false), t);
  }

  /** rt_timer_check terminates: every firing leaves fewer due timers, whatever
      the timeout function does. */
  lemma {:induction false} FireShrinks(w: Wheel, acts: Script)
    requires w.Inv(w.now) && w.pending != [] && LegalScript(w.timers.Keys, acts)
    requires w.pending[0] in w.due && w.due[w.pending[0]] <= w.now && w.pending[0] in w.timers
    ensures DueCount(Fire(w, acts).pending, Fire(w, acts).due, w.now) < DueCount(w.pending, w.due, w.now)
  {
    hide ExecAll, Rearm, Ordered, Distinct, InTurn;
    var t := w.pending[0];
    PopInv(w, w.now);
    var p := w.(pending := w.pending[1..], log := w.log + [(t, w.now)]);
    ExecAllInv(p, CmdsOf(acts, t), w.now);
    DueExec(p, CmdsOf(acts, t));
    DueRearm(ExecAll(p, CmdsOf(acts, t)), t);
  }
}
