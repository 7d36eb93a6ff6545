/** When timers fire: exactly the due ones, in order, never early and never
    late, and without drift, over every run with a check on every tick. */
module TimerTheory {
  import opened OrderedList
  import opened TimerSpec

  // --------------------------------------------------- the due timers, in order

  /** The due timers at the front of the list. */
  function Ready(s: seq<Id>, due: Key, now: nat): seq<Id>
    requires Known(s, due)
  {
    if s == [] || due[s[0]] > now then [] else [s[0]] + Ready(s[1..], due, now)
  }

  lemma {:induction false} ReadyMembers(s: seq<Id>, due: Key, now: nat)
    requires Known(s, due) && Ordered(s, due)
    ensures forall x :: x in Ready(s, due, now) <==> x in s && due[x] <= now
  {
    if s != [] {
      ReadyMembers(s[1..], due, now);
      forall x ensures x in Ready(s, due, now) <==> x in s && due[x] <= now { assert x in s <==> x == s[0] || x in s[1..]; }
    }
  }

  lemma {:induction false} ReadySub(s: seq<Id>, due: Key, now: nat)
    requires Known(s, due)
    ensures Sub(Ready(s, due, now), s)
  {
    if s != [] && due[s[0]] <= now {
      ReadySub(s[1..], due, now);
      Cons(s[0], Ready(s[1..], due, now));
    }
  }

  lemma {:induction false} ReadyFrame(s: seq<Id>, p: Key, q: Key, now: nat)
    requires Known(s, p) && Known(s, q) && forall x :: x in s ==> q[x] == p[x]
    ensures Ready(s, q, now) == Ready(s, p, now)
  {
    if s != [] { ReadyFrame(s[1..], p, q, now); }
  }

  lemma {:induction false} ReadyRemove(s: seq<Id>, t: Id, due: Key, now: nat)
    requires Known(s, due) && Ordered(s, due)
    ensures Known(Remove(s, t), due) && Sub(Ready(Remove(s, t), due, now), Ready(s, due, now))
  {
    RemoveSubset(s, t);
    if s != [] {
      var rest := Ready(s[1..], due, now);
      if s[0] == t {
        if due[t] <= now {
          SubSelf(rest);
          SubCons(rest, t, rest);
        } else {
          forall x | x in s[1..] ensures due[x] > now {}
          if s[1..] != [] { assert s[1..][0] in s[1..]; }
        }
      } else {
        ReadyRemove(s[1..], t, due, now);
        Cons(s[0], Remove(s[1..], t));
        if due[s[0]] <= now {
          Cons(s[0], Ready(Remove(s[1..], t), due, now));
          Cons(s[0], rest);
        }
      }
    }
  }

  lemma {:induction false} ReadyInsert(s: seq<Id>, t: Id, due: Key, now: nat)
    requires Known(s, due) && t in due && due[t] > now
    ensures Known(Insert(s, t, due), due) && Ready(Insert(s, t, due), due, now) == Ready(s, due, now)
  {
    LinkKnown(s, t, due);
    if s == [] || due[t] < due[s[0]] {
      Cons(t, s);
    } else {
      ReadyInsert(s[1..], t, due, now);
      Cons(s[0], Insert(s[1..], t, due));
    }
  }

  ghost function Due(w: Wheel): seq<Id>
    requires Known(w.pending, w.due)
  {
    Ready(w.pending, w.due, w.now)
  }

  lemma {:induction false} SubTransitive(a: seq<nat>, b: seq<nat>, c: seq<nat>)
    requires Sub(a, b) && Sub(b, c)
    ensures Sub(a, c)
    decreases |c|
  {
    if a != [] && b != [] {
      if b[0] == c[0] {
        if a[0] == b[0] {
          SubTransitive(a[1..], b[1..], c[1..]);
        } else {
          SubTransitive(a, b[1..], c[1..]);
        }
      } else {
        SubTransitive(a, b, c[1..]);
        SubCons(a, c[0], c[1..]);
        assert [c[0]] + c[1..] == c;
      }
    }
  }

  lemma {:induction false} DueStartSub(w: Wheel, t: Id)
    requires w.Inv(w.now) && t in w.timers
    ensures Sub(Due(StartTimer(w, t)), Due(w))
  {
    hide Ordered, InTurn, Distinct, Ready, Insert, Remove;
    var s := Remove(w.pending, t);
    RemoveMembers(w.pending, t);
    ReadyRemove(w.pending, t, w.due, w.now);
    var due := w.due[t := w.now + w.timers[t].init];
    ReadyFrame(s, w.due, due, w.now);
    ReadyInsert(s, t, due, w.now);
  }

  lemma {:induction false} DueExecSub(w: Wheel, cmds: seq<Cmd>)
    requires w.Inv(w.now) && LegalCmds(w.timers.Keys, cmds)
    ensures Sub(Due(ExecAll(w, cmds)), Due(w))
    decreases |cmds|
  {
    SubSelf(Due(w));
    if cmds != [] {
      var c := cmds[0];
      assert LegalCmd(w.timers.Keys, c);
      if c.Start? { DueStartSub(w, c.t); }
      if c.Stop? { ReadyRemove(w.pending, c.t, w.due, w.now); }
      ExecInv(w, c, w.now);
      DueExecSub(Exec(w, c), cmds[1..]);
      SubTransitive(Due(ExecAll(w, cmds)), Due(Exec(w, c)), Due(w));
    }
  }

  lemma {:induction false} DueRearmSub(w: Wheel, t: Id)
    requires w.Inv(w.now) && t in w.timers
    ensures Sub(Due(Rearm(w, t)), Due(w))
  {
    hide Ordered, InTurn, Distinct, Ready, StartTimer;
    SubSelf(Due(w));
    DueStartSub(SetFlag(w, t, false), t);
  }

  /** The timer that fires has left the list; no timer becomes due on the way. */
  lemma {:induction false} DueFireSub(w: Wheel, acts: Script)
    requires w.Inv(w.now) && w.pending != [] && LegalScript(w.timers.Keys, acts)
    requires w.pending[0] in w.due && w.due[w.pending[0]] <= w.now && w.pending[0] in w.timers
    ensures Due(w) != [] && Due(w)[0] == w.pending[0] && Sub(Due(Fire(w, acts)), Due(w)[1..])
  {
    hide Ordered, InTurn, Distinct, ExecAll, Rearm;
    var t := w.pending[0];
    PopInv(w, w.now);
    var p := w.(pending := w.pending[1..], log := w.log + [(t, w.now)]);
    var e := ExecAll(p, CmdsOf(acts, t));
    ExecAllInv(p, CmdsOf(acts, t), w.now);
    DueExecSub(p, CmdsOf(acts, t));
    DueRearmSub(e, t);
    SubTransitive(Due(Rearm(e, t)), Due(e), Due(p));
    assert Due(w)[1..] == Due(p);
  }

  // ---------------------------------------------------- timers left alone

  /** No timeout function of the script touches t. */
  ghost predicate Untouched(acts: Script, t: Id) {
    forall u :: u in acts ==> Spares(acts[u], t)
  }

  ghost predicate Spares(cmds: seq<Cmd>, t: Id) {
    forall c :: c in cmds ==> c.t != t
  }

  /** No timeout function but t's own touches t. */
  ghost predicate OthersSpare(acts: Script, t: Id) {
    forall u :: u in acts && u != t ==> Spares(acts[u], t)
  }

  /** t is the same timer in the same place in both states. */
  ghost predicate Same(w: Wheel, g: Wheel, t: Id) {
    && t in w.timers && t in g.timers && g.timers[t] == w.timers[t]
    && (t in g.pending <==> t in w.pending)
    && (t in w.due ==> t in g.due && g.due[t] == w.due[t])
  }

  lemma {:induction false} ExecSpares(w: Wheel, c: Cmd, t: Id)
    requires w.Inv(w.now) && LegalCmd(w.timers.Keys, c) && c.t != t && t in w.timers
    ensures Same(w, Exec(w, c), t)
  {
    hide Ordered, InTurn, Distinct, Remove, Insert;
    match c
    case Start(u) => StartInv(w, u, w.now);
    case Stop(u) => StopInv(w, u, w.now);
    case SetTime(u, n) =>
    case SetMode(u, p) =>
  }

  lemma {:induction false} ExecAllSpares(w: Wheel, cmds: seq<Cmd>, t: Id)
    requires w.Inv(w.now) && LegalCmds(w.timers.Keys, cmds) && Spares(cmds, t) && t in w.timers
    ensures Same(w, ExecAll(w, cmds), t)
    decreases |cmds|
  {
    hide Exec, Ordered, InTurn, Distinct;
    if cmds != [] {
      assert cmds[0] in cmds;
      assert LegalCmd(w.timers.Keys, cmds[0]);
      ExecSpares(w, cmds[0], t);
      ExecInv(w, cmds[0], w.now);
      ExecAllSpares(Exec(w, cmds[0]), cmds[1..], t);
    }
  }

  lemma {:induction false} RearmSpares(w: Wheel, u: Id, t: Id)
    requires w.Inv(w.now) && u in w.timers && t in w.timers && t != u
    ensures Same(w, Rearm(w, u), t)
  {
    hide Ordered, InTurn, Distinct, Remove, Insert;
    StartInv(SetFlag(w, u, false), u, w.now);
  }

  /** Another timer's firing leaves t alone. */
  lemma {:induction false} FireSpares(w: Wheel, acts: Script, t: Id)
    requires w.Inv(w.now) && w.pending != [] && LegalScript(w.timers.Keys, acts) && OthersSpare(acts, t)
    requires t in w.timers && t != w.pending[0] && w.pending[0] in w.timers
    ensures Same(w, Fire(w, acts), t)
  {
    hide Ordered, InTurn, Distinct, ExecAll, Rearm;
    var u := w.pending[0];
    PopInv(w, w.now);
    var p := w.(pending := w.pending[1..], log := w.log + [(u, w.now)]);
    assert Same(w, p, t);
    var e := ExecAll(p, CmdsOf(acts, u));
    ExecAllInv(p, CmdsOf(acts, u), w.now);
    ExecAllSpares(p, CmdsOf(acts, u), t);
    RearmSpares(e, u, t);
  }

  // ------------------------------------------------------- what a check fires

  ghost predicate HeadDue(w: Wheel) {
    w.pending != [] && w.pending[0] in w.due && w.due[w.pending[0]] <= w.now
  }

  lemma {:induction false} CheckStep(w: Wheel, acts: Script)
    requires w.Inv(w.now) && LegalScript(w.timers.Keys, acts) && HeadDue(w)
    ensures w.pending[0] in w.timers
    ensures var g := Fire(w, acts);
      && g.Inv(g.now) && g.now == w.now && g.timers.Keys == w.timers.Keys && Check(w, acts) == Check(g, acts)
      && g.log == w.log + [(w.pending[0], w.now)]
      && DueCount(g.pending, g.due, g.now) < DueCount(w.pending, w.due, w.now)
  {
    hide Fire;
    FireInv(w, acts);
    FireShrinks(w, acts);
  }

  lemma {:induction false} CheckDone(w: Wheel, acts: Script)
    requires w.Inv(w.now) && LegalScript(w.timers.Keys, acts) && !HeadDue(w)
    ensures Check(w, acts) == w
    ensures forall t :: t in w.pending ==> t in w.due && w.due[t] > w.now
  {
    forall t | t in w.pending ensures t in w.due && w.due[t] > w.now { assert t == w.pending[0] || t in w.pending[1..]; }
  }

  function Stamped(ids: seq<Id>, now: nat): seq<(Id, nat)> {
    if ids == [] then [] else [(ids[0], now)] + Stamped(ids[1..], now)
  }

  /** rt_timer_check fires due timers only, each at most once, in deadline-then-
      start order, and every due timer that no timeout function touches fires. */
  lemma {:induction false} CheckFires(w: Wheel, acts: Script) returns (ids: seq<Id>)
    requires w.Inv(w.now) && LegalScript(w.timers.Keys, acts)
    ensures Check(w, acts).log == w.log + Stamped(ids, w.now)
    ensures Sub(ids, Due(w)) && Distinct(ids) && InTurn(ids, w.due, w.born)
    ensures forall t :: t in w.pending && w.due[t] <= w.now && Untouched(acts, t) ==> t in ids
    decreases DueCount(w.pending, w.due, w.now)
  {
    ids := CheckFiresDue(w, acts);
    ReadySub(w.pending, w.due, w.now);
    SubTransitive(ids, Due(w), w.pending);
    SubDistinct(ids, w.pending);
    SubInTurn(ids, w.pending, w.due, w.born);
  }

  lemma {:induction false} CheckFiresDue(w: Wheel, acts: Script) returns (ids: seq<Id>)
    requires w.Inv(w.now) && LegalScript(w.timers.Keys, acts)
    ensures Check(w, acts).log == w.log + Stamped(ids, w.now)
    ensures Sub(ids, Due(w))
    ensures forall t :: t in w.pending && w.due[t] <= w.now && Untouched(acts, t) ==> t in ids
    decreases DueCount(w.pending, w.due, w.now)
  {
    hide Check, Fire, Wheel.Inv, LegalScript, Due, Untouched;
    InvKnown(w);
    if HeadDue(w) {
      CheckStep(w, acts);
      var u, g := w.pending[0], Fire(w, acts);
      InvKnown(g);
      DueFireSub(w, acts);
      var rest := CheckFiresDue(g, acts);
      ids := [u] + rest;
      Cons(u, rest);
      SubTransitive(rest, Due(g), Due(w)[1..]);
      forall t | t in w.pending && w.due[t] <= w.now && Untouched(acts, t) ensures t in ids {
        if t != u { StillDue(w, acts, t); }
      }
    } else {
      ids := [];
      CheckDone(w, acts);
    }
  }

  lemma {:induction false} InvKnown(w: Wheel)
    requires w.Inv(w.now)
    ensures Known(w.pending, w.due)
  {
  }

  lemma {:induction false} StillDue(w: Wheel, acts: Script, t: Id)
    requires w.Inv(w.now) && w.pending != [] && LegalScript(w.timers.Keys, acts) && Untouched(acts, t)
    requires t in w.pending && t in w.due && t != w.pending[0] && w.pending[0] in w.timers
    ensures t in Fire(w, acts).pending && t in Fire(w, acts).due && Fire(w, acts).due[t] == w.due[t]
  {
    hide Fire;
    FireSpares(w, acts, t);
  }

  /** When no timeout function touches a due timer, exactly the due timers fire. */
  lemma {:induction false} CheckFiresExactly(w: Wheel, acts: Script)
    requires w.Inv(w.now) && LegalScript(w.timers.Keys, acts)
    requires forall t :: t in Due(w) ==> Untouched(acts, t)
    ensures Check(w, acts).log == w.log + Stamped(Due(w), w.now)
  {
    var ids := CheckFires(w, acts);
    ReadyMembers(w.pending, w.due, w.now);
    ReadySub(w.pending, w.due, w.now);
    SubDistinct(Due(w), w.pending);
    SubFull(ids, Due(w));
  }

  /** After a check nothing due is left. */
  lemma {:induction false} CheckQuiet(w: Wheel, acts: Script)
    requires w.Inv(w.now) && LegalScript(w.timers.Keys, acts)
    ensures Check(w, acts).Quiet()
    decreases DueCount(w.pending, w.due, w.now)
  {
    if HeadDue(w) {
      CheckStep(w, acts);
      CheckQuiet(Fire(w, acts), acts);
    } else {
      CheckDone(w, acts);
    }
  }

  // ----------------------------------------------------------- one timer

  /** t waits to fire at tick d. */
  ghost predicate Runs(w: Wheel, t: Id, d: nat) {
    t in w.timers && w.timers[t].active && t in w.pending && t in w.due && w.due[t] == d
  }

  ghost predicate Idle(w: Wheel, t: Id) {
    t in w.timers && !w.timers[t].active && t !in w.pending
  }

  /** The ticks at which t fired. */
  function Hits(log: seq<(Id, nat)>, t: Id): seq<nat> {
    if log == [] then []
    else Hits(log[..|log| - 1], t) + (if log[|log| - 1].0 == t then [log[|log| - 1].1] else [])
  }

  lemma {:induction false} HitsOneMore(log: seq<(Id, nat)>, u: Id, now: nat, t: Id)
    ensures Hits(log + [(u, now)], t) == Hits(log, t) + (if u == t then [now] else [])
  {
    assert (log + [(u, now)])[..|log|] == log;
  }

  /** A timer that fires and is not touched goes on if periodic, else stops. */
  lemma {:induction false} FireSelf(w: Wheel, acts: Script)
    requires w.Inv(w.now) && w.pending != [] && LegalScript(w.timers.Keys, acts)
    requires w.pending[0] in w.timers && w.timers[w.pending[0]].active && Untouched(acts, w.pending[0])
    ensures var t, g := w.pending[0], Fire(w, acts);
      && g.timers[t] == w.timers[t].(active := w.timers[t].periodic)
      && if w.timers[t].periodic then Runs(g, t, w.now + w.timers[t].init) else Idle(g, t)
  {
    hide Ordered, InTurn, ExecAll;
    var t := w.pending[0];
    PopInv(w, w.now);
    var p := w.(pending := w.pending[1..], log := w.log + [(t, w.now)]);
    ExecAllInv(p, CmdsOf(acts, t), w.now);
    ExecAllSpares(p, CmdsOf(acts, t), t);
    var e := ExecAll(p, CmdsOf(acts, t));
    assert e.timers[t] == w.timers[t] && t !in e.pending;
    hide Insert, Remove;
    StartInv(SetFlag(e, t, false), t, w.now);
  }

  /** t is still waiting for tick d and has not fired. */
  ghost predicate Waits(w: Wheel, g: Wheel, t: Id, d: nat) {
    Runs(g, t, d) && t in w.timers && g.timers[t] == w.timers[t] && Hits(g.log, t) == Hits(w.log, t)
  }

  /** t has fired once, at tick d, and goes on exactly if it is periodic. */
  ghost predicate Fired(w: Wheel, g: Wheel, t: Id, d: nat) {
    && t in w.timers && t in g.timers && g.timers[t] == w.timers[t].(active := w.timers[t].periodic)
    && Hits(g.log, t) == Hits(w.log, t) + [d]
    && if w.timers[t].periodic then Runs(g, t, d + w.timers[t].init) else Idle(g, t)
  }

  /** A check does not fire an untouched timer before its deadline. */
  lemma {:induction false} CheckWaits(w: Wheel, acts: Script, t: Id, d: nat)
    requires w.Inv(w.now) && LegalScript(w.timers.Keys, acts) && Untouched(acts, t) && Runs(w, t, d) && w.now < d
    ensures Waits(w, Check(w, acts), t, d)
    decreases DueCount(w.pending, w.due, w.now)
  {
    if HeadDue(w) {
      CheckStep(w, acts);
      HitsOneMore(w.log, w.pending[0], w.now, t);
      FireSpares(w, acts, t);
      hide Check, Fire, Wheel.Inv, Hits, DueCount;
      CheckWaits(Fire(w, acts), acts, t, d);
    } else {
      CheckDone(w, acts);
    }
  }

  /** A check fires an untouched timer that is due. */
  lemma {:induction false} CheckHits(w: Wheel, acts: Script, t: Id, d: nat)
    requires w.Inv(w.now) && LegalScript(w.timers.Keys, acts) && Untouched(acts, t) && Runs(w, t, d) && d <= w.now
    ensures Fired(w, Check(w, acts), t, w.now)
    decreases DueCount(w.pending, w.due, w.now)
  {
    if HeadDue(w) {
      var g := Fire(w, acts);
      CheckStep(w, acts);
      HitsOneMore(w.log, w.pending[0], w.now, t);
      if w.pending[0] == t {
        CheckHitsHead(w, acts);
      } else {
        FireSpares(w, acts, t);
        hide Check, Fire, Wheel.Inv, Hits, DueCount;
        CheckHits(g, acts, t, d);
      }
    } else {
      CheckDone(w, acts);
    }
  }

  lemma {:induction false} CheckHitsHead(w: Wheel, acts: Script)
    requires w.Inv(w.now) && LegalScript(w.timers.Keys, acts) && HeadDue(w) && Untouched(acts, w.pending[0])
    requires Runs(w, w.pending[0], w.due[w.pending[0]])
    ensures Fired(w, Check(w, acts), w.pending[0], w.now)
  {
    var t, g := w.pending[0], Fire(w, acts);
    CheckStep(w, acts);
    HitsOneMore(w.log, t, w.now, t);
    FireSelf(w, acts);
    assert w.timers[t].init > 0;
    hide Check, Fire, Wheel.Inv, Hits, DueCount;
    if w.timers[t].periodic {
      CheckWaits(g, acts, t, w.now + w.timers[t].init);
    } else {
      CheckIdle(g, acts, t);
    }
  }

  lemma {:induction false} CheckIdle(w: Wheel, acts: Script, t: Id)
    requires w.Inv(w.now) && LegalScript(w.timers.Keys, acts) && OthersSpare(acts, t) && Idle(w, t)
    ensures var g := Check(w, acts);
      Idle(g, t) && g.timers[t] == w.timers[t] && Hits(g.log, t) == Hits(w.log, t)
    decreases DueCount(w.pending, w.due, w.now)
  {
    if HeadDue(w) {
      CheckStep(w, acts);
      HitsOneMore(w.log, w.pending[0], w.now, t);
      assert w.pending[0] in w.pending;
      FireSpares(w, acts, t);
      hide Check, Fire, Wheel.Inv, Hits, DueCount;
      CheckIdle(Fire(w, acts), acts, t);
    } else {
      CheckDone(w, acts);
    }
  }

  // ------------------------------------------------------------- whole runs

  datatype Op = User(c: Cmd) | OnTick(acts: Script)

  ghost predicate Legal(w: Wheel, op: Op) {
    match op
    case User(c) => LegalCmd(w.timers.Keys, c)
    case OnTick(acts) => LegalScript(w.timers.Keys, acts)
  }

  ghost function Step(w: Wheel, op: Op): Wheel
    requires w.Quiet() && Legal(w, op)
  {
    match op
    case User(c) => Exec(w, c)
    case OnTick(acts) => Tick(w, acts)
  }

  lemma {:induction false} StepQuiet(w: Wheel, op: Op)
    requires w.Quiet() && Legal(w, op)
    ensures Step(w, op).Quiet() && Step(w, op).now == w.now + (if op.OnTick? then 1 else 0)
    ensures Step(w, op).timers.Keys == w.timers.Keys
  {
    if op.OnTick? {
      CheckQuiet(w.(now := w.now + 1), op.acts);
    } else {
      ExecInv(w, op.c, w.now + 1);
    }
  }

  ghost predicate Reaches(w: Wheel, ops: seq<Op>, g: Wheel)
    requires w.Quiet()
    decreases |ops|
  {
    if ops == [] then g == w
    else Legal(w, ops[0]) && (StepQuiet(w, ops[0]); Reaches(Step(w, ops[0]), ops[1..], g))
  }

  lemma {:induction false} RunQuiet(w: Wheel, ops: seq<Op>, g: Wheel)
    requires w.Quiet() && Reaches(w, ops, g)
    ensures g.Quiet() && w.now <= g.now
    decreases |ops|
  {
    hide Step, Wheel.Quiet;
    if ops != [] {
      StepQuiet(w, ops[0]);
      RunQuiet(Step(w, ops[0]), ops[1..], g);
    }
  }

  lemma {:induction false} Along(w: Wheel, ops: seq<Op>, g: Wheel)
    requires w.Quiet() && Reaches(w, ops, g) && ops != []
    ensures Legal(w, ops[0])
    ensures var m := Step(w, ops[0]); m.Quiet() && Reaches(m, ops[1..], g) && m.now <= g.now
  {
    hide Step;
    StepQuiet(w, ops[0]);
    RunQuiet(Step(w, ops[0]), ops[1..], g);
  }

  ghost predicate Ignores(op: Op, t: Id) {
    match op case User(c) => c.t != t case OnTick(acts) => Untouched(acts, t)
  }

  /** Nothing in the run touches t. */
  ghost predicate LeavesAlone(ops: seq<Op>, t: Id) {
    ops == [] || (Ignores(ops[0], t) && LeavesAlone(ops[1..], t))
  }

  /** d, d + i, d + 2 * i, ... up to now. */
  function Beats(d: nat, i: nat, now: nat): seq<nat>
    requires i > 0
    decreases now + 1 - d
  {
    if d > now then [] else [d] + Beats(d + i, i, now)
  }

  lemma {:induction false} BeatsAre(d: nat, i: nat, now: nat, k: nat)
    requires i > 0
    ensures k < |Beats(d, i, now)| <==> d + k * i <= now
    ensures k < |Beats(d, i, now)| ==> Beats(d, i, now)[k] == d + k * i
    decreases now + 1 - d
  {
    if d > now {
      assert k * i >= 0;
    } else if k > 0 {
      BeatsAre(d + i, i, now, k - 1);
      assert d + i + (k - 1) * i == d + k * i;
    }
  }

  ghost predicate Fires(w: Wheel, op: Op, d: nat) {
    op.OnTick? && d == w.now + 1
  }

  lemma {:induction false} StepWaits(w: Wheel, op: Op, t: Id, d: nat)
    requires w.Quiet() && Legal(w, op) && Ignores(op, t) && Runs(w, t, d) && !Fires(w, op, d)
    ensures Waits(w, Step(w, op), t, d)
  {
    hide Ordered, InTurn, Distinct, Check;
    if op.OnTick? {
      CheckWaits(w.(now := w.now + 1), op.acts, t, d);
    } else {
      ExecSpares(w, op.c, t);
      hide Exec;
    }
  }

  lemma {:induction false} StepFires(w: Wheel, op: Op, t: Id, d: nat)
    requires w.Quiet() && Legal(w, op) && Ignores(op, t) && Runs(w, t, d) && Fires(w, op, d)
    ensures Fired(w, Step(w, op), t, d)
  {
    hide Ordered, InTurn, Distinct, Check;
    CheckHits(w.(now := w.now + 1), op.acts, t, d);
  }

  lemma {:induction false} StepIdle(w: Wheel, op: Op, t: Id)
    requires w.Quiet() && Legal(w, op) && Ignores(op, t) && Idle(w, t)
    ensures Idle(Step(w, op), t) && Hits(Step(w, op).log, t) == Hits(w.log, t)
  {
    hide Ordered, InTurn, Distinct;
    if op.OnTick? {
      CheckIdle(w.(now := w.now + 1), op.acts, t);
    } else {
      ExecSpares(w, op.c, t);
    }
  }

  lemma {:induction false} DueLater(w: Wheel, t: Id, d: nat)
    requires w.Quiet() && Runs(w, t, d)
    ensures w.now < d && w.timers[t].init > 0
  {
  }

  lemma {:induction false} RunsNowhere(w: Wheel, g: Wheel)
    requires w.Quiet() && Reaches(w, [], g)
    ensures g == w
  {
  }

  /** A periodic timer fires at d, d + init, d + 2 * init, ...: no drift, no miss. */
  lemma {:induction false} PeriodicNoDrift(w: Wheel, ops: seq<Op>, g: Wheel, t: Id, d: nat)
    requires w.Quiet() && Reaches(w, ops, g) && LeavesAlone(ops, t) && Runs(w, t, d) && w.timers[t].periodic
    ensures w.timers[t].init > 0
    ensures Hits(g.log, t) == Hits(w.log, t) + Beats(d, w.timers[t].init, g.now)
    decreases |ops|
  {
    hide Step, Wheel.Quiet, Hits, Reaches, Legal, Ignores;
    DueLater(w, t, d);
    if ops == [] {
      RunsNowhere(w, g);
      assert Beats(d, w.timers[t].init, g.now) == [];
    } else {
      hide Beats;
      Along(w, ops, g);
      var m := Step(w, ops[0]);
      if Fires(w, ops[0], d) {
        StepFires(w, ops[0], t, d);
        StepQuiet(w, ops[0]);
        PeriodicNoDrift(m, ops[1..], g, t, d + w.timers[t].init);
        OneBeat(w, m, g, t, d);
      } else {
        StepWaits(w, ops[0], t, d);
        PeriodicNoDrift(m, ops[1..], g, t, d);
      }
    }
  }

  lemma {:induction false} OneBeat(w: Wheel, m: Wheel, g: Wheel, t: Id, d: nat)
    requires Fired(w, m, t, d) && d <= g.now && w.timers[t].init > 0
    requires Hits(g.log, t) == Hits(m.log, t) + Beats(d + w.timers[t].init, w.timers[t].init, g.now)
    ensures Hits(g.log, t) == Hits(w.log, t) + Beats(d, w.timers[t].init, g.now)
  {
    hide Hits;
  }

  /** A one-shot timer fires once, at its deadline, and is stopped afterwards. */
  lemma {:induction false} OneShotOnce(w: Wheel, ops: seq<Op>, g: Wheel, t: Id, d: nat)
    requires w.Quiet() && Reaches(w, ops, g) && LeavesAlone(ops, t) && Runs(w, t, d) && !w.timers[t].periodic
    ensures Hits(g.log, t) == Hits(w.log, t) + (if d <= g.now then [d] else [])
    ensures if d <= g.now then Idle(g, t) else Runs(g, t, d)
    decreases |ops|
  {
    assert w.now < d;
    if ops != [] {
      Along(w, ops, g);
      var m := Step(w, ops[0]);
      hide Step, Wheel.Quiet, Hits, Reaches, Legal, Ignores;
      if Fires(w, ops[0], d) {
        StepFires(w, ops[0], t, d);
        StaysIdle(m, ops[1..], g, t);
      } else {
        StepWaits(w, ops[0], t, d);
        OneShotOnce(m, ops[1..], g, t, d);
      }
    }
  }

  /** A stopped timer does not fire. */
  lemma {:induction false} StaysIdle(w: Wheel, ops: seq<Op>, g: Wheel, t: Id)
    requires w.Quiet() && Reaches(w, ops, g) && LeavesAlone(ops, t) && Idle(w, t)
    ensures Idle(g, t) && Hits(g.log, t) == Hits(w.log, t)
    decreases |ops|
  {
    if ops != [] {
      StepIdle(w, ops[0], t);
      StepQuiet(w, ops[0]);
      hide Step, Wheel.Quiet, Hits;
      StaysIdle(Step(w, ops[0]), ops[1..], g, t);
    }
  }

  lemma {:induction false} StartRuns(w: Wheel, t: Id)
    requires w.Quiet() && t in w.timers
    ensures var s, i := StartTimer(w, t), w.timers[t].init;
      i > 0 && s.Quiet() && Runs(s, t, w.now + i) && s.timers[t] == w.timers[t].(active := true) && s.log == w.log
  {
    StartInv(w, t, w.now + 1);
    hide Insert, Remove, Ordered, Distinct, InTurn;
  }

  lemma {:induction false} QuietKnown(w: Wheel)
    requires w.Quiet()
    ensures Known(w.pending, w.due)
  {
  }

  /** From rt_timer_start on: the first firing is init ticks after the start. */
  lemma {:induction false} StartedFires(w: Wheel, t: Id, ops: seq<Op>, g: Wheel)
    requires w.Quiet() && t in w.timers && StartTimer(w, t).Quiet()
    requires Reaches(StartTimer(w, t), ops, g) && LeavesAlone(ops, t)
    ensures var i := w.timers[t].init;
      i > 0 && Hits(g.log, t) == Hits(w.log, t)
        + if w.timers[t].periodic then Beats(w.now + i, i, g.now) else if w.now + i <= g.now then [w.now + i] else []
  {
    hide StartTimer, Wheel.Quiet, Reaches, Hits, Beats, LeavesAlone;
    QuietKnown(w);
    StartRuns(w, t);
    if w.timers[t].periodic {
      PeriodicNoDrift(StartTimer(w, t), ops, g, t, w.now + w.timers[t].init);
    } else {
      OneShotOnce(StartTimer(w, t), ops, g, t, w.now + w.timers[t].init);
    }
  }

  // --------------------------------------------- what each call does

  /** rt_timer_stop succeeds exactly for an activated timer, which is then neither
      linked nor activated; no other timer changes, nor the order of the list. */
  lemma {:induction false} StopExact(w: Wheel, t: Id)
    requires w.Quiet() && t in w.timers
    ensures var (g, ok) := StopTimer(w, t);
      && (ok <==> w.timers[t].active) && (!ok ==> g == w)
      && (ok ==> g == w.(pending := g.pending, timers := w.timers[t := w.timers[t].(active := false)]))
      && (ok ==> Sub(g.pending, w.pending) && forall x :: x in g.pending <==> x != t && x in w.pending)
  {
    hide Remove, Ordered, InTurn, Sub, Distinct;
    RemoveMembers(w.pending, t);
    RemoveIsSub(w.pending, t);
  }

  /** rt_timer_start links t for init ticks from now, as the latest start, behind all
      timers due no later; the others keep their order. */
  lemma {:induction false} StartExact(w: Wheel, t: Id)
    requires w.Quiet() && t in w.timers
    ensures var g, d := StartTimer(w, t), w.now + w.timers[t].init;
      && g == w.(pending := g.pending, due := w.due[t := d], born := w.born[t := w.starts], starts := w.starts + 1,
                 timers := w.timers[t := w.timers[t].(active := true)])
      && g.Quiet() && Remove(g.pending, t) == Remove(w.pending, t) && t in g.pending
  {
    hide Insert, Remove, Ordered, Distinct, InTurn, Wheel.Quiet;
    QuietKnown(w);
    StartQuiet(w, t);
    var s, due := Remove(w.pending, t), w.due[t := w.now + w.timers[t].init];
    RemoveSubset(w.pending, t);
    RemoveInserted(s, t, due);
  }

  lemma {:induction false} StartQuiet(w: Wheel, t: Id)
    requires w.Quiet() && t in w.timers
    ensures StartTimer(w, t).Quiet() && t in StartTimer(w, t).pending && t !in Remove(w.pending, t)
  {
    StartInv(w, t, w.now + 1);
    RemoveMembers(w.pending, t);
    hide StartTimer, Remove, Ordered, InTurn;
  }

  lemma {:induction false} RemoveInserted(s: seq<nat>, t: nat, key: Key)
    requires Known(s, key) && t in key && t !in s
    ensures Remove(Insert(s, t, key), t) == s
  {
    if s == [] || key[t] < key[s[0]] {
      Cons(t, s);
    } else {
      RemoveInserted(s[1..], t, key);
      Cons(s[0], Insert(s[1..], t, key));
    }
  }

  /** The control commands set what they are told to set. */
  lemma {:induction false} ControlExact(w: Wheel, t: Id, n: nat, periodic: bool)
    requires w.Quiet() && t in w.timers && 1 <= n < HALF
    ensures LegalCmd(w.timers.Keys, SetTime(t, n)) && LegalCmd(w.timers.Keys, SetMode(t, periodic))
    ensures Exec(w, SetTime(t, n)) == w.(timers := w.timers[t := w.timers[t].(init := n)])
    ensures Exec(w, SetMode(t, periodic)) == w.(timers := w.timers[t := w.timers[t].(periodic := periodic)])
  {
  }

  // --------------------------------------------- the ACTIVATED flag

  /** Whether t ends up started by the commands, on says how it begins. */
  ghost predicate Ends(cmds: seq<Cmd>, t: Id, on: bool) {
    if cmds == [] then on
    else Ends(cmds[1..], t, if cmds[0] == Start(t) then true else if cmds[0] == Stop(t) then false else on)
  }

  /** Whether t ends up periodic. */
  ghost predicate EndsPeriodic(cmds: seq<Cmd>, t: Id, p: bool) {
    if cmds == [] then p
    else EndsPeriodic(cmds[1..], t, if cmds[0].SetMode? && cmds[0].t == t then cmds[0].periodic else p)
  }

  ghost predicate FlagTrue(w: Wheel, t: Id) {
    t in w.timers ==> (w.timers[t].active <==> t in w.pending)
  }

  ghost predicate OthersTrue(w: Wheel, t: Id) {
    forall x :: x != t ==> FlagTrue(w, x)
  }

  lemma {:induction false} ExecFlag(w: Wheel, c: Cmd, x: Id)
    requires w.Inv(w.now) && LegalCmd(w.timers.Keys, c) && FlagTrue(w, x)
    ensures FlagTrue(Exec(w, c), x)
  {
    hide Ordered, InTurn, Distinct, Remove, Insert;
    match c
    case Start(u) => StartInv(w, u, w.now);
    case Stop(u) => StopInv(w, u, w.now);
    case SetTime(u, n) =>
    case SetMode(u, p) =>
  }

  /** While its own timeout function runs, a linked timer is always activated. */
  lemma {:induction false} ExecOwn(w: Wheel, c: Cmd, t: Id)
    requires w.Inv(w.now) && LegalCmd(w.timers.Keys, c) && t in w.timers
    requires t in w.pending ==> w.timers[t].active
    ensures var g, on := Exec(w, c), t in w.pending;
      && (t in g.pending ==> g.timers[t].active)
      && (t in g.pending <==> if c == Start(t) then true else if c == Stop(t) then false else on)
      && g.timers[t].periodic == (if c.SetMode? && c.t == t then c.periodic else w.timers[t].periodic)
  {
    hide Ordered, InTurn, Distinct, Remove, Insert;
    match c
    case Start(u) => StartInv(w, u, w.now);
    case Stop(u) => StopInv(w, u, w.now);
    case SetTime(u, n) =>
    case SetMode(u, p) =>
  }

  lemma {:induction false} ExecAllOwn(w: Wheel, cmds: seq<Cmd>, t: Id)
    requires w.Inv(w.now) && LegalCmds(w.timers.Keys, cmds) && t in w.timers && OthersTrue(w, t)
    requires t in w.pending ==> w.timers[t].active
    ensures var g := ExecAll(w, cmds);
      && OthersTrue(g, t) && (t in g.pending ==> g.timers[t].active)
      && (t in g.pending <==> Ends(cmds, t, t in w.pending))
      && g.timers[t].periodic == EndsPeriodic(cmds, t, w.timers[t].periodic)
    decreases |cmds|
  {
    if cmds != [] {
      var g := Exec(w, cmds[0]);
      assert LegalCmd(w.timers.Keys, cmds[0]);
      ExecInv(w, cmds[0], w.now);
      ExecOwn(w, cmds[0], t);
      forall x | x != t ensures FlagTrue(g, x) { ExecFlag(w, cmds[0], x); }
      hide Exec, Ordered, InTurn, Distinct;
      ExecAllOwn(g, cmds[1..], t);
    }
  }

  /** After a timer has fired every flag is true again, unless its own timeout
      function left it started as a one-shot: then it is linked but its flag is
      cleared. */
  lemma {:induction false} FireFlagsIff(w: Wheel, acts: Script)
    requires w.Inv(w.now) && w.FlagsTrue() && w.pending != [] && LegalScript(w.timers.Keys, acts)
    requires w.pending[0] in w.timers
    ensures var t := w.pending[0];
      Fire(w, acts).FlagsTrue() <==>
        EndsPeriodic(CmdsOf(acts, t), t, w.timers[t].periodic) || !Ends(CmdsOf(acts, t), t, false)
  {
    hide Ordered, InTurn, ExecAll, Ends, EndsPeriodic;
    var t := w.pending[0];
    PopInv(w, w.now);
    var p := w.(pending := w.pending[1..], log := w.log + [(t, w.now)]);
    var e := ExecAll(p, CmdsOf(acts, t));
    assert OthersTrue(p, t) by {
      forall x | x != t ensures FlagTrue(p, x) { assert x in w.pending <==> x == t || x in w.pending[1..]; }
    }
    ExecAllInv(p, CmdsOf(acts, t), w.now);
    ExecAllOwn(p, CmdsOf(acts, t), t);
    RearmFlags(e, t);
  }

  lemma {:induction false} RearmFlags(w: Wheel, t: Id)
    requires w.Inv(w.now) && t in w.timers && OthersTrue(w, t) && (t in w.pending ==> w.timers[t].active)
    ensures Rearm(w, t).FlagsTrue() <==> w.timers[t].periodic || t !in w.pending
  {
    hide Ordered, InTurn, Distinct, Insert, Remove;
    var s := SetFlag(w, t, false);
    StartInv(s, t, w.now);
    var g := Rearm(w, t);
    forall x | x in g.timers && x != t ensures g.timers[x].active <==> x in g.pending { assert FlagTrue(w, x); }
  }

  /** No timeout function of the script leaves its own timer started. */
  ghost predicate NoSelfStart(acts: Script) {
    forall t :: t in acts ==> !Ends(acts[t], t, false)
  }

  lemma {:induction false} CheckFlags(w: Wheel, acts: Script)
    requires w.Inv(w.now) && w.FlagsTrue() && LegalScript(w.timers.Keys, acts) && NoSelfStart(acts)
    ensures Check(w, acts).FlagsTrue()
    decreases DueCount(w.pending, w.due, w.now)
  {
    if HeadDue(w) {
      CheckStep(w, acts);
      FireFlagsIff(w, acts);
      hide Fire, Check, Wheel.Inv, Wheel.FlagsTrue;
      CheckFlags(Fire(w, acts), acts);
    }
  }

  ghost predicate NoneSelfStarts(ops: seq<Op>) {
    ops == [] || ((ops[0].OnTick? ==> NoSelfStart(ops[0].acts)) && NoneSelfStarts(ops[1..]))
  }

  /** Linked exactly when activated, in every state of every run in which no
      timeout function restarts its own timer. */
  lemma {:induction false} RunFlags(w: Wheel, ops: seq<Op>, g: Wheel)
    requires w.Quiet() && w.FlagsTrue() && Reaches(w, ops, g) && NoneSelfStarts(ops)
    ensures g.FlagsTrue()
    decreases |ops|
  {
    if ops != [] {
      Along(w, ops, g);
      StepFlags(w, ops[0]);
      hide Step, Wheel.Quiet, Wheel.FlagsTrue;
      RunFlags(Step(w, ops[0]), ops[1..], g);
    }
  }

  lemma {:induction false} StepFlags(w: Wheel, op: Op)
    requires w.Quiet() && w.FlagsTrue() && Legal(w, op) && (op.OnTick? ==> NoSelfStart(op.acts))
    ensures Step(w, op).FlagsTrue()
  {
    hide Ordered, InTurn, Distinct;
    if op.OnTick? {
      CheckFlags(w.(now := w.now + 1), op.acts);
    } else {
      forall x ensures FlagTrue(Step(w, op), x) { ExecFlag(w, op.c, x); }
      forall x | x in Step(w, op).timers ensures Step(w, op).timers[x].active <==> x in Step(w, op).pending {
        assert FlagTrue(Step(w, op), x);
      }
    }
  }

  /** The exception is real: a one-shot timer that its timeout function starts
      again stays linked with its flag cleared, so rt_timer_stop refuses it and
      it fires once more. */
  lemma {:induction false} SelfRestartCannotBeStopped()
    ensures var w, acts := SelfStarter(), map[7 := [Start(7)]];
      && w.Quiet() && w.FlagsTrue() && LegalScript(w.timers.Keys, acts)
      && var g := Tick(w, acts);
         && 7 in g.pending && 7 in g.timers && !g.timers[7].active && Known(g.pending, g.due) && StopTimer(g, 7) == (g, false)
         && g.Quiet() && exists h :: Reaches(g, [User(Stop(7))] + Ticks(5), h) && h.log == [(7, 1), (7, 6)]
  {
    hide Tick, Wheel.Quiet, Step, Wheel.FlagsTrue, LegalScript, Legal;
    var g, rest := Restarted(1), Ticks(5);
    RestartStays();
    RestartedQuiet(1);
    StoppedSame(g);
    var h := StubbornTicks(1);
    assert ([User(Stop(7))] + rest)[1..] == rest;
    assert Reaches(g, [User(Stop(7))] + rest, h);
  }

  /** Timer 7, a one-shot of 5 ticks, is due at tick 1. */
  ghost function SelfStarter(): Wheel {
    Wheel(0, [7], map[7 := 1], map[7 := Timer(5, false, true)], map[7 := 0], 1, [])
  }

  /** Timer 7, started again by its own timeout function at tick 1, as it is at tick `now`. */
  ghost function Restarted(now: nat): Wheel {
    Wheel(now, [7], map[7 := 6], map[7 := Timer(5, false, false)], map[7 := 1], 2, [(7, 1)])
  }

  lemma {:induction false} StoppedSame(g: Wheel)
    requires g == Restarted(1) && g.Quiet()
    ensures Legal(g, User(Stop(7))) && Step(g, User(Stop(7))) == g && StopTimer(g, 7) == (g, false)
  {
    hide Wheel.Quiet;
  }

  lemma {:induction false} RestartStays()
    ensures var w, acts := SelfStarter(), map[7 := [Start(7)]];
      w.Quiet() && w.FlagsTrue() && LegalScript(w.timers.Keys, acts) && Tick(w, acts) == Restarted(1)
  {
    var w, acts: Script := SelfStarter(), map[7 := [Start(7)]];
    var v := w.(now := 1);
    StarterQuiet(w, v, acts);
    hide Wheel.Quiet, Wheel.Inv, LegalScript, Fire;
    CheckStep(v, acts);
    RestartFire(v, acts);
    CheckDone(Restarted(1), acts);
  }

  lemma {:induction false} StarterQuiet(w: Wheel, v: Wheel, acts: Script)
    requires w == SelfStarter() && v == w.(now := 1) && acts == map[7 := [Start(7)]]
    ensures w.Quiet() && w.FlagsTrue() && v.Inv(v.now) && HeadDue(v) && LegalScript(w.timers.Keys, acts)
  {
    assert LegalCmd({7}, Start(7));
    assert w.timers.Keys == {7};
  }

  lemma {:induction false} RestartFire(v: Wheel, acts: Script)
    requires v == Wheel(1, [7], map[7 := 1], map[7 := Timer(5, false, true)], map[7 := 0], 1, [])
    requires acts == map[7 := [Start(7)]] && LegalScript(v.timers.Keys, acts)
    ensures Fire(v, acts) == Restarted(1)
  {
    var p := v.(pending := [], log := [(7, 1)]);
    assert v.pending[1..] == [] && v.log + [(7, v.now)] == [(7, 1)];
    assert LegalCmds(p.timers.Keys, [Start(7)]);
    assert ExecAll(p, [Start(7)]) == StartTimer(p, 7) by {
      assert [Start(7)][1..] == [];
      assert ExecAll(StartTimer(p, 7), []) == StartTimer(p, 7);
    }
    assert SetFlag(StartTimer(p, 7), 7, false) == Restarted(1);
  }

  function Ticks(n: nat): seq<Op> {
    if n == 0 then [] else [OnTick(map[])] + Ticks(n - 1)
  }

  lemma {:induction false} RestartedQuiet(now: nat)
    requires 1 <= now <= 5
    ensures Restarted(now).Quiet() && Legal(Restarted(now), OnTick(map[]))
    ensures now == 5 ==> Restarted(6).Inv(6)
  {
  }

  /** It fires at tick 6 although it is not activated. */
  lemma {:induction false} StubbornTicks(now: nat) returns (h: Wheel)
    requires 1 <= now <= 5
    ensures Restarted(now).Quiet() && Reaches(Restarted(now), Ticks(6 - now), h) && h.log == [(7, 1), (7, 6)]
    decreases 6 - now
  {
    var w, op := Restarted(now), OnTick(map[]);
    RestartedQuiet(now);
    assert Ticks(6 - now)[0] == op && Ticks(6 - now)[1..] == Ticks(5 - now);
    StepQuiet(w, op);
    if now < 5 {
      QuietTick(now);
      h := StubbornTicks(now + 1);
    } else {
      FiredOut(w.(now := 6));
      h := Step(w, op);
    }
    hide Wheel.Quiet, Step, Legal;
  }

  lemma {:induction false} QuietTick(now: nat)
    requires 1 <= now < 5 && Restarted(now).Quiet() && Legal(Restarted(now), OnTick(map[]))
    ensures Step(Restarted(now), OnTick(map[])) == Restarted(now + 1)
  {
    hide InTurn, Ordered;
    RestartedQuiet(now);
    CheckDone(Restarted(now).(now := now + 1), map[]);
  }

  lemma {:induction false} FiredOut(v: Wheel)
    requires v == Restarted(6) && v.Inv(v.now)
    ensures LegalScript(v.timers.Keys, map[]) && Check(v, map[]).log == [(7, 1), (7, 6)]
  {
    CheckStep(v, map[]);
    var g := Fire(v, map[]);
    assert v.pending[1..] == [];
    assert g.pending == [];
    CheckDone(g, map[]);
  }

  // --------------------------------------------- what a timeout function decides

  /** The time that t ends up set to. */
  function EndsTime(cmds: seq<Cmd>, t: Id, init: nat): nat {
    if cmds == [] then init
    else EndsTime(cmds[1..], t, if cmds[0].SetTime? && cmds[0].t == t then cmds[0].init else init)
  }

  /** What a timeout function makes of its own, unlinked timer t. */
  lemma {:induction false} ExecAllTimer(w: Wheel, cmds: seq<Cmd>, t: Id)
    requires w.Inv(w.now) && LegalCmds(w.timers.Keys, cmds) && t in w.timers && (t in w.pending ==> w.timers[t].active)
    ensures var g, x := ExecAll(w, cmds), w.timers[t];
      && g.timers[t] == Timer(EndsTime(cmds, t, x.init), EndsPeriodic(cmds, t, x.periodic), Ends(cmds, t, x.active))
      && (t in g.pending <==> Ends(cmds, t, t in w.pending))
    decreases |cmds|
  {
    if cmds != [] {
      assert LegalCmd(w.timers.Keys, cmds[0]);
      ExecInv(w, cmds[0], w.now);
      ExecOwn(w, cmds[0], t);
      ExecTimer(w, cmds[0], t);
      hide Exec, Ordered, InTurn, Distinct;
      ExecAllTimer(Exec(w, cmds[0]), cmds[1..], t);
    }
  }

  lemma {:induction false} ExecTimer(w: Wheel, c: Cmd, t: Id)
    requires Known(w.pending, w.due) && LegalCmd(w.timers.Keys, c) && t in w.timers
    ensures var g, x := Exec(w, c), w.timers[t];
      g.timers[t] == Timer(if c.SetTime? && c.t == t then c.init else x.init,
                           if c.SetMode? && c.t == t then c.periodic else x.periodic,
                           if c == Start(t) then true else if c == Stop(t) then false else x.active)
  {
    hide Insert, Remove;
  }

  /** After its timeout function a timer goes on exactly if it is periodic by then and
      was not left stopped, for the time set by then; or if it was left started. */
  lemma {:induction false} FireExact(w: Wheel, acts: Script)
    requires w.Inv(w.now) && w.pending != [] && LegalScript(w.timers.Keys, acts)
    requires w.pending[0] in w.timers && w.timers[w.pending[0]].active
    ensures var t, g := w.pending[0], Fire(w, acts);
      var cmds, x := CmdsOf(acts, t), w.timers[t];
      var periodic, on := EndsPeriodic(cmds, t, x.periodic), Ends(cmds, t, true);
      && g.timers[t] == Timer(EndsTime(cmds, t, x.init), periodic, periodic && on)
      && (t in g.pending <==> if periodic then on else Ends(cmds, t, false))
      && (periodic && on ==> t in g.due && g.due[t] == w.now + g.timers[t].init)
  {
    hide Ordered, InTurn, Distinct, ExecAll, Ends, EndsPeriodic, EndsTime, Rearm;
    var t := w.pending[0];
    PopInv(w, w.now);
    PoppedGone(w);
    var p := w.(pending := w.pending[1..], log := w.log + [(t, w.now)]);
    ExecAllInv(p, CmdsOf(acts, t), w.now);
    ExecAllTimer(p, CmdsOf(acts, t), t);
    StartedEnds(CmdsOf(acts, t), t);
    RearmExact(ExecAll(p, CmdsOf(acts, t)), t);
  }

  lemma {:induction false} PoppedGone(w: Wheel)
    requires w.Inv(w.now) && w.pending != []
    ensures w.pending[0] !in w.pending[1..]
  {
  }

  lemma {:induction false} StartedEnds(cmds: seq<Cmd>, t: Id)
    ensures Ends(cmds, t, false) ==> Ends(cmds, t, true)
  {
    if cmds != [] && cmds[0] != Start(t) && cmds[0] != Stop(t) { StartedEnds(cmds[1..], t); }
  }

  lemma {:induction false} RearmExact(w: Wheel, t: Id)
    requires w.Inv(w.now) && t in w.timers && (t in w.pending ==> w.timers[t].active)
    ensures var g, x := Rearm(w, t), w.timers[t];
      && g.timers[t] == x.(active := x.periodic && x.active)
      && (t in g.pending <==> if x.periodic then x.active else t in w.pending)
      && (x.periodic && x.active ==> t in g.due && g.due[t] == w.now + x.init)
  {
    hide Ordered, InTurn, Distinct, Insert, Remove;
    StartInv(SetFlag(w, t, false), t, w.now);
  }

  /** A check fires a due timer that stops itself, and leaves it stopped. */
  lemma {:induction false} CheckSelfStop(w: Wheel, acts: Script, t: Id, d: nat)
    requires w.Inv(w.now) && LegalScript(w.timers.Keys, acts) && OthersSpare(acts, t) && Runs(w, t, d) && d <= w.now
    requires !Ends(CmdsOf(acts, t), t, true)
    ensures Idle(Check(w, acts), t) && Hits(Check(w, acts).log, t) == Hits(w.log, t) + [w.now]
    decreases DueCount(w.pending, w.due, w.now)
  {
    hide Fire, Ends, EndsPeriodic, EndsTime, Hits, DueCount, OthersSpare;
    if HeadDue(w) {
      CheckStep(w, acts);
      HitsOneMore(w.log, w.pending[0], w.now, t);
      if w.pending[0] == t {
        FireExact(w, acts);
        StartedEnds(CmdsOf(acts, t), t);
        hide Check, Fire, Wheel.Inv, Hits, DueCount;
        CheckIdle(Fire(w, acts), acts, t);
      } else {
        FireSpares(w, acts, t);
        hide Check, Fire, Wheel.Inv, Hits, DueCount;
        CheckSelfStop(Fire(w, acts), acts, t, d);
      }
    } else {
      CheckDone(w, acts);
    }
  }

  /** A timer, periodic or not, that its timeout function stops when it fires has fired
      for the last time, unless it is touched again. */
  lemma {:induction false} StopsItself(w: Wheel, acts: Script, t: Id, ops: seq<Op>, g: Wheel)
    requires w.Quiet() && LegalScript(w.timers.Keys, acts) && OthersSpare(acts, t) && Runs(w, t, w.now + 1)
    requires !Ends(CmdsOf(acts, t), t, true)
    requires Tick(w, acts).Quiet() && Reaches(Tick(w, acts), ops, g) && LeavesAlone(ops, t)
    ensures Idle(g, t) && Hits(g.log, t) == Hits(w.log, t) + [w.now + 1]
  {
    hide Wheel.Quiet, Reaches, LeavesAlone, Hits, Check, Ends;
    TickSelfStop(w, acts, t);
    StaysIdle(Tick(w, acts), ops, g, t);
  }

  lemma {:induction false} TickSelfStop(w: Wheel, acts: Script, t: Id)
    requires w.Quiet() && LegalScript(w.timers.Keys, acts) && OthersSpare(acts, t) && Runs(w, t, w.now + 1)
    requires !Ends(CmdsOf(acts, t), t, true)
    ensures Idle(Tick(w, acts), t) && Hits(Tick(w, acts).log, t) == Hits(w.log, t) + [w.now + 1]
  {
    hide Hits, Check, Ends, Ordered, InTurn, Distinct;
    CheckSelfStop(w.(now := w.now + 1), acts, t, w.now + 1);
  }
}
