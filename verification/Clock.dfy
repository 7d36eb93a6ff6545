/** Time slices: the part of rt_tick_increase that deals with the running thread. */
module ClockSpec {
  import opened Machine
  import opened OrderedList
  import opened SchedulerSpec
  import opened SchedulerTheory

  type Ticks = map<Tid, nat>

  /** remaining is remaining_tick of every thread, slice its init_tick. */
  datatype Clock = Clock(sched: Sched, remaining: Ticks, slice: Ticks) {

    ghost predicate Inv() {
      sched.Inv() && forall t :: t in sched.threads ==> t in remaining && t in slice && 1 <= remaining[t] <= slice[t]
    }
  }

  /** When the slice of the running thread is used up it gets a new one and yields. */
  function Tick(c: Clock): Clock
    requires c.Inv()
  {
    var t := c.sched.current;
    var r := c.remaining[t] - 1;
    if r == 0 then c.(remaining := c.remaining[t := c.slice[t]], sched := Schedule(c.sched))
    else c.(remaining := c.remaining[t := r])
  }

  lemma {:induction false} TickInv(c: Clock)
    requires c.Inv()
    ensures Tick(c).Inv()
  {
    ScheduleInv(c.sched);
    ScheduleKeepsThreads(c.sched);
    hide Schedule, Sched.Inv;
  }

  ghost function After(c: Clock, n: nat): Clock
    requires c.Inv()
    decreases n
  {
    if n == 0 then c else TickInv(c); After(Tick(c), n - 1)
  }

  /** Which thread runs up to each of the next n ticks. */
  ghost function Runners(c: Clock, n: nat): seq<Tid>
    requires c.Inv()
    decreases n
  {
    if n == 0 then [] else TickInv(c); [c.sched.current] + Runners(Tick(c), n - 1)
  }

  lemma {:induction false} AfterAfter(c: Clock, n: nat, m: nat)
    requires c.Inv()
    ensures After(c, n).Inv() && After(After(c, n), m) == After(c, n + m)
    ensures Runners(c, n + m) == Runners(c, n) + Runners(After(c, n), m)
    decreases n
  {
    if n == 0 {
      assert [] + Runners(c, m) == Runners(c, m);
    } else {
      TickInv(c);
      AfterAfter(Tick(c), n - 1, m);
      hide Tick, Clock.Inv;
      var rest := Runners(Tick(c), n - 1);
      assert [c.sched.current] + (rest + Runners(After(c, n), m)) == ([c.sched.current] + rest) + Runners(After(c, n), m);
    }
  }

  function Repeat(t: Tid, n: nat): seq<Tid> {
    if n == 0 then [] else [t] + Repeat(t, n - 1)
  }

  /** A slice is never cut short by the clock, and when it is over the thread yields. */
  lemma {:induction false} SliceRunsOut(c: Clock)
    requires c.Inv()
    ensures var t := c.sched.current;
      && c.remaining[t] > 0
      && After(c, c.remaining[t]) == c.(sched := Schedule(c.sched), remaining := c.remaining[t := c.slice[t]])
      && Runners(c, c.remaining[t]) == Repeat(t, c.remaining[t])
    decreases c.remaining[c.sched.current]
  {
    var t := c.sched.current;
    TickInv(c);
    hide Schedule, Sched.Inv;
    if c.remaining[t] > 1 {
      var d := Tick(c);
      SliceRunsOut(d);
      assert d.remaining[t := c.slice[t]] == c.remaining[t := c.slice[t]];
    } else {
      assert After(Tick(c), 0) == Tick(c);
    }
  }

  // ------------------------------------------------------------ round robin

  function Total(line: seq<Tid>, remaining: Ticks): nat
    requires forall t :: t in line ==> t in remaining
  {
    if line == [] then 0 else remaining[line[0]] + Total(line[1..], remaining)
  }

  /** Everybody in the line in turn, each for what is left of its slice. */
  function Spells(line: seq<Tid>, remaining: Ticks): seq<Tid>
    requires forall t :: t in line ==> t in remaining
  {
    if line == [] then [] else Repeat(line[0], remaining[line[0]]) + Spells(line[1..], remaining)
  }

  function Refill(line: seq<Tid>, remaining: Ticks, slice: Ticks): Ticks
    requires forall t :: t in line ==> t in slice
  {
    if line == [] then remaining else Refill(line[1..], remaining[line[0] := slice[line[0]]], slice)
  }

  lemma {:induction false} OthersSlice(line: seq<Tid>, remaining: Ticks, t: Tid, v: nat)
    requires t !in line && forall x :: x in line ==> x in remaining
    ensures Total(line, remaining[t := v]) == Total(line, remaining) && Spells(line, remaining[t := v]) == Spells(line, remaining)
  {
    if line != [] {
      assert line[0] in line && forall x :: x in line[1..] ==> x in line;
      OthersSlice(line[1..], remaining, t, v);
    }
  }

  ghost predicate Known(c: Clock, line: seq<Tid>) {
    forall t :: t in line ==> t in c.remaining && t in c.slice
  }

  lemma {:induction false} LineKnown(c: Clock)
    requires c.Inv() && Peers(c.sched)
    ensures Known(c, Line(c.sched)) && Distinct(Line(c.sched))
  {
    var s, p := c.sched, c.sched.threads[c.sched.current].prio;
    assert s.ListOk(p);
    Cons(s.current, s.ready[p]);
    forall t | t in Line(s) ensures t in c.remaining && t in c.slice {
      if t != s.current { assert t in s.ready[p] && s.Belongs(t, p); }
    }
  }

  /** The first thread of the line uses up its slice. */
  lemma {:induction false} OneTurn(c: Clock, x: seq<Tid>, y: seq<Tid>) returns (d: Clock)
    requires c.Inv() && Peers(c.sched) && Line(c.sched) == x + y && Known(c, x) && x != []
    ensures var r := c.remaining[x[0]];
      d == After(c, r) == c.(sched := Schedule(c.sched), remaining := c.remaining[x[0] := c.slice[x[0]]]) && Runners(c, r) == Repeat(x[0], r)
    ensures d.Inv() && Peers(d.sched) && Line(d.sched) == x[1..] + (y + [x[0]])
  {
    var t, r := x[0], c.remaining[x[0]];
    assert t == Line(c.sched)[0] == c.sched.current;
    SliceRunsOut(c);
    AfterAfter(c, r, 0);
    d := After(c, r);
    YieldRotates(c.sched);
    hide Schedule, Sched.Inv, Peers, Tick, Clock.Inv;
    assert (x + y)[1..] == x[1..] + y && (x + y)[0] == t;
    assert (x[1..] + y) + [t] == x[1..] + (y + [t]);
  }

  /** The slices of the others are untouched by a turn. */
  lemma {:induction false} RestOfLine(c: Clock, x: seq<Tid>, y: seq<Tid>)
    requires c.Inv() && Peers(c.sched) && Line(c.sched) == x + y && Known(c, x) && x != []
    ensures var left := c.remaining[x[0] := c.slice[x[0]]];
      && (forall t :: t in x[1..] ==> t in c.remaining && t in left && t in c.slice)
      && Total(x[1..], left) == Total(x[1..], c.remaining) && Spells(x[1..], left) == Spells(x[1..], c.remaining)
  {
    LineKnown(c);
    assert (x + y)[0] == x[0] && (x + y)[1..] == x[1..] + y;
    assert x[0] !in x[1..] + y;
    assert forall q :: q in x[1..] ==> q in x && q in x[1..] + y;
    hide Clock.Inv, Peers, Line, Distinct;
    OthersSlice(x[1..], c.remaining, x[0], c.slice[x[0]]);
  }

  /** The first |x| threads of the line have had their turns. */
  ghost predicate TurnsDone(c: Clock, x: seq<Tid>)
    requires c.Inv() && Peers(c.sched) && Known(c, x)
  {
    var n := Total(x, c.remaining);
    && After(c, n) == c.(sched := Yields(c.sched, |x|), remaining := Refill(x, c.remaining, c.slice))
    && Runners(c, n) == Spells(x, c.remaining)
  }

  lemma {:induction false} Turns(c: Clock, x: seq<Tid>, y: seq<Tid>)
    requires c.Inv() && Peers(c.sched) && Line(c.sched) == x + y && Known(c, x)
    ensures TurnsDone(c, x)
    decreases |x|
  {
    if x != [] {
      var d := OneTurn(c, x, y);
      RestOfLine(c, x, y);
      hide Schedule, Peers, Line, Clock.Inv, After, Runners, Repeat, TurnsDone;
      Turns(d, x[1..], y + [x[0]]);
      OneMoreTurn(c, x, d);
    }
  }

  lemma {:induction false} OneMoreTurn(c: Clock, x: seq<Tid>, d: Clock)
    requires c.Inv() && Peers(c.sched) && Known(c, x) && x != []
    requires d == c.(sched := Schedule(c.sched), remaining := c.remaining[x[0] := c.slice[x[0]]])
    requires d == After(c, c.remaining[x[0]]) && Runners(c, c.remaining[x[0]]) == Repeat(x[0], c.remaining[x[0]])
    requires d.Inv() && Peers(d.sched) && Known(d, x[1..]) && Known(c, x[1..]) && TurnsDone(d, x[1..])
    requires Total(x[1..], d.remaining) == Total(x[1..], c.remaining) && Spells(x[1..], d.remaining) == Spells(x[1..], c.remaining)
    ensures TurnsDone(c, x)
  {
    hide Schedule, Peers, Line, Clock.Inv, After, Runners, Repeat, Yields, Refill, Total, Spells;
    TurnByTurn(c, x);
    AfterAfter(c, c.remaining[x[0]], Total(x[1..], c.remaining));
  }

  lemma {:induction false} TurnByTurn(c: Clock, x: seq<Tid>)
    requires c.Inv() && Peers(c.sched) && Known(c, x) && x != []
    ensures forall t :: t in x[1..] ==> t in c.remaining && t in c.slice
    ensures Peers(Schedule(c.sched)) && Yields(c.sched, |x|) == Yields(Schedule(c.sched), |x| - 1)
    ensures Total(x, c.remaining) == c.remaining[x[0]] + Total(x[1..], c.remaining)
    ensures Spells(x, c.remaining) == Repeat(x[0], c.remaining[x[0]]) + Spells(x[1..], c.remaining)
    ensures Refill(x, c.remaining, c.slice) == Refill(x[1..], c.remaining[x[0] := c.slice[x[0]]], c.slice)
  {
    assert forall t :: t in x[1..] ==> t in x;
    YieldRotates(c.sched);
    hide Schedule, Peers, Clock.Inv, Line, Rotate;
  }

  /** Round robin: in the time that the slices of the threads of the top priority
      add up to, each of them runs for exactly its own slice, in the order of the line,
      and then the schedule is as it was. */
  lemma {:induction false} RoundRobin(c: Clock)
    requires c.Inv() && Peers(c.sched)
    ensures Known(c, Line(c.sched))
    ensures var line := Line(c.sched); var n := Total(line, c.remaining);
      && Runners(c, n) == Spells(line, c.remaining)
      && After(c, n) == c.(remaining := Refill(line, c.remaining, c.slice))
  {
    LineKnown(c);
    var line := Line(c.sched);
    assert line + [] == line;
    Turns(c, line, []);
    FullRound(c.sched);
  }
}

/** rt_tick_increase over the scheduler and the timer list. */
module Clock {
  import opened Machine
  import opened ClockSpec
  import opened SchedulerSpec
  import S = Scheduler
  import Timer
  import TimerSpec

  class Clock {
    const sched: S.Scheduler
    const timers: Timer.TimerList
    var remaining: Ticks
    const slice: Ticks

    ghost predicate Valid()
      reads this, sched, sched.table, timers
    {
      sched.Valid() && timers.Valid()
    }

    ghost function Abs(): ClockSpec.Clock
      reads this, sched
    {
      ClockSpec.Clock(sched.Abs(), remaining, slice)
    }

    /** Every thread starts with a full slice. */
    constructor (sched: S.Scheduler, timers: Timer.TimerList, slice: Ticks)
      requires sched.Valid() && timers.Valid()
      ensures Valid() && Abs() == ClockSpec.Clock(sched.Abs(), slice, slice) && this.timers == timers && this.sched == sched
    {
      this.sched, this.timers, remaining, this.slice := sched, timers, slice, slice;
    }

    /** The slice of the running thread. */
    method Charge()
      requires sched.Valid() && Abs().Inv()
      modifies this`remaining, sched, sched.table
      ensures sched.Valid() && Abs() == ClockSpec.Tick(old(Abs()))
    {
      hide S.Scheduler.Valid, SchedulerSpec.Schedule;
      var thread := sched.current;
      ghost var before := remaining;
      remaining := remaining[thread := remaining[thread] - 1];
      if remaining[thread] == 0 {
        remaining := remaining[thread := slice[thread]];
        assert remaining == before[thread := slice[thread]];
        sched.Schedule();
      }
    }

    /** Advance the tick, charge the running thread, check the timers. */
    method TickIncrease(acts: TimerSpec.Script)
      requires Valid() && Abs().Inv() && timers.Abs().Quiet() && TimerSpec.LegalScript(timers.timers.Keys, acts)
      modifies this, sched, sched.table, timers
      ensures Valid() && Abs() == ClockSpec.Tick(old(Abs())) && timers.Abs() == TimerSpec.Tick(old(timers.Abs()), acts)
    {
      hide S.Scheduler.Valid, ClockSpec.Clock.Inv, ClockSpec.Tick, TimerSpec.Check, TimerSpec.Wheel.Quiet, TimerSpec.LegalScript;
      timers.Advance();
      Charge();
      timers.Check(acts);
    }
  }
}
