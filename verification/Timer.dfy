/** The hard timer list of timer.c as it is written: a skip list of any number
    of rows, 32-bit ticks compared modulo 2^32. Every function is proved to take
    the step that TimerSpec describes on the bottom row. */
module Timer {
  import opened Machine
  import opened OrderedList
  import opened TimerSpec
  import TimerTheory

  /** RT_TICK_MAX. */
  const TICK_MAX: nat := WORD - 1

  /** Unsigned 32-bit subtraction. */
  function Minus(x: nat, y: nat): (r: nat)
    ensures r < WORD
  {
    (x - y) % WORD
  }

  /** Comparing two wrapped ticks less than half the range apart is comparing the
      ticks themselves. */
  lemma {:induction false} WrappedOrder(a: nat, b: nat)
    requires a < b + HALF && b < a + HALF
    ensures Minus(a % WORD, b % WORD) == 0 <==> a == b
    ensures Minus(a % WORD, b % WORD) < HALF <==> b <= a
  {
    assert (a % WORD - b % WORD) % WORD == (a - b) % WORD;
  }

  ghost predicate SubRow(rows: seq<seq<Id>>, k: nat) {
    k + 1 < |rows| ==> Sub(rows[k], rows[k + 1])
  }

  /** Each row is a sublist of the row below it. */
  ghost predicate Stacked(rows: seq<seq<Id>>) {
    forall k: nat :: SubRow(rows, k)
  }

  function RemoveAll(rows: seq<seq<Id>>, t: Id): seq<seq<Id>> {
    seq(|rows|, k requires 0 <= k < |rows| => Remove(rows[k], t))
  }

  ghost predicate RowsKnown(rows: seq<seq<Id>>, due: Key) {
    forall k :: 0 <= k < |rows| ==> Known(rows[k], due)
  }

  /** t inserted into the rows from h down. */
  ghost function Raised(rows: seq<seq<Id>>, t: Id, due: Key, h: nat): seq<seq<Id>>
    requires RowsKnown(rows, due) && t in due
  {
    seq(|rows|, k requires 0 <= k < |rows| => if k >= h then Insert(rows[k], t, due) else rows[k])
  }

  /** How many rows above the bottom one a new timer enters: one for every pair
      of zero bits at the low end of the counter. */
  function Height(bits: nat, max: nat): (h: nat)
    ensures h <= max
    decreases max
  {
    if max == 0 || bits % 4 != 0 then 0 else 1 + Height(bits / 4, max - 1)
  }

  /** Every row inherits what the bottom row has. */
  lemma {:induction false} RowSound(rows: seq<seq<Id>>, due: Key, k: nat)
    requires Stacked(rows) && k < |rows| && Distinct(rows[|rows| - 1]) && Ordered(rows[|rows| - 1], due)
    ensures Distinct(rows[k]) && Ordered(rows[k], due) && forall x :: x in rows[k] ==> x in rows[|rows| - 1]
    decreases |rows| - k
  {
    if k + 1 < |rows| {
      RowSound(rows, due, k + 1);
      assert SubRow(rows, k);
      SubMembers(rows[k], rows[k + 1]);
      SubDistinct(rows[k], rows[k + 1]);
      SubOrdered(rows[k], rows[k + 1], due);
    }
  }

  lemma {:induction false} RemoveStacked(rows: seq<seq<Id>>, t: Id, due: Key)
    requires Stacked(rows) && rows != [] && Distinct(rows[|rows| - 1]) && Ordered(rows[|rows| - 1], due)
    ensures Stacked(RemoveAll(rows, t))
  {
    forall k: nat ensures SubRow(RemoveAll(rows, t), k) {
      if k + 1 < |rows| {
        assert SubRow(rows, k);
        RowSound(rows, due, k + 1);
        SubRemove(rows[k], rows[k + 1], t);
      }
    }
  }

  /** Inserting into the lower rows only keeps the rows stacked. */
  lemma {:induction false} RaisedStacked(rows: seq<seq<Id>>, t: Id, due: Key, h: nat)
    requires Stacked(rows) && rows != [] && RowsKnown(rows, due) && t in due
    requires Distinct(rows[|rows| - 1]) && Ordered(rows[|rows| - 1], due) && t !in rows[|rows| - 1]
    ensures Stacked(Raised(rows, t, due, h))
  {
    forall k: nat ensures SubRow(Raised(rows, t, due, h), k) {
      if k + 1 < |rows| {
        assert SubRow(rows, k);
        RowSound(rows, due, k + 1);
        if k >= h {
          SubInsertBoth(rows[k], rows[k + 1], t, due);
        } else if k + 1 >= h {
          SubInsertLower(rows[k], rows[k + 1], t, due);
        }
      }
    }
  }

  /** Clearing the flag before the insertion makes no difference. */
  lemma {:induction false} StartAsWritten(w: Wheel, t: Id)
    requires Known(w.pending, w.due) && t in w.timers
    ensures Known(Unlink(w, t).pending, w.due)
    ensures StartTimer(w, t) == SetFlag(Link(SetFlag(Unlink(w, t), t, false), t), t, true)
  {
    RemoveSubset(w.pending, t);
    hide Insert, Remove;
    assert w.timers[t := w.timers[t].(active := false)][t := w.timers[t].(active := true)] == w.timers[t := w.timers[t].(active := true)];
  }

  function IndexOf(s: seq<Id>, x: Id): (i: nat)
    requires x in s
    ensures i < |s| && s[i] == x
  {
    if s[0] == x then 0 else 1 + IndexOf(s[1..], x)
  }

  /** c entries of the row come before t. */
  ghost predicate Place(row: seq<Id>, c: nat, t: Id, due: Key)
    requires Known(row, due) && t in due
  {
    && c <= |row| && Insert(row, t, due) == row[..c] + [t] + row[c..]
    && (c > 0 ==> due[row[c - 1]] <= due[t])
  }

  lemma {:induction false} PlaceHere(row: seq<Id>, c: nat, t: Id, due: Key)
    requires Known(row, due) && Ordered(row, due) && t in due && c <= |row|
    requires (c > 0 ==> due[row[c - 1]] <= due[t]) && (c < |row| ==> due[t] < due[row[c]])
    ensures Place(row, c, t, due)
  {
    InsertFrom(row, t, due, c);
    hide Ordered;
    assert row[..c] + ([t] + row[c..]) == row[..c] + [t] + row[c..];
  }

  class TimerList {
    const levels: nat
    /** rt_timer_list: row levels - 1 holds every linked timer. */
    var rows: seq<seq<Id>>
    var tick: nat
    var timers: map<Id, TimerSpec.Timer>
    /** timeout_tick of every timer that has been started */
    var timeout: map<Id, nat>
    var randomNr: nat
    ghost var now: nat
    ghost var due: Key
    ghost var born: Key
    ghost var starts: nat
    ghost var log: seq<(Id, nat)>

    ghost predicate Valid()
      reads this
    {
      && levels > 0 && |rows| == levels && Stacked(rows)
      && tick == now % WORD
      && Wrapped(due, timeout)
    }

    ghost function Abs(): Wheel
      requires levels > 0 && |rows| == levels
      reads this
    {
      Wheel(now, rows[levels - 1], due, timers, born, starts, log)
    }

    /** rt_system_timer_init, with the timer objects already initialised. */
    constructor (levels: nat, timers: map<Id, TimerSpec.Timer>)
      requires levels > 0
      ensures Valid() && Abs() == Wheel(0, [], map[], timers, map[], 0, [])
    {
      this.levels := levels;
      this.timers := timers;
      rows := seq(levels, _ => []);
      tick, timeout, randomNr := 0, map[], 0;
      now, due, born, starts, log := 0, map[], map[], 0, [];
      new;
      forall k: nat ensures SubRow(rows, k) {}
    }

    /** rt_timer_list_next_timeout: the earliest deadline, if any timer is linked. */
    method NextTimeout() returns (r: nat)
      requires Valid() && Abs().Inv(now)
      ensures Abs().pending == [] ==> r == TICK_MAX
      ensures Abs().pending != [] ==>
        exists t :: t in Abs().pending && r == due[t] % WORD && forall x :: x in Abs().pending ==> due[t] <= due[x]
    {
      if rows[levels - 1] == [] {
        return TICK_MAX;
      }
      var t := rows[levels - 1][0];
      forall x | x in rows[levels - 1] ensures due[t] <= due[x] {
        assert x == t || x in rows[levels - 1][1..];
      }
      assert t in Abs().pending;
      r := timeout[t];
    }

    /** _rt_timer_remove. */
    method RemoveRows(t: Id)
      modifies this`rows
      ensures rows == RemoveAll(old(rows), t)
    {
      ghost var before := rows;
      var i := 0;
      while i < |rows|
        invariant i <= |rows| == |before|
        invariant forall k :: 0 <= k < i ==> rows[k] == Remove(before[k], t)
        invariant forall k :: i <= k < |rows| ==> rows[k] == before[k]
      {
        rows := rows[i := Remove(rows[i], t)];
        i := i + 1;
      }
    }

    /** The inner loop of rt_timer_start: advance along one row from entry c. */
    method Walk(row: seq<Id>, from: nat, t: Id) returns (c: nat)
      requires Wrapped(due, timeout) && Known(row, due) && Ordered(row, due) && t in due && from <= |row|
      requires forall x :: x in row ==> due[x] < due[t] + HALF && due[t] < due[x] + HALF
      requires from > 0 ==> due[row[from - 1]] <= due[t]
      ensures Place(row, c, t, due)
    {
      hide Distinct, InTurn, Sub, Stacked, Insert, Ordered, Place;
      c := from;
      while c < |row|
        invariant c <= |row| && (c > 0 ==> due[row[c - 1]] <= due[t])
      {
        var p := row[c];
        WrappedOrder(due[p], due[t]);
        var diff := Minus(timeout[p], timeout[t]);
        if diff != 0 && diff < HALF {
          break;
        }
        c := c + 1;
      }
      PlaceHere(row, c, t, due);
    }

    /** The search of rt_timer_start: from each row go down one row at the last
        timer passed. */
    method Search(t: Id) returns (at: seq<nat>)
      requires levels > 0 && |rows| == levels && Stacked(rows) && Wrapped(due, timeout) && t in due
      requires Distinct(rows[levels - 1]) && Ordered(rows[levels - 1], due) && RowsKnown(rows, due)
      requires forall x :: x in rows[levels - 1] ==> due[x] < due[t] + HALF && due[t] < due[x] + HALF
      ensures |at| == levels && forall k :: 0 <= k < levels ==> Place(rows[k], at[k], t, due)
    {
      at := [];
      var lvl := 0;
      while lvl < levels
        invariant lvl <= levels && |at| == lvl
        invariant forall k :: 0 <= k < lvl ==> Place(rows[k], at[k], t, due)
      {
        RowSound(rows, due, lvl);
        var from := 0;
        if lvl > 0 && at[lvl - 1] > 0 {
          assert Place(rows[lvl - 1], at[lvl - 1], t, due);
          var passed := rows[lvl - 1][at[lvl - 1] - 1];
          assert passed in rows[lvl] by {
            assert SubRow(rows, lvl - 1);
            SubMembers(rows[lvl - 1], rows[lvl]);
          }
          from := IndexOf(rows[lvl], passed) + 1;
        }
        var c := Walk(rows[lvl], from, t);
        at := at + [c];
        lvl := lvl + 1;
      }
    }

    /** The insertion loop of rt_timer_start: the bottom row always, each row
        above while the two low bits of the counter are zero. */
    method InsertRows(t: Id, at: seq<nat>) returns (ghost h: nat)
      requires levels > 0 && |rows| == levels && RowsKnown(rows, due) && t in due
      requires |at| == levels && forall k :: 0 <= k < levels ==> Place(rows[k], at[k], t, due)
      modifies this`rows, this`randomNr
      ensures randomNr == (old(randomNr) + 1) % WORD && h == levels - 1 - Height(randomNr, levels - 1)
      ensures rows == Raised(old(rows), t, due, h)
    {
      hide Sub, InTurn, Distinct;
      ghost var before := rows;
      randomNr := (randomNr + 1) % WORD;
      var bits := randomNr;
      var last := levels - 1;
      assert Place(rows[last], at[last], t, due);
      rows := rows[last := rows[last][..at[last]] + [t] + rows[last][at[last]..]];
      var lvl := 2;
      while lvl <= levels && bits % 4 == 0
        invariant 2 <= lvl <= levels + 1 && |rows| == levels
        invariant randomNr == (old(randomNr) + 1) % WORD
        invariant Height(randomNr, last) == lvl - 2 + Height(bits, levels + 1 - lvl)
        invariant forall k :: 0 <= k <= levels - lvl ==> rows[k] == before[k]
        invariant forall k :: levels - lvl < k < levels ==> rows[k] == Insert(before[k], t, due)
      {
        var k := levels - lvl;
        assert Place(before[k], at[k], t, due);
        rows := rows[k := rows[k][..at[k]] + [t] + rows[k][at[k]..]];
        bits := bits / 4;
        lvl := lvl + 1;
      }
      h := levels - lvl + 1;
    }

    /** Take t off the list and clear its flag. */
    method Detach(t: Id)
      requires Valid() && Abs().Inv(now) && t in timers
      modifies this`rows, this`timers
      ensures Valid() && Abs() == SetFlag(Unlink(old(Abs()), t), t, false)
      ensures Abs().Inv(now) && t !in Abs().pending
    {
      hide Ordered, InTurn, Distinct, Insert, Remove, Stacked;
      UnlinkInv(Abs(), t, now);
      RemoveStacked(rows, t, due);
      RemoveRows(t);
      timers := timers[t := timers[t].(active := false)];
    }

    /** Put t, whose timeout_tick is set, into its rows. */
    method Relink(t: Id, ghost w: Wheel)
      requires levels > 0 && |rows| == levels && Stacked(rows) && Wrapped(due, timeout) && w.now == now
      requires w.Inv(now) && t in w.timers && due == w.due[t := now + w.timers[t].init]
      requires rows[levels - 1] == w.pending && t !in w.pending
      modifies this`rows, this`randomNr
      ensures |rows| == levels && Stacked(rows) && rows[levels - 1] == Insert(old(rows[levels - 1]), t, due)
    {
      hide Ordered, InTurn, Distinct, Insert, Stacked;
      OrderedFrame(rows[levels - 1], w.due, due);
      forall k | 0 <= k < levels ensures Known(rows[k], due) { RowSound(rows, due, k); }
      var at := Search(t);
      ghost var before := rows;
      ghost var h := InsertRows(t, at);
      RaisedStacked(before, t, due, h);
    }

    /** Compute the deadline and insert t. */
    method Enter(t: Id)
      requires Valid() && Abs().Inv(now) && t in timers && t !in Abs().pending
      modifies this`rows, this`randomNr, this`timeout, this`due, this`born, this`starts
      ensures Valid() && Abs() == Link(old(Abs()), t)
    {
      hide Ordered, InTurn, Distinct, Insert, Stacked, Wrapped;
      ghost var w := Abs();
      WrappedStart(due, timeout, t, now, tick, timers[t].init);
      timeout := timeout[t := (tick + timers[t].init) % WORD];
      due := due[t := now + timers[t].init];
      Relink(t, w);
      born := born[t := starts];
      starts := starts + 1;
    }

    /** rt_timer_start. */
    method Start(t: Id)
      requires Valid() && Abs().Inv(now) && t in timers
      modifies this
      ensures Valid() && Abs() == StartTimer(old(Abs()), t)
    {
      StartAsWritten(Abs(), t);
      hide StartTimer, Link, Wheel.Inv, Wrapped, Stacked;
      Detach(t);
      Enter(t);
      timers := timers[t := timers[t].(active := true)];
    }

    /** rt_timer_stop; false is -RT_ERROR. */
    method Stop(t: Id) returns (ok: bool)
      requires Valid() && Abs().Inv(now) && t in timers
      modifies this`rows, this`timers
      ensures Valid() && (Abs(), ok) == StopTimer(old(Abs()), t)
    {
      if !timers[t].active {
        return false;
      }
      Detach(t);
      return true;
    }

    /** One command of a timeout function or of a thread; the last two are
        rt_timer_control. */
    method Obey(c: Cmd)
      requires Valid() && Abs().Inv(now) && LegalCmd(timers.Keys, c)
      modifies this
      ensures Valid() && Abs().Inv(now) && Abs() == Exec(old(Abs()), c)
    {
      ExecInv(Abs(), c, now);
      match c
      case Start(t) => Start(t);
      case Stop(t) => var _ := Stop(t);
      case SetTime(t, n) => timers := timers[t := timers[t].(init := n)];
      case SetMode(t, p) => timers := timers[t := timers[t].(periodic := p)];
    }

    /** A timeout function. */
    method ObeyAll(cmds: seq<Cmd>)
      requires Valid() && Abs().Inv(now) && LegalCmds(timers.Keys, cmds)
      modifies this
      ensures Valid() && Abs().Inv(now) && Abs() == ExecAll(old(Abs()), cmds)
    {
      ghost var w := Abs();
      var i := 0;
      assert cmds[0..] == cmds;
      while i < |cmds|
        invariant i <= |cmds| && Valid() && Abs().Inv(now) && timers.Keys == w.timers.Keys
        invariant LegalCmds(timers.Keys, cmds[i..]) && ExecAll(Abs(), cmds[i..]) == ExecAll(w, cmds)
      {
        assert cmds[i] in cmds && LegalCmd(timers.Keys, cmds[i]);
        assert cmds[i..][0] == cmds[i] && cmds[i..][1..] == cmds[i + 1..];
        Obey(cmds[i]);
        i := i + 1;
      }
    }

    /** The body of rt_timer_check's loop: the first timer fires. */
    method FireFirst(acts: Script)
      requires Valid() && Abs().Inv(now) && rows[levels - 1] != [] && LegalScript(timers.Keys, acts)
      requires rows[levels - 1][0] in timers
      modifies this
      ensures Valid() && Abs().Inv(now) && Abs() == Fire(old(Abs()), acts)
    {
      ghost var w := Abs();
      var t := rows[levels - 1][0];
      FireInv(w, acts);
      PopInv(w, now);
      RemoveStacked(rows, t, due);
      RemoveRows(t);
      log := log + [(t, now)];
      assert Abs() == w.(pending := w.pending[1..], log := w.log + [(t, w.now)]);
      ObeyAll(CmdsOf(acts, t));
      Finish(t);
    }

    /** The tail of the loop body, after the timeout function. */
    method Finish(t: Id)
      requires Valid() && Abs().Inv(now) && t in timers
      modifies this
      ensures Valid() && Abs() == Rearm(old(Abs()), t)
    {
      if timers[t].periodic && timers[t].active {
        timers := timers[t := timers[t].(active := false)];
        Start(t);
      } else {
        timers := timers[t := timers[t].(active := false)];
      }
    }

    /** The test of rt_timer_check's loop: the first timer is due. */
    method FirstDue() returns (r: bool)
      requires Valid() && Abs().Inv(now)
      ensures r == TimerTheory.HeadDue(Abs())
    {
      if rows[levels - 1] == [] {
        return false;
      }
      var t := rows[levels - 1][0];
      assert t in Abs().pending;
      WrappedOrder(now, due[t]);
      r := Minus(tick, timeout[t]) < HALF;
    }

    /** rt_timer_check. */
    method Check(acts: Script)
      requires Valid() && Abs().Inv(now) && LegalScript(timers.Keys, acts)
      modifies this
      ensures Valid() && Abs() == TimerSpec.Check(old(Abs()), acts)
    {
      ghost var w := Abs();
      var more := FirstDue();
      while more
        invariant Valid() && Abs().Inv(now) && now == w.now && timers.Keys == w.timers.Keys
        invariant more == TimerTheory.HeadDue(Abs())
        invariant TimerSpec.Check(Abs(), acts) == TimerSpec.Check(w, acts)
        decreases DueCount(rows[levels - 1], due, now), more
      {
        TimerTheory.CheckStep(Abs(), acts);
        FireFirst(acts);
        more := FirstDue();
      }
      TimerTheory.CheckDone(Abs(), acts);
    }

    /** ++ rt_tick. */
    method Advance()
      requires Valid() && Abs().Quiet()
      modifies this`tick, this`now
      ensures Valid() && Abs() == old(Abs()).(now := old(now) + 1) && Abs().Inv(now)
    {
      tick := (tick + 1) % WORD;
      now := now + 1;
    }

    /** The tick part of rt_tick_increase. */
    method TickIncrease(acts: Script)
      requires Valid() && Abs().Quiet() && LegalScript(timers.Keys, acts)
      modifies this
      ensures Valid() && Abs() == Tick(old(Abs()), acts)
    {
      Advance();
      Check(acts);
    }
  }

  /** Each stored timeout_tick is the deadline modulo 2^32. */
  ghost predicate Wrapped(due: Key, timeout: map<Id, nat>) {
    forall t :: t in due ==> t in timeout && timeout[t] == due[t] % WORD
  }

  /** Adding the period before or after the wrap is the same. */
  lemma {:induction false} WrappedStart(due: Key, timeout: map<Id, nat>, t: Id, now: nat, tick: nat, init: nat)
    requires Wrapped(due, timeout) && tick == now % WORD
    ensures Wrapped(due[t := now + init], timeout[t := (tick + init) % WORD])
  {
    assert (tick + init) % WORD == (now + init) % WORD;
  }
}
