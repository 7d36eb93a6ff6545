/** The ready bitmap agrees with the ready lists: one word for up to 32
    priorities, a word over a table of bytes for up to 256. */
module ReadyBitmap {
  import opened Bitmap
  import opened SchedulerSpec

  predicate Marked(ready: seq<seq<Tid>>, p: nat) {
    p < |ready| && ready[p] != []
  }

  ghost predicate Flat(group: bv32, ready: seq<seq<Tid>>) {
    forall p: nat :: p < 32 ==> (Bit(group, p) <==> Marked(ready, p))
  }

  ghost predicate Rows(table: seq<bv32>, ready: seq<seq<Tid>>) {
    && |table| == 32
    && (forall n: nat :: n < 32 ==> table[n] < 256)
    && forall n: nat, b: nat :: n < 32 && b < 8 ==> (Bit(table[n], b) <==> Marked(ready, 8 * n + b))
  }

  ghost predicate Groups(group: bv32, table: seq<bv32>) {
    |table| == 32 && forall n: nat :: n < 32 ==> (Bit(group, n) <==> table[n] != 0)
  }

  /** group and table describe which lists are not empty. */
  ghost predicate Agrees(group: bv32, table: seq<bv32>, ready: seq<seq<Tid>>) {
    if |ready| <= 32 then Flat(group, ready) else Rows(table, ready) && Groups(group, table)
  }

  // ---------------------------------------------------------- one level

  lemma {:induction false} FlatSet(group: bv32, ready: seq<seq<Tid>>, p: nat, l: seq<Tid>)
    requires Flat(group, ready) && p < |ready| <= 32 && l != []
    ensures Flat(With(group, Mask(p)), ready[p := l])
  {
    hide Bit, Mask, With, Without;
    var g, r := With(group, Mask(p)), ready[p := l];
    forall q: nat | q < 32 ensures Bit(g, q) <==> Marked(r, q) { SetBit(group, p, q); }
  }

  lemma {:induction false} FlatClear(group: bv32, ready: seq<seq<Tid>>, p: nat)
    requires Flat(group, ready) && p < |ready| <= 32
    ensures Flat(Without(group, Mask(p)), ready[p := []])
  {
    hide Bit, Mask, With, Without;
    var g, r := Without(group, Mask(p)), ready[p := []];
    forall q: nat | q < 32 ensures Bit(g, q) <==> Marked(r, q) { ClearBit(group, p, q); }
  }

  /** The bit search finds the most urgent non-empty list. */
  lemma {:induction false} FlatTop(group: bv32, ready: seq<seq<Tid>>)
    requires Flat(group, ready) && |ready| <= 32
    ensures group == 0 <==> TopFrom(ready, 0) == |ready|
    ensures group != 0 ==> Ffs(group) > 0 && Ffs(group) - 1 == TopFrom(ready, 0)
  {
    hide Bit, Mask, With, Without, Ffs;
    FfsIsLowest(group);
    var top := TopFrom(ready, 0);
    if group != 0 {
      var r := Ffs(group) - 1;
      assert Marked(ready, r);
      assert top < 32 ==> (Bit(group, top) <==> Marked(ready, top));
    } else {
      if top < |ready| { assert Bit(group, top) <==> Marked(ready, top); NoBits(top); }
    }
  }

  lemma {:induction false} NoBits(p: nat)
    requires p < 32
    ensures !Bit(0, p)
  {
    hide Mask;
  }

  // ---------------------------------------------------------- two levels

  lemma {:induction false} ByteOr(w: bv32, b: nat)
    requires w < 256 && b < 8
    ensures With(w, Mask(b)) < 256
  {
  }

  lemma {:induction false} ByteAnd(w: bv32, m: bv32)
    requires w < 256
    ensures Without(w, m) < 256
  {
  }

  lemma {:induction false} RowsSet(table: seq<bv32>, ready: seq<seq<Tid>>, n: nat, b: nat, l: seq<Tid>)
    requires Rows(table, ready) && n < 32 && b < 8 && 8 * n + b < |ready| && l != []
    ensures Rows(table[n := With(table[n], Mask(b))], ready[8 * n + b := l])
  {
    hide Bit, Mask, With, Without;
    var t, r := table[n := With(table[n], Mask(b))], ready[8 * n + b := l];
    ByteOr(table[n], b);
    forall m: nat, c: nat | m < 32 && c < 8 ensures Bit(t[m], c) <==> Marked(r, 8 * m + c) {
      if m == n { SetBit(table[n], b, c); }
    }
  }

  lemma {:induction false} RowsClear(table: seq<bv32>, ready: seq<seq<Tid>>, n: nat, b: nat)
    requires Rows(table, ready) && n < 32 && b < 8 && 8 * n + b < |ready|
    ensures Rows(table[n := Without(table[n], Mask(b))], ready[8 * n + b := []])
  {
    hide Bit, Mask, With, Without;
    var t, r := table[n := Without(table[n], Mask(b))], ready[8 * n + b := []];
    ByteAnd(table[n], Mask(b));
    forall m: nat, c: nat | m < 32 && c < 8 ensures Bit(t[m], c) <==> Marked(r, 8 * m + c) {
      if m == n { ClearBit(table[n], b, c); }
    }
  }

  lemma {:induction false} GroupsSet(group: bv32, table: seq<bv32>, n: nat, w: bv32)
    requires Groups(group, table) && n < 32 && w != 0
    ensures Groups(With(group, Mask(n)), table[n := w])
  {
    hide Bit, Mask, With, Without;
    var g, t := With(group, Mask(n)), table[n := w];
    forall m: nat | m < 32 ensures Bit(g, m) <==> t[m] != 0 { SetBit(group, n, m); }
  }

  lemma {:induction false} GroupsClear(group: bv32, table: seq<bv32>, n: nat)
    requires Groups(group, table) && n < 32
    ensures Groups(Without(group, Mask(n)), table[n := 0])
  {
    hide Bit, Mask, With, Without;
    var g, t := Without(group, Mask(n)), table[n := 0];
    forall m: nat | m < 32 ensures Bit(g, m) <==> t[m] != 0 { ClearBit(group, n, m); }
  }

  lemma {:induction false} GroupsKeep(group: bv32, table: seq<bv32>, n: nat, w: bv32)
    requires Groups(group, table) && n < 32 && table[n] != 0 && w != 0
    ensures Groups(group, table[n := w])
  {
    hide Bit;
    var t := table[n := w];
    forall m: nat | m < 32 ensures Bit(group, m) <==> t[m] != 0 { assert Bit(group, m) <==> table[m] != 0; }
  }

  lemma {:induction false} WasNonZero(w: bv32, m: bv32)
    requires Without(w, m) != 0
    ensures w != 0
  {
  }

  /** Both levels after a thread has been put on list p. */
  lemma {:induction false} WideSet(group: bv32, table: seq<bv32>, ready: seq<seq<Tid>>, p: nat, l: seq<Tid>)
    requires Agrees(group, table, ready) && 32 < |ready| <= 256 && p < |ready| && l != []
    ensures Agrees(With(group, Mask(p / 8)), table[p / 8 := With(table[p / 8], Mask(p % 8))], ready[p := l])
  {
    var n, b := p / 8, p % 8;
    OrNonZero(table[n], b);
    hide Bit, Mask, With, Without, Rows, Groups;
    RowsSet(table, ready, n, b, l);
    GroupsSet(group, table, n, With(table[n], Mask(b)));
  }

  /** Both levels after list p has become empty. */
  lemma {:induction false} WideClear(group: bv32, table: seq<bv32>, ready: seq<seq<Tid>>, p: nat)
    requires Agrees(group, table, ready) && 32 < |ready| <= 256 && p < |ready|
    ensures var w := Without(table[p / 8], Mask(p % 8));
      Agrees(if w == 0 then Without(group, Mask(p / 8)) else group, table[p / 8 := w], ready[p := []])
  {
    var n, b := p / 8, p % 8;
    var w := Without(table[n], Mask(b));
    if w != 0 { WasNonZero(table[n], Mask(b)); }
    hide Bit, Mask, With, Without, Rows, Groups;
    RowsClear(table, ready, n, b);
    if w == 0 {
      GroupsClear(group, table, n);
    } else {
      GroupsKeep(group, table, n, w);
    }
  }

  lemma {:induction false} OrNonZero(w: bv32, b: nat)
    requires b < 32
    ensures With(w, Mask(b)) != 0
  {
    MaskNonZero(b);
    OrKeeps(w, Mask(b));
    hide Mask;
  }

  lemma {:induction false} OrKeeps(w: bv32, m: bv32)
    requires m != 0
    ensures With(w, m) != 0
  {
  }

  /** The lowest bit of a byte is one of its eight. */
  lemma {:induction false} ByteFfs(w: bv32)
    requires 0 < w < 256
    ensures 0 < Ffs(w) <= 8
  {
    ByteItself(w);
    LowestRight(w);
    hide Lowest, IsLowest, Mask;
  }

  lemma {:induction false} ByteItself(w: bv32)
    requires w < 256
    ensures w & 0xff == w
  {
  }

  lemma {:induction false} NoMark(table: seq<bv32>, ready: seq<seq<Tid>>, p: nat)
    requires Rows(table, ready) && p < 256
    ensures Bit(table[p / 8], p % 8) <==> Marked(ready, p)
  {
    assert 8 * (p / 8) + p % 8 == p;
  }

  /** Nothing is marked before the first bit of the first marked row. */
  lemma {:induction false} NoneBefore(group: bv32, table: seq<bv32>, ready: seq<seq<Tid>>, n: nat, b: nat, q: nat)
    requires Rows(table, ready) && Groups(group, table) && n < 32 && b < 8 && q < 8 * n + b
    requires forall k :: 0 <= k < n ==> !Bit(group, k)
    requires forall k :: 0 <= k < b ==> !Bit(table[n], k)
    ensures !Marked(ready, q)
  {
    hide Bit;
    var m := q / 8;
    NoMark(table, ready, q);
    if m < n {
      assert Bit(group, m) <==> table[m] != 0;
      NoBits(q % 8);
    }
  }

  /** Two searches find the most urgent non-empty list. */
  lemma {:induction false} RowsTop(group: bv32, table: seq<bv32>, ready: seq<seq<Tid>>)
    requires Rows(table, ready) && Groups(group, table) && |ready| <= 256
    ensures group == 0 <==> TopFrom(ready, 0) == |ready|
    ensures group != 0 ==>
      && 0 < Ffs(group) <= 32 && table[Ffs(group) - 1] != 0 && 0 < Ffs(table[Ffs(group) - 1]) <= 8
      && 8 * (Ffs(group) - 1) + Ffs(table[Ffs(group) - 1]) - 1 == TopFrom(ready, 0)
  {
    hide Bit, Mask, With, Without, Ffs;
    FfsIsLowest(group);
    var top := TopFrom(ready, 0);
    if group == 0 {
      if top < |ready| {
        NoBits(top / 8);
        NoBits(top % 8);
        assert table[top / 8] == 0;
        NoMark(table, ready, top);
      }
    } else {
      var n := Ffs(group) - 1;
      assert Bit(group, n) <==> table[n] != 0;
      FfsIsLowest(table[n]);
      ByteFfs(table[n]);
      var b := Ffs(table[n]) - 1;
      assert Bit(table[n], b) <==> Marked(ready, 8 * n + b);
      if top < 8 * n + b {
        NoneBefore(group, table, ready, n, b, top);
      }
    }
  }
}

/** The scheduler as it is written: masks in every thread, a bitmap and a table
    of lists. */
module Scheduler {
  import opened Machine
  import opened OrderedList
  import opened Bitmap
  import opened SchedulerSpec
  import opened ReadyBitmap

  /** number, number_mask and high_mask of a thread. */
  datatype Attr = Attr(number: nat, numberMask: bv32, highMask: bv32)

  function AttrOf(p: nat, max: nat): Attr
    requires p < max <= 256
  {
    if max > 32 then Attr(p / 8, Mask(p / 8), Mask(p % 8)) else Attr(0, Mask(p), 0)
  }

  /** Every started thread carries the masks of its current priority. */
  ghost predicate Carry(threads: map<Tid, Thread>, attr: map<Tid, Attr>, max: nat)
    requires max <= 256 && forall t :: t in threads ==> threads[t].prio < max
  {
    forall t :: t in threads && threads[t].stat != Fresh ==> t in attr && attr[t] == AttrOf(threads[t].prio, max)
  }

  lemma {:induction false} CarryStat(threads: map<Tid, Thread>, attr: map<Tid, Attr>, max: nat, t: Tid, stat: Stat)
    requires max <= 256 && forall x :: x in threads ==> threads[x].prio < max
    requires Carry(threads, attr, max) && t in threads && threads[t].stat != Fresh
    ensures t in attr && attr[t] == AttrOf(threads[t].prio, max)
    ensures Carry(threads[t := threads[t].(stat := stat)], attr, max)
  {
    hide AttrOf;
  }

  class Scheduler {
    /** RT_THREAD_PRIORITY_MAX */
    const max: nat
    var threads: map<Tid, Thread>
    var attr: map<Tid, Attr>
    /** rt_thread_priority_table */
    var ready: seq<seq<Tid>>
    var current: Tid
    var lock: int
    /** rt_thread_ready_priority_group */
    var group: bv32
    /** rt_thread_ready_table */
    const table: array<bv32>

    ghost predicate Shape()
      reads this`ready, this`threads
    {
      0 < max <= 256 && |ready| == max && forall t :: t in threads ==> threads[t].prio < max && threads[t].init < max
    }

    /** Every started thread carries the masks of its current priority. */
    ghost predicate Masks()
      requires Shape()
      reads this`ready, this`threads, this`attr
    {
      Carry(threads, attr, max)
    }

    ghost predicate Valid()
      reads this, table
    {
      table.Length == 32 && Shape() && Masks() && Agrees(group, table[..], ready)
    }

    ghost function Abs(): Sched
      reads this`threads, this`ready, this`current, this`lock
    {
      Sched(threads, ready, current, lock)
    }

    /** rt_system_scheduler_init, with the idle thread about to run. */
    constructor (max: nat, threads: map<Tid, Thread>, idle: Tid)
      requires 0 < max <= 256 && idle in threads
      requires forall t :: t in threads ==> threads[t].prio < max && threads[t].init < max
      requires forall t :: t in threads ==> threads[t].stat == if t == idle then Running else Fresh
      ensures Valid() && fresh(table) && Abs() == Sched(threads, seq(max, _ => []), idle, 0)
      ensures Abs().Inv()
    {
      hide Bit, Mask, With, Without, AttrOf;
      this.max, this.threads, current, lock := max, threads, idle, 0;
      attr := map[idle := AttrOf(threads[idle].prio, max)];
      ready := seq(max, _ => []);
      group := 0;
      table := new bv32[32](_ => 0);
      new;
      forall p: nat | p < 32 ensures !Bit(0, p) { NoBits(p); }
      forall p: nat | p < max ensures Abs().ListOk(p) {}
    }

    /** Enter the masks of t's current priority. */
    method SetMasks(t: Tid)
      requires Shape() && t in threads
      modifies this`attr
      ensures attr == old(attr)[t := AttrOf(threads[t].prio, max)]
    {
      hide Mask;
      var p := threads[t].prio;
      if max > 32 {
        attr := attr[t := Attr(p / 8, Mask(p / 8), Mask(p % 8))];
      } else {
        attr := attr[t := Attr(0, Mask(p), 0)];
      }
    }

    /** Set the bits of list p, which is about to hold a thread. */
    method SetBits(a: Attr, p: nat, ghost l: seq<Tid>)
      requires table.Length == 32 && 0 < max <= 256 && |ready| == max && p < max && a == AttrOf(p, max) && l != []
      requires Agrees(group, table[..], ready)
      modifies this`group, table
      ensures Agrees(group, table[..], ready[p := l])
    {
      ghost var g, rows := group, table[..];
      if max > 32 {
        WideSet(g, rows, ready, p, l);
        hide Bit, Mask, With, Without, Agrees;
        table[a.number] := With(table[a.number], a.highMask);
        assert table[..] == rows[a.number := With(rows[a.number], a.highMask)];
      } else {
        FlatSet(g, ready, p, l);
        hide Bit, Mask, With, Without, Flat;
      }
      group := With(group, a.numberMask);
    }

    /** Clear the bits of list p, which has become empty. */
    method ClearBits(a: Attr, p: nat)
      requires table.Length == 32 && 0 < max <= 256 && |ready| == max && p < max && a == AttrOf(p, max)
      requires Agrees(group, table[..], ready)
      modifies this`group, table
      ensures Agrees(group, table[..], ready[p := []])
    {
      ghost var g, rows := group, table[..];
      if max > 32 {
        WideClear(g, rows, ready, p);
        hide Bit, Mask, With, Without, Agrees;
        table[a.number] := Without(table[a.number], a.highMask);
        assert table[..] == rows[a.number := Without(rows[a.number], a.highMask)];
        if table[a.number] == 0 {
          group := Without(group, a.numberMask);
        }
      } else {
        FlatClear(g, ready, p);
        hide Bit, Mask, With, Without, Flat;
        group := Without(group, a.numberMask);
      }
    }

    /** rt_schedule_insert_thread. */
    method InsertThread(t: Tid)
      requires Valid() && t in threads && threads[t].stat != Fresh
      modifies this`threads, this`ready, this`group, table
      ensures Valid() && Abs() == SchedulerSpec.InsertThread(old(Abs()), t)
    {
      hide Agrees, Carry, AttrOf, Remove;
      if t == current {
        CarryStat(threads, attr, max, t, Running);
        threads := threads[t := threads[t].(stat := Running)];
        return;
      }
      CarryStat(threads, attr, max, t, Ready);
      threads := threads[t := threads[t].(stat := Ready)];
      var p := threads[t].prio;
      var l := ready[p] + [t];
      SetBits(attr[t], p, l);
      ready := ready[p := l];
    }

    /** rt_schedule_remove_thread. */
    method RemoveThread(t: Tid)
      requires Valid() && t in threads && threads[t].stat != Fresh
      modifies this`ready, this`group, table
      ensures Valid() && Abs() == SchedulerSpec.RemoveThread(old(Abs()), t)
    {
      var p := threads[t].prio;
      var l := Remove(ready[p], t);
      RemoveSubset(ready[p], t);
      if l == [] {
        ClearBits(attr[t], p);
      } else {
        SameMarks(group, table[..], ready, p, l);
      }
      hide Agrees;
      ready := ready[p := l];
    }

    /** _get_highest_priority_thread. */
    method GetHighest() returns (t: Tid, p: nat)
      requires Valid() && group != 0
      ensures p == Top(Abs()) < |ready| && t == ready[p][0]
    {
      hide Ffs, Flat, Rows, Groups, Masks;
      if max > 32 {
        RowsTop(group, table[..], ready);
        var number := Ffs(group) - 1;
        p := number * 8 + Ffs(table[number]) - 1;
      } else {
        FlatTop(group, ready);
        p := Ffs(group) - 1;
      }
      t := ready[p][0];
    }

    /** Whether any thread is ready, as rt_schedule asks. */
    lemma {:induction false} GroupTop()
      requires Valid()
      ensures group != 0 <==> Top(Abs()) < |ready|
    {
      if max > 32 { RowsTop(group, table[..], ready); } else { FlatTop(group, ready); }
    }

    /** rt_schedule. */
    method Schedule()
      requires Valid() && Abs().Inv()
      modifies this, table
      ensures Valid() && Abs() == SchedulerSpec.Schedule(old(Abs()))
    {
      hide Mask;
      GroupTop();
      hide Agrees;
      if lock == 0 && group != 0 {
        var to, top := GetHighest();
        HeadKnown(Abs(), top);
        var insertFrom := false;
        if threads[current].stat == Running {
          if threads[current].prio < top {
            to := current;
          } else {
            insertFrom := true;
          }
        }
        if to != current {
          Switch(to, insertFrom);
        } else {
          RemoveThread(current);
          threads := threads[current := threads[current].(stat := Running)];
        }
      }
    }

    /** The switch of rt_schedule. */
    method Switch(to: Tid, insertFrom: bool)
      requires Valid() && current in threads && to in threads && to != current
      requires threads[to].stat != Fresh && threads[current].stat != Fresh
      requires insertFrom == (threads[current].stat == Running)
      modifies this, table
      ensures Valid() && Abs() == SwitchTo(old(Abs()), to)
    {
      hide Agrees, Carry, AttrOf, Remove;
      var from := current;
      current := to;
      if insertFrom {
        InsertThread(from);
      }
      RemoveThread(to);
      CarryStat(threads, attr, max, to, Running);
      threads := threads[to := threads[to].(stat := Running)];
    }

    /** rt_thread_suspend. */
    method Suspend(t: Tid) returns (ok: bool)
      requires Valid() && t in threads
      modifies this, table
      ensures Valid() && (Abs(), ok) == SchedulerSpec.Suspend(old(Abs()), t)
    {
      hide Agrees;
      if threads[t].stat != Ready && threads[t].stat != Running {
        return false;
      }
      RemoveThread(t);
      threads := threads[t := threads[t].(stat := Suspended)];
      return true;
    }

    /** rt_thread_resume, for a thread taken off its wait list. */
    method Resume(t: Tid) returns (ok: bool)
      requires Valid() && t in threads
      modifies this, table
      ensures Valid() && (Abs(), ok) == SchedulerSpec.Resume(old(Abs()), t)
    {
      hide Agrees;
      if threads[t].stat != Suspended {
        return false;
      }
      InsertThread(t);
      return true;
    }

    /** rt_thread_control(RT_THREAD_CTRL_CHANGE_PRIORITY). */
    method ChangePriority(t: Tid, p: nat)
      requires Valid() && t in threads && p < max
      modifies this, table
      ensures Valid() && Abs() == SchedulerSpec.ChangePriority(old(Abs()), t, p)
    {
      hide Mask, Agrees;
      if threads[t].stat == Ready {
        RemoveThread(t);
        threads := threads[t := threads[t].(prio := p)];
        SetMasks(t);
        InsertThread(t);
      } else {
        threads := threads[t := threads[t].(prio := p)];
        SetMasks(t);
      }
    }

    /** rt_thread_startup. */
    method Startup(t: Tid)
      requires Valid() && Abs().Inv() && Abs().Is(t, Fresh)
      modifies this, table
      ensures Valid() && Abs() == SchedulerSpec.Startup(old(Abs()), t)
    {
      hide Agrees;
      StartedInv(Abs(), t);
      Begin(t);
      Schedule();
    }

    /** rt_thread_startup up to the final scheduling. */
    method Begin(t: Tid)
      requires Valid() && t in threads && t != current
      modifies this, table
      ensures Valid()
      ensures Abs() == SchedulerSpec.InsertThread(
        SetStat(SetPrio(old(Abs()), t, old(threads[t].init)), t, Suspended), t)
    {
      hide Agrees, Mask, AttrOf, Remove;
      threads := threads[t := threads[t].(prio := threads[t].init)];
      SetMasks(t);
      threads := threads[t := threads[t].(stat := Suspended)];
      var _ := Resume(t);
    }

    /** rt_thread_timeout, for a thread taken off its wait list. */
    method Timeout(t: Tid)
      requires Valid() && Abs().Inv() && Abs().Is(t, Suspended)
      modifies this, table
      ensures Valid() && Abs() == SchedulerSpec.Timeout(old(Abs()), t)
    {
      hide Agrees;
      InsertInv(Abs(), t);
      InsertThread(t);
      Schedule();
    }

    /** rt_enter_critical. */
    method EnterCritical()
      requires Valid()
      modifies this`lock
      ensures Valid() && Abs() == old(Abs()).(lock := old(lock) + 1)
    {
      lock := lock + 1;
    }

    /** rt_exit_critical. */
    method ExitCritical()
      requires Valid() && Abs().Inv()
      modifies this, table
      ensures Valid() && Abs() == SchedulerSpec.ExitCritical(old(Abs()))
    {
      hide Agrees;
      LockInv(Abs(), 0);
      lock := lock - 1;
      if lock <= 0 {
        lock := 0;
        Schedule();
      }
    }
  }

  /** A list that stays non-empty leaves the bitmap as it is. */
  lemma {:induction false} SameMarks(group: bv32, table: seq<bv32>, ready: seq<seq<Tid>>, p: nat, l: seq<Tid>)
    requires Agrees(group, table, ready) && p < |ready| && ready[p] != [] && l != []
    ensures Agrees(group, table, ready[p := l])
  {
    hide Bit;
    assert forall q: nat :: Marked(ready[p := l], q) <==> Marked(ready, q);
  }
}
