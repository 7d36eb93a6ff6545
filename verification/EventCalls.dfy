/** The 32 single events of an event set. */
module EventBits {

  /** The set of event p alone. */
  function Only(p: nat): bv32
    requires p < 32
  {
    1 << p
  }

  predicate Meets(a: bv32, m: bv32) { a & m != 0 }

  predicate Single(m: bv32) { m & (m - 1) == 0 }

  predicate HasBit(a: bv32, p: nat)
    requires p < 32
  {
    Meets(a, Only(p))
  }

  lemma {:induction false} OnlySingle(p: nat)
    requires p < 32
    ensures Single(Only(p))
  {
  }

  lemma {:induction false} AllOrNothing(b: bv32, m: bv32)
    requires Single(m)
    ensures b & m == 0 || b & m == m
  {
  }

  lemma {:induction false} WithAll(a: bv32, b: bv32, m: bv32)
    requires b & m == m
    ensures (a & b) & m == a & m && (a & !b) & m == 0
  {
  }

  lemma {:induction false} WithNothing(a: bv32, b: bv32, m: bv32)
    requires b & m == 0
    ensures (a & b) & m == 0 && (a & !b) & m == a & m
  {
  }

  lemma {:induction false} AndMeets(a: bv32, b: bv32, m: bv32)
    requires Single(m)
    ensures Meets(a & b, m) <==> Meets(a, m) && Meets(b, m)
    ensures Meets(a & !b, m) <==> Meets(a, m) && !Meets(b, m)
  {
    AllOrNothing(b, m);
    hide Single;
    if b & m == 0 {
      WithNothing(a, b, m);
    } else {
      WithAll(a, b, m);
    }
  }

  lemma {:induction false} OrMeets(a: bv32, b: bv32, m: bv32)
    ensures Meets(a | b, m) <==> Meets(a, m) || Meets(b, m)
  {
    assert (a | b) & m == (a & m) | (b & m);
  }

  lemma {:induction false} AndBit(a: bv32, b: bv32, c: bv32, p: nat)
    requires p < 32 && c == a & b
    ensures HasBit(c, p) <==> HasBit(a, p) && HasBit(b, p)
  {
    hide Only, Meets, Single;
    OnlySingle(p);
    AndMeets(a, b, Only(p));
  }

  lemma {:induction false} OrBit(a: bv32, b: bv32, c: bv32, p: nat)
    requires p < 32 && c == a | b
    ensures HasBit(c, p) <==> HasBit(a, p) || HasBit(b, p)
  {
    hide Only, Meets, Single;
    OnlySingle(p);
    OrMeets(a, b, Only(p));
  }

  lemma {:induction false} AndNotBit(a: bv32, b: bv32, c: bv32, p: nat)
    requires p < 32 && c == a & !b
    ensures HasBit(c, p) <==> HasBit(a, p) && !HasBit(b, p)
  {
    hide Only, Meets, Single;
    OnlySingle(p);
    AndMeets(a, b, Only(p));
  }

  lemma {:induction false} NoBit(p: nat)
    requires p < 32
    ensures !HasBit(0, p)
  {
  }

  /** The lowest p events are not in the set. */
  predicate NoneBelow(a: bv32, p: nat)
    requires p < 32
  {
    a & ((1 << p) - 1) == 0
  }

  lemma {:induction false} NoneBelowNothing(a: bv32)
    ensures NoneBelow(a, 0)
  {
  }

  lemma {:induction false} NextBit(a: bv32, p: nat)
    requires p < 32 && NoneBelow(a, p) && !HasBit(a, p)
    ensures if p < 31 then NoneBelow(a, p + 1) else a == 0
  {
  }

  /** A set that is not empty has some event. */
  lemma {:induction false} SomeBit(a: bv32, p: nat) returns (q: nat)
    requires p < 32 && a != 0 && NoneBelow(a, p)
    ensures q < 32 && HasBit(a, q)
    decreases 32 - p
  {
    hide NoneBelow, HasBit;
    if HasBit(a, p) {
      q := p;
    } else {
      NextBit(a, p);
      q := SomeBit(a, p + 1);
    }
  }
}

/** What each call on an event set does, event by event and thread by thread, and
    that a waiting thread waits for what it asked for. */
module EventCalls {
  import opened OrderedList
  import opened IpcList
  import opened ServiceOrder
  import opened EventBits
  import opened EventSpec
  import EventTheory
  import EventOrder

  // ------------------------------------------------------------- single events

  lemma {:induction false} BothBit(a: Bits, b: Bits, p: nat)
    requires p < 32
    ensures HasBit(Both(a, b), p) <==> HasBit(a, p) && HasBit(b, p)
  {
    hide HasBit;
    AndBit(a, b, Both(a, b), p);
  }

  lemma {:induction false} EitherBit(a: Bits, b: Bits, p: nat)
    requires p < 32
    ensures HasBit(Either(a, b), p) <==> HasBit(a, p) || HasBit(b, p)
  {
    hide HasBit;
    OrBit(a, b, Either(a, b), p);
  }

  lemma {:induction false} MinusBit(a: Bits, b: Bits, p: nat)
    requires p < 32
    ensures HasBit(Minus(a, b), p) <==> HasBit(a, p) && !HasBit(b, p)
  {
    hide HasBit;
    AndNotBit(a, b, Minus(a, b), p);
  }

  // ------------------------------------------------------------------- sends

  /** The send that leads from e to g resumed t, which asked for CLEAR, with event p. */
  ghost predicate Took(e: Ev, g: Ev, t: Tid, p: nat)
    requires p < 32
  {
    t in g.woken && t in e.info && IsClear(e.info[t].option) && HasBit(g.woken[t], p)
  }

  /** Event p is there when the send comes to the i-th waiting thread: it was there
      before or is sent now, and none of the threads in front has taken it. */
  ghost predicate LeftAt(e: Ev, bits: Bits, g: Ev, i: nat, p: nat)
    requires i <= |e.wait| && p < 32
  {
    (HasBit(e.events, p) || HasBit(bits, p)) && forall j :: 0 <= j < i ==> !Took(e, g, e.wait[j], p)
  }

  /** The i-th waiting thread finds all it asks for under AND, some of it under OR. */
  ghost predicate Met(e: Ev, bits: Bits, g: Ev, i: nat)
    requires i < |e.wait| && e.wait[i] in e.info
  {
    var w := e.info[e.wait[i]];
    if IsAnd(w.option) then forall p: nat :: p < 32 && HasBit(w.bits, p) ==> LeftAt(e, bits, g, i, p)
    else IsOr(w.option) && exists p: nat :: p < 32 && HasBit(w.bits, p) && LeftAt(e, bits, g, i, p)
  }

  /** What the i-th waiting thread has to do with the send. */
  ghost predicate Turn(e: Ev, bits: Bits, g: Ev, i: nat)
    requires i < |e.wait| && e.wait[i] in e.info
  {
    var t := e.wait[i];
    && (t in g.woken <==> Met(e, bits, g, i)) && (t in g.wait <==> t !in g.woken)
    && (t in g.woken ==> forall p: nat :: p < 32 ==>
          (HasBit(g.woken[t], p) <==> HasBit(e.info[t].bits, p) && LeftAt(e, bits, g, i, p)))
  }

  /** The events that are left when the walk comes to the i-th thread. */
  ghost function EventsAt(wait: seq<Tid>, info: Info, events: Bits, i: nat): Bits
    requires i <= |wait| && forall t :: t in wait ==> t in info
    decreases i
  {
    if i == 0 then events else EventsAt(wait[1..], info, After(info[wait[0]], events), i - 1)
  }

  ghost function After(w: Waiter, events: Bits): Bits {
    if Satisfied(w, events) then Left(w, events) else events
  }

  lemma {:induction false} EventsAtNext(wait: seq<Tid>, info: Info, events: Bits, i: nat)
    requires i < |wait| && forall t :: t in wait ==> t in info
    ensures EventsAt(wait, info, events, i + 1) == After(info[wait[i]], EventsAt(wait, info, events, i))
    decreases i
  {
    hide After;
    if i > 0 {
      EventsAtNext(wait[1..], info, After(info[wait[0]], events), i - 1);
      assert wait[1..][i - 1] == wait[i];
    } else {
      assert EventsAt(wait[1..], info, After(info[wait[0]], events), 0) == After(info[wait[0]], events);
    }
  }

  /** The walk, thread by thread. m are the threads resumed before. */
  lemma {:induction false} SweepAt(wait: seq<Tid>, info: Info, events: Bits, m: map<Tid, Bits>, i: nat)
    requires (forall t :: t in wait ==> t in info && t !in m) && Distinct(wait) && i < |wait|
    ensures var w, at := Sweep(wait, info, events), EventsAt(wait, info, events, i);
      && (wait[i] in w.kept <==> !Satisfied(info[wait[i]], at))
      && (wait[i] in Woken(m, w.resumed) <==> Satisfied(info[wait[i]], at))
      && (Satisfied(info[wait[i]], at) ==> Woken(m, w.resumed)[wait[i]] == Granted(info[wait[i]], at))
    decreases |wait|
  {
    hide Satisfied, Granted, Left;
    var t, w := wait[0], info[wait[0]];
    var rest := Sweep(wait[1..], info, After(w, events));
    SweepStep(wait, info, events, m);
    var n := if Satisfied(w, events) then m[t := Granted(w, events)] else m;
    hide Sweep, Woken, EventsAt;
    if i > 0 {
      assert EventsAt(wait, info, events, i) == EventsAt(wait[1..], info, After(w, events), i - 1) by { AtTail(wait, info, events, i); }
      assert wait[1..][i - 1] == wait[i] && wait[i] in wait[1..] && wait[i] != t;
      SweepAt(wait[1..], info, After(w, events), n, i - 1);
    } else {
      assert EventsAt(wait, info, events, 0) == events by { AtFirst(wait, info, events); }
      assert t !in wait[1..];
      SweepKept(wait[1..], info, After(w, events), n, t);
    }
  }

  lemma {:induction false} AtFirst(wait: seq<Tid>, info: Info, events: Bits)
    requires forall t :: t in wait ==> t in info
    ensures EventsAt(wait, info, events, 0) == events
  {
  }

  lemma {:induction false} AtTail(wait: seq<Tid>, info: Info, events: Bits, i: nat)
    requires 0 < i <= |wait| && forall t :: t in wait ==> t in info
    ensures EventsAt(wait, info, events, i) == EventsAt(wait[1..], info, After(info[wait[0]], events), i - 1)
  {
    hide After;
  }

  lemma {:induction false} SweepStep(wait: seq<Tid>, info: Info, events: Bits, m: map<Tid, Bits>)
    requires wait != [] && forall t :: t in wait ==> t in info
    ensures var t, w, rest := wait[0], info[wait[0]], Sweep(wait[1..], info, After(info[wait[0]], events));
      && Sweep(wait, info, events).events == rest.events
      && Sweep(wait, info, events).kept == (if Satisfied(w, events) then rest.kept else [t] + rest.kept)
      && Woken(m, Sweep(wait, info, events).resumed) ==
           Woken(if Satisfied(w, events) then m[t := Granted(w, events)] else m, rest.resumed)
  {
    hide Satisfied, Granted, Left;
    var t, w, rest := wait[0], info[wait[0]], Sweep(wait[1..], info, After(info[wait[0]], events));
    if Satisfied(w, events) {
      var r := [(t, Granted(w, events))] + rest.resumed;
      assert r[0] == (t, Granted(w, events)) && r[1..] == rest.resumed;
    }
  }

  /** A thread that is not on the list is not touched by the walk. */
  lemma {:induction false} SweepKept(wait: seq<Tid>, info: Info, events: Bits, m: map<Tid, Bits>, x: Tid)
    requires (forall t :: t in wait ==> t in info) && x !in wait
    ensures var w := Sweep(wait, info, events);
      x !in w.kept && (x in Woken(m, w.resumed) <==> x in m) && (x in m ==> Woken(m, w.resumed)[x] == m[x])
    decreases |wait|
  {
    hide Satisfied, Granted, Left;
    if wait != [] {
      var w := info[wait[0]];
      SweepStep(wait, info, events, m);
      SweepKept(wait[1..], info, After(w, events), if Satisfied(w, events) then m[wait[0] := Granted(w, events)] else m, x);
    }
  }

  lemma {:induction false} SweepEnds(wait: seq<Tid>, info: Info, events: Bits)
    requires forall t :: t in wait ==> t in info
    ensures Sweep(wait, info, events).events == EventsAt(wait, info, events, |wait|)
    decreases |wait|
  {
    hide Satisfied, Granted, Left, After;
    if wait != [] {
      SweepStep(wait, info, events, map[]);
      SweepEnds(wait[1..], info, After(info[wait[0]], events));
    }
  }

  /** The events left at the i-th thread are those that LeftAt says. */
  lemma {:induction false} EventsAtBits(e: Ev, bits: Bits, i: nat, p: nat)
    requires e.Members() && bits != 0 && i <= |e.wait| && p < 32
    ensures HasBit(EventsAt(e.wait, e.info, Either(e.events, bits), i), p) <==> LeftAt(e, bits, Send(e, bits).0, i, p)
    decreases i
  {
    hide Satisfied, Granted, Left, Sweep, Woken, Either, HasBit, Distinct, Still, IsClear;
    var all, g := Either(e.events, bits), Send(e, bits).0;
    if i == 0 {
      AtFirst(e.wait, e.info, all);
      EitherBit(e.events, bits, p);
    } else {
      var t := e.wait[i - 1];
      assert t in e.wait;
      EventsAtNext(e.wait, e.info, all, i - 1);
      EventsAtBits(e, bits, i - 1, p);
      SweepAt(e.wait, e.info, all, e.woken, i - 1);
      var at := EventsAt(e.wait, e.info, all, i - 1);
      hide EventsAt;
      AfterBit(e.info[t], at, p);
    }
  }

  lemma {:induction false} AfterBit(w: Waiter, events: Bits, p: nat)
    requires p < 32
    ensures HasBit(After(w, events), p) <==>
      HasBit(events, p) && !(Satisfied(w, events) && IsClear(w.option) && HasBit(Granted(w, events), p))
  {
    hide Satisfied, Granted, Minus, HasBit;
    MinusBit(events, Granted(w, events), p);
  }

  /** The condition and the granted set, event by event. */
  lemma {:induction false} SatisfiedBits(w: Waiter, events: Bits)
    ensures Satisfied(w, events) <==>
      if IsAnd(w.option) then forall p: nat :: p < 32 && HasBit(w.bits, p) ==> HasBit(events, p)
      else IsOr(w.option) && exists p: nat :: p < 32 && HasBit(w.bits, p) && HasBit(events, p)
  {
    hide HasBit, Both;
    var b := Both(w.bits, events);
    forall p: nat | p < 32 ensures HasBit(b, p) <==> HasBit(w.bits, p) && HasBit(events, p) { BothBit(w.bits, events, p); }
    if IsAnd(w.option) {
      if b != w.bits {
        var p := Differs(w.bits, events);
        assert HasBit(w.bits, p) && !HasBit(events, p);
      }
    } else if b != 0 {
      NoneBelowNothing(b);
      var p := SomeBit(b, 0);
      assert HasBit(w.bits, p) && HasBit(events, p);
    } else {
      forall p: nat | p < 32 ensures !HasBit(b, p) { NoBit(p); }
    }
  }

  lemma {:induction false} Differs(a: Bits, b: Bits) returns (p: nat)
    requires Both(a, b) != a
    ensures p < 32 && HasBit(a, p) && !HasBit(b, p)
  {
    assert Minus(a, b) != 0;
    NoneBelowNothing(Minus(a, b));
    hide Both, Minus, HasBit;
    p := SomeBit(Minus(a, b), 0);
    MinusBit(a, b, p);
  }

  lemma {:induction false} GrantedBit(w: Waiter, events: Bits, p: nat)
    requires p < 32 && Satisfied(w, events)
    ensures HasBit(Granted(w, events), p) <==> HasBit(w.bits, p) && HasBit(events, p)
  {
    hide HasBit, Both;
    BothBit(w.bits, events, p);
  }

  lemma {:induction false} SendTurn(e: Ev, bits: Bits, i: nat)
    requires e.Members() && bits != 0 && i < |e.wait|
    ensures e.wait[i] in e.wait && Turn(e, bits, Send(e, bits).0, i)
  {
    hide Satisfied, Granted, Sweep, Woken, Either, HasBit, Distinct, Still, IsClear, IsAnd, IsOr, EventsAt, LeftAt;
    var t, all, g := e.wait[i], Either(e.events, bits), Send(e, bits).0;
    assert t in e.wait;
    var at := EventsAt(e.wait, e.info, all, i);
    SweepAt(e.wait, e.info, all, e.woken, i);
    SatisfiedBits(e.info[t], at);
    forall p: nat | p < 32 ensures HasBit(at, p) <==> LeftAt(e, bits, g, i, p) { EventsAtBits(e, bits, i, p); }
    if Satisfied(e.info[t], at) {
      forall p: nat | p < 32 ensures HasBit(g.woken[t], p) <==> HasBit(e.info[t].bits, p) && LeftAt(e, bits, g, i, p) {
        GrantedBit(e.info[t], at, p);
      }
    }
  }

  /** What a send does. Each waiting thread is resumed exactly if it finds what it
      asks for among the events that were there or are sent and that no CLEAR thread
      in front of it has taken, and is granted what it finds; the events left are
      those that no thread has taken; nobody else's answer changes. */
  lemma {:induction false} SendExact(e: Ev, bits: Bits)
    requires e.Members() && bits != 0
    ensures var (g, o) := Send(e, bits);
      && o == Done && Sub(g.wait, e.wait) && g == e.(events := g.events, wait := g.wait, timed := g.timed, woken := g.woken)
      && (forall p: nat :: p < 32 ==> (HasBit(g.events, p) <==> LeftAt(e, bits, g, |e.wait|, p)))
      && (forall i: nat :: i < |e.wait| ==> e.wait[i] in e.info && Turn(e, bits, g, i))
      && (forall t :: t in e.woken ==> t in g.woken && g.woken[t] == e.woken[t])
      && (forall t :: t in g.woken ==> t in e.woken || t in e.wait)
      && (forall t :: t in g.timed <==> t in e.timed && t in g.wait)
  {
    hide Satisfied, Granted, Sweep, Woken, Either, HasBit, Distinct, IsClear, LeftAt, Turn, EventsAt, Left;
    var all, g := Either(e.events, bits), Send(e, bits).0;
    EventOrder.SweepSub(e.wait, e.info, all);
    SweepEnds(e.wait, e.info, all);
    forall p: nat | p < 32 ensures HasBit(g.events, p) <==> LeftAt(e, bits, g, |e.wait|, p) { EventsAtBits(e, bits, |e.wait|, p); }
    forall i: nat | i < |e.wait| ensures e.wait[i] in e.info && Turn(e, bits, g, i) { SendTurn(e, bits, i); }
    forall t | t !in e.wait ensures (t in g.woken <==> t in e.woken) && (t in e.woken ==> g.woken[t] == e.woken[t]) {
      SweepKept(e.wait, e.info, all, e.woken, t);
    }
  }

  /** Without CLEAR the events add up, and exactly the threads whose condition they
      meet are resumed. */
  lemma {:induction false} SendPlain(e: Ev, bits: Bits)
    requires e.Members() && bits != 0 && forall t :: t in e.wait ==> !IsClear(e.info[t].option)
    ensures var g := Send(e, bits).0;
      && (forall p: nat :: p < 32 ==> (HasBit(g.events, p) <==> HasBit(e.events, p) || HasBit(bits, p)))
      && (forall t :: t in e.wait ==> (t in g.wait <==> !Satisfied(e.info[t], g.events)))
  {
    hide Satisfied, HasBit, IsClear, IsAnd, IsOr, Send, Distinct;
    SendExact(e, bits);
    var g := Send(e, bits).0;
    forall i: nat, p: nat | i <= |e.wait| && p < 32 ensures LeftAt(e, bits, g, i, p) <==> HasBit(g.events, p) {
      forall j | 0 <= j < |e.wait| ensures !Took(e, g, e.wait[j], p) { assert e.wait[j] in e.wait; }
    }
    forall t | t in e.wait ensures t in g.wait <==> !Satisfied(e.info[t], g.events) {
      var i: nat :| i < |e.wait| && e.wait[i] == t;
      assert Turn(e, bits, g, i);
      SatisfiedBits(e.info[t], g.events);
      hide LeftAt;
    }
  }

  // ---------------------------------------------------------- the other calls

  /** What a receive does: refuse an empty set, take what is there, go without, or
      wait for what it asked for. CLEAR removes all of the events asked for. */
  lemma {:induction false} RecvExact(e: Ev, t: Tid, bits: Bits, option: EventSpec.Option, timeout: int, prio: Priorities)
    requires Known(e.wait, prio) && t in prio && (IsAnd(option) || IsOr(option))
    ensures var (g, o) := Recv(e, t, bits, option, timeout, prio);
      var there := if IsAnd(option) then forall p: nat :: p < 32 && HasBit(bits, p) ==> HasBit(e.events, p)
                   else exists p: nat :: p < 32 && HasBit(bits, p) && HasBit(e.events, p);
      && (o == Invalid <==> bits == 0) && (o.Received? <==> bits != 0 && there)
      && (o == TimedOut <==> bits != 0 && !there && timeout == 0) && (o == Blocked <==> bits != 0 && !there && timeout != 0)
      && (o.Received? ==> forall p: nat :: p < 32 ==> (HasBit(o.bits, p) <==> HasBit(bits, p) && HasBit(e.events, p)))
      && (forall p: nat :: p < 32 ==> (HasBit(g.events, p) <==> HasBit(e.events, p) && !(o.Received? && IsClear(option) && HasBit(bits, p))))
      && (o != Blocked ==> g == e.(events := g.events))
      && (o == Blocked ==> g == e.(wait := g.wait, info := e.info[t := Waiter(bits, option)], timed := g.timed))
      && (o == Blocked ==> forall x :: x in g.wait <==> x == t || x in e.wait)
      && (o == Blocked ==> g.timed == if timeout > 0 then e.timed + {t} else e.timed)
  {
    hide Satisfied, HasBit, Both, Minus, IsAnd, IsOr, IsClear;
    SatisfiedBits(Waiter(bits, option), e.events);
    EnqueueMembers(e.wait, t, e.flag, prio);
    forall p: nat | p < 32 ensures HasBit(Minus(e.events, bits), p) <==> HasBit(e.events, p) && !HasBit(bits, p) { MinusBit(e.events, bits, p); }
    forall p: nat | p < 32 ensures HasBit(Both(e.events, bits), p) <==> HasBit(e.events, p) && HasBit(bits, p) { BothBit(e.events, bits, p); }
  }

  /** A timeout takes the thread off the list, a reset everybody, and all events. */
  lemma {:induction false} LeaveExact(e: Ev, t: Tid)
    requires e.Members()
    ensures var g := Expire(e, t);
      g == e.(wait := g.wait, timed := g.timed) && t !in g.wait && t !in g.timed
      && Sub(g.wait, e.wait) && (forall x :: x != t ==> (x in g.wait <==> x in e.wait) && (x in g.timed <==> x in e.timed))
    ensures var g := Reset(e);
      g == e.(events := 0, wait := [], timed := {})
  {
    RemoveMembers(e.wait, t);
    RemoveIsSub(e.wait, t);
  }

  // ------------------------------------------------------------ over whole runs

  /** What the last receive of each thread asked for. */
  datatype Ask = Ask(w: Waiter, timeout: int)

  ghost function Asks(ops: seq<(Op, Priorities)>, asks: map<Tid, Ask>): map<Tid, Ask>
    decreases |ops|
  {
    if ops == [] then asks
    else
      match ops[0].0
      case DoRecv(t, bits, option, timeout) => Asks(ops[1..], asks[t := Ask(Waiter(bits, option), timeout)])
      case _ => Asks(ops[1..], asks)
  }

  /** Waiting and resumed threads are recorded with what they asked for, and those
      that gave a waiting time have their timer running. */
  ghost predicate Recorded(e: Ev, asks: map<Tid, Ask>) {
    && (forall t :: e.Has(t) ==> t in asks && t in e.info && e.info[t] == asks[t].w)
    && (forall t :: t in e.wait && t in asks ==> (t in e.timed <==> asks[t].timeout > 0))
  }

  lemma {:induction false} StepRecorded(e: Ev, op: Op, prio: Priorities, asks: map<Tid, Ask>)
    requires e.Inv() && Legal(e, op, prio) && Recorded(e, asks)
    ensures Recorded(Step(e, op, prio), Asks([(op, prio)], asks))
  {
    hide Satisfied, HasBit, Distinct, Send, Recv, Expire, IsAnd, IsOr, Asks, Ev.NobodySatisfied, Ev.Answered, Recorded;
    AsksOne(op, prio, asks);
    match op
    case DoSend(bits) => SendRecorded(e, bits, asks);
    case DoRecv(t, bits, option, timeout) => RecvRecorded(e, t, bits, option, timeout, prio, asks);
    case DoFinish(t) => FinishRecorded(e, t, asks);
    case DoExpire(t) => ExpireRecorded(e, t, asks);
    case DoReset => ResetRecorded(e, asks);
  }

  lemma {:induction false} SendRecorded(e: Ev, bits: Bits, asks: map<Tid, Ask>)
    requires e.Members() && Recorded(e, asks)
    ensures Recorded(Send(e, bits).0, asks)
  {
    hide Send, HasBit, Turn, LeftAt, Sub, Distinct;
    if bits == 0 {
      SendNothing(e);
    } else {
      SendExact(e, bits);
      SubMembers(Send(e, bits).0.wait, e.wait);
    }
  }

  lemma {:induction false} RecvRecorded(
      e: Ev, t: Tid, bits: Bits, option: EventSpec.Option, timeout: int, prio: Priorities, asks: map<Tid, Ask>)
    requires e.Members() && Known(e.wait, prio) && t in prio && (IsAnd(option) || IsOr(option)) && Recorded(e, asks) && !e.Has(t)
    ensures Recorded(Recv(e, t, bits, option, timeout, prio).0, asks[t := Ask(Waiter(bits, option), timeout)])
  {
    hide Recv, HasBit, IsAnd, IsOr, IsClear;
    RecvExact(e, t, bits, option, timeout, prio);
  }

  lemma {:induction false} ExpireRecorded(e: Ev, t: Tid, asks: map<Tid, Ask>)
    requires e.Members() && Recorded(e, asks)
    ensures Recorded(Expire(e, t), asks)
  {
    hide Expire, Sub, Distinct;
    LeaveExact(e, t);
    SubMembers(Expire(e, t).wait, e.wait);
  }

  lemma {:induction false} FinishRecorded(e: Ev, t: Tid, asks: map<Tid, Ask>)
    requires t in e.woken && Recorded(e, asks)
    ensures Recorded(Finish(e, t).0, asks)
  {
  }

  lemma {:induction false} ResetRecorded(e: Ev, asks: map<Tid, Ask>)
    requires Recorded(e, asks)
    ensures Recorded(Reset(e), asks)
  {
  }

  lemma {:induction false} AsksOne(op: Op, prio: Priorities, asks: map<Tid, Ask>)
    ensures Asks([(op, prio)], asks) ==
      if op.DoRecv? then asks[op.t := Ask(Waiter(op.bits, op.option), op.timeout)] else asks
  {
    var ops := [(op, prio)];
    assert ops[0].0 == op && ops[1..] == [];
  }

  lemma {:induction false} SendNothing(e: Ev)
    requires e.Members()
    ensures Send(e, 0) == (e, Invalid)
  {
  }

  lemma {:induction false} AsksFirst(ops: seq<(Op, Priorities)>, asks: map<Tid, Ask>)
    requires ops != []
    ensures Asks(ops, asks) == Asks(ops[1..], Asks([ops[0]], asks))
  {
    var first := [ops[0]];
    assert first[0] == ops[0] && first[1..] == [];
  }

  lemma {:induction false} RunRecorded(e: Ev, ops: seq<(Op, Priorities)>, g: Ev, asks: map<Tid, Ask>)
    requires e.Inv() && Reaches(e, ops, g) && Recorded(e, asks)
    ensures Recorded(g, Asks(ops, asks))
    decreases |ops|
  {
    hide Ev.Inv, Step, Recorded, Legal, Asks;
    if ops == [] {
      assert Asks([], asks) == asks by { NoAsks(asks); }
    } else {
      StepRecorded(e, ops[0].0, ops[0].1, asks);
      EventTheory.StepInv(e, ops[0].0, ops[0].1);
      AsksFirst(ops, asks);
      RunRecorded(Step(e, ops[0].0, ops[0].1), ops[1..], g, Asks([ops[0]], asks));
    }
  }

  lemma {:induction false} NoAsks(asks: map<Tid, Ask>)
    ensures Asks([], asks) == asks
  {
  }

  /** On every run a thread waits for, and is woken with, what its own call asked for. */
  lemma {:induction false} WaitsForItsCall(flag: Flag, ops: seq<(Op, Priorities)>, g: Ev)
    requires Reaches(Init(flag), ops, g)
    ensures Recorded(g, Asks(ops, map[]))
  {
    RunRecorded(Init(flag), ops, g, map[]);
    hide Recorded, Asks;
  }
}
