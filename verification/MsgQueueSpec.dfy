/** The message queue of ipc.c as a step machine. A send takes a node off the
    free list, fills it with interrupts enabled and links it; a receive unlinks
    a node, copies it with interrupts enabled and returns it to the free list.
    Other calls may run between these steps. */
module MsgQueueSpec {
  import opened OrderedList
  import opened IpcList
  import opened Waiters

  type Node = nat
  type Byte = bv8
  type Bytes = seq<Byte>

  /** A node that a call in progress holds: being filled, filled and about to be
      linked at the tail or the head, or being copied out. */
  datatype Transit = Empty(urgent: bool) | Filled(urgent: bool) | Leaving

  datatype Outcome = Blocked | TooLong | Full | TimedOut | Got(n: Node)

  /** buf holds the bytes of every node; sent is the message last put into it. */
  datatype Mq = Mq(
    max: nat, size: nat, flag: Flag, queue: seq<Node>, free: seq<Node>, transit: map<Node, Transit>,
    buf: map<Node, Bytes>, sent: map<Node, Bytes>, recv: Side, linked: seq<Bytes>, got: seq<Bytes>)
  {
    /** Every node is in exactly one place. */
    ghost predicate Conserved() {
      multiset(queue) + multiset(free) + multiset(transit.Keys) == multiset(All(max))
    }

    /** What conservation means for the lists. */
    ghost predicate Tidy() {
      && Distinct(queue) && Distinct(free)
      && (forall n :: n in queue ==> n < max && n !in free && n !in transit)
      && (forall n :: n in free ==> n < max && n !in transit)
      && (forall n :: n in transit ==> n < max)
    }

    /** A message occupies the front of its node's buffer. */
    ghost predicate Holds(n: Node) {
      n in buf && n in sent && |buf[n]| == size && sent[n] <= buf[n]
    }

    ghost predicate Contents() {
      && (forall n: Node :: n < max ==> n in buf && |buf[n]| == size)
      && (forall n :: n in queue ==> Holds(n))
      && (forall n :: n in transit && !transit[n].Empty? ==> Holds(n))
    }

    ghost predicate NoLostWakeup() {
      recv.wait != [] ==> |queue| <= |recv.woken|
    }

    ghost predicate Inv() {
      Conserved() && Contents() && recv.Inv() && NoLostWakeup()
    }
  }

  function All(max: nat): set<Node> {
    if max == 0 then {} else All(max - 1) + {max - 1}
  }

  /** rt_mq_init chains the nodes last to first. */
  function Chained(max: nat): seq<Node> {
    if max == 0 then [] else [max - 1] + Chained(max - 1)
  }

  function Init(max: nat, size: nat, flag: Flag): Mq {
    Mq(max, size, flag, [], Chained(max), map[], map n: Node | n in All(max) :: Blank(size), map[], NOBODY, [], [])
  }

  function Blank(size: nat): Bytes { seq(size, _ => 0) }

  /** Copy a message over the front of a buffer. */
  function Over(b: Bytes, d: Bytes): Bytes
    requires |d| <= |b|
  {
    d + b[|d|..]
  }

  // ------------------------------------------------------------------- send

  /** rt_mq_send and rt_mq_urgent up to the end of the first critical section. */
  function Claim(m: Mq, len: nat, urgent: bool): (Mq, Outcome) {
    if len > m.size then (m, TooLong)
    else if m.free == [] then (m, Full)
    else (m.(free := m.free[1..], transit := m.transit[m.free[0] := Empty(urgent)]), Got(m.free[0]))
  }

  /** The copy, with interrupts enabled. */
  function Fill(m: Mq, n: Node, d: Bytes): Mq
    requires n in m.transit && m.transit[n].Empty? && n in m.buf && |d| <= |m.buf[n]|
  {
    m.(buf := m.buf[n := Over(m.buf[n], d)], sent := m.sent[n := d], transit := m.transit[n := Filled(m.transit[n].urgent)])
  }

  /** The second critical section: link the node and resume a receiver. */
  function Link(m: Mq, n: Node): Mq
    requires n in m.transit && m.transit[n].Filled? && n in m.sent
  {
    m.(queue := if m.transit[n].urgent then [n] + m.queue else m.queue + [n],
       transit := m.transit - {n}, recv := Wake(m.recv),
       linked := if m.transit[n].urgent then [m.sent[n]] + m.linked else m.linked + [m.sent[n]])
  }

  // ---------------------------------------------------------------- receive

  /** One pass of rt_mq_recv's loop, to the end of the critical section that
      unlinks the head. */
  function RecvTry(m: Mq, t: Tid, timeout: int, prio: Priorities): (Mq, Outcome)
    requires Known(m.recv.wait, prio) && t in prio && (m.queue != [] ==> m.queue[0] in m.sent)
  {
    if m.queue != [] then (TakeHead(m), Got(m.queue[0]))
    else if timeout == 0 then (m, TimedOut)
    else (m.(recv := Park(m.recv, t, Request(0, timeout), m.flag, prio)), Blocked)
  }

  function TakeHead(m: Mq): Mq
    requires m.queue != [] && m.queue[0] in m.sent
  {
    var n := m.queue[0];
    m.(queue := m.queue[1..], transit := m.transit[n := Leaving], got := m.got + [m.sent[n]])
  }

  function RecvAgain(m: Mq, t: Tid, elapsed: nat, prio: Priorities): (Mq, Outcome)
    requires Known(m.recv.wait, prio) && t in prio && t in m.recv.woken && (m.queue != [] ==> m.queue[0] in m.sent)
  {
    RecvTry(m.(recv := Run(m.recv, t)), t, Left(m.recv.woken[t].timeout, elapsed), prio)
  }

  /** What rt_mq_recv copies into a buffer of `len` bytes. */
  function CopyOut(m: Mq, n: Node, len: nat): Bytes
    requires n in m.buf && |m.buf[n]| == m.size
  {
    m.buf[n][..if len > m.size then m.size else len]
  }

  /** The last critical section: back to the free list. */
  function Return(m: Mq, n: Node): Mq {
    m.(free := [n] + m.free, transit := m.transit - {n})
  }

  // ------------------------------------------------------------------ reset

  /** rt_mq_control with RT_IPC_CMD_RESET: the queued nodes go to the free list
      one by one; nodes in transit stay with their calls. */
  function Reset(m: Mq): Mq {
    m.(recv := Drain(m.recv), queue := [], free := Reversed(m.queue) + m.free, linked := [], got := [])
  }

  function Reversed(s: seq<Node>): seq<Node> {
    if s == [] then [] else Reversed(s[1..]) + [s[0]]
  }

  // ------------------------------------------------------------------- runs

  datatype Op =
    | DoClaim(len: nat, urgent: bool)
    | DoFill(n: Node, d: Bytes)
    | DoLink(n: Node)
    | DoRecv(t: Tid, timeout: int)
    | DoRecvAgain(t: Tid, elapsed: nat)
    | DoExpire(t: Tid)
    | DoReturn(n: Node)
    | DoReset

  ghost predicate Legal(m: Mq, op: Op, prio: Priorities) {
    && Known(m.recv.wait, prio) && (m.queue != [] ==> m.queue[0] in m.sent)
    && match op
       case DoClaim(len, urgent) => len > 0
       case DoFill(n, d) => n in m.transit && m.transit[n].Empty? && n in m.buf && |d| <= |m.buf[n]|
       case DoLink(n) => n in m.transit && m.transit[n].Filled? && n in m.sent
       case DoRecv(t, timeout) => t in prio && !m.recv.Has(t)
       case DoRecvAgain(t, elapsed) => t in prio && t in m.recv.woken
       case DoExpire(t) => t in m.recv.parked && m.recv.parked[t].timeout > 0
       case DoReturn(n) => n in m.transit && m.transit[n].Leaving?
       case DoReset => true
  }

  function Step(m: Mq, op: Op, prio: Priorities): Mq
    requires Legal(m, op, prio)
  {
    match op
    case DoClaim(len, urgent) => Claim(m, len, urgent).0
    case DoFill(n, d) => Fill(m, n, d)
    case DoLink(n) => Link(m, n)
    case DoRecv(t, timeout) => RecvTry(m, t, timeout, prio).0
    case DoRecvAgain(t, elapsed) => RecvAgain(m, t, elapsed, prio).0
    case DoExpire(t) => m.(recv := Expire(m.recv, t))
    case DoReturn(n) => Return(m, n)
    case DoReset => Reset(m)
  }

  ghost predicate Reaches(m: Mq, ops: seq<(Op, Priorities)>, g: Mq)
    decreases |ops|
  {
    if ops == [] then g == m
    else Legal(m, ops[0].0, ops[0].1) && Reaches(Step(m, ops[0].0, ops[0].1), ops[1..], g)
  }
}

/** Conservation of nodes, link order and wake-ups over every run. */
module MsgQueueTheory {
  import opened OrderedList
  import opened IpcList
  import opened Waiters
  import opened MsgQueueSpec

  // ---------------------------------------------------------- conservation

  lemma {:induction false} KeysAdd<V>(m: map<Node, V>, n: Node, v: V)
    requires n !in m
    ensures multiset(m[n := v].Keys) == multiset(m.Keys) + multiset{n}
  {
    assert m[n := v].Keys == m.Keys + {n};
  }

  lemma {:induction false} KeysDrop<V>(m: map<Node, V>, n: Node)
    requires n in m
    ensures multiset((m - {n}).Keys) + multiset{n} == multiset(m.Keys)
  {
    assert m.Keys == (m - {n}).Keys + {n};
  }

  lemma {:induction false} HeadSplit(s: seq<Node>)
    requires s != []
    ensures multiset(s) == multiset{s[0]} + multiset(s[1..])
  {
    assert s == [s[0]] + s[1..];
  }

  /** A node is in one place only. */
  lemma {:induction false} OnePlace(m: Mq, n: Node)
    requires m.Conserved()
    ensures n in m.queue ==> n < m.max && n !in m.free && n !in m.transit
    ensures n in m.free ==> n < m.max && n !in m.transit
    ensures n in m.transit ==> n < m.max
  {
    AllCount(m.max);
    var a := multiset(m.queue) + multiset(m.free) + multiset(m.transit.Keys);
    assert a[n] == multiset(All(m.max))[n];
    assert n in m.queue ==> multiset(m.queue)[n] > 0;
    assert n in m.free ==> multiset(m.free)[n] > 0;
    assert n in m.transit ==> multiset(m.transit.Keys)[n] > 0;
  }

  lemma {:induction false} NoRepeat(s: seq<Node>, whole: multiset<Node>)
    requires multiset(s) <= whole && forall n :: whole[n] <= 1
    ensures Distinct(s)
  {
    if s != [] {
      HeadSplit(s);
      assert multiset(s)[s[0]] == 1 + multiset(s[1..])[s[0]] && multiset(s)[s[0]] <= 1;
      assert multiset(s[1..])[s[0]] == 0;
      NoRepeat(s[1..], whole);
    }
  }

  lemma {:induction false} AllCount(max: nat)
    ensures |All(max)| == max && forall n: Node :: n in All(max) <==> n < max
  {
    if max > 0 { AllCount(max - 1); }
  }

  /** Free list, queue and nodes in transit partition the nodes. */
  lemma {:induction false} Partition(m: Mq)
    requires m.Conserved()
    ensures Distinct(m.queue) && Distinct(m.free)
    ensures |m.queue| + |m.free| + |m.transit| == m.max
    ensures forall n: Node :: n < m.max <==> n in m.queue || n in m.free || n in m.transit
  {
    var a := multiset(All(m.max));
    NoRepeat(m.queue, a);
    NoRepeat(m.free, a);
    AllCount(m.max);
    assert |a| == |m.queue| + |m.free| + |m.transit.Keys|;
    forall n: Node ensures n < m.max <==> n in m.queue || n in m.free || n in m.transit {
      OnePlace(m, n);
      assert n in a <==> n < m.max;
      assert n in a <==> n in multiset(m.queue) || n in multiset(m.free) || n in multiset(m.transit.Keys);
    }
  }

  /** Every reachable state is one in which the methods of the class may be called. */
  lemma {:induction false} ConservedIsTidy(m: Mq)
    requires m.Conserved()
    ensures m.Tidy()
  {
    Partition(m);
    forall n | n in m.queue ensures n < m.max && n !in m.free && n !in m.transit { OnePlace(m, n); }
    forall n | n in m.free ensures n < m.max && n !in m.transit { OnePlace(m, n); }
    forall n | n in m.transit ensures n < m.max { OnePlace(m, n); }
  }

  lemma {:induction false} ChainedAll(max: nat)
    ensures multiset(Chained(max)) == multiset(All(max))
  {
    if max > 0 {
      ChainedAll(max - 1);
      AllCount(max - 1);
    }
  }

  lemma {:induction false} InitInv(max: nat, size: nat, flag: Flag)
    ensures Init(max, size, flag).Inv()
  {
    ChainedAll(max);
    AllCount(max);
    var m := Init(max, size, flag);
    assert multiset(m.queue) == multiset{} && multiset(m.transit.Keys) == multiset{};
  }

  lemma {:induction false} ReversedSame(s: seq<Node>)
    ensures multiset(Reversed(s)) == multiset(s)
  {
    if s != [] {
      HeadSplit(s);
      ReversedSame(s[1..]);
    }
  }

  // -------------------------------------------------------------- each step

  lemma {:induction false} ClaimInv(m: Mq, len: nat, urgent: bool)
    requires m.Inv()
    ensures Claim(m, len, urgent).0.Inv()
  {
    if len <= m.size && m.free != [] {
      var n := m.free[0];
      OnePlace(m, n);
      HeadSplit(m.free);
      KeysAdd(m.transit, n, Empty(urgent));
    }
  }

  lemma {:induction false} FillInv(m: Mq, n: Node, d: Bytes)
    requires m.Inv() && n in m.transit && m.transit[n].Empty? && n in m.buf && |d| <= |m.buf[n]|
    ensures Fill(m, n, d).Inv()
  {
    OnePlace(m, n);
    var g := Fill(m, n, d);
    assert g.transit.Keys == m.transit.Keys;
    assert d <= Over(m.buf[n], d);
    forall x | x in g.queue ensures g.Holds(x) { assert m.Holds(x) && x != n; }
    forall x | x in g.transit && !g.transit[x].Empty? ensures g.Holds(x) { if x != n { assert m.Holds(x); } }
  }

  lemma {:induction false} LinkInv(m: Mq, n: Node)
    requires m.Inv() && n in m.transit && m.transit[n].Filled? && n in m.sent
    ensures Link(m, n).Inv()
  {
    hide Wake;
    WakeInv(m.recv);
    KeysDrop(m.transit, n);
    var g := Link(m, n);
    assert multiset(g.queue) == multiset(m.queue) + multiset{n};
    assert m.Holds(n);
    forall x | x in g.queue ensures g.Holds(x) { assert m.Holds(x); }
    forall x | x in g.transit && !g.transit[x].Empty? ensures g.Holds(x) { assert m.Holds(x); }
    WakeWait(m.recv);
  }

  lemma {:induction false} WakeWait(s: Side)
    requires s.Inv()
    ensures Wake(s).wait != [] ==> s.wait != []
  {
  }

  lemma {:induction false} TakeHeadInv(m: Mq, due: nat)
    requires m.Conserved() && m.Contents() && m.recv.Inv() && m.queue != [] && m.queue[0] in m.sent && due <= 1
    requires m.recv.wait != [] ==> |m.queue| <= |m.recv.woken| + due
    ensures TakeHead(m).Inv()
  {
    var n := m.queue[0];
    OnePlace(m, n);
    HeadSplit(m.queue);
    KeysAdd(m.transit, n, Leaving);
    var g := TakeHead(m);
    assert m.Holds(n);
    forall x | x in g.queue ensures g.Holds(x) { assert m.Holds(x); }
    forall x | x in g.transit && !g.transit[x].Empty? ensures g.Holds(x) { assert m.Holds(x); }
  }

  lemma {:induction false} RecvTryInv(m: Mq, t: Tid, timeout: int, prio: Priorities, due: nat)
    requires m.Conserved() && m.Contents() && m.recv.Inv() && !m.recv.Has(t) && due <= 1
    requires m.recv.wait != [] ==> |m.queue| <= |m.recv.woken| + due
    requires Known(m.recv.wait, prio) && t in prio && (m.queue != [] ==> m.queue[0] in m.sent)
    ensures RecvTry(m, t, timeout, prio).0.Inv()
  {
    hide TakeHead, Side.Inv;
    if m.queue != [] {
      TakeHeadInv(m, due);
    } else if timeout != 0 {
      ParkInv(m.recv, t, Request(0, timeout), m.flag, prio);
      SameStore(m, m.(recv := Park(m.recv, t, Request(0, timeout), m.flag, prio)));
    } else {
      SameStore(m, m);
    }
  }

  lemma {:induction false} SameStore(m: Mq, g: Mq)
    requires m.Conserved() && m.Contents() && g == m.(recv := g.recv)
    ensures g.Conserved() && g.Contents()
  {
    forall x | x in g.queue ensures g.Holds(x) { assert m.Holds(x); }
    forall x | x in g.transit && !g.transit[x].Empty? ensures g.Holds(x) { assert m.Holds(x); }
  }

  lemma {:induction false} RecvAgainInv(m: Mq, t: Tid, elapsed: nat, prio: Priorities)
    requires m.Inv() && Known(m.recv.wait, prio) && t in prio && t in m.recv.woken && (m.queue != [] ==> m.queue[0] in m.sent)
    ensures RecvAgain(m, t, elapsed, prio).0.Inv()
  {
    hide Run, Side.Inv, RecvTry;
    RunKeeps(m.recv, t);
    Waiters.RunInv(m.recv, t);
    SameStore(m, m.(recv := Run(m.recv, t)));
    RecvTryInv(m.(recv := Run(m.recv, t)), t, Left(m.recv.woken[t].timeout, elapsed), prio, 1);
  }

  lemma {:induction false} ExpireInv(m: Mq, t: Tid)
    requires m.Inv()
    ensures m.(recv := Expire(m.recv, t)).Inv()
  {
    hide Expire;
    Waiters.ExpireInv(m.recv, t);
    SameStore(m, m.(recv := Expire(m.recv, t)));
  }

  lemma {:induction false} ReturnInv(m: Mq, n: Node)
    requires m.Inv() && n in m.transit
    ensures Return(m, n).Inv()
  {
    KeysDrop(m.transit, n);
    var g := Return(m, n);
    assert multiset(g.free) == multiset{n} + multiset(m.free);
    forall x | x in g.queue ensures g.Holds(x) { assert m.Holds(x); }
    forall x | x in g.transit && !g.transit[x].Empty? ensures g.Holds(x) { assert m.Holds(x); }
  }

  lemma {:induction false} ResetInv(m: Mq)
    requires m.Inv()
    ensures Reset(m).Inv()
  {
    ReversedSame(m.queue);
    var g := Reset(m);
    assert multiset(g.queue) == multiset{};
    assert multiset(g.free) == multiset(Reversed(m.queue)) + multiset(m.free);
    forall x | x in g.transit && !g.transit[x].Empty? ensures g.Holds(x) { assert m.Holds(x); }
  }

  lemma {:induction false} StepInv(m: Mq, op: Op, prio: Priorities)
    requires m.Inv() && Legal(m, op, prio)
    ensures Step(m, op, prio).Inv()
  {
    hide Claim, Fill, Link, RecvTry, RecvAgain, Expire, Return, Reset;
    match op
    case DoClaim(len, urgent) => ClaimInv(m, len, urgent);
    case DoFill(n, d) => FillInv(m, n, d);
    case DoLink(n) => LinkInv(m, n);
    case DoRecv(t, timeout) => RecvTryInv(m, t, timeout, prio, 0);
    case DoRecvAgain(t, elapsed) => RecvAgainInv(m, t, elapsed, prio);
    case DoExpire(t) => ExpireInv(m, t);
    case DoReturn(n) => ReturnInv(m, n);
    case DoReset => ResetInv(m);
  }

  /** In every reachable state no node is lost or in two places, every queued
      node holds what was sent, and no wake-up is lost. */
  lemma {:induction false} RunInv(m: Mq, ops: seq<(Op, Priorities)>, g: Mq)
    requires m.Inv() && Reaches(m, ops, g)
    ensures g.Inv()
    decreases |ops|
  {
    hide Mq.Inv, Step;
    if ops != [] {
      StepInv(m, ops[0].0, ops[0].1);
      RunInv(Step(m, ops[0].0, ops[0].1), ops[1..], g);
    }
  }

  lemma {:induction false} RunPartition(max: nat, size: nat, flag: Flag, ops: seq<(Op, Priorities)>, g: Mq)
    requires Reaches(Init(max, size, flag), ops, g)
    ensures Distinct(g.queue) && Distinct(g.free)
    ensures |g.queue| + |g.free| + |g.transit| == g.max
    ensures forall n: Node :: n < g.max <==> n in g.queue || n in g.free || n in g.transit
  {
    InitInv(max, size, flag);
    RunInv(Init(max, size, flag), ops, g);
    Partition(g);
  }

  /** A send is refused exactly when every node is queued or held by a call in progress. */
  lemma {:induction false} RefusedWhenFull(m: Mq, len: nat, urgent: bool)
    requires m.Inv() && len <= m.size
    ensures Claim(m, len, urgent).1 == Full <==> |m.queue| + |m.transit| == m.max
  {
    Partition(m);
  }

  /** When every woken receiver has run, receivers wait only on an empty queue. */
  lemma {:induction false} QuietReceiversWaitForMail(max: nat, size: nat, flag: Flag, ops: seq<(Op, Priorities)>, g: Mq)
    requires Reaches(Init(max, size, flag), ops, g) && g.recv.woken == map[] && g.recv.wait != []
    ensures g.queue == []
  {
    InitInv(max, size, flag);
    RunInv(Init(max, size, flag), ops, g);
  }

  // ------------------------------------------------------------- link order

  /** The messages waiting, first to be received first. */
  ghost function Messages(m: Mq, queue: seq<Node>): seq<Bytes>
    requires forall n :: n in queue ==> n in m.sent
  {
    if queue == [] then [] else [m.sent[queue[0]]] + Messages(m, queue[1..])
  }

  /** The reference: a double-ended queue of messages. */
  ghost function Reference(waiting: seq<Bytes>, m: Mq, op: Op): seq<Bytes>
  {
    match op
    case DoLink(n) =>
      if n !in m.transit || n !in m.sent || !m.transit[n].Filled? then waiting
      else if m.transit[n].urgent then [m.sent[n]] + waiting else waiting + [m.sent[n]]
    case DoRecv(_, _) => if waiting == [] then [] else waiting[1..]
    case DoRecvAgain(_, _) => if waiting == [] then [] else waiting[1..]
    case DoReset => []
    case _ => waiting
  }

  lemma {:induction false} MessagesFrame(m: Mq, g: Mq, queue: seq<Node>)
    requires forall n :: n in queue ==> n in m.sent && n in g.sent && g.sent[n] == m.sent[n]
    ensures Messages(g, queue) == Messages(m, queue)
  {
    if queue != [] { MessagesFrame(m, g, queue[1..]); }
  }

  lemma {:induction false} MessagesAppend(m: Mq, a: seq<Node>, n: Node)
    requires (forall x :: x in a ==> x in m.sent) && n in m.sent
    ensures Messages(m, a + [n]) == Messages(m, a) + [m.sent[n]]
  {
    if a == [] {
      assert [] + [n] == [n] && [n][1..] == [];
    } else {
      assert (a + [n])[0] == a[0] && (a + [n])[1..] == a[1..] + [n];
      MessagesAppend(m, a[1..], n);
    }
  }

  lemma {:induction false} QueuedSent(m: Mq)
    requires m.Inv()
    ensures forall n :: n in m.queue ==> n in m.sent
  {
    forall n | n in m.queue ensures n in m.sent { assert m.Holds(n); }
  }

  /** Every step does to the waiting messages what it does to the reference:
      normal messages go to the back, urgent ones to the front, receivers take
      the front, nothing else moves. */
  lemma {:induction false} StepFollowsReference(m: Mq, op: Op, prio: Priorities)
    requires m.Inv() && Legal(m, op, prio)
    ensures forall n :: n in m.queue ==> n in m.sent
    ensures forall n :: n in Step(m, op, prio).queue ==> n in Step(m, op, prio).sent
    ensures Messages(Step(m, op, prio), Step(m, op, prio).queue) == Reference(Messages(m, m.queue), m, op)
  {
    StepInv(m, op, prio);
    QueuedSent(m);
    var g := Step(m, op, prio);
    QueuedSent(g);
    StepQueue(m, op, prio);
    if op.DoFill? { FillSpares(m, op.n, prio); }
    if op.DoLink? { LinkMessages(m, op.n); }
    hide Mq.Inv, Step, Legal, Messages, Link;
    if op.DoRecv? || op.DoRecvAgain? {
      TakeMessages(m, g);
    } else if op.DoReset? {
      NoMessages(g);
    } else if !op.DoLink? {
      MessagesFrame(m, g, m.queue);
    }
  }

  lemma {:induction false} StepQueue(m: Mq, op: Op, prio: Priorities)
    requires Legal(m, op, prio)
    ensures var g := Step(m, op, prio);
      match op
      case DoRecv(_, _) => g.sent == m.sent && g.queue == (if m.queue == [] then [] else m.queue[1..])
      case DoRecvAgain(_, _) => g.sent == m.sent && g.queue == (if m.queue == [] then [] else m.queue[1..])
      case DoReset => g.queue == []
      case DoLink(n) => g == Link(m, n) && n in m.transit && m.transit[n].Filled? && n in m.sent
      case DoFill(n, d) => n in m.transit && g.queue == m.queue && g.sent == m.sent[n := d]
      case _ => g.sent == m.sent && g.queue == m.queue
  {
    hide Wake, Run, Park, Expire, Drain;
  }

  lemma {:induction false} NoMessages(m: Mq)
    ensures Messages(m, []) == []
  {
  }

  lemma {:induction false} LinkMessages(m: Mq, n: Node)
    requires (forall x :: x in m.queue ==> x in m.sent) && n in m.transit && m.transit[n].Filled? && n in m.sent
    ensures Messages(Link(m, n), Link(m, n).queue) ==
      if m.transit[n].urgent then [m.sent[n]] + Messages(m, m.queue) else Messages(m, m.queue) + [m.sent[n]]
  {
    var g := Link(m, n);
    MessagesFrame(m, g, m.queue);
    if !m.transit[n].urgent { MessagesAppend(g, m.queue, n); }
  }

  lemma {:induction false} TakeMessages(m: Mq, g: Mq)
    requires (forall x :: x in m.queue ==> x in m.sent) && g.sent == m.sent
    requires g.queue == if m.queue == [] then [] else m.queue[1..]
    ensures Messages(g, g.queue) == if Messages(m, m.queue) == [] then [] else Messages(m, m.queue)[1..]
  {
    if m.queue != [] { MessagesFrame(m, g, g.queue); }
  }

  lemma {:induction false} FillSpares(m: Mq, n: Node, prio: Priorities)
    requires m.Inv() && n in m.transit
    ensures n !in m.queue
  {
    OnePlace(m, n);
  }

  /** What a receiver copies starts with the message that was sent, as far as its
      buffer reaches; the rest of a longer buffer is left over from older messages. */
  lemma {:induction false} CopiesWhatWasSent(m: Mq, n: Node, len: nat)
    requires m.Inv() && n in m.transit && m.transit[n].Leaving?
    ensures n in m.sent && n in m.buf && |m.buf[n]| == m.size
    ensures var c, d := CopyOut(m, n, len), m.sent[n];
      && |c| == (if len > m.size then m.size else len)
      && if |c| >= |d| then d <= c else c <= d
  {
    assert m.Holds(n);
    var c, d := CopyOut(m, n, len), m.sent[n];
    assert forall i :: 0 <= i < |c| && i < |d| ==> c[i] == d[i];
  }

  ghost predicate NoUrgent(m: Mq) {
    forall n :: n in m.transit && !m.transit[n].Leaving? ==> !m.transit[n].urgent
  }

  ghost predicate PlainRun(ops: seq<(Op, Priorities)>) {
    ops == [] || ((ops[0].0.DoClaim? ==> !ops[0].0.urgent) && PlainRun(ops[1..]))
  }

  /** Without urgent messages what was received since the last reset is a prefix
      of what was linked, in order. */
  lemma {:induction false} FirstInFirstOut(m: Mq, ops: seq<(Op, Priorities)>, g: Mq)
    requires m.Inv() && NoUrgent(m) && Reaches(m, ops, g) && PlainRun(ops)
    requires (forall n :: n in m.queue ==> n in m.sent) && m.linked == m.got + Messages(m, m.queue)
    ensures (forall n :: n in g.queue ==> n in g.sent) && g.linked == g.got + Messages(g, g.queue)
    decreases |ops|
  {
    if ops != [] {
      var op, prio := ops[0].0, ops[0].1;
      var s := Step(m, op, prio);
      StepInv(m, op, prio);
      StepFollowsReference(m, op, prio);
      StepLinked(m, op, prio);
      hide Step, Mq.Inv;
      FirstInFirstOut(s, ops[1..], g);
    }
  }

  /** From initialisation on, and as long as nobody sends urgently, what has been
      received is a prefix of what has been linked. */
  lemma {:induction false} RunFirstInFirstOut(max: nat, size: nat, flag: Flag, ops: seq<(Op, Priorities)>, g: Mq)
    requires Reaches(Init(max, size, flag), ops, g) && PlainRun(ops)
    ensures g.got <= g.linked
  {
    InitInv(max, size, flag);
    FirstInFirstOut(Init(max, size, flag), ops, g);
  }

  lemma {:induction false} StepLinked(m: Mq, op: Op, prio: Priorities)
    requires m.Inv() && Legal(m, op, prio) && NoUrgent(m) && (op.DoClaim? ==> !op.urgent)
    requires (forall n :: n in m.queue ==> n in m.sent) && m.linked == m.got + Messages(m, m.queue)
    ensures NoUrgent(Step(m, op, prio))
    ensures var s := Step(m, op, prio); s.linked == s.got + Reference(Messages(m, m.queue), m, op)
  {
    hide Mq.Inv, Wake, Run, Park, Expire, Drain;
    var w := Messages(m, m.queue);
    match op
    case DoClaim(len, urgent) =>
    case DoFill(n, d) =>
    case DoLink(n) =>
      assert !m.transit[n].urgent;
      assert m.got + w + [m.sent[n]] == m.got + (w + [m.sent[n]]);
    case DoRecv(t, timeout) => if m.queue != [] { assert m.got + w == (m.got + [w[0]]) + w[1..]; }
    case DoRecvAgain(t, elapsed) => if m.queue != [] { assert m.got + w == (m.got + [w[0]]) + w[1..]; }
    case DoExpire(t) =>
    case DoReturn(n) =>
    case DoReset =>
  }
}
