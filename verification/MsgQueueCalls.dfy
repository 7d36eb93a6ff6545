/** The message queue as its callers see it: their calls, the answers they get, and
    nothing of the queue's own state. */
module MsgQueueCalls {
  import opened Machine
  import opened OrderedList
  import opened IpcList
  import opened Waiters
  import opened Calls
  import opened MsgQueueSpec
  import MsgQueueTheory

  /** A send in progress: as rt_mq_urgent or rt_mq_send, and what was copied so far. */
  datatype Sending = Sending(urgent: bool, message: Option<Bytes>)

  /** sending and taken tell, by the node the caller was given, the sends and the
      receives in progress; waiting is the double-ended queue of messages; linked
      and received are the messages of finished sends and of receives, in order. */
  datatype Log = Log(
    sending: map<Node, Sending>, waiting: seq<Bytes>, taken: map<Node, Bytes>, recvs: map<Tid, Call>,
    linked: seq<Bytes>, received: seq<Bytes>)

  const NO_CALLS := Log(map[], [], map[], map[], [], [])

  /** How the call of this step is answered; Blocked for the steps that answer no call. */
  function Answer(m: Mq, op: Op, prio: Priorities): Outcome
    requires Legal(m, op, prio)
  {
    match op
    case DoClaim(len, urgent) => Claim(m, len, urgent).1
    case DoRecv(t, timeout) => RecvTry(m, t, timeout, prio).1
    case DoRecvAgain(t, elapsed) => RecvAgain(m, t, elapsed, prio).1
    case _ => Blocked
  }

  /** The threads that a reset answers with an error. */
  function Failed(m: Mq, op: Op): set<Tid> {
    if op.DoReset? then m.recv.parked.Keys else {}
  }

  /** What the callers know after a step: only from the call and its answer. */
  function Note(l: Log, op: Op, o: Outcome, failed: set<Tid>): Log {
    match op
    case DoClaim(len, urgent) => if o.Got? then l.(sending := l.sending[o.n := Sending(urgent, None)]) else l
    case DoFill(n, d) => if n in l.sending then l.(sending := l.sending[n := l.sending[n].(message := Some(d))]) else l
    case DoLink(n) => if n in l.sending && l.sending[n].message.Some? then NoteLink(l, n, l.sending[n].message.value) else l
    case DoRecv(t, timeout) => NoteRecv(l, t, Call(Request(0, timeout), 0), o)
    case DoRecvAgain(t, e) => if t in l.recvs then NoteRecv(l, t, Longer(l.recvs[t], e), o) else l
    case DoExpire(t) => l.(recvs := l.recvs - {t})
    case DoReturn(n) => l.(taken := l.taken - {n})
    case DoReset => l.(waiting := [], recvs := l.recvs - failed, linked := [], received := [])
  }

  /** An urgent message goes to the front, any other to the back. */
  function NoteLink(l: Log, n: Node, d: Bytes): Log
    requires n in l.sending
  {
    l.(sending := l.sending - {n}, linked := l.linked + [d],
       waiting := if l.sending[n].urgent then [d] + l.waiting else l.waiting + [d])
  }

  /** A receive that is given a node takes the message at the front. */
  function NoteRecv(l: Log, t: Tid, c: Call, o: Outcome): Log {
    match o
    case Got(n) =>
      if l.waiting == [] then l
      else l.(waiting := l.waiting[1..], taken := l.taken[n := l.waiting[0]], recvs := l.recvs - {t},
              received := l.received + [l.waiting[0]])
    case Blocked => l.(recvs := l.recvs[t := c])
    case _ => l.(recvs := l.recvs - {t})
  }

  /** The callers' log of a run. */
  ghost function LogOf(m: Mq, ops: seq<(Op, Priorities)>, l: Log): Log
    decreases |ops|
  {
    if ops == [] || !Legal(m, ops[0].0, ops[0].1) then l
    else
      var (op, prio) := ops[0];
      LogOf(Step(m, op, prio), ops[1..], Note(l, op, Answer(m, op, prio), Failed(m, op)))
  }

  // ------------------------------------------------ the log and the queue agree

  ghost predicate Queued(m: Mq, l: Log) {
    && |m.queue| == |l.waiting|
    && forall i :: 0 <= i < |m.queue| ==> m.queue[i] in m.sent && m.sent[m.queue[i]] == l.waiting[i]
  }

  /** What a node in transit says about the send or receive that holds it. */
  ghost predicate Carries(m: Mq, l: Log, n: Node)
    requires n in m.transit
  {
    match m.transit[n]
    case Empty(u) => n in l.sending && n !in l.taken && l.sending[n] == Sending(u, None)
    case Filled(u) => n in l.sending && n !in l.taken && n in m.sent && l.sending[n] == Sending(u, Some(m.sent[n]))
    case Leaving => n !in l.sending && n in l.taken && n in m.sent && l.taken[n] == m.sent[n]
  }

  ghost predicate Carried(m: Mq, l: Log) {
    && (forall n :: n in m.transit ==> Carries(m, l, n))
    && (forall n :: n in l.sending || n in l.taken ==> n in m.transit)
  }

  ghost predicate Agrees(m: Mq, l: Log) {
    Queued(m, l) && Carried(m, l) && Waits(m.recv, l.recvs) && NoMail(l)
  }

  /** Receivers ask for no mail. */
  ghost predicate NoMail(l: Log) {
    forall t :: t in l.recvs ==> l.recvs[t].r.mail == 0
  }

  /** The nodes that callers or messages occupy. */
  function Busy(l: Log): nat { |l.waiting| + |l.sending| + |l.taken| }

  /** A send is given a node of its own while there is one. */
  ghost predicate ClaimAnswer(l: Log, max: nat, size: nat, len: nat, o: Outcome) {
    && (o == TooLong <==> len > size)
    && (o == Full <==> len <= size && Busy(l) == max)
    && (o.Got? <==> len <= size && Busy(l) < max)
    && (o.Got? ==> o.n < max && o.n !in l.sending && o.n !in l.taken)
  }

  /** A receive is given a node of its own while a message waits, else it is refused
      when its time is over, else it waits. */
  ghost predicate RecvAnswer(l: Log, c: Call, o: Outcome) {
    && (o.Got? <==> l.waiting != []) && (o.Got? ==> o.n !in l.sending && o.n !in l.taken)
    && (o == TimedOut <==> l.waiting == [] && TimeUp(c))
    && (o == Blocked <==> l.waiting == [] && !TimeUp(c))
  }

  ghost predicate RightAnswer(l: Log, max: nat, size: nat, op: Op, o: Outcome) {
    match op
    case DoClaim(len, urgent) => ClaimAnswer(l, max, size, len, o)
    case DoRecv(t, timeout) => RecvAnswer(l, Call(Request(0, timeout), 0), o)
    case DoRecvAgain(t, e) => t in l.recvs && RecvAnswer(l, Longer(l.recvs[t], e), o)
    case _ => true
  }

  lemma {:induction false} BusyNodes(m: Mq, l: Log)
    requires m.Conserved() && Queued(m, l) && Carried(m, l)
    ensures Busy(l) + |m.free| == m.max
  {
    MsgQueueTheory.Partition(m);
    forall n ensures n in m.transit.Keys <==> n in l.sending.Keys + l.taken.Keys {
      if n in m.transit { assert Carries(m, l, n); }
    }
    assert m.transit.Keys == l.sending.Keys + l.taken.Keys;
    forall n | n in l.sending.Keys ensures n !in l.taken.Keys { assert Carries(m, l, n); }
    assert l.sending.Keys !! l.taken.Keys;
    assert |l.sending| == |l.sending.Keys| && |l.taken| == |l.taken.Keys| && |m.transit| == |m.transit.Keys|;
  }

  lemma {:induction false} ClaimAgrees(m: Mq, l: Log, len: nat, urgent: bool)
    requires m.Inv() && Agrees(m, l)
    ensures var (g, o) := Claim(m, len, urgent);
      ClaimAnswer(l, m.max, m.size, len, o) && Agrees(g, Note(l, DoClaim(len, urgent), o, {}))
  {
    hide Waits, Mq.Contents, Side.Inv, Carried, Mq.Conserved, Queued;
    BusyNodes(m, l);
    if len <= m.size && m.free != [] {
      var n := m.free[0];
      MsgQueueTheory.OnePlace(m, n);
      ClaimCarried(m, l, n, urgent);
      assert Queued(Claim(m, len, urgent).0, Note(l, DoClaim(len, urgent), Got(n), {})) by { SameQueued(m, l); }
    }
  }

  lemma {:induction false} SameQueued(m: Mq, l: Log)
    requires Queued(m, l)
    ensures forall g: Mq, k: Log :: g.queue == m.queue && g.sent == m.sent && k.waiting == l.waiting ==> Queued(g, k)
  {
  }

  lemma {:induction false} ClaimCarried(m: Mq, l: Log, n: Node, urgent: bool)
    requires Carried(m, l) && n !in m.transit
    ensures n !in l.sending && n !in l.taken
    ensures forall g: Mq :: g.transit == m.transit[n := Empty(urgent)] && g.sent == m.sent ==>
      Carried(g, l.(sending := l.sending[n := Sending(urgent, None)]))
  {
    forall g: Mq | g.transit == m.transit[n := Empty(urgent)] && g.sent == m.sent
      ensures Carried(g, l.(sending := l.sending[n := Sending(urgent, None)]))
    {
      var k := l.(sending := l.sending[n := Sending(urgent, None)]);
      forall x | x in g.transit ensures Carries(g, k, x) { if x != n { assert Carries(m, l, x); } }
    }
  }

  lemma {:induction false} FillAgrees(m: Mq, l: Log, n: Node, d: Bytes)
    requires m.Inv() && Agrees(m, l) && n in m.transit && m.transit[n].Empty? && n in m.buf && |d| <= |m.buf[n]|
    ensures Agrees(Fill(m, n, d), Note(l, DoFill(n, d), Blocked, {}))
  {
    var g, k := Fill(m, n, d), Note(l, DoFill(n, d), Blocked, {});
    assert Carries(m, l, n);
    forall i | 0 <= i < |m.queue| ensures m.queue[i] != n { MsgQueueTheory.OnePlace(m, m.queue[i]); }
    hide Waits, Mq.Inv, TimeUp;
    forall x | x in g.transit ensures Carries(g, k, x) { assert Carries(m, l, x); }
  }

  lemma {:induction false} LinkAgrees(m: Mq, l: Log, n: Node)
    requires m.Inv() && Agrees(m, l) && n in m.transit && m.transit[n].Filled? && n in m.sent
    ensures Agrees(Link(m, n), Note(l, DoLink(n), Blocked, {}))
  {
    hide Wake, Mq.Conserved, Mq.Contents, Waits, Side.Inv, Queued, Carried;
    assert n in l.sending && l.sending[n] == Sending(m.transit[n].urgent, Some(m.sent[n])) by { CarriesFilled(m, l, n); }
    WakeWaits(m.recv, l.recvs);
    LinkQueued(m, l, n);
    LinkCarried(m, l, n);
  }

  lemma {:induction false} CarriesFilled(m: Mq, l: Log, n: Node)
    requires Carried(m, l) && n in m.transit && m.transit[n].Filled?
    ensures n in m.sent && n in l.sending && l.sending[n] == Sending(m.transit[n].urgent, Some(m.sent[n]))
  {
    assert Carries(m, l, n);
  }

  lemma {:induction false} LinkQueued(m: Mq, l: Log, n: Node)
    requires Queued(m, l) && n in m.transit && m.transit[n].Filled? && n in m.sent
    requires n in l.sending && l.sending[n] == Sending(m.transit[n].urgent, Some(m.sent[n]))
    ensures Queued(Link(m, n), NoteLink(l, n, m.sent[n]))
  {
    hide Wake;
    var g, k := Link(m, n), NoteLink(l, n, m.sent[n]);
    forall i | 0 <= i < |g.queue| ensures g.queue[i] in g.sent && g.sent[g.queue[i]] == k.waiting[i] {
      if m.transit[n].urgent {
        if i > 0 { assert g.queue[i] == m.queue[i - 1] && k.waiting[i] == l.waiting[i - 1]; }
      } else if i < |m.queue| {
        assert g.queue[i] == m.queue[i] && k.waiting[i] == l.waiting[i];
      }
    }
  }

  lemma {:induction false} LinkCarried(m: Mq, l: Log, n: Node)
    requires Carried(m, l) && n in m.transit && m.transit[n].Filled? && n in m.sent && n in l.sending
    ensures Carried(Link(m, n), NoteLink(l, n, m.sent[n]))
  {
    hide Wake;
    var g, k := Link(m, n), NoteLink(l, n, m.sent[n]);
    assert g.transit == m.transit - {n} && g.sent == m.sent && k.sending == l.sending - {n} && k.taken == l.taken;
    assert Carries(m, l, n);
    hide Link, NoteLink;
    forall x | x in g.transit ensures Carries(g, k, x) { assert Carries(m, l, x); }
  }

  lemma {:induction false} TakeAgrees(m: Mq, l: Log, t: Tid)
    requires m.Conserved() && Queued(m, l) && Carried(m, l) && m.queue != [] && m.queue[0] in m.sent && Waits(m.recv, l.recvs - {t}) && NoMail(l)
    ensures l.waiting != [] && m.queue[0] !in l.sending && m.queue[0] !in l.taken
    ensures forall c :: Agrees(TakeHead(m), NoteRecv(l, t, c, Got(m.queue[0])))
  {
    var n := m.queue[0];
    MsgQueueTheory.OnePlace(m, n);
    hide Waits, Mq.Conserved;
    forall c ensures Agrees(TakeHead(m), NoteRecv(l, t, c, Got(n))) {
      var g, k := TakeHead(m), NoteRecv(l, t, c, Got(n));
      forall x | x in g.transit ensures Carries(g, k, x) { if x != n { assert Carries(m, l, x); } }
      assert Queued(g, k);
    }
  }

  lemma {:induction false} RecvTryAgrees(m: Mq, l: Log, t: Tid, timeout: int, c: Call, prio: Priorities)
    requires m.Conserved() && m.recv.Inv() && Known(m.recv.wait, prio) && t in prio && !m.recv.Has(t)
    requires Queued(m, l) && Carried(m, l) && Waits(m.recv, l.recvs - {t}) && NoMail(l) && c.r.mail == 0
    requires m.queue != [] ==> m.queue[0] in m.sent
    requires (timeout == 0 <==> TimeUp(c)) && (timeout != 0 ==> Remains(Request(0, timeout), c))
    ensures var (g, o) := RecvTry(m, t, timeout, prio); Agrees(g, NoteRecv(l, t, c, o)) && RecvAnswer(l, c, o)
  {
    hide Remains, TimeUp, Side.Inv, Park, Waits, TakeHead, Mq.Conserved, Carries;
    if m.queue != [] {
      TakeAgrees(m, l, t);
    } else if timeout != 0 {
      ParkWaits(m.recv, l.recvs, t, Request(0, timeout), c, m.flag, prio);
      SameCarried(m, l, RecvTry(m, t, timeout, prio).0, NoteRecv(l, t, c, Blocked));
    } else {
      SameCarried(m, l, m, NoteRecv(l, t, c, TimedOut));
    }
  }

  lemma {:induction false} SameCarried(m: Mq, l: Log, g: Mq, k: Log)
    requires Carried(m, l) && g.transit == m.transit && g.sent == m.sent && k.sending == l.sending && k.taken == l.taken
    ensures Carried(g, k)
  {
    forall n | n in g.transit ensures Carries(g, k, n) { assert Carries(m, l, n); }
  }

  lemma {:induction false} RecvAgainAgrees(m: Mq, l: Log, t: Tid, e: nat, prio: Priorities)
    requires m.Inv() && Legal(m, DoRecvAgain(t, e), prio) && Agrees(m, l)
    ensures var (g, o) := RecvAgain(m, t, e, prio);
      t in l.recvs && RecvAnswer(l, Longer(l.recvs[t], e), o) && Agrees(g, NoteRecv(l, t, Longer(l.recvs[t], e), o))
  {
    hide Remains, RecvTry, RecvAnswer, NoteRecv, TimeUp, Waits, Side.Inv, Run, Carries;
    var r := m.recv.woken[t];
    RunWaits(m.recv, l.recvs, t);
    Waiters.RunInv(m.recv, t);
    RunKeeps(m.recv, t);
    ChargeRemains(r, l.recvs[t], e);
    SameCarried(m, l, m.(recv := Run(m.recv, t)), l);
    RecvTryAgrees(m.(recv := Run(m.recv, t)), l, t, Left(r.timeout, e), Longer(l.recvs[t], e), prio);
  }

  lemma {:induction false} ReturnAgrees(m: Mq, l: Log, n: Node)
    requires m.Inv() && Agrees(m, l) && n in m.transit && m.transit[n].Leaving?
    ensures Agrees(Return(m, n), Note(l, DoReturn(n), Blocked, {}))
  {
    hide Mq.Inv, Waits;
    var g, k := Return(m, n), Note(l, DoReturn(n), Blocked, {});
    assert Carries(m, l, n);
    forall x | x in g.transit ensures Carries(g, k, x) { assert Carries(m, l, x); }
  }

  lemma {:induction false} ResetAgrees(m: Mq, l: Log)
    requires m.Inv() && Agrees(m, l)
    ensures Agrees(Reset(m), Note(l, DoReset, Blocked, Failed(m, DoReset)))
  {
    hide Mq.Conserved, Mq.Contents, Carried, Waits, Reversed;
    DrainWaits(m.recv, l.recvs, m.recv.parked.Keys);
    SameCarried(m, l, Reset(m), Note(l, DoReset, Blocked, Failed(m, DoReset)));
  }

  /** Every step answers as the log calls for, and the log goes on agreeing. */
  lemma {:induction false} StepAgrees(m: Mq, op: Op, prio: Priorities, l: Log)
    requires m.Inv() && Legal(m, op, prio) && Agrees(m, l)
    ensures var o := Answer(m, op, prio);
      RightAnswer(l, m.max, m.size, op, o) && Agrees(Step(m, op, prio), Note(l, op, o, Failed(m, op)))
  {
    hide Remains, RecvTry, RecvAgain, RecvAnswer, ClaimAnswer, NoteRecv, TimeUp, Waits, Queued, Carried, Claim, Fill, Link, Return, Reset;
    match op
    case DoClaim(len, urgent) => ClaimAgrees(m, l, len, urgent);
    case DoFill(n, d) => FillAgrees(m, l, n, d);
    case DoLink(n) => LinkAgrees(m, l, n);
    case DoRecv(t, timeout) =>
      StartCharge(Request(0, timeout));
      assert t !in l.recvs by { NotBlocked(m, l, t); }
      NoCall(l.recvs, t);
      RecvTryAgrees(m, l, t, timeout, Call(Request(0, timeout), 0), prio);
    case DoRecvAgain(t, e) => RecvAgainAgrees(m, l, t, e, prio);
    case DoExpire(t) =>
      ExpireWaits(m.recv, l.recvs, t);
      ExpireAgrees(m, l, t);
    case DoReturn(n) => ReturnAgrees(m, l, n);
    case DoReset => ResetAgrees(m, l);
  }

  lemma {:induction false} NotBlocked(m: Mq, l: Log, t: Tid)
    requires Waits(m.recv, l.recvs) && !m.recv.Has(t)
    ensures t !in l.recvs
  {
  }

  lemma {:induction false} ExpireAgrees(m: Mq, l: Log, t: Tid)
    requires Agrees(m, l) && Waits(Expire(m.recv, t), l.recvs - {t})
    ensures Agrees(m.(recv := Expire(m.recv, t)), l.(recvs := l.recvs - {t}))
  {
    hide Waits, Expire, Carried;
    SameCarried(m, l, m.(recv := Expire(m.recv, t)), l.(recvs := l.recvs - {t}));
  }

  lemma {:induction false} StepSizes(m: Mq, op: Op, prio: Priorities)
    requires Legal(m, op, prio)
    ensures Step(m, op, prio).max == m.max && Step(m, op, prio).size == m.size
  {
    hide Wake, Run, Park, Expire, Drain, Over, Reversed;
  }

  lemma {:induction false} RunAgrees(m: Mq, ops: seq<(Op, Priorities)>, g: Mq, l: Log)
    requires m.Inv() && Reaches(m, ops, g) && Agrees(m, l)
    ensures g.Inv() && g.max == m.max && g.size == m.size && Agrees(g, LogOf(m, ops, l))
    decreases |ops|
  {
    hide Mq.Inv, Step, Agrees, Note, Answer, Failed, Legal;
    if ops != [] {
      var (op, prio) := ops[0];
      StepAgrees(m, op, prio, l);
      MsgQueueTheory.StepInv(m, op, prio);
      StepSizes(m, op, prio);
      RunAgrees(Step(m, op, prio), ops[1..], g, Note(l, op, Answer(m, op, prio), Failed(m, op)));
    }
  }

  lemma {:induction false} InitAgrees(max: nat, size: nat, flag: Flag)
    ensures Init(max, size, flag).Inv() && Agrees(Init(max, size, flag), NO_CALLS)
  {
    MsgQueueTheory.InitInv(max, size, flag);
    NobodyWaits();
    hide Mq.Inv, Waits;
  }

  /** After any run the queue holds exactly the messages of the double-ended queue
      that the calls and their answers describe, in that order; every node handed
      out is held by the send or receive that was given it, and the blocked
      receivers are those whose call is in progress. */
  lemma {:induction false} DequeOfCalls(max: nat, size: nat, flag: Flag, ops: seq<(Op, Priorities)>, g: Mq)
    requires Reaches(Init(max, size, flag), ops, g)
    ensures Agrees(g, LogOf(Init(max, size, flag), ops, NO_CALLS))
  {
    InitAgrees(max, size, flag);
    RunAgrees(Init(max, size, flag), ops, g, NO_CALLS);
    hide Agrees;
  }

  /** After any run the next call is answered as the calls and answers so far
      demand: a send gets a node of its own exactly while one is free, a receive
      exactly while a message waits, and a receiver waits as long as it asked to. */
  lemma {:induction false} NextAnswer(
      max: nat, size: nat, flag: Flag, ops: seq<(Op, Priorities)>, g: Mq, op: Op, prio: Priorities)
    requires Reaches(Init(max, size, flag), ops, g) && Legal(g, op, prio)
    ensures RightAnswer(LogOf(Init(max, size, flag), ops, NO_CALLS), max, size, op, Answer(g, op, prio))
  {
    hide Mq.Inv, Agrees, RightAnswer, Answer, LogOf, Init, Legal, Reaches;
    InitAgrees(max, size, flag);
    InitSizes(max, size, flag);
    RunAgrees(Init(max, size, flag), ops, g, NO_CALLS);
    StepAgrees(g, op, prio, LogOf(Init(max, size, flag), ops, NO_CALLS));
  }

  lemma {:induction false} InitSizes(max: nat, size: nat, flag: Flag)
    ensures Init(max, size, flag).max == max && Init(max, size, flag).size == size
  {
  }

  /** What a receiver copies out of the node it was given begins with the message
      it took from the front of the double-ended queue. */
  lemma {:induction false} CopyOfCalls(
      max: nat, size: nat, flag: Flag, ops: seq<(Op, Priorities)>, g: Mq, n: Node, len: nat)
    requires Reaches(Init(max, size, flag), ops, g)
    requires n in LogOf(Init(max, size, flag), ops, NO_CALLS).taken
    ensures n in g.buf && |g.buf[n]| == g.size
    ensures var c, d := CopyOut(g, n, len), LogOf(Init(max, size, flag), ops, NO_CALLS).taken[n];
      |c| == Min(len, g.size) && if |c| >= |d| then d <= c else c <= d
  {
    InitAgrees(max, size, flag);
    RunAgrees(Init(max, size, flag), ops, g, NO_CALLS);
    var l := LogOf(Init(max, size, flag), ops, NO_CALLS);
    hide Waits, Queued, LogOf, Init, Reaches;
    assert Carries(g, l, n);
    MsgQueueTheory.CopiesWhatWasSent(g, n, len);
  }

  /** As long as nobody sends urgently, messages are received in the order in which
      they were linked. */
  lemma {:induction false} FifoOfCalls(m: Mq, ops: seq<(Op, Priorities)>, l: Log)
    requires MsgQueueTheory.PlainRun(ops) && l.received + l.waiting == l.linked
    requires forall n :: n in l.sending ==> !l.sending[n].urgent
    ensures var k := LogOf(m, ops, l); k.received + k.waiting == k.linked
    decreases |ops|
  {
    hide Step, Legal, Answer, Failed;
    if ops != [] && Legal(m, ops[0].0, ops[0].1) {
      var (op, prio) := ops[0];
      NotePlain(l, op, Answer(m, op, prio), Failed(m, op));
      FifoOfCalls(Step(m, op, prio), ops[1..], Note(l, op, Answer(m, op, prio), Failed(m, op)));
    }
  }

  lemma {:induction false} NotePlain(l: Log, op: Op, o: Outcome, failed: set<Tid>)
    requires (op.DoClaim? ==> !op.urgent) && l.received + l.waiting == l.linked
    requires forall n :: n in l.sending ==> !l.sending[n].urgent
    ensures var k := Note(l, op, o, failed);
      k.received + k.waiting == k.linked && forall n :: n in k.sending ==> !k.sending[n].urgent
  {
    var k := Note(l, op, o, failed);
    if op.DoLink? && k != l {
      assert l.received + (l.waiting + [l.sending[op.n].message.value]) == l.linked + [l.sending[op.n].message.value];
    } else if l.waiting != [] {
      assert (l.received + [l.waiting[0]]) + l.waiting[1..] == l.received + l.waiting;
    }
  }

  // ------------------------------------------------------------ reuse of nodes

  lemma {:induction false} ReversedFirst(s: seq<Node>)
    requires s != []
    ensures Reversed(s) != [] && Reversed(s)[0] == s[|s| - 1]
  {
    if |s| > 1 { ReversedFirst(s[1..]); }
  }

  /** The node that came back last is the next one to be given out; after a reset that
      is the one that was last in the queue. */
  lemma {:induction false} LastBackFirstOut(m: Mq, n: Node, len: nat, urgent: bool)
    requires len <= m.size
    ensures Claim(Return(m, n), len, urgent).1 == Got(n)
    ensures m.queue != [] ==> Claim(Reset(m), len, urgent).1 == Got(m.queue[|m.queue| - 1])
  {
    if m.queue != [] { ReversedFirst(m.queue); }
  }
}
