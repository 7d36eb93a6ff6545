/** The mailbox as its callers see it: their calls, the answers they get, and
    nothing of the mailbox's own state. */
module MailboxCalls {
  import opened OrderedList
  import opened IpcList
  import opened Waiters
  import opened Calls
  import opened MailboxSpec
  import MailboxTheory

  /** The mails whose send succeeded and those that receivers were handed, since
      the last reset, in order; and the calls in progress. */
  datatype Log = Log(accepted: seq<Mail>, delivered: seq<Mail>, sends: map<Tid, Call>, recvs: map<Tid, Call>)

  const NO_CALLS := Log([], [], map[], map[])

  /** How the call of this step is answered; Blocked for the steps that answer no call. */
  function Answer(m: Mb, op: Op, prio: Priorities): Outcome
    requires Legal(m, op, prio)
  {
    match op
    case SendStart(t, r) => SendTry(m, t, r, prio).1
    case SendResume(t, e) => SendAgain(m, t, e, prio).1
    case RecvStart(t, r) => RecvTry(m, t, r, prio).1
    case RecvResume(t, e) => RecvAgain(m, t, e, prio).1
    case _ => Blocked
  }

  /** The threads that a reset answers with an error. */
  function Failed(m: Mb, op: Op): set<Tid> {
    if op.ResetAll? then m.send.parked.Keys + m.recv.parked.Keys else {}
  }

  /** What the callers know after a step: only from the call and its answer. */
  function Note(l: Log, op: Op, o: Outcome, failed: set<Tid>): Log {
    match op
    case SendStart(t, r) => NoteSend(l, t, Call(r, 0), o)
    case SendResume(t, e) => if t in l.sends then NoteSend(l, t, Longer(l.sends[t], e), o) else l
    case SendExpire(t) => l.(sends := l.sends - {t})
    case RecvStart(t, r) => NoteRecv(l, t, Call(r, 0), o)
    case RecvResume(t, e) => if t in l.recvs then NoteRecv(l, t, Longer(l.recvs[t], e), o) else l
    case RecvExpire(t) => l.(recvs := l.recvs - {t})
    case ResetAll => Log([], [], l.sends - failed, l.recvs - failed)
  }

  function NoteSend(l: Log, t: Tid, c: Call, o: Outcome): Log {
    match o
    case Sent => l.(accepted := l.accepted + [c.r.mail], sends := l.sends - {t})
    case Blocked => l.(sends := l.sends[t := c])
    case _ => l.(sends := l.sends - {t})
  }

  function NoteRecv(l: Log, t: Tid, c: Call, o: Outcome): Log {
    match o
    case Received(v) => l.(delivered := l.delivered + [v], recvs := l.recvs - {t})
    case Blocked => l.(recvs := l.recvs[t := c])
    case _ => l.(recvs := l.recvs - {t})
  }

  /** The callers' log of a run. */
  ghost function LogOf(m: Mb, ops: seq<(Op, Priorities)>, l: Log): Log
    decreases |ops|
  {
    if ops == [] || !Legal(m, ops[0].0, ops[0].1) then l
    else
      var (op, prio) := ops[0];
      LogOf(Step(m, op, prio), ops[1..], Note(l, op, Answer(m, op, prio), Failed(m, op)))
  }

  // ------------------------------------------------ the log and the mailbox agree

  ghost predicate Agrees(m: Mb, l: Log) {
    && l.accepted == l.delivered + m.mails && |m.mails| <= m.size
    && Waits(m.send, l.sends) && Waits(m.recv, l.recvs)
  }

  /** How a send must be answered, from the log alone: accepted while there is room,
      else refused when its time is over, else it waits. */
  ghost predicate SendAnswer(l: Log, size: nat, c: Call, o: Outcome) {
    var room := |l.accepted| - |l.delivered| < size;
    && (o == Sent <==> room)
    && (o == Full <==> !room && TimeUp(c))
    && (o == Blocked <==> !room && !TimeUp(c))
  }

  /** How a receive must be answered: with the oldest accepted mail not yet
      delivered, if there is one. */
  ghost predicate RecvAnswer(l: Log, c: Call, o: Outcome) {
    var ready := |l.delivered| < |l.accepted|;
    && (ready <==> o.Received?) && (ready ==> o == Received(l.accepted[|l.delivered|]))
    && (o == Empty <==> !ready && TimeUp(c))
    && (o == Blocked <==> !ready && !TimeUp(c))
  }

  /** The answer of any step is the one the log calls for. */
  ghost predicate RightAnswer(l: Log, size: nat, op: Op, o: Outcome) {
    match op
    case SendStart(t, r) => SendAnswer(l, size, Call(r, 0), o)
    case SendResume(t, e) => t in l.sends && SendAnswer(l, size, Longer(l.sends[t], e), o)
    case RecvStart(t, r) => RecvAnswer(l, Call(r, 0), o)
    case RecvResume(t, e) => t in l.recvs && RecvAnswer(l, Longer(l.recvs[t], e), o)
    case _ => true
  }

  lemma {:induction false} SendTryAgrees(m: Mb, l: Log, t: Tid, r: Request, c: Call, prio: Priorities)
    requires m.Sides() && Known(m.send.wait, prio) && t in prio && !m.send.Has(t)
    requires Agrees(m, l.(sends := l.sends - {t})) && r.mail == c.r.mail
    requires (r.timeout == 0 <==> TimeUp(c)) && (r.timeout != 0 ==> Remains(r, c))
    ensures var (g, o) := SendTry(m, t, r, prio); Agrees(g, NoteSend(l, t, c, o)) && SendAnswer(l, m.size, c, o)
  {
    hide Remains, TimeUp, Enqueue, Side.Inv, Wake, Park, Waits;
    if |m.mails| != m.size {
      WakeWaits(m.recv, l.recvs);
      assert l.delivered + (m.mails + [r.mail]) == (l.delivered + m.mails) + [r.mail];
    } else if r.timeout != 0 {
      ParkWaits(m.send, l.sends, t, r, c, m.flag, prio);
    }
  }

  lemma {:induction false} RecvTryAgrees(m: Mb, l: Log, t: Tid, r: Request, c: Call, prio: Priorities)
    requires m.Sides() && Known(m.recv.wait, prio) && t in prio && !m.recv.Has(t)
    requires Agrees(m, l.(recvs := l.recvs - {t})) && r.mail == c.r.mail
    requires (r.timeout == 0 <==> TimeUp(c)) && (r.timeout != 0 ==> Remains(r, c))
    ensures var (g, o) := RecvTry(m, t, r, prio); Agrees(g, NoteRecv(l, t, c, o)) && RecvAnswer(l, c, o)
  {
    hide Remains, TimeUp, Enqueue, Side.Inv, Wake, Park, Waits;
    if m.mails != [] {
      WakeWaits(m.send, l.sends);
      assert l.delivered + m.mails == (l.delivered + [m.mails[0]]) + m.mails[1..];
    } else if r.timeout != 0 {
      ParkWaits(m.recv, l.recvs, t, r, c, m.flag, prio);
    }
  }

  /** Every step answers as the log calls for, and the log goes on agreeing. */
  lemma {:induction false} StepAgrees(m: Mb, op: Op, prio: Priorities, l: Log)
    requires m.Inv() && Legal(m, op, prio) && Agrees(m, l)
    ensures var o := Answer(m, op, prio);
      RightAnswer(l, m.size, op, o) && Agrees(Step(m, op, prio), Note(l, op, o, Failed(m, op)))
  {
    hide Remains, SendTry, RecvTry, SendAnswer, RecvAnswer, NoteSend, NoteRecv, TimeUp;
    match op
    case SendStart(t, r) =>
      StartCharge(r);
      NoCall(l.sends, t);
      SendTryAgrees(m, l, t, r, Call(r, 0), prio);
    case SendResume(t, e) => SendResumeAgrees(m, t, e, prio, l);
    case SendExpire(t) => ExpireWaits(m.send, l.sends, t);
    case RecvStart(t, r) =>
      StartCharge(r);
      NoCall(l.recvs, t);
      RecvTryAgrees(m, l, t, r, Call(r, 0), prio);
    case RecvResume(t, e) => RecvResumeAgrees(m, t, e, prio, l);
    case RecvExpire(t) => ExpireWaits(m.recv, l.recvs, t);
    case ResetAll =>
      ResetApart(m);
      DrainWaits(m.send, l.sends, Failed(m, op));
      DrainWaits(m.recv, l.recvs, Failed(m, op));
  }

  lemma {:induction false} ResetApart(m: Mb)
    requires m.Sides()
    ensures forall t :: t in Failed(m, ResetAll) ==> t !in m.send.woken && t !in m.recv.woken
  {
    forall t | t in Failed(m, ResetAll) ensures t !in m.send.woken && t !in m.recv.woken {
      assert m.recv.Has(t) ==> !m.send.Has(t);
    }
  }

  lemma {:induction false} SendResumeAgrees(m: Mb, t: Tid, e: nat, prio: Priorities, l: Log)
    requires m.Inv() && Legal(m, SendResume(t, e), prio) && Agrees(m, l)
    ensures var (g, o) := SendAgain(m, t, e, prio);
      t in l.sends && SendAnswer(l, m.size, Longer(l.sends[t], e), o) && Agrees(g, NoteSend(l, t, Longer(l.sends[t], e), o))
  {
    hide Remains, SendTry, SendAnswer, NoteSend, TimeUp, Waits, Side.Inv, Run;
    var r := m.send.woken[t];
    RunWaits(m.send, l.sends, t);
    Waiters.RunInv(m.send, t);
    RunKeeps(m.send, t);
    ChargeRemains(r, l.sends[t], e);
    SendTryAgrees(m.(send := Run(m.send, t)), l, t, r.(timeout := Left(r.timeout, e)), Longer(l.sends[t], e), prio);
  }

  lemma {:induction false} RecvResumeAgrees(m: Mb, t: Tid, e: nat, prio: Priorities, l: Log)
    requires m.Inv() && Legal(m, RecvResume(t, e), prio) && Agrees(m, l)
    ensures var (g, o) := RecvAgain(m, t, e, prio);
      t in l.recvs && RecvAnswer(l, Longer(l.recvs[t], e), o) && Agrees(g, NoteRecv(l, t, Longer(l.recvs[t], e), o))
  {
    hide Remains, RecvTry, RecvAnswer, NoteRecv, TimeUp, Waits, Side.Inv, Run;
    var r := m.recv.woken[t];
    RunWaits(m.recv, l.recvs, t);
    Waiters.RunInv(m.recv, t);
    RunKeeps(m.recv, t);
    ChargeRemains(r, l.recvs[t], e);
    RecvTryAgrees(m.(recv := Run(m.recv, t)), l, t, r.(timeout := Left(r.timeout, e)), Longer(l.recvs[t], e), prio);
  }

  lemma {:induction false} RunAgrees(m: Mb, ops: seq<(Op, Priorities)>, g: Mb, l: Log)
    requires m.Inv() && Reaches(m, ops, g) && Agrees(m, l)
    ensures g.Inv() && g.size == m.size && Agrees(g, LogOf(m, ops, l))
    decreases |ops|
  {
    hide Mb.Inv, Step, Agrees, Note, Answer, Failed, Legal;
    if ops != [] {
      var (op, prio) := ops[0];
      StepAgrees(m, op, prio, l);
      MailboxTheory.StepInv(m, op, prio);
      MailboxTheory.StepSize(m, op, prio);
      RunAgrees(Step(m, op, prio), ops[1..], g, Note(l, op, Answer(m, op, prio), Failed(m, op)));
    }
  }

  /** First in, first out, from the calls and answers of a run alone: receivers are
      handed the accepted mails in the order of acceptance, each once, and at most
      `size` of them are still to come. */
  lemma {:induction false} FifoOfCalls(size: nat, flag: Flag, ops: seq<(Op, Priorities)>, g: Mb)
    requires Reaches(Init(size, flag), ops, g)
    ensures var l := LogOf(Init(size, flag), ops, NO_CALLS); l.delivered <= l.accepted && |l.accepted| <= |l.delivered| + size
  {
    hide Waits;
    assert Waits(NOBODY, map[]) by { NobodyWaits(); }
    RunAgrees(Init(size, flag), ops, g, NO_CALLS);
  }

  /** After any run the next call is answered as the calls and answers so far
      demand: a send is accepted exactly while there is room, a receive gets the
      oldest accepted mail not yet delivered, and who gets neither waits exactly
      as long as it asked to. */
  lemma {:induction false} NextAnswer(
      size: nat, flag: Flag, ops: seq<(Op, Priorities)>, g: Mb, op: Op, prio: Priorities)
    requires Reaches(Init(size, flag), ops, g) && Legal(g, op, prio)
    ensures RightAnswer(LogOf(Init(size, flag), ops, NO_CALLS), size, op, Answer(g, op, prio))
  {
    NobodyWaits();
    RunAgrees(Init(size, flag), ops, g, NO_CALLS);
    hide Mb.Inv, Agrees, RightAnswer, Answer, LogOf;
    StepAgrees(g, op, prio, LogOf(Init(size, flag), ops, NO_CALLS));
  }

  /** The blocked threads are those whose call is in progress, each parked with its
      mail and what is left of its time. */
  lemma {:induction false} BlockedAreCalls(size: nat, flag: Flag, ops: seq<(Op, Priorities)>, g: Mb)
    requires Reaches(Init(size, flag), ops, g)
    ensures var l := LogOf(Init(size, flag), ops, NO_CALLS); Waits(g.send, l.sends) && Waits(g.recv, l.recvs)
  {
    NobodyWaits();
    RunAgrees(Init(size, flag), ops, g, NO_CALLS);
  }
}
