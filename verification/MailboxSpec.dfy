/** The mailbox of ipc.c as a step machine. A blocking send or receive is cut at
    its suspension: a start step that either completes or parks the thread, and
    a resume step in which a woken thread runs its loop once more. */
module MailboxSpec {
  import opened OrderedList
  import opened IpcList
  import opened Waiters

  type Mail = int

  datatype Outcome = Blocked | Full | Empty | Sent | Received(mail: Mail)

  /** sent and got record the mails accepted and handed over since the last reset. */
  datatype Mb = Mb(size: nat, flag: Flag, mails: seq<Mail>, recv: Side, send: Side, sent: seq<Mail>, got: seq<Mail>) {

    ghost predicate Sides() {
      && recv.Inv() && send.Inv()
      && forall t :: recv.Has(t) ==> !send.Has(t)
    }

    ghost predicate Stored() {
      |mails| <= size && sent == got + mails
    }

    /** No wake-up is lost: while receivers wait, every stored mail is spoken for
        by a woken receiver; while senders wait, every free slot is spoken for by
        a woken sender. */
    ghost predicate NoLostWakeup() {
      && (recv.wait != [] ==> |mails| <= |recv.woken|)
      && (send.wait != [] ==> size - |mails| <= |send.woken|)
    }

    ghost predicate Inv() {
      Sides() && Stored() && NoLostWakeup()
    }
  }

  function Init(size: nat, flag: Flag): Mb {
    Mb(size, flag, [], NOBODY, NOBODY, [], [])
  }

  /** Store a mail and resume the first receiver. */
  function Deliver(m: Mb, v: Mail): Mb {
    m.(mails := m.mails + [v], sent := m.sent + [v], recv := Wake(m.recv))
  }

  /** Hand over the oldest mail and resume the first sender. */
  function Collect(m: Mb): Mb
    requires m.mails != []
  {
    m.(mails := m.mails[1..], got := m.got + [m.mails[0]], send := Wake(m.send))
  }

  /** One pass of rt_mb_send_wait's loop. */
  function SendTry(m: Mb, t: Tid, r: Request, prio: Priorities): (Mb, Outcome)
    requires Known(m.send.wait, prio) && t in prio
  {
    if |m.mails| != m.size then (Deliver(m, r.mail), Sent)
    else if r.timeout == 0 then (m, Full)
    else (m.(send := Park(m.send, t, r, m.flag, prio)), Blocked)
  }

  /** One pass of rt_mb_recv's loop. */
  function RecvTry(m: Mb, t: Tid, r: Request, prio: Priorities): (Mb, Outcome)
    requires Known(m.recv.wait, prio) && t in prio
  {
    if m.mails != [] then (Collect(m), Received(m.mails[0]))
    else if r.timeout == 0 then (m, Empty)
    else (m.(recv := Park(m.recv, t, r, m.flag, prio)), Blocked)
  }

  /** rt_mb_control with RT_IPC_CMD_RESET. */
  function Reset(m: Mb): Mb {
    m.(mails := [], recv := Drain(m.recv), send := Drain(m.send), sent := [], got := [])
  }

  datatype Op =
    | SendStart(t: Tid, r: Request)
    | SendResume(t: Tid, elapsed: nat)
    | SendExpire(t: Tid)
    | RecvStart(t: Tid, r: Request)
    | RecvResume(t: Tid, elapsed: nat)
    | RecvExpire(t: Tid)
    | ResetAll

  /** A thread starts a call only when it is in none; woken threads resume; a
      timer fires only for a parked thread that gave a positive timeout. */
  ghost predicate Legal(m: Mb, op: Op, prio: Priorities) {
    && Known(m.recv.wait, prio) && Known(m.send.wait, prio)
    && match op
       case SendStart(t, r) => t in prio && !m.recv.Has(t) && !m.send.Has(t)
       case SendResume(t, e) => t in prio && t in m.send.woken
       case SendExpire(t) => t in m.send.parked && m.send.parked[t].timeout > 0
       case RecvStart(t, r) => t in prio && !m.recv.Has(t) && !m.send.Has(t)
       case RecvResume(t, e) => t in prio && t in m.recv.woken
       case RecvExpire(t) => t in m.recv.parked && m.recv.parked[t].timeout > 0
       case ResetAll => true
  }

  function SendAgain(m: Mb, t: Tid, elapsed: nat, prio: Priorities): (Mb, Outcome)
    requires Known(m.send.wait, prio) && t in prio && t in m.send.woken
  {
    var r := m.send.woken[t];
    SendTry(m.(send := Run(m.send, t)), t, r.(timeout := Left(r.timeout, elapsed)), prio)
  }

  function RecvAgain(m: Mb, t: Tid, elapsed: nat, prio: Priorities): (Mb, Outcome)
    requires Known(m.recv.wait, prio) && t in prio && t in m.recv.woken
  {
    var r := m.recv.woken[t];
    RecvTry(m.(recv := Run(m.recv, t)), t, r.(timeout := Left(r.timeout, elapsed)), prio)
  }

  function Step(m: Mb, op: Op, prio: Priorities): Mb
    requires Legal(m, op, prio)
  {
    match op
    case SendStart(t, r) => SendTry(m, t, r, prio).0
    case SendResume(t, e) => SendAgain(m, t, e, prio).0
    case SendExpire(t) => m.(send := Expire(m.send, t))
    case RecvStart(t, r) => RecvTry(m, t, r, prio).0
    case RecvResume(t, e) => RecvAgain(m, t, e, prio).0
    case RecvExpire(t) => m.(recv := Expire(m.recv, t))
    case ResetAll => Reset(m)
  }

  /** g is reached from m by legal steps; priorities may differ at each step. */
  ghost predicate Reaches(m: Mb, ops: seq<(Op, Priorities)>, g: Mb)
    decreases |ops|
  {
    if ops == [] then g == m
    else Legal(m, ops[0].0, ops[0].1) && Reaches(Step(m, ops[0].0, ops[0].1), ops[1..], g)
  }
}

/** No lost wake-ups and first-in first-out delivery, over every run. */
module MailboxTheory {
  import opened OrderedList
  import opened IpcList
  import opened Waiters
  import opened MailboxSpec

  /** A delivery uses a slot and wakes a receiver. `due` is one when the sender
      was itself a woken one. */
  lemma {:induction false} DeliverInv(m: Mb, v: Mail, due: nat)
    requires m.Sides() && m.Stored() && |m.mails| < m.size && due <= 1
    requires m.recv.wait != [] ==> |m.mails| <= |m.recv.woken|
    requires m.send.wait != [] ==> m.size - |m.mails| <= |m.send.woken| + due
    ensures Deliver(m, v).Inv()
  {
    WakeInv(m.recv);
  }

  lemma {:induction false} CollectInv(m: Mb, due: nat)
    requires m.Sides() && m.Stored() && m.mails != [] && due <= 1
    requires m.recv.wait != [] ==> |m.mails| <= |m.recv.woken| + due
    requires m.send.wait != [] ==> m.size - |m.mails| <= |m.send.woken|
    ensures Collect(m).Inv()
  {
    WakeInv(m.send);
    assert m.mails == [m.mails[0]] + m.mails[1..];
  }

  lemma {:induction false} SendTryInv(m: Mb, t: Tid, r: Request, prio: Priorities, due: nat)
    requires m.Sides() && m.Stored() && !m.recv.Has(t) && !m.send.Has(t) && due <= 1
    requires m.recv.wait != [] ==> |m.mails| <= |m.recv.woken|
    requires m.send.wait != [] ==> m.size - |m.mails| <= |m.send.woken| + due
    requires Known(m.send.wait, prio) && t in prio
    ensures SendTry(m, t, r, prio).0.Inv()
  {
    if |m.mails| != m.size {
      DeliverInv(m, r.mail, due);
    } else if r.timeout != 0 {
      ParkInv(m.send, t, r, m.flag, prio);
    }
  }

  lemma {:induction false} RecvTryInv(m: Mb, t: Tid, r: Request, prio: Priorities, due: nat)
    requires m.Sides() && m.Stored() && !m.recv.Has(t) && !m.send.Has(t) && due <= 1
    requires m.recv.wait != [] ==> |m.mails| <= |m.recv.woken| + due
    requires m.send.wait != [] ==> m.size - |m.mails| <= |m.send.woken|
    requires Known(m.recv.wait, prio) && t in prio
    ensures RecvTry(m, t, r, prio).0.Inv()
  {
    if m.mails != [] {
      CollectInv(m, due);
    } else if r.timeout != 0 {
      ParkInv(m.recv, t, r, m.flag, prio);
    }
  }

  lemma {:induction false} StepInv(m: Mb, op: Op, prio: Priorities)
    requires m.Inv() && Legal(m, op, prio)
    ensures Step(m, op, prio).Inv()
  {
    hide SendTry, RecvTry, Expire, Drain, SendAgain, RecvAgain, Side.Inv;
    match op
    case SendStart(t, r) => SendTryInv(m, t, r, prio, 0);
    case SendResume(t, e) => SendAgainInv(m, t, e, prio);
    case SendExpire(t) => ExpireInv(m.send, t);
    case RecvStart(t, r) => RecvTryInv(m, t, r, prio, 0);
    case RecvResume(t, e) => RecvAgainInv(m, t, e, prio);
    case RecvExpire(t) => ExpireInv(m.recv, t);
    case ResetAll => DrainInv(m.recv); DrainInv(m.send);
  }

  lemma {:induction false} SendAgainInv(m: Mb, t: Tid, e: nat, prio: Priorities)
    requires m.Inv() && Known(m.send.wait, prio) && t in prio && t in m.send.woken
    ensures SendAgain(m, t, e, prio).0.Inv()
  {
    hide Run, Side.Inv, SendTry;
    var r := m.send.woken[t];
    RunKeeps(m.send, t);
    Waiters.RunInv(m.send, t);
    SendTryInv(m.(send := Run(m.send, t)), t, r.(timeout := Left(r.timeout, e)), prio, 1);
  }

  lemma {:induction false} RecvAgainInv(m: Mb, t: Tid, e: nat, prio: Priorities)
    requires m.Inv() && Known(m.recv.wait, prio) && t in prio && t in m.recv.woken
    ensures RecvAgain(m, t, e, prio).0.Inv()
  {
    hide Run, Side.Inv, RecvTry;
    var r := m.recv.woken[t];
    RunKeeps(m.recv, t);
    Waiters.RunInv(m.recv, t);
    RecvTryInv(m.(recv := Run(m.recv, t)), t, r.(timeout := Left(r.timeout, e)), prio, 1);
  }

  lemma {:induction false} DrainInv(s: Side)
    requires s.Inv()
    ensures Drain(s).Inv() && Drain(s).wait == [] && forall x :: Drain(s).Has(x) ==> s.Has(x)
  {
  }

  lemma {:induction false} StepSize(m: Mb, op: Op, prio: Priorities)
    requires Legal(m, op, prio)
    ensures Step(m, op, prio).size == m.size
  {
    hide Park, Wake, Run, Expire, Drain;
  }

  /** Every state of every run keeps the invariant. */
  lemma {:induction false} RunInv(m: Mb, ops: seq<(Op, Priorities)>, g: Mb)
    requires m.Inv() && Reaches(m, ops, g)
    ensures g.Inv() && g.size == m.size
    decreases |ops|
  {
    hide Mb.Inv, Step;
    if ops != [] {
      StepInv(m, ops[0].0, ops[0].1);
      StepSize(m, ops[0].0, ops[0].1);
      RunInv(Step(m, ops[0].0, ops[0].1), ops[1..], g);
    }
  }

  /** When every woken thread has run, receivers wait only on an empty mailbox
      and senders only on a full one, so never both. */
  lemma {:induction false} QuietMeansBlockedForAReason(size: nat, flag: Flag, ops: seq<(Op, Priorities)>, g: Mb)
    requires Reaches(Init(size, flag), ops, g) && g.recv.woken == map[] && g.send.woken == map[]
    ensures g.recv.wait != [] ==> g.mails == []
    ensures g.send.wait != [] ==> |g.mails| == size
    ensures g.recv.wait != [] && g.send.wait != [] ==> size == 0
  {
    RunInv(Init(size, flag), ops, g);
  }

  /** Mails come out in the order in which they went in: what has been handed
      over is always a prefix of what has been accepted. */
  lemma {:induction false} FirstInFirstOut(size: nat, flag: Flag, ops: seq<(Op, Priorities)>, g: Mb)
    requires Reaches(Init(size, flag), ops, g)
    ensures g.got <= g.sent && g.sent == g.got + g.mails && |g.mails| <= size
  {
    RunInv(Init(size, flag), ops, g);
    assert g.got <= g.got + g.mails;
  }
}
