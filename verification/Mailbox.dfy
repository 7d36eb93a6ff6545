/** The mailbox of ipc.c as it is written: a ring of `size` slots with two
    offsets and a count, and two wait lists. Every call, cut at its suspension,
    is proved to take the step of MailboxSpec. */
module Mailbox {
  import opened OrderedList
  import opened IpcList
  import opened Waiters
  import opened MailboxSpec

  /** Slot `i` places after `out`. */
  function Slot(out: nat, i: nat, size: nat): (k: nat)
    requires out < size && i <= size
    ensures k < size
  {
    if out + i < size then out + i else out + i - size
  }

  /** The n mails from offset out on, oldest first. */
  function Ring(pool: seq<Mail>, out: nat, n: nat): (r: seq<Mail>)
    requires n <= |pool| && (|pool| == 0 || out < |pool|)
    ensures |r| == n
  {
    seq(n, i requires 0 <= i < n => pool[Slot(out, i, |pool|)])
  }

  lemma {:induction false} RingPush(pool: seq<Mail>, out: nat, n: nat, v: Mail)
    requires n < |pool| && out < |pool|
    ensures Ring(pool[Slot(out, n, |pool|) := v], out, n + 1) == Ring(pool, out, n) + [v]
  {
  }

  lemma {:induction false} RingPop(pool: seq<Mail>, out: nat, n: nat)
    requires 0 < n <= |pool| && out < |pool|
    ensures pool[out] == Ring(pool, out, n)[0]
    ensures Ring(pool, Slot(out, 1, |pool|), n - 1) == Ring(pool, out, n)[1..]
  {
  }

  class Mailbox {
    const msgPool: array<Mail>
    const flag: Flag
    var entry: nat
    var inOffset: nat
    var outOffset: nat
    var recv: Side
    var send: Side
    ghost var sent: seq<Mail>
    ghost var got: seq<Mail>

    /** in_offset == (out_offset + entry) mod size, all within the ring. */
    ghost predicate Valid()
      reads this, msgPool
    {
      && entry <= msgPool.Length
      && (msgPool.Length == 0 ==> inOffset == outOffset == 0)
      && (msgPool.Length > 0 ==> outOffset < msgPool.Length && inOffset == Slot(outOffset, entry, msgPool.Length))
    }

    ghost function Abs(): Mb
      requires Valid()
      reads this, msgPool
    {
      Mb(msgPool.Length, flag, Ring(msgPool[..], outOffset, entry), recv, send, sent, got)
    }

    /** rt_mb_init on a pool of `size` slots. */
    constructor (size: nat, flag: Flag)
      ensures Valid() && fresh(msgPool) && Abs() == Init(size, flag)
    {
      msgPool := new Mail[size](_ => 0);
      this.flag := flag;
      entry, inOffset, outOffset := 0, 0, 0;
      recv, send := NOBODY, NOBODY;
      sent, got := [], [];
    }

    /** Store the mail in the slot at in_offset and resume a receiver. */
    method Put(v: Mail)
      requires Valid() && entry < msgPool.Length
      modifies this`entry, this`inOffset, this`recv, this`sent, msgPool
      ensures Valid() && Abs() == Deliver(old(Abs()), v)
    {
      ghost var pool := msgPool[..];
      RingPush(pool, outOffset, entry, v);
      msgPool[inOffset] := v;
      assert msgPool[..] == pool[inOffset := v];
      inOffset := inOffset + 1;
      if inOffset >= msgPool.Length {
        inOffset := 0;
      }
      entry := entry + 1;
      sent := sent + [v];
      recv := Wake(recv);
    }

    /** Take the mail from the slot at out_offset and resume a sender. */
    method Get() returns (v: Mail)
      requires Valid() && entry > 0
      modifies this`entry, this`outOffset, this`send, this`got
      ensures Valid() && Abs() == Collect(old(Abs())) && v == old(Abs().mails[0])
    {
      RingPop(msgPool[..], outOffset, entry);
      v := msgPool[outOffset];
      outOffset := outOffset + 1;
      if outOffset >= msgPool.Length {
        outOffset := 0;
      }
      entry := entry - 1;
      got := got + [v];
      send := Wake(send);
    }

    /** rt_mb_send_wait up to its suspension. */
    method Send(t: Tid, r: Request, prio: Priorities) returns (o: Outcome)
      requires Valid() && Known(send.wait, prio) && t in prio
      modifies this, msgPool
      ensures Valid() && (Abs(), o) == SendTry(old(Abs()), t, r, prio)
    {
      if entry == msgPool.Length {
        if r.timeout == 0 {
          return Full;
        }
        send := SuspendOn(send, t, r, flag, prio);
        return Blocked;
      }
      Put(r.mail);
      return Sent;
    }

    /** rt_mb_recv up to its suspension. */
    method Receive(t: Tid, r: Request, prio: Priorities) returns (o: Outcome)
      requires Valid() && Known(recv.wait, prio) && t in prio
      modifies this
      ensures Valid() && (Abs(), o) == RecvTry(old(Abs()), t, r, prio)
    {
      if entry == 0 {
        if r.timeout == 0 {
          return Empty;
        }
        recv := SuspendOn(recv, t, r, flag, prio);
        return Blocked;
      }
      var v := Get();
      return Received(v);
    }

    /** rt_mb_send_wait after its suspension: charge the waiting time, loop. */
    method SendAfterWake(t: Tid, elapsed: nat, prio: Priorities) returns (o: Outcome)
      requires Valid() && Known(send.wait, prio) && t in prio && t in send.woken
      modifies this, msgPool
      ensures Valid() && (Abs(), o) == SendAgain(old(Abs()), t, elapsed, prio)
    {
      var r := send.woken[t];
      send := Run(send, t);
      if r.timeout > 0 {
        r := r.(timeout := if r.timeout - elapsed < 0 then 0 else r.timeout - elapsed);
      }
      o := Send(t, r, prio);
    }

    /** rt_mb_recv after its suspension. */
    method ReceiveAfterWake(t: Tid, elapsed: nat, prio: Priorities) returns (o: Outcome)
      requires Valid() && Known(recv.wait, prio) && t in prio && t in recv.woken
      modifies this
      ensures Valid() && (Abs(), o) == RecvAgain(old(Abs()), t, elapsed, prio)
    {
      var r := recv.woken[t];
      recv := Run(recv, t);
      if r.timeout > 0 {
        r := r.(timeout := if r.timeout - elapsed < 0 then 0 else r.timeout - elapsed);
      }
      o := Receive(t, r, prio);
    }

    /** rt_mb_control(RT_IPC_CMD_RESET). */
    method Control()
      requires Valid() && recv.Inv() && send.Inv()
      modifies this
      ensures Valid() && Abs() == Reset(old(Abs()))
    {
      recv := ResumeAll(recv);
      send := ResumeAll(send);
      entry, inOffset, outOffset := 0, 0, 0;
      sent, got := [], [];
    }
  }
}
