/** The message queue of ipc.c as it is written: nodes linked through their own
    next fields, with head, tail and free pointers and an entry count. */
module MsgQueue {
  import opened OrderedList
  import opened IpcList
  import opened Waiters
  import opened MsgQueueSpec
  import MsgQueueTheory

  /** RT_NULL. */
  const NULL := -1

  /** The list that starts at p and is linked through next. */
  ghost predicate Chain(next: seq<int>, p: int, s: seq<Node>)
    decreases |s|
  {
    if s == [] then p == NULL
    else p == s[0] && p < |next| && Chain(next, next[p], s[1..])
  }

  lemma {:induction false} NoChain(next: seq<int>)
    ensures Chain(next, NULL, [])
  {
  }

  lemma {:induction false} ChainFrame(next: seq<int>, p: int, s: seq<Node>, n: nat, v: int)
    requires Chain(next, p, s) && n < |next| && n !in s
    ensures Chain(next[n := v], p, s)
    decreases |s|
  {
    if s != [] { ChainFrame(next, next[p], s[1..], n, v); }
  }

  lemma {:induction false} ChainPush(next: seq<int>, p: int, s: seq<Node>, n: nat)
    requires Chain(next, p, s) && n < |next| && n !in s
    ensures Chain(next[n := p], n, [n] + s)
  {
    ChainFrame(next, p, s, n, p);
    Cons(n, s);
  }

  lemma {:induction false} ChainAppend(next: seq<int>, p: int, s: seq<Node>, n: nat)
    requires Chain(next, p, s) && s != [] && Distinct(s) && n < |next| && n !in s && next[n] == NULL
    ensures s[|s| - 1] < |next| && Chain(next[s[|s| - 1] := n], p, s + [n])
    decreases |s|
  {
    var last := s[|s| - 1];
    if |s| == 1 {
      assert s + [n] == [s[0], n] && (s + [n])[1..] == [n] && [n][1..] == [];
    } else {
      assert s[1..][|s| - 2] == last;
      assert last in s[1..];
      ChainAppend(next, next[p], s[1..], n);
      assert (s + [n])[1..] == s[1..] + [n];
    }
  }

  function Last(s: seq<Node>): int {
    if s == [] then NULL else s[|s| - 1]
  }

  class MessageQueue {
    const maxMsgs: nat
    const msgSize: nat
    const flag: Flag
    /** the next field of each node */
    const next: array<int>
    /** the bytes behind each node's header */
    const store: array<Bytes>
    var head: int
    var tail: int
    var free: int
    var entry: nat
    var recv: Side
    /** the nodes that the calls in progress hold in their local variables */
    var transit: map<Node, Transit>
    ghost var queued: seq<Node>
    ghost var freed: seq<Node>
    ghost var sent: map<Node, Bytes>
    ghost var linked: seq<Bytes>
    ghost var got: seq<Bytes>

    ghost function Abs(): Mq
      reads this, store
    {
      Mq(maxMsgs, msgSize, flag, queued, freed, transit, Buffers(store[..]), sent, recv, linked, got)
    }

    /** Head, tail, free and entry describe the two lists. */
    ghost predicate Lists()
      reads this`head, this`tail, this`free, this`entry, this`queued, this`freed, next
    {
      && next.Length == maxMsgs
      && Chain(next[..], head, queued) && tail == Last(queued) && entry == |queued|
      && Chain(next[..], free, freed)
    }

    /** A filled node that is about to go to the back has no successor. */
    ghost predicate Cleared()
      reads this`transit, next
    {
      forall n :: n in transit && transit[n] == Filled(false) ==> n < next.Length && next[n] == NULL
    }

    ghost predicate Sized()
      reads store
    {
      forall n :: 0 <= n < store.Length ==> |store[n]| == msgSize
    }

    ghost predicate Wired()
      reads this, next, store
    {
      store.Length == maxMsgs && Lists() && Cleared() && Sized()
    }

    /** rt_mq_init: chain every node onto the free list. */
    constructor (maxMsgs: nat, msgSize: nat, flag: Flag)
      ensures Wired() && fresh(next) && fresh(store) && Abs() == Init(maxMsgs, msgSize, flag)
    {
      hide All, Chain, Buffers;
      this.maxMsgs, this.msgSize, this.flag := maxMsgs, msgSize, flag;
      next := new int[maxMsgs](_ => NULL);
      store := new Bytes[maxMsgs](_ => Blank(msgSize));
      head, tail, free, entry := NULL, NULL, NULL, 0;
      recv, transit := NOBODY, map[];
      queued, freed, sent, linked, got := [], [], map[], [], [];
      new;
      NoChain(next[..]);
      var temp := 0;
      while temp < maxMsgs
        invariant temp <= maxMsgs == next.Length && freed == Chained(temp) && Chain(next[..], free, freed)
        invariant forall n :: n in freed ==> n < temp
        modifies next, this`free, this`freed
      {
        ChainPush(next[..], free, freed, temp);
        ghost var before := next[..];
        next[temp] := free;
        assert next[..] == before[temp := free];
        free := temp;
        freed := [temp] + freed;
        temp := temp + 1;
      }
      NoChain(next[..]);
      BlankBuffers(store[..], maxMsgs, msgSize, flag);
    }

    // ------------------------------------------------ pointer operations

    /** msg = mq_free; mq_free = msg->next. */
    method PopFree() returns (msg: Node)
      requires Lists() && freed != []
      modifies this`free, this`freed
      ensures Lists() && msg == old(freed[0]) && freed == old(freed)[1..]
    {
      msg := free;
      free := next[msg];
      freed := freed[1..];
    }

    /** msg->next = mq_free; mq_free = msg. */
    method PushFree(n: Node)
      requires Lists() && Cleared() && n < maxMsgs && n !in queued && n !in freed
      requires n in transit ==> transit[n] != Filled(false)
      modifies this`free, this`freed, next
      ensures Lists() && Cleared() && freed == [n] + old(freed)
    {
      ChainPush(next[..], free, freed, n);
      ChainFrame(next[..], head, queued, n, free);
      ghost var before := next[..];
      next[n] := free;
      assert next[..] == before[n := free];
      free := n;
      freed := [n] + freed;
    }

    /** Link a node in front of the head, which may also make it the tail. */
    method PushFront(n: Node)
      requires Lists() && Cleared() && n < maxMsgs && n !in queued && n !in freed
      requires n in transit ==> transit[n] != Filled(false)
      modifies this`head, this`tail, this`entry, this`queued, next
      ensures Lists() && Cleared() && queued == [n] + old(queued)
    {
      ChainPush(next[..], head, queued, n);
      ChainFrame(next[..], free, freed, n, head);
      ghost var before := next[..];
      next[n] := head;
      assert next[..] == before[n := head];
      head := n;
      if tail == NULL {
        tail := n;
      }
      entry := entry + 1;
      queued := [n] + queued;
    }

    /** Link a node, whose next field is cleared, behind the tail. */
    method PushBack(n: Node)
      requires Lists() && Cleared() && n < maxMsgs && n !in queued && n !in freed && next[n] == NULL
      requires Distinct(queued) && forall x :: x in queued ==> x !in freed && x !in transit
      modifies this`head, this`tail, this`entry, this`queued, next
      ensures Lists() && Cleared() && queued == old(queued) + [n]
    {
      ghost var before := next[..];
      if tail != NULL {
        assert tail in queued;
        ChainAppend(before, head, queued, n);
        ChainFrame(before, free, freed, tail, n);
        next[tail] := n;
        assert next[..] == before[tail := n];
      } else {
        assert [n][1..] == [] && [] + [n] == [n];
      }
      tail := n;
      if head == NULL {
        head := n;
      }
      entry := entry + 1;
      queued := queued + [n];
    }

    /** Unlink the head; the tail goes with the last node. */
    method PopHead() returns (msg: Node)
      requires Lists() && queued != [] && Distinct(queued)
      modifies this`head, this`tail, this`entry, this`queued
      ensures Lists() && msg == old(queued[0]) && queued == old(queued)[1..]
    {
      if |queued| > 1 {
        DistinctEnds(queued);
      }
      msg := head;
      head := next[msg];
      if tail == msg {
        tail := NULL;
      }
      entry := entry - 1;
      queued := queued[1..];
    }

    // ------------------------------------------------------- the calls

    /** rt_mq_send and rt_mq_urgent: take a node off the free list. */
    method Claim(len: nat, urgent: bool) returns (o: Outcome)
      requires Wired() && Abs().Tidy()
      modifies this`free, this`freed, this`transit
      ensures Wired() && (Abs(), o) == MsgQueueSpec.Claim(old(Abs()), len, urgent)
    {
      if len > msgSize {
        return TooLong;
      }
      if free == NULL {
        return Full;
      }
      var msg := PopFree();
      transit := transit[msg := Empty(urgent)];
      o := Got(msg);
    }

    /** The copy of a send; rt_mq_send also clears the node's next field. */
    method Fill(n: Node, d: Bytes)
      requires Wired() && Abs().Tidy() && n in transit && transit[n].Empty? && 0 < |d| <= msgSize
      modifies this`transit, this`sent, next, store
      ensures Wired() && n in old(Abs()).buf && Abs() == MsgQueueSpec.Fill(old(Abs()), n, d)
    {
      hide Buffers, Lists;
      if !transit[n].urgent {
        Clear(n);
      }
      BuffersUpdate(store[..], n, Over(store[n], d));
      ghost var bytes := store[..];
      store[n] := Over(store[n], d);
      assert store[..] == bytes[n := Over(bytes[n], d)];
      sent := sent[n := d];
      transit := transit[n := Filled(transit[n].urgent)];
    }

    /** msg->next = RT_NULL. */
    method Clear(n: Node)
      requires Lists() && Cleared() && n < maxMsgs && n !in queued && n !in freed
      modifies next
      ensures Lists() && Cleared() && next[n] == NULL
    {
      ChainFrame(next[..], head, queued, n, NULL);
      ChainFrame(next[..], free, freed, n, NULL);
      ghost var before := next[..];
      next[n] := NULL;
      assert next[..] == before[n := NULL];
    }

    /** The end of a send: wake a receiver. */
    method Announce(n: Node)
      requires Cleared()
      modifies this`transit, this`recv
      ensures Cleared() && transit == old(transit) - {n} && recv == Wake(old(recv))
    {
      transit := transit - {n};
      recv := Wake(recv);
    }

    /** The second critical section of rt_mq_send. */
    method LinkBack(n: Node)
      requires Wired() && Abs().Tidy() && n in transit && transit[n] == Filled(false) && n in sent
      modifies this`head, this`tail, this`entry, this`recv, this`queued, this`transit, this`linked, next
      ensures Wired() && Abs() == Link(old(Abs()), n)
    {
      assert next[n] == NULL;
      hide Distinct, Lists, Wake, Buffers, Cleared;
      linked := linked + [sent[n]];
      PushBack(n);
      Announce(n);
    }

    /** The second critical section of rt_mq_urgent. */
    method LinkFront(n: Node)
      requires Wired() && Abs().Tidy() && n in transit && transit[n] == Filled(true) && n in sent
      modifies this`head, this`tail, this`entry, this`recv, this`queued, this`transit, this`linked, next
      ensures Wired() && Abs() == Link(old(Abs()), n)
    {
      hide Distinct, Lists, Wake, Buffers, Cleared;
      linked := [sent[n]] + linked;
      PushFront(n);
      Announce(n);
    }

    /** rt_mq_recv up to its suspension, or to the end of the critical section
        that unlinks the head. */
    method Receive(t: Tid, timeout: int, prio: Priorities) returns (o: Outcome)
      requires Wired() && Abs().Tidy() && Known(recv.wait, prio) && t in prio
      requires queued != [] ==> queued[0] in sent
      modifies this
      ensures Wired() && (Abs(), o) == RecvTry(old(Abs()), t, timeout, prio)
    {
      hide Wake, Park, Distinct, Side.Inv, Mq.Conserved, Mq.Contents, Enqueue;
      if entry == 0 {
        if timeout == 0 {
          return TimedOut;
        }
        recv := SuspendOn(recv, t, Request(0, timeout), flag, prio);
        return Blocked;
      }
      got := got + [sent[queued[0]]];
      var msg := PopHead();
      transit := transit[msg := Leaving];
      o := Got(msg);
    }

    /** rt_mq_recv after its suspension. */
    method ReceiveAfterWake(t: Tid, elapsed: nat, prio: Priorities) returns (o: Outcome)
      requires Wired() && Abs().Tidy() && Known(recv.wait, prio) && t in prio
      requires t in recv.woken && (queued != [] ==> queued[0] in sent)
      modifies this
      ensures Wired() && (Abs(), o) == RecvAgain(old(Abs()), t, elapsed, prio)
    {
      var timeout := recv.woken[t].timeout;
      recv := Run(recv, t);
      if timeout > 0 {
        timeout := timeout - elapsed;
        if timeout < 0 {
          timeout := 0;
        }
      }
      o := Receive(t, timeout, prio);
    }

    /** The copy of rt_mq_recv into a buffer of len bytes. */
    method CopyMessage(n: Node, len: nat) returns (b: Bytes)
      requires Wired() && Abs().Tidy() && n in transit && transit[n].Leaving?
      ensures n in Abs().buf && |Abs().buf[n]| == msgSize && b == CopyOut(Abs(), n, len)
    {
      BuffersUpdate(store[..], n, store[n]);
      b := store[n][..if len > msgSize then msgSize else len];
    }

    /** The last critical section of rt_mq_recv. */
    method Recycle(n: Node)
      requires Wired() && Abs().Tidy() && n in transit && transit[n].Leaving?
      modifies this`free, this`freed, this`transit, next
      ensures Wired() && Abs() == Return(old(Abs()), n)
    {
      hide Lists;
      PushFree(n);
      transit := transit - {n};
    }

    /** rt_mq_control(RT_IPC_CMD_RESET). */
    method Control()
      requires Wired() && Abs().Tidy() && recv.Inv()
      modifies this, next
      ensures Wired() && Abs() == Reset(old(Abs()))
    {
      hide Distinct, Reversed, Lists, Buffers, Cleared;
      recv := ResumeAll(recv);
      Flush();
      entry := 0;
      linked, got := [], [];
    }

    /** Move every queued node to the free list, head first. */
    method Flush()
      requires Lists() && Cleared() && Distinct(queued)
      requires forall x :: x in queued ==> x < maxMsgs && x !in freed && x !in transit
      modifies this`head, this`tail, this`queued, this`free, this`freed, this`entry, next
      ensures Lists() && Cleared() && queued == [] && freed == Reversed(old(queued)) + old(freed)
    {
      ghost var q, f := queued, freed;
      while head != NULL
        invariant Lists() && Cleared() && Distinct(queued)
        invariant Reversed(queued) + freed == Reversed(q) + f
        invariant forall x :: x in queued ==> x < maxMsgs && x !in freed && x !in transit
        decreases |queued|
      {
        ghost var s := queued;
        assert Reversed(s) + freed == Reversed(s[1..]) + ([s[0]] + freed);
        assert s[0] in s && s[0] !in s[1..];
        var msg := PopHead();
        PushFree(msg);
        forall x | x in queued ensures x < maxMsgs && x !in freed && x !in transit { assert x in s; }
      }
    }
  }

  /** The pool as a map from nodes to bytes. */
  function Buffers(store: seq<Bytes>): map<Node, Bytes> {
    map n: Node | n in All(|store|) && n < |store| :: store[n]
  }

  lemma {:induction false} BlankBuffers(store: seq<Bytes>, max: nat, size: nat, flag: Flag)
    requires |store| == max && forall i :: 0 <= i < max ==> store[i] == Blank(size)
    ensures Buffers(store) == Init(max, size, flag).buf
  {
    hide Blank;
    MsgQueueTheory.AllCount(max);
  }

  lemma {:induction false} BuffersUpdate(store: seq<Bytes>, n: Node, b: Bytes)
    requires n < |store|
    ensures n in Buffers(store) && Buffers(store)[n] == store[n]
    ensures Buffers(store[n := b]) == Buffers(store)[n := b]
  {
    MsgQueueTheory.AllCount(|store|);
  }

  lemma {:induction false} DistinctEnds(s: seq<Node>)
    requires Distinct(s) && |s| > 1
    ensures Last(s) != s[0]
  {
    assert s[1..][|s| - 2] == s[|s| - 1];
  }
}
