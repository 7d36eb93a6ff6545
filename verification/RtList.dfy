/** The circular doubly linked list of rtservice.h. Nodes are numbers; the first
    node of the ghost sequence is the list head. */
module RtList {
  import opened OrderedList

  type Links = map<nat, nat>

  /** b follows a. */
  predicate Link(next: Links, prev: Links, a: nat, b: nat) {
    a in next && b in prev && next[a] == b && prev[b] == a
  }

  ghost predicate Path(next: Links, prev: Links, s: seq<nat>) {
    |s| <= 1 || (Link(next, prev, s[0], s[1]) && Path(next, prev, s[1..]))
  }

  /** s in order, and back to the first. */
  ghost predicate Ring(next: Links, prev: Links, s: seq<nat>) {
    s != [] && Distinct(s) && Path(next, prev, s) && Link(next, prev, s[|s| - 1], s[0])
  }

  function InsertAt(s: seq<nat>, k: nat, n: nat): seq<nat>
    requires k <= |s|
  {
    s[..k] + [n] + s[k..]
  }

  /** Where x stands. */
  function Index(s: seq<nat>, x: nat): (i: nat)
    requires x in s
    ensures i < |s| && s[i] == x
  {
    if s[0] == x then 0 else 1 + Index(s[1..], x)
  }

  /** Two chains of links that agree on the nodes of s, except for what leaves its
      last node and what enters its first. */
  ghost predicate SameInside(next: Links, prev: Links, n2: Links, p2: Links, s: seq<nat>) {
    |s| <= 1 ||
    (&& (s[0] in next ==> s[0] in n2 && n2[s[0]] == next[s[0]])
     && (s[1] in prev ==> s[1] in p2 && p2[s[1]] == prev[s[1]])
     && SameInside(next, prev, n2, p2, s[1..]))
  }

  lemma {:induction false} PathFrame(next: Links, prev: Links, n2: Links, p2: Links, s: seq<nat>)
    requires Path(next, prev, s) && SameInside(next, prev, n2, p2, s)
    ensures Path(n2, p2, s)
  {
    if |s| > 1 { PathFrame(next, prev, n2, p2, s[1..]); }
  }

  lemma {:induction false} PathJoin(next: Links, prev: Links, a: seq<nat>, b: seq<nat>)
    requires Path(next, prev, a) && Path(next, prev, b)
    requires a != [] && b != [] ==> Link(next, prev, a[|a| - 1], b[0])
    ensures Path(next, prev, a + b)
  {
    if a == [] {
      assert a + b == b;
    } else if b == [] {
      assert a + b == a;
    } else {
      assert (a + b)[1..] == a[1..] + b;
      if |a| > 1 { assert a[1..][|a| - 2] == a[|a| - 1]; }
      PathJoin(next, prev, a[1..], b);
    }
  }

  lemma {:induction false} PathSplit(next: Links, prev: Links, s: seq<nat>, k: nat)
    requires Path(next, prev, s) && k <= |s|
    ensures Path(next, prev, s[..k]) && Path(next, prev, s[k..])
    ensures 0 < k < |s| ==> Link(next, prev, s[k - 1], s[k])
  {
    if k == 0 {
      assert s[0..] == s;
    } else {
      PathSplit(next, prev, s[1..], k - 1);
      assert s[1..][k - 1..] == s[k..];
      assert s[..k][1..] == s[1..][..k - 1];
      if k > 1 { assert s[..k][1] == s[1]; }
      if 1 < k < |s| { assert s[1..][k - 2] == s[k - 1] && s[1..][k - 1] == s[k]; }
    }
  }

  /** Changes elsewhere do not matter inside. */
  lemma {:induction false} Elsewhere(next: Links, prev: Links, n2: Links, p2: Links, s: seq<nat>)
    requires forall x :: x in s && x in next && (s != [] ==> x != s[|s| - 1]) ==> x in n2 && n2[x] == next[x]
    requires forall x :: x in s && x in prev && (s != [] ==> x != s[0]) ==> x in p2 && p2[x] == prev[x]
    requires Distinct(s)
    ensures SameInside(next, prev, n2, p2, s)
  {
    if |s| > 1 {
      var t := s[1..];
      assert t[|t| - 1] == s[|s| - 1] && s[|s| - 1] in t;
      assert s[0] in s && t[0] in s && t[0] in t;
      forall x | x in t ensures x in s && x != s[0] {}
      Elsewhere(next, prev, n2, p2, t);
    }
  }

  lemma {:induction false} DistinctParts(s: seq<nat>, k: nat)
    requires Distinct(s) && k <= |s|
    ensures Distinct(s[..k]) && Distinct(s[k..]) && forall x :: x in s[..k] ==> x !in s[k..]
  {
    if k == 0 {
      assert s[0..] == s;
    } else {
      DistinctParts(s[1..], k - 1);
      assert s[1..][k - 1..] == s[k..];
      assert s[..k][1..] == s[1..][..k - 1] && s[..k][0] == s[0];
      forall x | x in s[..k] ensures x !in s[k..] { assert x == s[0] || x in s[1..][..k - 1]; }
      assert forall x :: x in s[1..][..k - 1] ==> x in s[1..];
    }
  }

  lemma {:induction false} DistinctJoin(a: seq<nat>, b: seq<nat>)
    requires Distinct(a) && Distinct(b) && forall x :: x in a ==> x !in b
    ensures Distinct(a + b)
  {
    if a == [] {
      assert a + b == b;
    } else {
      assert (a + b)[1..] == a[1..] + b;
      DistinctJoin(a[1..], b);
    }
  }

  /** Linking n between two neighbours of a ring. */
  lemma {:induction false} RingInsert(next: Links, prev: Links, s: seq<nat>, k: nat, n: nat)
    requires Ring(next, prev, s) && 0 < k <= |s| && n !in s
    ensures var a, b := s[k - 1], if k < |s| then s[k] else s[0];
      Ring(next[n := b][a := n], prev[b := n][n := a], InsertAt(s, k, n))
  {
    var a, b := s[k - 1], if k < |s| then s[k] else s[0];
    var n2, p2 := next[n := b][a := n], prev[b := n][n := a];
    var x, y := s[..k], s[k..];
    DistinctParts(s, k);
    PathSplit(next, prev, s, k);
    assert x[k - 1] == a && (k < |s| ==> y[0] == b && y[|y| - 1] == s[|s| - 1]);
    assert x[0] == s[0];
    InsideOne(next, prev, s, x, y, n, a, b);
    PathFrame(next, prev, n2, p2, x);
    PathFrame(next, prev, n2, p2, y);
    PathJoin(n2, p2, x, [n]);
    PathJoin(n2, p2, x + [n], y);
    DistinctJoin(x, [n]);
    DistinctJoin(x + [n], y);
    var r := InsertAt(s, k, n);
    assert r == x + [n] + y && r[0] == s[0];
    if k < |s| { LastLink(next, prev, s, n2, p2, y, n, a); } else { assert y == []; assert r[|r| - 1] == n; }
  }

  lemma {:induction false} InsideOne(next: Links, prev: Links, s: seq<nat>, x: seq<nat>, y: seq<nat>, n: nat, a: nat, b: nat)
    requires Distinct(x) && Distinct(y) && x != [] && n !in x && n !in y && a == x[|x| - 1] && (forall z :: z in x ==> z !in y)
    requires b == if y != [] then y[0] else x[0]
    ensures SameInside(next, prev, next[n := b][a := n], prev[b := n][n := a], x)
    ensures SameInside(next, prev, next[n := b][a := n], prev[b := n][n := a], y)
  {
    var n2, p2 := next[n := b][a := n], prev[b := n][n := a];
    assert a in x;
    if y != [] { assert b in y; }
    Elsewhere(next, prev, n2, p2, x);
    Elsewhere(next, prev, n2, p2, y);
  }

  lemma {:induction false} LastLink(next: Links, prev: Links, s: seq<nat>, n2: Links, p2: Links, y: seq<nat>, n: nat, a: nat)
    requires |s| > 1 && Link(next, prev, s[|s| - 1], s[0]) && y != [] && y[|y| - 1] == s[|s| - 1]
    requires n !in s && s[|s| - 1] != a && s[0] != y[0]
    requires n2 == next[n := y[0]][a := n] && p2 == prev[y[0] := n][n := a]
    ensures Link(n2, p2, y[|y| - 1], s[0])
  {
    assert s[0] in s && s[|s| - 1] in s;
  }

  /** Unlinking node k of a ring joins its two neighbours. */
  lemma {:induction false} RingRemove(next: Links, prev: Links, s: seq<nat>, k: nat)
    requires Ring(next, prev, s) && 0 < k < |s|
    ensures var n, a, b := s[k], s[k - 1], if k + 1 < |s| then s[k + 1] else s[0];
      && Link(next, prev, a, n) && Link(next, prev, n, b) && n != a && n != b && Remove(s, n) == s[..k] + s[k + 1..]
      && Ring(next[a := b][n := n], prev[b := a][n := n], Remove(s, n))
  {
    var n, a, b := s[k], s[k - 1], if k + 1 < |s| then s[k + 1] else s[0];
    var x, y := s[..k], s[k + 1..];
    RemoveParts(next, prev, s, k);
    assert s == x + [n] + y;
    RemoveMiddle(x, n, y);
    hide Path, Distinct, Remove;
    Glue(next, prev, x, y, n, a, b);
  }

  /** Two paths joined over the gap that n leaves. */
  lemma {:induction false} Glue(next: Links, prev: Links, x: seq<nat>, y: seq<nat>, n: nat, a: nat, b: nat)
    requires Path(next, prev, x) && Path(next, prev, y) && Distinct(x) && Distinct(y) && x != []
    requires n != a && n != b && n !in x && n !in y && (forall z :: z in x ==> z !in y)
    requires a == x[|x| - 1] && b == if y != [] then y[0] else x[0]
    requires y != [] ==> Link(next, prev, y[|y| - 1], x[0])
    ensures Ring(next[a := b][n := n], prev[b := a][n := n], x + y)
  {
    hide Path, Distinct, SameInside;
    var n2, p2 := next[a := b][n := n], prev[b := a][n := n];
    InsideGone(next, prev, x, y, n, a, b);
    PathFrame(next, prev, n2, p2, x);
    PathFrame(next, prev, n2, p2, y);
    DistinctJoin(x, y);
    PathJoin(n2, p2, x, y);
    if y != [] { StillLast(next, prev, x, y, n, a, b); }
  }

  lemma {:induction false} RemoveParts(next: Links, prev: Links, s: seq<nat>, k: nat)
    requires Ring(next, prev, s) && 0 < k < |s|
    ensures var n, a, b := s[k], s[k - 1], if k + 1 < |s| then s[k + 1] else s[0];
      var x, y := s[..k], s[k + 1..];
      && Path(next, prev, x) && Path(next, prev, y) && Distinct(x) && Distinct(y)
      && Link(next, prev, a, n) && Link(next, prev, n, b) && n != a && n != b && n !in x && n !in y
      && (forall z :: z in x ==> z !in y) && a == x[|x| - 1] && b == (if y != [] then y[0] else x[0])
      && (y != [] ==> Link(next, prev, y[|y| - 1], x[0]))
  {
    var x, y := s[..k], s[k + 1..];
    PathSplit(next, prev, s, k);
    PathSplit(next, prev, s, k + 1);
    DistinctParts(s, k);
    assert s[k..][0] == s[k] && s[k..][1..] == y;
    hide Path;
    assert x[k - 1] == s[k - 1] && s[k - 1] in x && x[0] == s[0] && s[0] in x;
    assert forall z :: z in y ==> z in s[k..];
    if y != [] { assert y[0] == s[k + 1] && y[|y| - 1] == s[|s| - 1] && s[k + 1] in y; }
  }

  lemma {:induction false} InsideGone(next: Links, prev: Links, x: seq<nat>, y: seq<nat>, n: nat, a: nat, b: nat)
    requires Distinct(x) && Distinct(y) && x != [] && n !in x && n !in y && a == x[|x| - 1] && (forall z :: z in x ==> z !in y)
    requires b == if y != [] then y[0] else x[0]
    ensures SameInside(next, prev, next[a := b][n := n], prev[b := a][n := n], x)
    ensures SameInside(next, prev, next[a := b][n := n], prev[b := a][n := n], y)
  {
    var n2, p2 := next[a := b][n := n], prev[b := a][n := n];
    assert a in x;
    if y != [] { assert b in y; }
    Elsewhere(next, prev, n2, p2, x);
    Elsewhere(next, prev, n2, p2, y);
  }

  lemma {:induction false} StillLast(next: Links, prev: Links, x: seq<nat>, y: seq<nat>, n: nat, a: nat, b: nat)
    requires x != [] && y != [] && Link(next, prev, y[|y| - 1], x[0]) && n !in x && n !in y
    requires (forall z :: z in x ==> z !in y) && a == x[|x| - 1] && b == y[0]
    ensures Link(next[a := b][n := n], prev[b := a][n := n], y[|y| - 1], x[0])
  {
    assert x[0] in x && y[|y| - 1] in y && a in x && b in y;
  }

  lemma {:induction false} RemoveMiddle(a: seq<nat>, n: nat, b: seq<nat>)
    requires n !in a
    ensures Remove(a + [n] + b, n) == a + b
  {
    var s := a + [n] + b;
    if a == [] {
      assert s[0] == n && s[1..] == b && a + b == b;
    } else {
      assert s[0] == a[0] && s[1..] == a[1..] + [n] + b;
      RemoveMiddle(a[1..], n, b);
      assert [a[0]] + (a[1..] + b) == a + b;
    }
  }

  /** In a ring each node leads to the next one, the last back to the first. */
  lemma {:induction false} RingAt(next: Links, prev: Links, s: seq<nat>, k: nat)
    requires Ring(next, prev, s) && k < |s|
    ensures Link(next, prev, s[k], if k + 1 < |s| then s[k + 1] else s[0])
    ensures Link(next, prev, if k > 0 then s[k - 1] else s[|s| - 1], s[k])
  {
    PathSplit(next, prev, s, k);
    if k + 1 < |s| { PathSplit(next, prev, s, k + 1); }
  }

  lemma {:induction false} IndexUnique(s: seq<nat>, k: nat)
    requires Distinct(s) && k < |s|
    ensures Index(s, s[k]) == k
  {
    if k > 0 {
      assert s[1..][k - 1] == s[k] && s[k] in s[1..];
      IndexUnique(s[1..], k - 1);
    }
  }

  class List {
    var next: Links
    var prev: Links
    /** the nodes in order, the head first */
    ghost var nodes: seq<nat>

    ghost predicate Valid()
      reads this
    {
      Ring(next, prev, nodes)
    }

    /** rt_list_init of the head. */
    constructor (head: nat)
      ensures Valid() && nodes == [head]
    {
      next, prev := map[head := head], map[head := head];
      nodes := [head];
    }

    /** rt_list_insert_after. */
    method InsertAfter(l: nat, n: nat)
      requires Valid() && l in nodes && n !in nodes
      modifies this
      ensures Valid() && nodes == InsertAt(old(nodes), Index(old(nodes), l) + 1, n)
    {
      ghost var k := Index(nodes, l) + 1;
      RingAt(next, prev, nodes, k - 1);
      RingInsert(next, prev, nodes, k, n);
      prev := prev[next[l] := n];
      next := next[n := next[l]];
      next := next[l := n];
      prev := prev[n := l];
      nodes := InsertAt(nodes, k, n);
    }

    /** rt_list_insert_before: in front of the head means at the end. */
    method InsertBefore(l: nat, n: nat)
      requires Valid() && l in nodes && n !in nodes
      modifies this
      ensures Valid()
      ensures var k := Index(old(nodes), l); nodes == InsertAt(old(nodes), if k == 0 then |old(nodes)| else k, n)
    {
      ghost var i := Index(nodes, l);
      ghost var k := if i == 0 then |nodes| else i;
      RingAt(next, prev, nodes, i);
      RingInsert(next, prev, nodes, k, n);
      ghost var n1: Links, p1: Links := next, prev;
      next := next[prev[l] := n];
      prev := prev[n := prev[l]];
      prev := prev[l := n];
      next := next[n := l];
      assert next == n1[n := l][p1[l] := n] && prev == p1[l := n][n := p1[l]];
      nodes := InsertAt(nodes, k, n);
    }

    /** rt_list_remove of a node of the list, or of one that is linked to itself. */
    method RemoveNode(n: nat)
      requires Valid() && n != nodes[0] && (n in nodes || (n in next && n in prev && next[n] == n && prev[n] == n))
      modifies this
      ensures Valid() && nodes == Remove(old(nodes), n) && n in next && n in prev && next[n] == n && prev[n] == n
    {
      ghost var n1: Links, p1: Links := next, prev;
      if n in nodes {
        RingRemove(next, prev, nodes, Index(nodes, n));
      } else {
        RemoveAbsent(nodes, n);
      }
      prev := prev[next[n] := prev[n]];
      next := next[prev[n] := next[n]];
      next := next[n := n];
      prev := prev[n := n];
      assert n !in nodes ==> next == n1 && prev == p1;
      nodes := Remove(nodes, n);
    }

    /** rt_list_isempty of the head. */
    method IsEmpty(l: nat) returns (r: bool)
      requires Valid() && l == nodes[0]
      ensures r == (|nodes| == 1)
    {
      RingAt(next, prev, nodes, 0);
      assert |nodes| > 1 ==> nodes[1] in nodes[1..];
      r := next[l] == l;
    }

    /** rt_list_len. */
    method Length(l: nat) returns (len: nat)
      requires Valid() && l == nodes[0]
      ensures len == |nodes| - 1
    {
      len := 0;
      var p := l;
      RingAt(next, prev, nodes, 0);
      while next[p] != l
        invariant len < |nodes| && p == nodes[len] && p in next
        invariant next[p] == if len + 1 < |nodes| then nodes[len + 1] else l
        decreases |nodes| - len
      {
        p := next[p];
        len := len + 1;
        RingAt(next, prev, nodes, len);
      }
      if len + 1 < |nodes| { IndexUnique(nodes, len + 1); }
    }
  }
}
