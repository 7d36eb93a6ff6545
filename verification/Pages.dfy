/** The page allocator of slab.c as it is written: the header of a free run lies
    in its first page, and the walks carry a pointer to the pointer that led to
    the current run. */
module Pages {
  import opened Machine
  import opened PagesSpec
  import PagesTheory

  /** RT_NULL, and the address of rt_page_list itself as a value of `prev`. */
  const NULL := -1
  const LIST := -1

  /** The list segment from p to q runs through rs. */
  ghost predicate Segment(next: seq<int>, page: seq<nat>, p: int, rs: seq<Run>, q: int)
    decreases |rs|
  {
    if rs == [] then p == q
    else
      && p == rs[0].start && p < |next| && p < |page| && page[p] == rs[0].len
      && Segment(next, page, next[p], rs[1..], q)
  }

  /** x is not the first page of a run. */
  ghost predicate NoHead(rs: seq<Run>, x: int) {
    forall r :: r in rs ==> r.start != x
  }

  lemma {:induction false} SegmentFrame(next: seq<int>, page: seq<nat>, p: int, rs: seq<Run>, q: int, x: nat, v: int, k: nat)
    requires Segment(next, page, p, rs, q) && x < |next| && x < |page| && NoHead(rs, x)
    ensures Segment(next[x := v], page[x := k], p, rs, q)
    decreases |rs|
  {
    if rs != [] {
      assert rs[0] in rs && forall r :: r in rs[1..] ==> r in rs;
      SegmentFrame(next, page, next[p], rs[1..], q, x, v, k);
    }
  }

  lemma {:induction false} SegmentBounds(next: seq<int>, page: seq<nat>, p: int, rs: seq<Run>, q: int)
    requires Segment(next, page, p, rs, q)
    ensures forall r :: r in rs ==> r.start < |next| && r.start < |page|
    decreases |rs|
  {
    if rs != [] {
      SegmentBounds(next, page, next[p], rs[1..], q);
      forall r | r in rs ensures r.start < |next| && r.start < |page| { assert r == rs[0] || r in rs[1..]; }
    }
  }

  /** One run of a segment. */
  lemma {:induction false} SegmentOne(next: seq<int>, page: seq<nat>, r: Run)
    requires r.start < |next| && r.start < |page| && page[r.start] == r.len
    ensures Segment(next, page, r.start, [r], next[r.start])
  {
    assert [r][1..] == [];
  }

  /** The walk goes one run further. */
  lemma {:induction false} SegmentStep(next: seq<int>, page: seq<nat>, list: int, runs: seq<Run>, b: int, i: nat)
    requires i < |runs| && Segment(next, page, list, runs[..i], b) && Segment(next, page, b, runs[i..], NULL)
    ensures 0 <= b < |next| && b < |page| && b == runs[i].start && page[b] == runs[i].len
    ensures next[b] == if i + 1 < |runs| then runs[i + 1].start else NULL
    ensures Segment(next, page, list, runs[..i + 1], next[b]) && Segment(next, page, next[b], runs[i + 1..], NULL)
  {
    assert runs[i..][0] == runs[i] && runs[i..][1..] == runs[i + 1..];
    assert i + 1 < |runs| ==> runs[i + 1..][0] == runs[i + 1];
    SegmentOne(next, page, runs[i]);
    SegmentJoin(next, page, list, runs[..i], b, [runs[i]], next[b]);
    hide Segment;
    assert runs[..i] + [runs[i]] == runs[..i + 1];
  }

  lemma {:induction false} SegmentJoin(next: seq<int>, page: seq<nat>, p: int, a: seq<Run>, m: int, b: seq<Run>, q: int)
    requires Segment(next, page, p, a, m) && Segment(next, page, m, b, q)
    ensures Segment(next, page, p, a + b, q)
    decreases |a|
  {
    if a == [] {
      assert a + b == b;
    } else {
      SegmentJoin(next, page, next[p], a[1..], m, b, q);
      assert (a + b)[0] == a[0] && (a + b)[1..] == a[1..] + b;
    }
  }

  /** Redirect the link behind the last run of a segment. */
  lemma {:induction false} SegmentRelink(next: seq<int>, page: seq<nat>, p: int, a: seq<Run>, m: int, v: int)
    requires Segment(next, page, p, a, m) && a != [] && NoHead(a[..|a| - 1], a[|a| - 1].start)
    ensures a[|a| - 1].start < |next| && Segment(next[a[|a| - 1].start := v], page, p, a, v)
    decreases |a|
  {
    var last := a[|a| - 1].start;
    if |a| == 1 {
      assert a[1..] == [];
    } else {
      assert a[1..][|a| - 2] == a[|a| - 1];
      assert a[..|a| - 1][1..] == a[1..][..|a| - 2];
      assert a[0] in a[..|a| - 1];
      forall r | r in a[1..][..|a| - 2] ensures r.start != last { assert r in a[..|a| - 1][1..]; assert r in a[..|a| - 1]; }
      SegmentRelink(next, page, next[p], a[1..], m, v);
    }
  }

  /** Every run starts at or above x. */
  ghost predicate From(rs: seq<Run>, x: int) {
    forall r :: r in rs ==> x <= r.start
  }

  /** Every run ends below x. */
  ghost predicate Below(rs: seq<Run>, x: int) {
    forall r :: r in rs ==> r.End() < x
  }

  lemma {:induction false} CoalescedFrom(rs: seq<Run>)
    requires Coalesced(rs) && rs != []
    ensures From(rs, rs[0].start) && From(rs[1..], rs[0].End() + 1)
    decreases |rs|
  {
    if |rs| > 1 { CoalescedFrom(rs[1..]); }
    forall r | r in rs ensures rs[0].start <= r.start { assert r == rs[0] || r in rs[1..]; }
  }

  /** The runs before index i end below run i. */
  lemma {:induction false} CoalescedSides(rs: seq<Run>, i: nat)
    requires Coalesced(rs) && i < |rs|
    ensures rs[i].len > 0 && Below(rs[..i], rs[i].start) && From(rs[i..], rs[i].start) && From(rs[i + 1..], rs[i].End() + 1)
    ensures Coalesced(rs[i..])
    decreases |rs|
  {
    CoalescedFrom(rs);
    if i == 0 {
      assert rs[0..] == rs && rs[..0] == [];
    } else {
      CoalescedSides(rs[1..], i - 1);
      assert rs[1..][..i - 1] == rs[..i][1..] && rs[1..][i - 1..] == rs[i..] && rs[1..][i..] == rs[i + 1..];
      assert rs[1..][i - 1] == rs[i];
      forall r | r in rs[..i] ensures r.End() < rs[i].start {
        assert r == rs[0] || r in rs[..i][1..];
        assert rs[i] in rs[1..];
      }
    }
  }

  /** Where the walk of rt_page_alloc stops. */
  lemma {:induction false} AllocAt(rs: seq<Run>, i: nat, n: nat)
    requires i <= |rs| && forall k :: 0 <= k < i ==> rs[k].len < n
    ensures Alloc(rs, n).0 == rs[..i] + Alloc(rs[i..], n).0 && Alloc(rs, n).1 == Alloc(rs[i..], n).1
    decreases |rs|
  {
    if i == 0 {
      assert rs[0..] == rs && rs[..0] == [];
      assert [] + Alloc(rs, n).0 == Alloc(rs, n).0;
    } else {
      forall k | 0 <= k < i - 1 ensures rs[1..][k].len < n { assert rs[1..][k] == rs[k + 1]; }
      AllocAt(rs[1..], i - 1, n);
      assert rs[1..][i - 1..] == rs[i..];
      assert rs[..i] == [rs[0]] + rs[1..][..i - 1];
      assert [rs[0]] + (rs[1..][..i - 1] + Alloc(rs[i..], n).0) == rs[..i] + Alloc(rs[i..], n).0;
    }
  }

  /** The walk of rt_page_free passes run r. */
  predicate Passes(r: Run, a: nat, n: nat) {
    r.End() != a && r.start != a + n && r.start <= a + n
  }

  lemma {:induction false} ReleaseAt(rs: seq<Run>, i: nat, a: nat, n: nat)
    requires i <= |rs| && forall k :: 0 <= k < i ==> Passes(rs[k], a, n)
    ensures Release(rs, a, n) == rs[..i] + Release(rs[i..], a, n)
    decreases |rs|
  {
    if i == 0 {
      assert rs[0..] == rs && rs[..0] == [];
      assert [] + Release(rs, a, n) == Release(rs, a, n);
    } else {
      forall k | 0 <= k < i - 1 ensures Passes(rs[1..][k], a, n) { assert rs[1..][k] == rs[k + 1]; }
      assert Passes(rs[0], a, n);
      ReleaseAt(rs[1..], i - 1, a, n);
      assert rs[1..][i - 1..] == rs[i..];
      assert rs[..i] == [rs[0]] + rs[1..][..i - 1];
      assert [rs[0]] + (rs[1..][..i - 1] + Release(rs[i..], a, n)) == rs[..i] + Release(rs[i..], a, n);
    }
  }

  /** rt_page_alloc served by run i. */
  lemma {:induction false} AllocHere(rs: seq<Run>, i: nat, n: nat)
    requires i < |rs| && rs[i].len >= n && forall k :: 0 <= k < i ==> rs[k].len < n
    ensures Alloc(rs, n).1 == Some(rs[i].start)
    ensures Alloc(rs, n).0 == rs[..i] +
      if rs[i].len > n then [Run(rs[i].start + n, rs[i].len - n)] + rs[i + 1..] else rs[i + 1..]
  {
    AllocAt(rs, i, n);
    assert rs[i..][0] == rs[i] && rs[i..][1..] == rs[i + 1..];
  }

  /** rt_page_free stopped by run i, or at the end of the list. */
  lemma {:induction false} ReleaseHere(rs: seq<Run>, i: nat, a: nat, n: nat)
    requires i <= |rs| && forall k :: 0 <= k < i ==> Passes(rs[k], a, n)
    ensures i == |rs| ==> Release(rs, a, n) == rs[..i] + ([Run(a, n)] + rs[i..])
    ensures i < |rs| && rs[i].End() == a && i + 1 < |rs| && a + n == rs[i + 1].start ==>
      Release(rs, a, n) == rs[..i] + ([Run(rs[i].start, rs[i].len + n + rs[i + 1].len)] + rs[i + 2..])
    ensures i < |rs| && rs[i].End() == a && !(i + 1 < |rs| && a + n == rs[i + 1].start) ==>
      Release(rs, a, n) == rs[..i] + ([Run(rs[i].start, rs[i].len + n)] + rs[i + 1..])
    ensures i < |rs| && rs[i].End() != a && rs[i].start == a + n ==>
      Release(rs, a, n) == rs[..i] + ([Run(a, n + rs[i].len)] + rs[i + 1..])
    ensures i < |rs| && rs[i].End() != a && rs[i].start > a + n ==> Release(rs, a, n) == rs[..i] + ([Run(a, n)] + rs[i..])
  {
    ReleaseAt(rs, i, a, n);
    if i == |rs| {
      assert rs[i..] == [] && [Run(a, n)] + rs[i..] == [Run(a, n)];
    } else {
      assert rs[i..][0] == rs[i] && rs[i..][1..] == rs[i + 1..];
      if i + 1 < |rs| { assert rs[i..][1] == rs[i + 1] && rs[i..][2..] == rs[i + 2..]; }
    }
  }

  class PageAllocator {
    /** the header fields of the run that starts at each page */
    const next: array<int>
    const page: array<nat>
    /** rt_page_list */
    var list: int
    ghost var runs: seq<Run>

    ghost predicate Valid()
      reads this, next, page
    {
      && next.Length == page.Length
      && Coalesced(runs) && Segment(next[..], page[..], list, runs, NULL)
      && forall x :: IsFree(runs, x) ==> x < next.Length
    }

    /** rt_page_init: one run of n pages out of the pages below `top`. */
    constructor (top: nat, lo: nat, n: nat)
      requires n > 0 && lo + n <= top
      ensures Valid() && fresh(next) && fresh(page) && next.Length == top && runs == Init(lo, n).free
    {
      next := new int[top](_ => NULL);
      page := new nat[top](_ => 0);
      list, runs := NULL, [];
      new;
      Free(lo, n);
    }

    /** *prev = v, where prev is where the walk over the runs `done` stands. */
    method StorePrev(prev: int, v: int, ghost done: seq<Run>, ghost m: int)
      requires next.Length == page.Length && Segment(next[..], page[..], list, done, m)
      requires prev == (if done == [] then LIST else done[|done| - 1].start)
      requires done != [] ==> NoHead(done[..|done| - 1], done[|done| - 1].start)
      modifies this`list, next
      ensures Segment(next[..], page[..], list, done, v)
      ensures prev == LIST ==> next[..] == old(next[..])
      ensures prev != LIST ==> 0 <= prev < next.Length && next[..] == old(next[..])[prev := v]
    {
      ghost var before := next[..];
      if prev == LIST {
        list := v;
      } else {
        SegmentRelink(before, page[..], list, done, m, v);
        next[prev] := v;
        assert next[..] == before[prev := v];
      }
    }

    /** Set both header fields of the run at page x. */
    method StoreHead(x: nat, v: int, k: nat)
      requires next.Length == page.Length && x < next.Length
      modifies next, page
      ensures next[..] == old(next[..])[x := v] && page[..] == old(page[..])[x := k]
    {
      next[x] := v;
      page[x] := k;
    }

    /** The walk stands before index i: prev leads to b. */
    ghost predicate At(prev: int, b: int, i: nat)
      reads this, next, page
    {
      && next.Length == page.Length && i <= |runs|
      && prev == (if i == 0 then LIST else runs[i - 1].start)
      && b == (if i < |runs| then runs[i].start else NULL)
      && Segment(next[..], page[..], list, runs[..i], b) && Segment(next[..], page[..], b, runs[i..], NULL)
    }

    lemma {:induction false} Begin()
      requires Valid()
      ensures At(LIST, list, 0)
    {
      assert runs[..0] == [] && runs[0..] == runs;
    }

    lemma {:induction false} Advance(prev: int, b: int, i: nat)
      requires At(prev, b, i) && i < |runs|
      ensures 0 <= b < next.Length && page[b] == runs[i].len && At(b, next[b], i + 1)
      ensures next[b] == if i + 1 < |runs| then runs[i + 1].start else NULL
    {
      hide Segment;
      SegmentStep(next[..], page[..], list, runs, b, i);
    }

    /** Replace the runs from index i on by a segment that starts at v. */
    method Splice(prev: int, v: int, b: int, ghost i: nat, ghost tail: seq<Run>)
      requires next.Length == page.Length && i <= |runs| && Coalesced(runs)
      requires prev == (if i == 0 then LIST else runs[i - 1].start) && NoHead(tail, prev)
      requires Segment(next[..], page[..], list, runs[..i], b) && Segment(next[..], page[..], v, tail, NULL)
      modifies this, next
      ensures Segment(next[..], page[..], list, runs, NULL) && runs == old(runs)[..i] + tail
    {
      ghost var done := runs[..i];
      if i > 0 {
        CoalescedSides(runs, i - 1);
        assert done[i - 1] == runs[i - 1] && done[..i - 1] == runs[..i - 1];
        assert done[i - 1] in done;
        SegmentBounds(next[..], page[..], list, done, b);
        forall r | r in done[..i - 1] ensures r.start != done[i - 1].start { assert r.End() < done[i - 1].start; }
        SegmentFrame(next[..], page[..], v, tail, NULL, prev, v, page[prev]);
        assert page[..][prev := page[prev]] == page[..];
      }
      StorePrev(prev, v, done, b);
      SegmentJoin(next[..], page[..], list, done, v, tail, NULL);
      runs := done + tail;
    }

    /** Write a header at page x and hang it, with the runs from index j on, at prev. */
    method Hang(prev: int, b: int, ghost i: nat, x: nat, v: int, k: nat, ghost j: nat)
      requires At(prev, b, i) && Coalesced(runs) && i <= j <= |runs| && x < next.Length
      requires v == if j < |runs| then runs[j].start else NULL
      requires Segment(next[..], page[..], v, runs[j..], NULL)
      requires NoHead(runs[..i], x) && NoHead(runs[j..], x) && prev < x
      modifies this, next, page
      ensures next.Length == page.Length
      ensures Segment(next[..], page[..], list, runs, NULL) && runs == old(runs)[..i] + ([Run(x, k)] + old(runs)[j..])
    {
      SegmentFrame(next[..], page[..], list, runs[..i], b, x, v, k);
      SegmentFrame(next[..], page[..], v, runs[j..], NULL, x, v, k);
      next[x] := v;
      page[x] := k;
      assert next[..] == old(next[..])[x := v] && page[..] == old(page[..])[x := k];
      ghost var tail := [Run(x, k)] + runs[j..];
      assert tail[0] == Run(x, k) && tail[1..] == runs[j..];
      forall r | r in tail ensures r.start != prev {
        if i > 0 && r in runs[j..] { Later(i - 1, j, r); }
      }
      Splice(prev, x, b, i, tail);
    }

    lemma {:induction false} Later(i: nat, j: nat, r: Run)
      requires Coalesced(runs) && i < j <= |runs| && r in runs[j..]
      ensures runs[i].End() < r.start
    {
      CoalescedSides(runs, i);
      assert runs[j..] == runs[i + 1..][j - i - 1..];
    }

    /** No run before i or from j on starts at x, when x is not a free page or lies
        inside run i and j is behind it. */
    lemma {:induction false} Clear(i: nat, j: nat, x: nat)
      requires Coalesced(runs) && i <= j <= |runs|
      requires !IsFree(runs, x) || (i < j && runs[i].start < x < runs[i].End())
      ensures NoHead(runs[..i], x) && NoHead(runs[j..], x)
    {
      if i < j && runs[i].start < x < runs[i].End() {
        CoalescedSides(runs, i);
        forall r | r in runs[j..] ensures r.start != x { Later(i, j, r); }
        forall r | r in runs[..i] ensures r.start != x { assert r.End() < runs[i].start; }
      } else {
        forall r | r in runs ensures r.start != x { HeadFree(runs, r); }
        assert forall r :: r in runs[..i] || r in runs[j..] ==> r in runs;
      }
    }

    /** rt_page_alloc. */
    method Alloc(npages: nat) returns (r: Option<nat>)
      requires Valid()
      modifies this, next, page
      ensures Valid()
      ensures npages == 0 ==> r == None && runs == old(runs)
      ensures npages > 0 ==> (runs, r) == PagesSpec.Alloc(old(runs), npages)
    {
      if npages == 0 {
        return None;
      }
      ghost var before := runs;
      PagesTheory.AllocExact(before, npages);
      Begin();
      var prev, b := LIST, list;
      ghost var i := 0;
      while b != NULL
        invariant Valid() && runs == before && At(prev, b, i)
        invariant forall k :: 0 <= k < i ==> runs[k].len < npages
        decreases |runs| - i
      {
        Advance(prev, b, i);
        if page[b] >= npages {
          Carve(prev, b, i, npages);
          return Some(b);
        }
        prev, b, i := b, next[b], i + 1;
      }
      AllocAt(before, i, npages);
      assert before[i..] == [] && before[..i] + [] == before;
      return None;
    }

    /** The two ways rt_page_alloc serves a request from the run at b. */
    method Carve(prev: int, b: nat, ghost i: nat, npages: nat)
      requires Valid() && At(prev, b, i) && i < |runs| && npages > 0 && b < next.Length && page[b] == runs[i].len >= npages
      requires forall k :: 0 <= k < i ==> runs[k].len < npages
      modifies this, next, page
      ensures Valid() && (runs, Some(b)) == PagesSpec.Alloc(old(runs), npages)
    {
      hide Segment, PagesSpec.Alloc, Coalesced, From, Below, NoHead;
      ghost var before := runs;
      PagesTheory.AllocExact(before, npages);
      AllocHere(before, i, npages);
      Advance(prev, b, i);
      CoalescedSides(before, i);
      BeforeHead(i);
      InPool(i);
      if page[b] > npages {
        var n := b + npages;
        Clear(i, i + 1, n);
        Hang(prev, b, i, n, next[b], page[b] - npages, i + 1);
      } else {
        forall r | r in runs[i + 1..] ensures r.start != prev { if i > 0 { Later(i - 1, i + 1, r); } }
        Splice(prev, next[b], b, i, runs[i + 1..]);
      }
    }

    lemma {:induction false} BeforeHead(i: nat)
      requires Coalesced(runs) && 0 <= i < |runs|
      ensures i > 0 ==> runs[i - 1].End() < runs[i].start
    {
      if i > 0 {
        assert runs[i..][0] == runs[i];
        Later(i - 1, i, runs[i]);
      }
    }

    lemma {:induction false} InPool(i: nat)
      requires Valid() && i < |runs|
      ensures runs[i].len > 0 && runs[i].End() <= next.Length
    {
      CoalescedSides(runs, i);
      RunFree(runs, i, runs[i].End() - 1);
    }

    /** rt_page_free. */
    method Free(addr: nat, npages: nat)
      requires Valid() && npages > 0 && addr + npages <= next.Length && PagesTheory.NoneFree(runs, addr, npages)
      modifies this, next, page
      ensures Valid() && runs == Release(old(runs), addr, npages)
    {
      hide Segment, Release, Coalesced, NoHead;
      ghost var before := runs;
      PagesTheory.ReleaseExact(before, addr, npages);
      assert !IsFree(before, addr);
      Begin();
      var prev, b := LIST, list;
      ghost var i := 0;
      while b != NULL
        invariant Valid() && runs == before && At(prev, b, i) && prev < addr
        invariant forall k :: 0 <= k < i ==> Passes(runs[k], addr, npages)
        decreases |runs| - i
      {
        hide Segment, Release, Coalesced;
        Advance(prev, b, i);
        ReleaseHere(before, i, addr, npages);
        if b + page[b] == addr {
          Grow(prev, b, i, npages);
          return;
        }
        if b == addr + npages {
          Clear(i, i + 1, addr);
          Hang(prev, b, i, addr, next[b], page[b] + npages, i + 1);
          return;
        }
        if b > addr + npages {
          break;
        }
        OnTheLeft(before, i, addr, npages);
        prev, b, i := b, next[b], i + 1;
      }
      ReleaseHere(before, i, addr, npages);
      Clear(i, i, addr);
      Hang(prev, b, i, addr, b, npages, i);
    }

    /** rt_page_free behind the run at b, which may close the gap to the next one. */
    method Grow(prev: int, b: nat, ghost i: nat, npages: nat)
      requires Valid() && At(prev, b, i) && i < |runs| && npages > 0 && b < next.Length && page[b] == runs[i].len
      requires PagesTheory.NoneFree(runs, b + page[b], npages) && b + page[b] + npages <= next.Length
      requires forall k :: 0 <= k < i ==> Passes(runs[k], b + page[b], npages)
      modifies this, next, page
      ensures Valid() && runs == Release(old(runs), old(b + page[b]), npages)
    {
      hide Segment, Release, Coalesced, Passes;
      ghost var before, a := runs, b + page[b];
      PagesTheory.ReleaseExact(before, a, npages);
      Advance(prev, b, i);
      ReleaseHere(before, i, a, npages);
      var v, k := next[b], page[b] + npages;
      ghost var j := i + 1;
      if b + k == v {
        Advance(b, v, i + 1);
        v, k, j := next[v], k + page[v], i + 2;
      }
      Widen(b, i, v, k, j);
    }

    /** Rewrite the header at b, leaving the runs from index j on behind it. */
    method Widen(b: nat, ghost i: nat, v: int, k: nat, ghost j: nat)
      requires next.Length == page.Length && Coalesced(runs) && i < j <= |runs| && b == runs[i].start < next.Length
      requires Segment(next[..], page[..], list, runs[..i], b) && Segment(next[..], page[..], v, runs[j..], NULL)
      modifies this`runs, next, page
      ensures next.Length == page.Length
      ensures Segment(next[..], page[..], list, runs, NULL) && runs == old(runs)[..i] + ([Run(b, k)] + old(runs)[j..])
    {
      CoalescedSides(runs, i);
      forall r | r in runs[..i] ensures r.start != b { assert r.End() < runs[i].start; }
      forall r | r in runs[j..] ensures r.start != b { Later(i, j, r); }
      SegmentFrame(next[..], page[..], list, runs[..i], b, b, v, k);
      SegmentFrame(next[..], page[..], v, runs[j..], NULL, b, v, k);
      next[b] := v;
      page[b] := k;
      assert next[..] == old(next[..])[b := v] && page[..] == old(page[..])[b := k];
      ghost var tail := [Run(b, k)] + runs[j..];
      assert tail[0] == Run(b, k) && tail[1..] == runs[j..];
      SegmentJoin(next[..], page[..], list, runs[..i], b, tail, NULL);
      runs := runs[..i] + tail;
    }
  }

  lemma {:induction false} RunFree(rs: seq<Run>, i: nat, x: int)
    requires i < |rs| && rs[i].Has(x)
    ensures IsFree(rs, x)
    decreases i
  {
    if i > 0 {
      assert rs[1..][i - 1] == rs[i];
      RunFree(rs[1..], i - 1, x);
    }
  }

  lemma {:induction false} HeadFree(rs: seq<Run>, r: Run)
    requires Coalesced(rs) && r in rs
    ensures r.len > 0 && IsFree(rs, r.start)
    decreases |rs|
  {
    if r != rs[0] {
      assert r in rs[1..];
      HeadFree(rs[1..], r);
    }
  }

  /** A run the walk passes lies entirely in front of the pages given back. */
  lemma {:induction false} OnTheLeft(rs: seq<Run>, i: nat, a: nat, n: nat)
    requires Coalesced(rs) && i < |rs| && n > 0 && PagesTheory.NoneFree(rs, a, n) && Passes(rs[i], a, n)
    ensures rs[i].start < a
  {
    HeadFree(rs, rs[i]);
  }
}
