/** The page-run allocator under slab.c: an address-ordered list of runs of free
    pages. Pages are numbered. */
module PagesSpec {
  import opened Machine

  datatype Run = Run(start: nat, len: nat) {
    function End(): nat { start + len }
    predicate Has(x: int) { start <= x < start + len }
  }

  /** Strictly ascending, disjoint, and never touching: fully coalesced. */
  ghost predicate Coalesced(rs: seq<Run>) {
    rs == [] || (rs[0].len > 0 && (|rs| > 1 ==> rs[0].End() < rs[1].start) && Coalesced(rs[1..]))
  }

  /** Page x is free. */
  ghost predicate IsFree(rs: seq<Run>, x: int) {
    rs != [] && (rs[0].Has(x) || IsFree(rs[1..], x))
  }

  /** rt_page_alloc of n pages, n > 0: the first run that is long enough. */
  function Alloc(rs: seq<Run>, n: nat): (seq<Run>, Option<nat>) {
    if rs == [] then (rs, None)
    else if rs[0].len > n then ([Run(rs[0].start + n, rs[0].len - n)] + rs[1..], Some(rs[0].start))
    else if rs[0].len == n then (rs[1..], Some(rs[0].start))
    else var (rest, p) := Alloc(rs[1..], n); ([rs[0]] + rest, p)
  }

  /** rt_page_free of the n pages from a on. */
  function Release(rs: seq<Run>, a: nat, n: nat): seq<Run> {
    if rs == [] then [Run(a, n)]
    else if rs[0].End() == a then
      if |rs| > 1 && a + n == rs[1].start
      then [Run(rs[0].start, rs[0].len + n + rs[1].len)] + rs[2..]
      else [Run(rs[0].start, rs[0].len + n)] + rs[1..]
    else if rs[0].start == a + n then [Run(a, n + rs[0].len)] + rs[1..]
    else if rs[0].start > a + n then [Run(a, n)] + rs
    else [rs[0]] + Release(rs[1..], a, n)
  }

  // ------------------------------------------------------------------- runs

  /** live maps the first page of every run handed out to its length. */
  datatype Pool = Pool(lo: nat, hi: nat, free: seq<Run>, live: map<nat, nat>) {
    ghost predicate Held(x: int) {
      exists p :: p in live && p <= x < p + live[p]
    }

    ghost predicate Inv() {
      && Coalesced(free)
      && (forall x :: IsFree(free, x) <==> lo <= x < hi && !Held(x))
      && (forall p :: p in live ==> live[p] > 0 && lo <= p && p + live[p] <= hi)
      && (forall p, q :: p in live && q in live && p < q ==> p + live[p] <= q)
    }
  }

  datatype Op = DoAlloc(n: nat) | DoFree(p: nat)

  /** Callers give back whole runs that they hold. */
  ghost predicate Legal(g: Pool, op: Op) {
    op.DoFree? ==> op.p in g.live
  }

  function Step(g: Pool, op: Op): Pool
    requires Legal(g, op)
  {
    match op
    case DoAlloc(n) =>
      if n == 0 then g
      else
        var (free, p) := Alloc(g.free, n);
        if p.None? then g.(free := free) else g.(free := free, live := g.live[p.value := n])
    case DoFree(p) => g.(free := Release(g.free, p, g.live[p]), live := g.live - {p})
  }

  /** rt_page_init. */
  function Init(lo: nat, n: nat): Pool {
    Pool(lo, lo + n, [Run(lo, n)], map[])
  }

  ghost predicate Reaches(g: Pool, ops: seq<Op>, h: Pool)
    decreases |ops|
  {
    if ops == [] then h == g else Legal(g, ops[0]) && Reaches(Step(g, ops[0]), ops[1..], h)
  }
}

/** The page list is determined by the set of free pages. */
module PagesTheory {
  import opened Machine
  import opened PagesSpec

  lemma {:induction false} First(r: Run, rest: seq<Run>)
    ensures ([r] + rest)[0] == r && ([r] + rest)[1..] == rest
  {
  }

  /** Nothing below the second run's gap is free except the first run. */
  lemma {:induction false} FreeAbove(rs: seq<Run>, x: int)
    requires Coalesced(rs) && rs != [] && IsFree(rs, x)
    ensures rs[0].start <= x && (x < rs[0].End() || (|rs| > 1 && rs[1].start <= x))
    decreases |rs|
  {
    if !rs[0].Has(x) {
      FreeAbove(rs[1..], x);
    }
  }

  lemma {:induction false} FreeFirst(r: Run, rest: seq<Run>, x: int)
    ensures IsFree([r] + rest, x) <==> r.Has(x) || IsFree(rest, x)
  {
    First(r, rest);
  }

  /** An allocation takes n pages, all of them free before and none after. */
  lemma {:induction false} AllocExact(rs: seq<Run>, n: nat)
    requires Coalesced(rs) && n > 0
    ensures var (r, p) := Alloc(rs, n);
      && Coalesced(r)
      && (rs != [] && r != [] ==> rs[0].start <= r[0].start)
      && (p.None? ==> r == rs)
      && (p.Some? ==> forall x :: IsFree(rs, x) <==> IsFree(r, x) || p.value <= x < p.value + n)
      && (p.Some? ==> forall x :: p.value <= x < p.value + n ==> !IsFree(r, x))
    decreases |rs|
  {
    if rs == [] {
    } else if rs[0].len >= n {
      AllocHere(rs, n);
    } else {
      AllocExact(rs[1..], n);
      var (rest, p) := Alloc(rs[1..], n);
      First(rs[0], rest);
      if p.Some? {
        forall x ensures IsFree(rs, x) <==> IsFree([rs[0]] + rest, x) || p.value <= x < p.value + n {}
        forall x | p.value <= x < p.value + n ensures !IsFree([rs[0]] + rest, x) {
          assert IsFree(rs[1..], x);
          FreeAbove(rs[1..], x);
        }
      }
    }
  }

  lemma {:induction false} AllocHere(rs: seq<Run>, n: nat)
    requires Coalesced(rs) && n > 0 && rs != [] && rs[0].len >= n
    ensures var (r, p) := Alloc(rs, n);
      && Coalesced(r) && p == Some(rs[0].start)
      && (r != [] ==> rs[0].start <= r[0].start)
      && (forall x :: IsFree(rs, x) <==> IsFree(r, x) || rs[0].start <= x < rs[0].start + n)
      && (forall x :: rs[0].start <= x < rs[0].start + n ==> !IsFree(r, x))
  {
    var r := Alloc(rs, n).0;
    var cut := Run(rs[0].start + n, rs[0].len - n);
    if rs[0].len > n { First(cut, rs[1..]); }
    forall x ensures IsFree(rs, x) <==> IsFree(r, x) || rs[0].start <= x < rs[0].start + n {
      if rs[0].len > n { FreeFirst(cut, rs[1..], x); }
    }
    forall x | rs[0].start <= x < rs[0].start + n ensures !IsFree(r, x) {
      if IsFree(rs[1..], x) { FreeAbove(rs[1..], x); }
      if rs[0].len > n { FreeFirst(cut, rs[1..], x); }
    }
  }

  ghost predicate AllFree(rs: seq<Run>, a: int, n: nat) {
    forall x :: a <= x < a + n ==> IsFree(rs, x)
  }

  /** In a coalesced list consecutive free pages lie in one run. */
  lemma {:induction false} OneRun(rs: seq<Run>, a: int, n: nat)
    requires Coalesced(rs) && n > 0 && AllFree(rs, a, n)
    ensures Alloc(rs, n).1.Some? && Alloc(rs, n).1.value <= a
    decreases |rs|
  {
    assert IsFree(rs, a);
    FreeAbove(rs, a);
    if rs[0].len < n {
      if a < rs[0].End() {
        assert IsFree(rs, rs[0].End());
        FreeAbove(rs, rs[0].End());
      } else {
        forall x | a <= x < a + n ensures IsFree(rs[1..], x) { assert IsFree(rs, x); }
        OneRun(rs[1..], a, n);
      }
    }
  }

  /** rt_page_alloc fails exactly when no n consecutive pages are free, and
      otherwise takes the lowest such place. */
  lemma {:induction false} AllocFailsIff(rs: seq<Run>, n: nat)
    requires Coalesced(rs) && n > 0
    ensures Alloc(rs, n).1.None? <==> forall a :: !AllFree(rs, a, n)
    ensures Alloc(rs, n).1.Some? ==>
      AllFree(rs, Alloc(rs, n).1.value, n) && forall a :: AllFree(rs, a, n) ==> Alloc(rs, n).1.value <= a
  {
    AllocExact(rs, n);
    forall a | AllFree(rs, a, n) ensures Alloc(rs, n).1.Some? && Alloc(rs, n).1.value <= a { OneRun(rs, a, n); }
    if Alloc(rs, n).1.Some? {
      assert AllFree(rs, Alloc(rs, n).1.value, n);
    }
  }

  ghost predicate NoneFree(rs: seq<Run>, a: int, n: nat) {
    forall x :: a <= x < a + n ==> !IsFree(rs, x)
  }

  /** A release adds exactly the n pages. */
  lemma {:induction false} ReleaseExact(rs: seq<Run>, a: nat, n: nat)
    requires Coalesced(rs) && n > 0 && NoneFree(rs, a, n)
    ensures var r := Release(rs, a, n);
      && Coalesced(r) && r != []
      && r[0].start == (if rs == [] || a < rs[0].start then a else rs[0].start)
      && (forall x :: IsFree(r, x) <==> IsFree(rs, x) || a <= x < a + n)
    decreases |rs|
  {
    if rs == [] {
      First(Run(a, n), []);
      assert [Run(a, n)][1..] == [];
    } else if rs[0].End() == a {
      ReleaseBehind(rs, n);
    } else if rs[0].start == a + n {
      First(Run(a, n + rs[0].len), rs[1..]);
    } else if rs[0].start > a + n {
      First(Run(a, n), rs);
    } else {
      assert rs[0].End() < a by {
        assert !IsFree(rs, a);
        assert IsFree(rs, rs[0].start);
      }
      forall x | a <= x < a + n ensures !IsFree(rs[1..], x) { assert !IsFree(rs, x); }
      ReleaseExact(rs[1..], a, n);
      First(rs[0], Release(rs[1..], a, n));
    }
  }

  lemma {:induction false} ReleaseBehind(rs: seq<Run>, n: nat)
    requires Coalesced(rs) && n > 0 && rs != [] && NoneFree(rs, rs[0].End(), n)
    ensures var r := Release(rs, rs[0].End(), n);
      && Coalesced(r) && r != [] && r[0].start == rs[0].start
      && (forall x :: IsFree(r, x) <==> IsFree(rs, x) || rs[0].End() <= x < rs[0].End() + n)
  {
    var a := rs[0].End();
    if |rs| > 1 {
      assert rs[1..][0] == rs[1] && rs[1..][1..] == rs[2..];
      if rs[1].start < a + n {
        assert IsFree(rs[1..], rs[1].start) && IsFree(rs, rs[1].start);
      }
    }
    if |rs| > 1 && a + n == rs[1].start {
      First(Run(rs[0].start, rs[0].len + n + rs[1].len), rs[2..]);
      assert |rs| > 2 ==> rs[1..][1] == rs[2] && rs[2..][0] == rs[2];
    } else {
      First(Run(rs[0].start, rs[0].len + n), rs[1..]);
    }
  }

  /** Two coalesced lists with the same free pages are the same list. */
  lemma {:induction false} Canonical(r: seq<Run>, s: seq<Run>)
    requires Coalesced(r) && Coalesced(s) && forall x: int :: IsFree(r, x) <==> IsFree(s, x)
    ensures r == s
    decreases |r|
  {
    if r == [] {
      if s != [] { assert IsFree(s, s[0].start); }
    } else {
      assert IsFree(r, r[0].start);
      assert IsFree(s, r[0].start);
      FreeAbove(s, r[0].start);
      assert IsFree(s, s[0].start);
      FreeAbove(r, s[0].start);
      SameEnd(r, s);
      SameEnd(s, r);
      forall x: int ensures IsFree(r[1..], x) <==> IsFree(s[1..], x) {
        if IsFree(r[1..], x) { FreeAbove(r[1..], x); assert IsFree(r, x); assert IsFree(s, x); }
        if IsFree(s[1..], x) { FreeAbove(s[1..], x); assert IsFree(s, x); assert IsFree(r, x); }
      }
      Canonical(r[1..], s[1..]);
      assert r == [r[0]] + r[1..] && s == [s[0]] + s[1..];
    }
  }

  lemma {:induction false} SameEnd(r: seq<Run>, s: seq<Run>)
    requires Coalesced(r) && Coalesced(s) && r != [] && s != [] && r[0].start == s[0].start
    requires forall x: int :: IsFree(r, x) <==> IsFree(s, x)
    ensures s[0].len <= r[0].len
  {
    if r[0].len < s[0].len {
      assert IsFree(s, r[0].End());
      assert IsFree(r, r[0].End());
      FreeAbove(r, r[0].End());
    }
  }

  /** A successful allocation followed by the matching release restores the list. */
  lemma {:induction false} AllocReleaseRoundTrip(rs: seq<Run>, n: nat)
    requires Coalesced(rs) && n > 0 && Alloc(rs, n).1.Some?
    ensures var (r, p) := Alloc(rs, n); Release(r, p.value, n) == rs
  {
    AllocExact(rs, n);
    var (r, p) := Alloc(rs, n);
    ReleaseExact(r, p.value, n);
    Canonical(Release(r, p.value, n), rs);
  }

  /** The order in which two runs are given back does not matter. */
  lemma {:induction false} ReleasesCommute(rs: seq<Run>, a: nat, n: nat, b: nat, m: nat)
    requires Coalesced(rs) && n > 0 && m > 0 && NoneFree(rs, a, n) && NoneFree(rs, b, m)
    requires a + n <= b || b + m <= a
    ensures Release(Release(rs, a, n), b, m) == Release(Release(rs, b, m), a, n)
  {
    ReleaseExact(rs, a, n);
    ReleaseExact(rs, b, m);
    ReleaseExact(Release(rs, a, n), b, m);
    ReleaseExact(Release(rs, b, m), a, n);
    Canonical(Release(Release(rs, a, n), b, m), Release(Release(rs, b, m), a, n));
  }

  // ------------------------------------------------------------- whole runs

  lemma {:induction false} AllocStepInv(g: Pool, n: nat)
    requires g.Inv()
    ensures Step(g, DoAlloc(n)).Inv()
  {
    if n > 0 {
      AllocExact(g.free, n);
      var (free, p) := Alloc(g.free, n);
      if p.Some? {
        hide Alloc, Coalesced;
        AllocOutside(g, p.value, n);
        HeldMore(g, g.(free := free, live := g.live[p.value := n]), p.value, n);
      }
    }
  }

  lemma {:induction false} HeldMore(g: Pool, h: Pool, p: nat, n: nat)
    requires p !in g.live && h.live == g.live[p := n]
    ensures forall x: int :: h.Held(x) <==> g.Held(x) || p <= x < p + n
  {
    forall x: int ensures h.Held(x) <==> g.Held(x) || p <= x < p + n {
      if g.Held(x) {
        var q :| q in g.live && q <= x < q + g.live[q];
        assert q in h.live && h.live[q] == g.live[q];
      }
      if p <= x < p + n { assert p in h.live; }
    }
  }

  /** The pages handed out were free, so they are in the pool and clear of every live run. */
  lemma {:induction false} AllocOutside(g: Pool, p: nat, n: nat)
    requires g.Inv() && n > 0 && forall x :: p <= x < p + n ==> IsFree(g.free, x)
    ensures g.lo <= p && p + n <= g.hi && p !in g.live
    ensures forall q :: q in g.live ==> q + g.live[q] <= p || p + n <= q
  {
    assert IsFree(g.free, p) && IsFree(g.free, p + n - 1);
    assert !g.Held(p);
    forall q | q in g.live ensures q + g.live[q] <= p || p + n <= q {
      assert g.Held(q);
      assert !IsFree(g.free, q);
    }
  }

  lemma {:induction false} FreeStepInv(g: Pool, p: nat)
    requires g.Inv() && p in g.live
    ensures Step(g, DoFree(p)).Inv()
  {
    var n := g.live[p];
    forall x | p <= x < p + n ensures !IsFree(g.free, x) { assert g.Held(x); }
    ReleaseExact(g.free, p, n);
    var h := Step(g, DoFree(p));
    hide Release;
    forall x: int ensures h.Held(x) <==> g.Held(x) && !(p <= x < p + n) {
      if g.Held(x) && !(p <= x < p + n) {
        var q :| q in g.live && q <= x < q + g.live[q];
        assert q in h.live;
      }
    }
    forall x: int ensures IsFree(h.free, x) <==> h.lo <= x < h.hi && !h.Held(x) {
      if p <= x < p + n { assert g.Held(x); }
    }
  }

  /** In every reachable state the list is coalesced and holds exactly the pages
      not handed out, and live runs are disjoint. */
  lemma {:induction false} RunInv(g: Pool, ops: seq<Op>, h: Pool)
    requires g.Inv() && Reaches(g, ops, h)
    ensures h.Inv() && h.lo == g.lo && h.hi == g.hi
    decreases |ops|
  {
    hide Pool.Inv;
    if ops != [] {
      if ops[0].DoAlloc? { AllocStepInv(g, ops[0].n); } else { FreeStepInv(g, ops[0].p); }
      RunInv(Step(g, ops[0]), ops[1..], h);
    }
  }

  lemma {:induction false} InitInv(lo: nat, n: nat)
    requires n > 0
    ensures Init(lo, n).Inv()
  {
    assert [Run(lo, n)][1..] == [];
  }

  /** When everything has been given back the list is one run again. */
  lemma {:induction false} AllReturned(lo: nat, n: nat, ops: seq<Op>, h: Pool)
    requires n > 0 && Reaches(Init(lo, n), ops, h) && h.live == map[]
    ensures h == Init(lo, n)
  {
    InitInv(lo, n);
    RunInv(Init(lo, n), ops, h);
    Canonical(h.free, Init(lo, n).free);
  }
}
