/** Runs of rt_malloc and rt_free over slab.c. */
module SlabRuns {
  import opened Machine
  import opened OrderedList
  import opened SlabSpec
  import opened SlabClasses
  import opened SlabTheory
  import PagesSpec
  import PagesTheory

  // ------------------------------------------------------------------ malloc

  lemma {:induction false} Heads(s: Slab)
    requires Lists(s)
    ensures Shaped(s)
  {
    forall i | 0 <= i < NZONES && s.lists[i] != [] ensures s.lists[i][0] in s.zones { HeadBelongs(s, i); }
  }

  /** A request that goes to the zones fits four times into one. */
  lemma {:induction false} SmallFits(zoneSize: nat, n: nat)
    requires ZoneSizeOk(zoneSize) && 0 < n < Min(zoneSize / 4, ZONE_LIMIT)
    ensures var (b, zi) := ZoneIndex(n); zi < NZONES && n <= b == ChunkOf(zi) && b > 0 && b % 8 == 0 && 4 * b <= zoneSize
  {
    ClassFits(n);
    ChunkAligned(ZoneIndex(n).1);
    if zoneSize == 32768 {
      if ZoneIndex(n).1 > 0 { ClassTight(n); }
      hide ZoneIndex;
      ChunkBelow(ZoneIndex(n).1);
    }
  }

  lemma {:induction false} ChunkBelow(zi: nat)
    requires zi < NZONES && (zi > 0 ==> ChunkOf(zi - 1) < 8191)
    ensures ChunkOf(zi) <= 8192
  {
  }

  /** What serving a small request does: one new live chunk, of that size, at a. */
  ghost predicate Served(s: Slab, g: Slab, size: nat, a: nat, z: nat, k: nat) {
    && LiveChunk(g, z, k) && !LiveChunk(s, z, k) && a == Address(z, g.zones[z], k) && g.zones[z].size == size
    && (forall y, j: nat :: LiveChunk(g, y, j) <==> LiveChunk(s, y, j) || (y == z && j == k))
    && (forall y, j: nat :: LiveChunk(s, y, j) ==> g.zones[y].base == s.zones[y].base && g.zones[y].size == s.zones[y].size)
    && g.large == s.large
  }

  lemma {:induction false} ClassSize(zoneSize: nat, w: Zone)
    requires ZoneOk(zoneSize, w)
    ensures w.size == ChunkOf(w.zi)
  {
  }

  lemma {:induction false} FromZoneServed(s: Slab, zi: nat)
    requires Inv(s) && zi < NZONES && s.lists[zi] != []
    ensures s.lists[zi][0] in s.zones
    ensures var (g, a) := FromZone(s, zi); Served(s, g, ChunkOf(zi), a, s.lists[zi][0], NextChunk(s.zones[s.lists[zi][0]]))
  {
    hide Inv, ZoneOk, BaseOf, ChunkOf, HandedOut, NextChunk, TakeChunk, Lists, ListOk;
    ListSound(s, zi);
    HeadBelongs(s, zi);
    var z := s.lists[zi][0];
    ZoneSound(s, z);
    ClassSize(s.zoneSize, s.zones[z]);
    TakeOk(s.zoneSize, s.zones[z]);
  }

  lemma {:induction false} OpenServed(s: Slab, b: Slab, z: nat, zi: nat)
    requires ZoneSizeOk(s.zoneSize) && zi < NZONES && 4 * ChunkOf(zi) <= s.zoneSize && |b.lists| == NZONES
    requires b.zoneSize == s.zoneSize && b.zones == s.zones && b.large == s.large && (z in s.zones ==> z in s.spare)
    requires z !in b.spare && forall y :: y != z ==> (y in b.spare <==> y in s.spare)
    ensures ChunkOf(zi) >= 8 && BaseOf(ChunkOf(zi)) <= s.zoneSize
    ensures var (g, a) := Open(b, z, zi, ChunkOf(zi)); Served(s, g, ChunkOf(zi), a, z, 0)
  {
    NewZoneOk(s.zoneSize, zi);
    hide ChunkOf, BaseOf, HandedOut, ZoneOk;
  }

  lemma {:induction false} SpareServed(s: Slab, zi: nat)
    requires Inv(s) && zi < NZONES && 4 * ChunkOf(zi) <= s.zoneSize && s.spare != []
    ensures ChunkOf(zi) >= 8 && BaseOf(ChunkOf(zi)) <= s.zoneSize
    ensures var (g, a) := Open(s.(spare := s.spare[1..]), s.spare[0], zi, ChunkOf(zi)); Served(s, g, ChunkOf(zi), a, s.spare[0], 0)
  {
    assert s.spare[0] in s.spare;
    OpenServed(s, s.(spare := s.spare[1..]), s.spare[0], zi);
  }

  lemma {:induction false} FreshServed(s: Slab, zi: nat)
    requires Inv(s) && zi < NZONES && 4 * ChunkOf(zi) <= s.zoneSize && s.spare == []
    requires AllocPages(s, s.ZonePages()).1.Some?
    ensures ChunkOf(zi) >= 8 && BaseOf(ChunkOf(zi)) <= s.zoneSize
    ensures var (m, p) := AllocPages(s, s.ZonePages());
      var (g, a) := Open(m.(usage := MarkPages(m.usage, p.value, m.ZonePages())), p.value, zi, ChunkOf(zi));
      Served(s, g, ChunkOf(zi), a, p.value, 0)
  {
    AllocPagesFacts(s, s.ZonePages());
    var (m, p) := AllocPages(s, s.ZonePages());
    OpenServed(s, m.(usage := MarkPages(m.usage, p.value, m.ZonePages())), p.value, zi);
  }

  lemma {:induction false} MallocSmallStep(s: Slab, n: nat) returns (z: nat, k: nat)
    requires Inv(s) && 0 < n < s.Limit()
    ensures Shaped(s)
    ensures var (g, a) := MallocSmall(s, n); Inv(g) && (a.None? ==> g == s) && (a.Some? ==> Served(s, g, ZoneIndex(n).0, a.value, z, k))
  {
    Heads(s);
    SmallFits(s.zoneSize, n);
    var (size, zi) := ZoneIndex(n);
    ChunkAligned(zi);
    BaseFits(ChunkOf(zi), s.zoneSize);
    hide Served, ZoneIndex, ChunkOf, BaseOf;
    z, k := ClassStep(s, zi);
    hide Inv, Open, FromZone, AllocPages, MarkPages;
  }

  /** How MallocSmall serves class zi. */
  lemma {:induction false} ClassStep(s: Slab, zi: nat) returns (z: nat, k: nat)
    requires Inv(s) && zi < NZONES && 4 * ChunkOf(zi) <= s.zoneSize && ChunkOf(zi) >= 8 && BaseOf(ChunkOf(zi)) <= s.zoneSize
    requires s.lists[zi] != [] ==> s.lists[zi][0] in s.zones
    ensures s.lists[zi] != [] ==> var (g, a) := FromZone(s, zi); Inv(g) && Served(s, g, ChunkOf(zi), a, z, k)
    ensures s.lists[zi] == [] && s.spare != [] ==>
      var (g, a) := Open(s.(spare := s.spare[1..]), s.spare[0], zi, ChunkOf(zi));
      Inv(g) && Served(s, g, ChunkOf(zi), a, z, k)
    ensures s.lists[zi] == [] && s.spare == [] && AllocPages(s, s.ZonePages()).1.None? ==> AllocPages(s, s.ZonePages()).0 == s
    ensures s.lists[zi] == [] && s.spare == [] && AllocPages(s, s.ZonePages()).1.Some? ==>
      var (m, p) := AllocPages(s, s.ZonePages());
      var (g, a) := Open(m.(usage := MarkPages(m.usage, p.value, m.ZonePages())), p.value, zi, ChunkOf(zi));
      Inv(g) && Served(s, g, ChunkOf(zi), a, z, k)
  {
    AllocPagesFacts(s, s.ZonePages());
    z, k := 0, 0;
    if s.lists[zi] != [] {
      FromZoneInv(s, zi);
      FromZoneServed(s, zi);
      z, k := s.lists[zi][0], NextChunk(s.zones[s.lists[zi][0]]);
    } else if s.spare != [] {
      SpareOpenInv(s, zi);
      SpareServed(s, zi);
      z := s.spare[0];
    } else if AllocPages(s, s.ZonePages()).1.Some? {
      NewOpenInv(s, zi);
      FreshServed(s, zi);
      z := AllocPages(s, s.ZonePages()).1.value;
    }
    hide Inv, Served, Open, FromZone, AllocPages, MarkPages, ChunkOf, BaseOf, NextChunk;
  }

  /** What serving a large request does. */
  ghost predicate ServedLarge(s: Slab, g: Slab, n: nat, a: nat) {
    && a % PAGE == 0 && a / PAGE !in s.large && a / PAGE in g.large && n <= g.large[a / PAGE] * PAGE < n + PAGE
    && g.large == s.large[a / PAGE := g.large[a / PAGE]]
    && forall y, j: nat :: LiveChunk(g, y, j) <==> LiveChunk(s, y, j)
  }

  lemma {:induction false} MallocLargeStep(s: Slab, n: nat)
    requires Inv(s) && n > 0
    ensures var (g, a) := MallocLarge(s, n); Inv(g) && (a.None? ==> g == s) && (a.Some? ==> ServedLarge(s, g, n, a.value))
  {
    MallocLargeInv(s, n);
    LargeServed(s, n);
    hide Inv, MallocLarge, ServedLarge;
  }

  lemma {:induction false} LargeServed(s: Slab, n: nat)
    requires PagesOk(s) && n > 0
    ensures var (g, a) := MallocLarge(s, n); (a.None? ==> g == s) && (a.Some? ==> ServedLarge(s, g, n, a.value))
  {
    var pages := RoundUp(n, PAGE) / PAGE;
    RoundUpFacts(n, PAGE);
    WholeMultiple((n + PAGE - 1) / PAGE, PAGE);
    AllocPagesFacts(s, pages);
    var (m, p) := AllocPages(s, pages);
    if p.Some? {
      WholeMultiple(p.value, PAGE);
      NotLarge(s, p.value);
      hide PagesOk, AllocPages, LiveChunk, RoundUp;
      SameZonesLive(s, MallocLarge(s, n).0);
    }
  }

  lemma {:induction false} SameZonesLive(s: Slab, g: Slab)
    requires g.zones == s.zones && g.spare == s.spare
    ensures forall y, j: nat :: LiveChunk(g, y, j) <==> LiveChunk(s, y, j)
  {
  }

  lemma {:induction false} NotLarge(s: Slab, p: nat)
    requires PagesOk(s) && p !in s.pool.live
    ensures p !in s.large
  {
  }

  /** rt_malloc makes exactly one new live chunk or block, or fails and changes nothing. */
  lemma {:induction false} MallocStep(s: Slab, n: nat) returns (z: nat, k: nat)
    requires Inv(s)
    ensures Shaped(s)
    ensures var (g, a) := Malloc(s, n);
      && Inv(g) && (a.None? ==> g == s)
      && (a.Some? ==> n > 0 && if n < s.Limit() then n <= ZoneIndex(n).0 && Served(s, g, ZoneIndex(n).0, a.value, z, k) else ServedLarge(s, g, n, a.value))
  {
    Heads(s);
    z, k := 0, 0;
    if n > 0 {
      if n < s.Limit() {
        z, k := MallocSmallStep(s, n);
        SmallFits(s.zoneSize, n);
      } else {
        MallocLargeStep(s, n);
      }
    }
    hide Inv, MallocSmall, MallocLarge, Served, ServedLarge, ZoneIndex, ChunkOf;
  }

  // -------------------------------------------------------------------- free

  /** What giving back chunk k of zone z does. */
  ghost predicate TakenBack(s: Slab, g: Slab, z: nat, k: nat) {
    && (forall y, j: nat :: LiveChunk(g, y, j) <==> LiveChunk(s, y, j) && !(y == z && j == k))
    && (forall y, j: nat :: LiveChunk(g, y, j) ==> g.zones[y].base == s.zones[y].base && g.zones[y].size == s.zones[y].size)
    && g.large == s.large
  }

  lemma {:induction false} PutTakesBack(s: Slab, z: nat, k: nat)
    requires Inv(s) && LiveChunk(s, z, k)
    ensures s.zones[z].zi < NZONES && TakenBack(s, Put(s, z, k), z, k)
  {
    assert ZoneOk(s.zoneSize, s.zones[z]);
    PutOk(s.zoneSize, s.zones[z], k);
    OneLess(s, z, k);
  }

  lemma {:induction false} OneLess(s: Slab, z: nat, k: nat)
    requires LiveChunk(s, z, k) && s.zones[z].zi < |s.lists|
    requires forall l: nat :: HandedOut(Put(s, z, k).zones[z], l) <==> HandedOut(s.zones[z], l) && l != k
    ensures TakenBack(s, Put(s, z, k), z, k)
  {
    hide HandedOut;
  }

  /** g still has the live chunks of s and no others. */
  ghost predicate SameChunks(s: Slab, g: Slab) {
    && (forall y, j: nat :: LiveChunk(g, y, j) <==> LiveChunk(s, y, j))
    && (forall y, j: nat :: LiveChunk(g, y, j) ==> g.zones[y] == s.zones[y])
    && g.large == s.large
  }

  lemma {:induction false} RetireTakesNothing(g: Slab, z: nat)
    requires Between(g, z)
    ensures SameChunks(g, Retire(g, z))
  {
    assert ZoneOk(g.zoneSize, g.zones[z]);
    forall j: nat | HandedOut(g.zones[z], j) ensures g.zones[z].nfree < g.zones[z].nmax { InUse(g.zoneSize, g.zones[z], j); }
    hide HandedOut;
    NothingInside(g, z);
  }

  lemma {:induction false} NothingInside(g: Slab, z: nat)
    requires z in g.zones && z !in g.spare && g.zones[z].zi < |g.lists|
    requires g.zones[z].nfree == g.zones[z].nmax ==> forall j: nat :: !HandedOut(g.zones[z], j)
    ensures SameChunks(g, Retire(g, z))
  {
    hide HandedOut, ClearPages, PagesSpec.Release, Remove;
  }

  lemma {:induction false} BackAndSame(s: Slab, m: Slab, g: Slab, z: nat, k: nat)
    requires TakenBack(s, m, z, k) && SameChunks(m, g)
    ensures TakenBack(s, g, z, k)
  {
    hide LiveChunk;
    forall y, j: nat | LiveChunk(g, y, j) ensures y in g.zones && y in m.zones && y in s.zones && LiveChunk(m, y, j) && LiveChunk(s, y, j) {
      InZones(g, y, j);
      InZones(m, y, j);
      InZones(s, y, j);
    }
  }

  lemma {:induction false} InZones(s: Slab, z: nat, k: nat)
    requires LiveChunk(s, z, k)
    ensures z in s.zones
  {
  }

  lemma {:induction false} FreeSmallStep(s: Slab, z: nat, k: nat)
    requires Inv(s) && LiveChunk(s, z, k)
    ensures s.zones[z].zi < NZONES && Inv(FreeSmall(s, z, k)) && TakenBack(s, FreeSmall(s, z, k), z, k)
  {
    FreeSmallInv(s, z, k);
    PutTakesBack(s, z, k);
    PutBetween(s, z, k);
    RetireTakesNothing(Put(s, z, k), z);
    hide Inv, SameChunks, TakenBack, Put, Retire;
    BackAndSame(s, Put(s, z, k), FreeSmall(s, z, k), z, k);
  }

  // -------------------------------------------------------------------- runs

  datatype Op = DoMalloc(n: nat) | DoFree(a: nat)

  /** Callers give back addresses they hold. */
  ghost predicate Holds(s: Slab, a: nat) {
    || (exists z, k: nat :: LiveChunk(s, z, k) && a == Address(z, s.zones[z], k))
    || (exists p: nat :: p in s.large && a == p * PAGE)
  }

  ghost predicate Legal(s: Slab, op: Op) {
    op.DoFree? ==> Holds(s, op.a)
  }

  function Step(s: Slab, op: Op): Slab
    requires Shaped(s)
  {
    match op
    case DoMalloc(n) => Malloc(s, n).0
    case DoFree(a) => Free(s, a)
  }

  ghost predicate Reaches(s: Slab, ops: seq<Op>, g: Slab)
    decreases |ops|
  {
    if ops == [] then g == s
    else
      && Shaped(s)
      && Legal(s, ops[0]) && Reaches(Step(s, ops[0]), ops[1..], g)
  }

  lemma {:induction false} FreeInv(s: Slab, a: nat)
    requires Inv(s) && Holds(s, a)
    ensures |s.lists| == NZONES && Inv(Free(s, a))
  {
    if z, k: nat :| LiveChunk(s, z, k) && a == Address(z, s.zones[z], k) {
      LookupChunk(s, z, k);
      FreeSmallInv(s, z, k);
    } else {
      var p: nat :| p in s.large && a == p * PAGE;
      LookupLarge(s, p);
      FreeLargeInv(s, p);
    }
    hide Inv, LiveChunk, Free;
  }

  /** In every run every listed zone's counters agree with its free list, a zone is on
      its list exactly when it is in service with free chunks, a list keeps at most
      one wholly free zone, zone_free at most two, and memusage and pages agree. */
  lemma {:induction false} RunInv(s: Slab, ops: seq<Op>, g: Slab)
    requires Inv(s) && Reaches(s, ops, g)
    ensures Inv(g)
    decreases |ops|
  {
    if ops != [] {
      hide Inv, Malloc, Free, Holds;
      if ops[0].DoMalloc? {
        var z, k := MallocStep(s, ops[0].n);
      } else {
        FreeInv(s, ops[0].a);
      }
      RunInv(Step(s, ops[0]), ops[1..], g);
    }
  }

  /** malloc followed by free leaves exactly the chunks and blocks that were live before. */
  lemma {:induction false} MallocFreeRoundTrip(s: Slab, n: nat)
    requires Inv(s)
    ensures Shaped(s)
    ensures var (g, a) := Malloc(s, n);
      a.Some? ==> |g.lists| == NZONES && Inv(Free(g, a.value)) && SameLive(s, Free(g, a.value))
  {
    var z, k := MallocStep(s, n);
    var (g, a) := Malloc(s, n);
    if a.Some? {
      if n < s.Limit() {
        SmallBack(s, g, ZoneIndex(n).0, a.value, z, k);
      } else {
        LargeBack(s, g, n, a.value);
      }
    }
    hide Inv, Malloc, Free, Served, ServedLarge, ZoneIndex, SameLive;
  }

  lemma {:induction false} SmallBack(s: Slab, g: Slab, size: nat, a: nat, z: nat, k: nat)
    requires Inv(g) && Served(s, g, size, a, z, k)
    ensures |g.lists| == NZONES && Inv(Free(g, a)) && SameLive(s, Free(g, a))
  {
    LookupChunk(g, z, k);
    FreeSmallStep(g, z, k);
    hide Inv, FreeSmall, LiveChunk, Free;
  }

  ghost predicate SameLive(s: Slab, g: Slab) {
    (forall y, j: nat :: LiveChunk(g, y, j) <==> LiveChunk(s, y, j)) && g.large == s.large
  }

  lemma {:induction false} ListCount(s: Slab)
    requires Inv(s)
    ensures |s.lists| == NZONES
  {
  }

  lemma {:induction false} LargeBack(s: Slab, g: Slab, n: nat, a: nat)
    requires Inv(g) && ServedLarge(s, g, n, a)
    ensures |g.lists| == NZONES && Inv(Free(g, a)) && SameLive(s, Free(g, a))
  {
    hide Inv, PagesSpec.Release, LiveChunk, Free, Lists;
    var p: nat := a / PAGE;
    assert p * PAGE == a;
    ListCount(g);
    LookupLarge(g, p);
    FreeLargeInv(g, p);
    SameZonesLive(g, FreeLarge(g, p, g.large[p]));
  }

  // ------------------------------------------------------------------- init

  /** The zone size for a heap of that many bytes. */
  function ZoneSizeFor(bytes: nat): nat {
    if 65536 >= bytes / 1024 then 32768 else if 131072 >= bytes / 1024 then 65536 else 131072
  }

  /** memusage takes four bytes a page. */
  function MetaPages(npages: nat): nat {
    RoundUp(4 * npages, PAGE) / PAGE
  }

  /** rt_system_heap_init over npages pages from page lo on. */
  function Init(lo: nat, npages: nat): Slab {
    var (free, p) := PagesSpec.Alloc([PagesSpec.Run(lo, npages)], MetaPages(npages));
    Slab(ZoneSizeFor(npages * PAGE),
         PagesSpec.Pool(lo, lo + npages, free, if p.None? then map[] else map[p.value := MetaPages(npages)]),
         if p.None? then 0 else p.value, map[], map[], seq(NZONES, _ => []), [], map[])
  }

  lemma {:induction false} MetaFits(npages: nat)
    requires npages > 0
    ensures 0 < MetaPages(npages) <= npages
  {
    RoundUpFacts(4 * npages, PAGE);
    WholeMultiple((4 * npages + PAGE - 1) / PAGE, PAGE);
  }

  lemma {:induction false} InitInv(lo: nat, npages: nat)
    requires npages > 0
    ensures Inv(Init(lo, npages)) && Init(lo, npages).meta == lo
    ensures Init(lo, npages).pool.live == map[lo := MetaPages(npages)]
  {
    MetaFits(npages);
    PagesTheory.InitInv(lo, npages);
    PagesTheory.AllocStepInv(PagesSpec.Init(lo, npages), MetaPages(npages));
    hide MetaPages;
    var s := Init(lo, npages);
    assert s.pool == PagesSpec.Step(PagesSpec.Init(lo, npages), PagesSpec.DoAlloc(MetaPages(npages)));
    forall i: nat | i < NZONES ensures ListOk(s, i) { assert s.lists[i] == []; }
  }

  /** Every state reached from rt_system_heap_init. */
  lemma {:induction false} ReachableInv(lo: nat, npages: nat, ops: seq<Op>, g: Slab)
    requires npages > 0 && Reaches(Init(lo, npages), ops, g)
    ensures Inv(g)
  {
    InitInv(lo, npages);
    RunInv(Init(lo, npages), ops, g);
  }
}
