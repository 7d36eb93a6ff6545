/** Which zone serves a request of slab.c, when zones are taken from the pages and
    given back to them, and how many an idle heap keeps. */
module SlabExact {
  import opened Machine
  import opened OrderedList
  import opened SlabSpec
  import opened SlabClasses
  import opened SlabTheory
  import opened SlabRuns
  import PagesSpec

  /** Some zone of class i has a free chunk. */
  ghost predicate Serving(s: Slab, i: nat) {
    exists z :: Belongs(s, z, i)
  }

  lemma {:induction false} SizeOf(s: Slab)
    requires Inv(s)
    ensures ZoneSizeOk(s.zoneSize) && Lists(s)
  {
  }

  lemma {:induction false} ServingList(s: Slab, i: nat)
    requires Inv(s) && i < NZONES
    ensures |s.lists| == NZONES && (Serving(s, i) <==> s.lists[i] != [])
    ensures s.lists[i] != [] ==> s.lists[i][0] in s.zones && Belongs(s, s.lists[i][0], i)
  {
    hide Belongs;
    ListsOf(s);
    ListSound(s, i);
    if s.lists[i] != [] { HeadBelongs(s, i); HeadInside(s, i); }
  }

  lemma {:induction false} HeadInside(s: Slab, i: nat)
    requires i < |s.lists| && s.lists[i] != [] && Belongs(s, s.lists[i][0], i)
    ensures s.lists[i][0] in s.zones
  {
  }

  // ------------------------------------------------------------------ malloc

  /** Zone z serves in g with its chunk k: a zone of the class if there is one, else a
      kept one, and only else a new one. */
  ghost predicate Source(s: Slab, g: Slab, i: nat, z: nat, k: nat) {
    if Serving(s, i) then
      && g.zones.Keys == s.zones.Keys && g.spare == s.spare && Belongs(s, z, i)
      && (if s.zones[z].uindex + 1 < s.zones[z].nmax then k == s.zones[z].uindex + 1
          else s.zones[z].chunks != [] && k == s.zones[z].chunks[0])
    else if s.spare != [] then
      g.zones.Keys == s.zones.Keys && s.spare == [z] + g.spare && k == 0
    else
      z !in s.zones && g.zones.Keys == s.zones.Keys + {z} && g.spare == [] && k == 0
  }

  /** A small request takes pages only if no zone of its class has a free chunk and no
      wholly free zone is kept; it is served by memory that was never used while the
      zone has some, and then by the chunk that came back last. */
  lemma {:induction false} SmallExact(s: Slab, n: nat) returns (z: nat, k: nat)
    requires Inv(s) && 0 < n < s.Limit()
    ensures Shaped(s)
    ensures var (g, a) := Malloc(s, n); var (size, i) := ZoneIndex(n);
      a.Some? ==> Source(s, g, i, z, k) && z in g.zones && a.value == Address(z, g.zones[z], k) && g.zones[z].size == size
  {
    hide Inv, Source, ZoneIndex, ChunkOf, BaseOf, FromZone, Open, MarkPages, AllocPages, Lists, ZoneSizeOk;
    SizeOf(s);
    Heads(s);
    SmallFits(s.zoneSize, n);
    var (size, i) := ZoneIndex(n);
    BaseFits(size, s.zoneSize);
    ServingList(s, i);
    z, k := 0, 0;
    if s.lists[i] != [] {
      z, k := s.lists[i][0], NextChunk(s.zones[s.lists[i][0]]);
      FromList(s, i);
    } else if s.spare != [] {
      z := s.spare[0];
      FromSpare(s, i, size);
    } else if AllocPages(s, s.ZonePages()).1.Some? {
      z := AllocPages(s, s.ZonePages()).1.value;
      FromPages(s, i, size);
    }
  }

  lemma {:induction false} FromList(s: Slab, i: nat)
    requires Inv(s) && i < NZONES && |s.lists| == NZONES && s.lists[i] != [] && Serving(s, i)
    requires s.lists[i][0] in s.zones && Belongs(s, s.lists[i][0], i)
    ensures var (g, a) := FromZone(s, i); var z := s.lists[i][0]; var k := NextChunk(s.zones[z]);
      Source(s, g, i, z, k) && z in g.zones && a == Address(z, g.zones[z], k) && g.zones[z].size == ChunkOf(i)
  {
    hide Inv, ChunkOf, BaseOf, HandedOut, Serving;
    ZoneSound(s, s.lists[i][0]);
    TakeOk(s.zoneSize, s.zones[s.lists[i][0]]);
  }

  lemma {:induction false} FromSpare(s: Slab, i: nat, size: nat)
    requires Inv(s) && i < |s.lists| && !Serving(s, i) && s.spare != [] && size > 0 && BaseOf(size) <= s.zoneSize
    ensures var (g, a) := Open(s.(spare := s.spare[1..]), s.spare[0], i, size); var z := s.spare[0];
      Source(s, g, i, z, 0) && z in g.zones && a == Address(z, g.zones[z], 0) && g.zones[z].size == size
  {
    hide Serving, BaseOf, Belongs, Lists, PagesOk, UsageOk, Zones;
    SpareKnown(s);
    assert s.spare[0] in s.spare;
  }

  lemma {:induction false} FromPages(s: Slab, i: nat, size: nat)
    requires Inv(s) && i < |s.lists| && !Serving(s, i) && s.spare == [] && size > 0 && BaseOf(size) <= s.zoneSize
    requires AllocPages(s, s.ZonePages()).1.Some?
    ensures var (m, p) := AllocPages(s, s.ZonePages()); var z := p.value;
      var (g, a) := Open(m.(usage := MarkPages(m.usage, z, m.ZonePages())), z, i, size);
      Source(s, g, i, z, 0) && z in g.zones && a == Address(z, g.zones[z], 0) && g.zones[z].size == size
  {
    hide Serving, BaseOf, Belongs, Lists, UsageOk, Zones, AllocPages, MarkPages, PagesSpec.Pool.Inv;
    AllocPagesFacts(s, s.ZonePages());
  }

  // -------------------------------------------------------------------- free

  /** Chunk k is the only one of the zone that anybody holds. */
  ghost predicate OnlyOne(w: Zone, k: nat) {
    forall l: nat :: HandedOut(w, l) ==> l == k
  }

  /** Another zone serves z's class. */
  ghost predicate Company(s: Slab, z: nat)
    requires z in s.zones
  {
    exists y :: y != z && Belongs(s, y, s.zones[z].zi)
  }

  /** Where zone z is after its chunk k came back: still in service, kept, or gone. */
  ghost predicate Fate(s: Slab, g: Slab, z: nat, k: nat)
    requires z in s.zones
  {
    if !(OnlyOne(s.zones[z], k) && Company(s, z)) then
      g.zones.Keys == s.zones.Keys && g.spare == s.spare && Belongs(g, z, s.zones[z].zi)
    else if |s.spare| < THRESH then
      g.zones.Keys == s.zones.Keys && g.spare == [z] + s.spare
    else
      g.zones.Keys == s.zones.Keys - {z} && g.spare == s.spare
  }

  /** All chunks being back is the same as the counter having reached z_nmax. */
  lemma {:induction false} AllBack(zoneSize: nat, w: Zone)
    requires ZoneOk(zoneSize, w)
    ensures w.nfree == w.nmax <==> forall l: nat :: !HandedOut(w, l)
  {
    hide ChunkOf, BaseOf;
    if forall l: nat :: !HandedOut(w, l) {
      forall l: nat | l <= w.uindex ensures l in w.chunks { assert !HandedOut(w, l); }
      FreeBound(zoneSize, w);
      CoverCount(w.chunks, w.uindex + 1);
    } else {
      var l: nat :| HandedOut(w, l);
      InUse(zoneSize, w, l);
    }
  }

  /** A list that has all numbers below n has at least n of them. */
  lemma {:induction false} CoverCount(s: seq<nat>, n: nat)
    requires forall l: nat :: l < n ==> l in s
    ensures |s| >= n
    decreases n
  {
    if n > 0 {
      RemoveLength(s, n - 1);
      var r := Remove(s, n - 1);
      forall l: nat | l < n - 1 ensures l in r { RemoveKeeps(s, n - 1, l); }
      CoverCount(r, n - 1);
    }
  }

  lemma {:induction false} RemoveKeeps(s: seq<nat>, x: nat, y: nat)
    requires x != y && y in s
    ensures y in Remove(s, x)
  {
    if s[0] != x && s[0] != y { RemoveKeeps(s[1..], x, y); }
  }

  /** With z on it, a list without repetitions is longer than one exactly if it has somebody else. */
  lemma {:induction false} NotAlone(l: seq<nat>, z: nat)
    requires Distinct(l) && z in l
    ensures |l| > 1 <==> exists y :: y != z && y in l
  {
    if |l| > 1 {
      var y := if l[0] == z then l[1] else l[0];
      assert l[1] == l[1..][0] && l[1] in l[1..];
      assert y != z && y in l;
    } else {
      assert z == l[0];
    }
  }

  lemma {:induction false} CompanyPut(s: Slab, z: nat, k: nat)
    requires Inv(s) && LiveChunk(s, z, k)
    ensures s.zones[z].zi < NZONES && |s.lists| == NZONES
    ensures |Put(s, z, k).lists[s.zones[z].zi]| > 1 <==> Company(s, z)
  {
    hide Inv, ZoneOk, HandedOut, Lists, Zones, SpareOk, PagesOk, UsageOk;
    ZoneOfLive(s, z, k);
    ListsOf(s);
    PutList(s, z, k);
    var g, i := Put(s, z, k), s.zones[z].zi;
    NotAlone(g.lists[i], z);
    forall y | y != z ensures y in g.lists[i] <==> Belongs(s, y, i) { assert y in g.lists[i] <==> Belongs(g, y, i); }
  }

  lemma {:induction false} OnlyOnePut(s: Slab, z: nat, k: nat)
    requires Inv(s) && LiveChunk(s, z, k)
    ensures s.zones[z].zi < |s.lists|
    ensures var w := Put(s, z, k).zones[z]; w.nfree == w.nmax <==> OnlyOne(s.zones[z], k)
  {
    hide Inv, ZoneOk, HandedOut;
    ZoneOfLive(s, z, k);
    ListsOf(s);
    PutOk(s.zoneSize, s.zones[z], k);
    AllBack(s.zoneSize, Put(s, z, k).zones[z]);
  }

  /** A zone leaves service exactly when its last chunk comes back while another zone
      serves its class; it is kept while fewer than two are, and else its pages are
      given back. */
  lemma {:induction false} FreeExact(s: Slab, z: nat, k: nat)
    requires Inv(s) && LiveChunk(s, z, k)
    ensures |s.lists| == NZONES && z in s.zones && Fate(s, Free(s, Address(z, s.zones[z], k)), z, k)
  {
    hide Inv, HandedOut, OnlyOne, Company, ZoneOk, Fate, LiveChunk, Put, Between, Free, FreeSmall;
    LookupChunk(s, z, k);
    ZoneOfLive(s, z, k);
    ListsOf(s);
    FateOfSmall(s, z, k);
  }

  lemma {:induction false} FateOfSmall(s: Slab, z: nat, k: nat)
    requires Inv(s) && LiveChunk(s, z, k)
    ensures |s.lists| == NZONES && z in s.zones && s.zones[z].zi < NZONES && Fate(s, FreeSmall(s, z, k), z, k)
  {
    hide Inv, HandedOut, OnlyOne, Company, ZoneOk, LiveChunk, Put, Lists, Zones;
    hide SpareOk, PagesOk, UsageOk, ListOk, ListBut, ClearPages, PagesSpec.Release;
    ZoneOfLive(s, z, k);
    ListsOf(s);
    CompanyPut(s, z, k);
    OnlyOnePut(s, z, k);
    PutBetween(s, z, k);
    PutKeeps(s, z, k);
  }

  lemma {:induction false} PutKeeps(s: Slab, z: nat, k: nat)
    requires z in s.zones && s.zones[z].zi < |s.lists|
    ensures var g := Put(s, z, k);
      g.zones.Keys == s.zones.Keys && g.spare == s.spare && g.zones[z].zi == s.zones[z].zi && g.zones[z].nfree > 0
  {
  }

  // ----------------------------------------------------------- free, then malloc

  /** A chunk of a used-up zone that comes back is the next one its class hands out,
      and then the heap is as it was. */
  lemma {:induction false} FreeMallocRoundTrip(s: Slab, z: nat, k: nat, n: nat)
    requires Inv(s) && LiveChunk(s, z, k) && s.zones[z].nfree == 0 && 0 < n < s.Limit() && ZoneIndex(n).1 == s.zones[z].zi
    ensures |s.lists| == NZONES && Shaped(FreeSmall(s, z, k))
    ensures Free(s, Address(z, s.zones[z], k)) == FreeSmall(s, z, k)
    ensures Malloc(FreeSmall(s, z, k), n) == (s, Some(Address(z, s.zones[z], k)))
  {
    hide Inv, ZoneIndex, BaseOf, ChunkOf, Free, FreeSmall, LiveChunk, HandedOut, ZoneOk, Put, FromZone, Lists, ZoneSizeOk;
    LookupChunk(s, z, k);
    ZoneOfLive(s, z, k);
    ListsOf(s);
    FreeSmallInv(s, z, k);
    var g := FreeSmall(s, z, k);
    SizeOf(g);
    Heads(g);
    SmallFits(s.zoneSize, n);
    BaseFits(ZoneIndex(n).0, s.zoneSize);
    BackInFront(s, z, k);
  }

  lemma {:induction false} BackInFront(s: Slab, z: nat, k: nat)
    requires Inv(s) && LiveChunk(s, z, k) && s.zones[z].nfree == 0
    ensures |s.lists| == NZONES && s.zones[z].zi < NZONES
    ensures var g, i := FreeSmall(s, z, k), s.zones[z].zi;
      && g.zoneSize == s.zoneSize && |g.lists| == NZONES && g.lists[i] == [z] + s.lists[i] && z in g.zones
      && FromZone(g, i) == (s, Address(z, s.zones[z], k))
  {
    hide Inv, BaseOf, ChunkOf, Lists, HandedOut;
    ZoneOfLive(s, z, k);
    ListsOf(s);
    var w, g, i := s.zones[z], FreeSmall(s, z, k), s.zones[z].zi;
    assert w.uindex + 1 == w.nmax && w.chunks == [];
    Cons(k, w.chunks);
    Cons(z, s.lists[i]);
    assert TakeChunk(g.zones[z]) == w;
    assert g.zones[z := w] == s.zones && g.lists[i := s.lists[i]] == s.lists;
  }

  // -------------------------------------------------------------------- idle

  /** The zones in service of the classes below n. */
  ghost function InService(s: Slab, n: nat): set<nat> {
    set z | z in s.zones && z !in s.spare && s.zones[z].zi < n
  }

  ghost predicate NothingLive(s: Slab) {
    s.large == map[] && forall z, k: nat :: !LiveChunk(s, z, k)
  }

  lemma {:induction false} IdleZone(s: Slab, z: nat)
    requires Inv(s) && NothingLive(s) && z in s.zones && z !in s.spare
    ensures s.zones[z].zi < NZONES == |s.lists| && z in s.lists[s.zones[z].zi] && WhollyFree(s, z)
  {
    hide Inv, HandedOut, ZoneOk, ListOk;
    ZoneSound(s, z);
    ListsOf(s);
    forall l: nat ensures !HandedOut(s.zones[z], l) { assert !LiveChunk(s, z, l); }
    AllBack(s.zoneSize, s.zones[z]);
    Class(s, z);
    ListSound(s, s.zones[z].zi);
    MemberOfList(s, z);
  }

  lemma {:induction false} Class(s: Slab, z: nat)
    requires z in s.zones && ZoneOk(s.zoneSize, s.zones[z])
    ensures s.zones[z].zi < NZONES && s.zones[z].nmax >= 2
  {
  }

  lemma {:induction false} MemberOfList(s: Slab, z: nat)
    requires z in s.zones && z !in s.spare && s.zones[z].nfree > 0 && s.zones[z].zi < |s.lists| && ListOk(s, s.zones[z].zi)
    ensures z in s.lists[s.zones[z].zi]
  {
    assert Belongs(s, z, s.zones[z].zi);
  }

  /** Each class keeps at most one idle zone. */
  lemma {:induction false} OneAClass(s: Slab, y: nat, z: nat)
    requires Inv(s) && NothingLive(s) && y in s.zones && z in s.zones && y !in s.spare && z !in s.spare
    requires s.zones[y].zi == s.zones[z].zi
    ensures y == z
  {
    hide Inv, NothingLive, WhollyFree;
    IdleZone(s, y);
    IdleZone(s, z);
    ListSound(s, s.zones[z].zi);
  }

  lemma {:induction false} ServiceBound(s: Slab, n: nat)
    requires Inv(s) && NothingLive(s)
    ensures |InService(s, n)| <= n
    decreases n
  {
    hide Inv, NothingLive;
    if n == 0 {
      assert InService(s, 0) == {};
    } else {
      ServiceBound(s, n - 1);
      var top := InService(s, n) - InService(s, n - 1);
      assert InService(s, n) == top + InService(s, n - 1);
      if top != {} {
        var z :| z in top;
        forall y | y in top ensures y == z { OneAClass(s, y, z); }
        assert top == {z};
      }
    }
  }

  lemma {:induction false} ElemsBound(s: seq<nat>, zones: set<nat>)
    requires forall z :: z in zones ==> z in s
    ensures |zones| <= |s|
    decreases |s|
  {
    if s == [] {
      assert zones == {};
    } else {
      ElemsBound(s[1..], zones - {s[0]});
    }
  }

  /** When nothing is live, no run of pages is out but memusage and at most one zone
      for each size class and two more. */
  lemma {:induction false} IdleKeepsLittle(lo: nat, npages: nat, ops: seq<Op>, g: Slab)
    requires npages > 0 && Reaches(Init(lo, npages), ops, g) && NothingLive(g)
    ensures g.pool.Inv() && |g.zones.Keys| <= NZONES + THRESH && g.pool.live.Keys == g.zones.Keys + {g.meta}
    ensures forall z :: z in g.zones ==> g.pool.live[z] == g.ZonePages()
  {
    hide Reaches, Init;
    ReachableInv(lo, npages, ops, g);
    ServiceBound(g, NZONES);
    IdleZones(g);
  }

  lemma {:induction false} IdleZones(g: Slab)
    requires Inv(g) && NothingLive(g) && |InService(g, NZONES)| <= NZONES
    ensures g.pool.Inv() && |g.zones.Keys| <= NZONES + THRESH && g.pool.live.Keys == g.zones.Keys + {g.meta}
    ensures forall z :: z in g.zones ==> z in g.pool.live && g.pool.live[z] == g.ZonePages()
  {
    hide Inv, PagesOk;
    PagesOf(g);
    IdlePages(g);
    var kept := g.zones.Keys - InService(g, NZONES);
    forall z | z in kept ensures z in g.spare { if z !in g.spare { ZoneSound(g, z); Class(g, z); } }
    ElemsBound(g.spare, kept);
    SpareBound(g);
    assert g.zones.Keys == kept + InService(g, NZONES);
  }

  lemma {:induction false} SpareBound(g: Slab)
    requires Inv(g)
    ensures |g.spare| <= THRESH
  {
  }

  lemma {:induction false} IdlePages(g: Slab)
    requires PagesOk(g) && g.large == map[]
    ensures g.pool.Inv() && g.pool.live.Keys == g.zones.Keys + {g.meta}
    ensures forall z :: z in g.zones ==> z in g.pool.live && g.pool.live[z] == g.ZonePages()
  {
    hide PagesSpec.Pool.Inv;
  }
}
