/** Zones, size-class lists, zone_free, memusage and pages agree in every run. */
module SlabTheory {
  import opened Machine
  import opened OrderedList
  import opened SlabSpec
  import opened SlabClasses
  import PagesSpec
  import PagesTheory

  // ------------------------------------------------------------ inside a zone

  predicate ZoneSizeOk(zoneSize: nat) {
    zoneSize == 32768 || zoneSize == 65536 || zoneSize == 131072
  }

  /** z_nfree counts the chunks never handed out and those on the free list. */
  ghost predicate ZoneOk(zoneSize: nat, w: Zone) {
    && w.zi < NZONES && w.size == ChunkOf(w.zi) && 8 <= w.size && 4 * w.size <= zoneSize
    && w.base == BaseOf(w.size) && w.base <= zoneSize && w.nmax == (zoneSize - w.base) / w.size && 2 <= w.nmax
    && w.uindex < w.nmax && Distinct(w.chunks) && (forall k :: k in w.chunks ==> k <= w.uindex)
    && w.nfree == w.nmax - 1 - w.uindex + |w.chunks|
  }

  /** Chunk k is in the hands of a caller. */
  predicate HandedOut(w: Zone, k: nat) {
    k <= w.uindex && k !in w.chunks
  }

  lemma {:induction false} BaseFits(size: nat, zoneSize: nat)
    requires 8 <= size && 4 * size <= zoneSize && ZoneSizeOk(zoneSize)
    ensures 4 * BaseOf(size) <= zoneSize && BaseOf(size) >= ZONE_HEADER
  {
    if size in {8, 16, 32} {
    } else if IsPower(size) {
      RoundUpFacts(ZONE_HEADER, size);
      assert ZONE_HEADER + size - 1 < 2 * size;
      OneTime(size);
    }
  }

  /** Headers are smaller than the larger powers of two. */
  lemma {:induction false} OneTime(size: nat)
    requires IsPower(size) && size >= 64
    ensures RoundUp(ZONE_HEADER, size) == size
  {
    hide IsPower;
    RoundUpFacts(ZONE_HEADER, size);
    DivIs(ZONE_HEADER + size - 1, size, 1);
  }

  lemma {:induction false} MulMono(a: nat, b: nat, u: nat)
    requires a <= b
    ensures a * u <= b * u
  {
  }

  lemma {:induction false} DivAtLeast(x: nat, u: nat, q: nat)
    requires u > 0 && q * u <= x
    ensures x / u >= q
  {
    Quotient(x, u);
    if x / u + 1 <= q {
      MulMono(x / u + 1, q, u);
      Distribute(x / u, u);
    }
  }

  lemma {:induction false} Distribute(q: nat, u: nat)
    ensures (q + 1) * u == q * u + u
  {
  }

  lemma {:induction false} DivIs(x: nat, u: nat, q: nat)
    requires u > 0 && q * u <= x < q * u + u
    ensures x / u == q
  {
    DivAtLeast(x, u, q);
    Quotient(x, u);
    if q + 1 <= x / u {
      MulMono(q + 1, x / u, u);
      Distribute(q, u);
    }
  }

  lemma {:induction false} NewZoneOk(zoneSize: nat, zi: nat)
    requires ZoneSizeOk(zoneSize) && zi < NZONES && 4 * ChunkOf(zi) <= zoneSize
    ensures ChunkOf(zi) >= 8 && BaseOf(ChunkOf(zi)) <= zoneSize && ZoneOk(zoneSize, NewZone(zoneSize, zi, ChunkOf(zi)))
    ensures var w := NewZone(zoneSize, zi, ChunkOf(zi)); 0 < w.nfree < w.nmax && forall k: nat :: HandedOut(w, k) <==> k == 0
  {
    ChunkAligned(zi);
    BaseFits(ChunkOf(zi), zoneSize);
    hide ChunkOf, BaseOf;
    DivAtLeast(zoneSize - BaseOf(ChunkOf(zi)), ChunkOf(zi), 2);
  }

  /** Chunks lie inside the zone, behind its header, side by side. */
  lemma {:induction false} ChunkInside(zoneSize: nat, w: Zone, k: nat)
    requires ZoneSizeOk(zoneSize) && ZoneOk(zoneSize, w) && k < w.nmax
    ensures ZONE_HEADER <= w.base && w.base + k * w.size + w.size <= zoneSize
  {
    hide ChunkOf, BaseOf, ZoneSizeOk;
    BaseFits(w.size, zoneSize);
    Quotient(zoneSize - w.base, w.size);
    MulMono(k + 1, w.nmax, w.size);
    Distribute(k, w.size);
  }

  lemma {:induction false} SideBySide(size: nat, k: nat, l: nat)
    requires k < l
    ensures k * size + size <= l * size
  {
    MulMono(k + 1, l, size);
    Distribute(k, size);
  }

  lemma {:induction false} WholeMultiple(k: nat, size: nat)
    requires size > 0
    ensures k * size / size == k
  {
    DivIs(k * size, size, k);
  }

  lemma {:induction false} DistinctBound(s: seq<nat>, n: nat)
    requires Distinct(s) && forall k :: k in s ==> k < n
    ensures |s| <= n
    decreases n
  {
    hide Remove, Distinct;
    if s == [] {
      return;
    }
    assert s[0] in s;
    if n - 1 in s {
      RemoveDistinct(s, n - 1);
      RemoveMembers(s, n - 1);
      RemoveLength(s, n - 1);
      DistinctBound(Remove(s, n - 1), n - 1);
    } else {
      DistinctBound(s, n - 1);
    }
  }

  lemma {:induction false} RemoveLength(s: seq<nat>, x: nat)
    requires x in s
    ensures |Remove(s, x)| == |s| - 1
  {
    if s[0] != x { RemoveLength(s[1..], x); }
  }

  /** A zone with a chunk in use is not wholly free. */
  lemma {:induction false} InUse(zoneSize: nat, w: Zone, k: nat)
    requires ZoneOk(zoneSize, w) && HandedOut(w, k)
    ensures w.nfree < w.nmax
  {
    Cons(k, w.chunks);
    DistinctBound([k] + w.chunks, w.uindex + 1);
  }

  lemma {:induction false} TakeOk(zoneSize: nat, w: Zone)
    requires ZoneOk(zoneSize, w) && w.nfree > 0
    ensures ZoneOk(zoneSize, TakeChunk(w))
    ensures var v := TakeChunk(w); v == w.(nfree := w.nfree - 1, uindex := v.uindex, chunks := v.chunks)
    ensures !HandedOut(w, NextChunk(w)) && NextChunk(w) < w.nmax
    ensures forall k: nat :: HandedOut(TakeChunk(w), k) <==> HandedOut(w, k) || k == NextChunk(w)
  {
    hide ChunkOf, BaseOf;
    assert w.uindex + 1 == w.nmax ==> w.chunks != [];
    if w.chunks != [] {
      assert w.chunks[0] in w.chunks;
      assert forall k :: k in w.chunks[1..] ==> k in w.chunks;
    }
  }

  lemma {:induction false} PutOk(zoneSize: nat, w: Zone, k: nat)
    requires ZoneOk(zoneSize, w) && HandedOut(w, k)
    ensures var g := w.(chunks := [k] + w.chunks, nfree := w.nfree + 1);
      && ZoneOk(zoneSize, g) && g.nfree <= g.nmax
      && forall l: nat :: HandedOut(g, l) <==> HandedOut(w, l) && l != k
  {
    hide ChunkOf, BaseOf;
    InUse(zoneSize, w, k);
    Cons(k, w.chunks);
  }

  // ---------------------------------------------------------------- invariant

  ghost predicate Zones(s: Slab) {
    forall z :: z in s.zones ==> ZoneOk(s.zoneSize, s.zones[z])
  }

  /** Zone z belongs on list i: in service, of that class, with free chunks. */
  ghost predicate Belongs(s: Slab, z: nat, i: nat) {
    z in s.zones && z !in s.spare && s.zones[z].zi == i && s.zones[z].nfree > 0
  }

  ghost predicate WhollyFree(s: Slab, z: nat) {
    z in s.zones && s.zones[z].nfree == s.zones[z].nmax
  }

  ghost predicate ListOk(s: Slab, i: nat)
    requires i < |s.lists|
  {
    && Distinct(s.lists[i])
    && (forall z :: z in s.lists[i] <==> Belongs(s, z, i))
    && (forall y, z :: y in s.lists[i] && z in s.lists[i] && WhollyFree(s, y) && WhollyFree(s, z) ==> y == z)
  }

  ghost predicate Lists(s: Slab) {
    |s.lists| == NZONES && forall i: nat :: i < NZONES ==> ListOk(s, i)
  }

  ghost predicate SpareOk(s: Slab) {
    Distinct(s.spare) && |s.spare| <= THRESH && forall z :: z in s.spare ==> WhollyFree(s, z)
  }

  ghost predicate PagesOk(s: Slab) {
    && s.pool.Inv() && s.meta in s.pool.live
    && (forall p :: p in s.pool.live ==> p == s.meta || p in s.zones || p in s.large)
    && (forall z :: z in s.zones ==> z in s.pool.live && s.pool.live[z] == s.ZonePages() && z != s.meta && z !in s.large)
    && (forall p :: p in s.large ==> p in s.pool.live && s.pool.live[p] == s.large[p] && p != s.meta)
  }

  /** Page k of zone z says so. */
  predicate SmallAt(usage: map<nat, Usage>, z: nat, k: nat) {
    z + k in usage && usage[z + k] == Small(k)
  }

  ghost predicate UsageOk(s: Slab) {
    && (forall z, k: nat :: z in s.zones && k < s.ZonePages() ==> SmallAt(s.usage, z, k))
    && (forall p :: p in s.large ==> p in s.usage && s.usage[p] == Large(s.large[p]))
  }

  ghost predicate Inv(s: Slab) {
    ZoneSizeOk(s.zoneSize) && Zones(s) && Lists(s) && SpareOk(s) && PagesOk(s) && UsageOk(s)
  }

  lemma {:induction false} ZoneSound(s: Slab, z: nat)
    requires Inv(s) && z in s.zones
    ensures ZoneSizeOk(s.zoneSize) && ZoneOk(s.zoneSize, s.zones[z])
  {
  }

  lemma {:induction false} ListSound(s: Slab, i: nat)
    requires Inv(s) && i < NZONES
    ensures Lists(s) && ListOk(s, i)
  {
  }

  ghost predicate LiveChunk(s: Slab, z: nat, k: nat) {
    z in s.zones && z !in s.spare && HandedOut(s.zones[z], k)
  }

  // ------------------------------------------------------------- finding a zone

  /** The page of a chunk lies in its zone; its memusage entry says how far in. */
  lemma {:induction false} ChunkPage(s: Slab, z: nat, k: nat)
    requires Inv(s) && z in s.zones && k < s.zones[z].nmax
    ensures var page := Address(z, s.zones[z], k) / PAGE;
      z <= page < z + s.ZonePages() && page in s.usage && s.usage[page] == Small(page - z)
  {
    hide ChunkOf, BaseOf, Lists, SpareOk, PagesOk, ZoneSizeOk;
    var w := s.zones[z];
    ChunkInside(s.zoneSize, w, k);
    var r := w.base + k * w.size;
    PageSplit(z, r);
    PageOf(s.zoneSize, r);
    assert SmallAt(s.usage, z, r / PAGE);
  }

  lemma {:induction false} PageOf(zoneSize: nat, r: nat)
    requires ZoneSizeOk(zoneSize) && r < zoneSize
    ensures r / PAGE < zoneSize / PAGE
  {
  }

  lemma {:induction false} PageSplit(z: nat, r: nat)
    ensures (z * PAGE + r) / PAGE == z + r / PAGE
  {
  }

  /** From any live chunk memusage leads back to its own zone and chunk number. */
  lemma {:induction false} LookupChunk(s: Slab, z: nat, k: nat)
    requires Inv(s) && LiveChunk(s, z, k)
    ensures s.zones[z].size > 0 && ChunkAt(z, s.zones[z], Address(z, s.zones[z], k)) == k
    ensures |s.lists| == NZONES && Free(s, Address(z, s.zones[z], k)) == FreeSmall(s, z, k)
  {
    hide BaseOf, PagesOk, UsageOk, FreeSmall, Free;
    var w := s.zones[z];
    assert ZoneOk(s.zoneSize, w);
    WholeMultiple(k, w.size);
    ChunkPage(s, z, k);
    Found(s, z, k, Address(z, w, k));
  }

  lemma {:induction false} Found(s: Slab, z: nat, k: nat, a: nat)
    requires |s.lists| == NZONES && z in s.zones && s.zones[z].zi < NZONES && s.zones[z].size > 0
    requires a / PAGE >= z && a / PAGE in s.usage && s.usage[a / PAGE] == Small(a / PAGE - z) && ChunkAt(z, s.zones[z], a) == k
    ensures Free(s, a) == FreeSmall(s, z, k)
  {
    hide FreeSmall, FreeLarge, ChunkAt;
  }

  lemma {:induction false} LookupLarge(s: Slab, p: nat)
    requires Inv(s) && p in s.large
    ensures Free(s, p * PAGE) == FreeLarge(s, p, s.large[p])
  {
    hide FreeSmall, FreeLarge, PagesOk;
    PageSplit(p, 0);
  }

  /** No two chunks overlap, and none reaches another zone or a large block. */
  lemma {:induction false} ChunksDisjoint(s: Slab, y: nat, j: nat, z: nat, k: nat)
    requires Inv(s) && LiveChunk(s, y, j) && LiveChunk(s, z, k) && (y < z || (y == z && j < k))
    ensures Address(y, s.zones[y], j) + s.zones[y].size <= Address(z, s.zones[z], k)
  {
    if y == z {
      SideBySide(s.zones[z].size, j, k);
    } else {
      ZonesDisjoint(s, y, j, z, k);
    }
  }

  lemma {:induction false} ZonesDisjoint(s: Slab, y: nat, j: nat, z: nat, k: nat)
    requires Inv(s) && LiveChunk(s, y, j) && LiveChunk(s, z, k) && y < z
    ensures y in s.zones && z in s.zones
    ensures Address(y, s.zones[y], j) + s.zones[y].size <= Address(z, s.zones[z], k)
  {
    hide Inv, ChunkOf, BaseOf, ZoneSizeOk, PagesOk, HandedOut, ZoneOk, LiveChunk, Address;
    ZoneOfLive(s, y, j);
    ZoneOfLive(s, z, k);
    HandedInside(s.zoneSize, s.zones[y], j);
    HandedInside(s.zoneSize, s.zones[z], k);
    PagesOf(s);
    ZonesApart(s, y, z);
    InZone(s.zoneSize, y, s.zones[y], j);
    InZone(s.zoneSize, z, s.zones[z], k);
  }

  lemma {:induction false} InZone(zoneSize: nat, z: nat, w: Zone, k: nat)
    requires ZoneSizeOk(zoneSize) && ZoneOk(zoneSize, w) && k < w.nmax
    ensures z * PAGE <= Address(z, w, k) && Address(z, w, k) + w.size <= z * PAGE + zoneSize
  {
    hide ZoneOk, ZoneSizeOk;
    ChunkInside(zoneSize, w, k);
  }

  lemma {:induction false} PagesOf(s: Slab)
    requires Inv(s)
    ensures PagesOk(s)
  {
  }

  lemma {:induction false} HandedInside(zoneSize: nat, w: Zone, k: nat)
    requires ZoneOk(zoneSize, w) && HandedOut(w, k)
    ensures k < w.nmax
  {
  }

  lemma {:induction false} ZonesApart(s: Slab, y: nat, z: nat)
    requires PagesOk(s) && ZoneSizeOk(s.zoneSize) && y in s.zones && z in s.zones && y < z
    ensures y * PAGE + s.zoneSize <= z * PAGE
  {
    assert y in s.pool.live && z in s.pool.live && y + s.pool.live[y] <= z;
    hide PagesOk;
    ZoneEnd(s.zoneSize, y, z);
  }

  lemma {:induction false} ZoneEnd(zoneSize: nat, y: nat, z: nat)
    requires ZoneSizeOk(zoneSize) && y + zoneSize / PAGE <= z
    ensures y * PAGE + zoneSize <= z * PAGE
  {
  }

  // -------------------------------------------------------------- memusage runs

  lemma {:induction false} MarkPagesAt(u: map<nat, Usage>, z: nat, n: nat, x: nat)
    ensures z <= x < z + n ==> SmallAt(MarkPages(u, z, n), z, x - z)
    ensures !(z <= x < z + n) ==> (x in MarkPages(u, z, n) <==> x in u) && (x in u ==> MarkPages(u, z, n)[x] == u[x])
  {
    if n > 0 { MarkPagesAt(u, z, n - 1, x); }
  }

  lemma {:induction false} ClearPagesAt(u: map<nat, Usage>, z: nat, n: nat, x: nat)
    ensures !(z <= x < z + n) ==> (x in ClearPages(u, z, n) <==> x in u) && (x in u ==> ClearPages(u, z, n)[x] == u[x])
  {
    if n > 0 { ClearPagesAt(u, z, n - 1, x); }
  }

  /** Different runs of pages share no page. */
  lemma {:induction false} RunsApart(s: Slab, p: nat, q: nat, x: nat)
    requires PagesOk(s) && p in s.pool.live && q in s.pool.live && p != q && p <= x < p + s.pool.live[p]
    ensures !(q <= x < q + s.pool.live[q])
  {
  }

  // --------------------------------------------------------- changing one zone

  /** Only zone z and the lists differ; the zone stays in service. */
  ghost predicate OneZone(s: Slab, g: Slab, z: nat) {
    && z in s.zones && z in g.zones && z !in s.spare && g.zones[z].zi == s.zones[z].zi
    && g == s.(zones := s.zones[z := g.zones[z]], lists := g.lists)
  }

  lemma {:induction false} OneZoneKeeps(s: Slab, g: Slab, z: nat)
    requires Inv(s) && OneZone(s, g, z) && ZoneOk(s.zoneSize, g.zones[z])
    ensures Zones(g) && SpareOk(g) && PagesOk(g) && UsageOk(g)
  {
    hide ZoneOk, PagesSpec.Pool.Inv;
    forall y | y in g.spare ensures WhollyFree(g, y) { assert WhollyFree(s, y); }
  }

  lemma {:induction false} OtherList(s: Slab, g: Slab, z: nat, i: nat)
    requires Lists(s) && OneZone(s, g, z) && i < NZONES && |g.lists| == NZONES
    requires g.lists[i] == s.lists[i] && i != s.zones[z].zi
    ensures ListOk(g, i)
  {
    assert ListOk(s, i);
    forall x ensures x in g.lists[i] <==> Belongs(g, x, i) { assert x in s.lists[i] <==> Belongs(s, x, i); }
    forall x, y | x in g.lists[i] && y in g.lists[i] && WhollyFree(g, x) && WhollyFree(g, y) ensures x == y {
      assert Belongs(s, x, i) && Belongs(s, y, i);
      assert WhollyFree(s, x) && WhollyFree(s, y);
    }
  }

  lemma {:induction false} FreeBound(zoneSize: nat, w: Zone)
    requires ZoneOk(zoneSize, w)
    ensures w.nfree <= w.nmax
  {
    DistinctBound(w.chunks, w.uindex + 1);
  }

  // -------------------------------------------------------- from a zone in service

  lemma {:induction false} HeadBelongs(s: Slab, i: nat)
    requires Lists(s) && i < NZONES && s.lists[i] != []
    ensures s.lists[i][0] in s.lists[i] && Belongs(s, s.lists[i][0], i)
  {
    assert ListOk(s, i);
    assert s.lists[i][0] in s.lists[i];
  }

  lemma {:induction false} InvOf(s: Slab)
    requires ZoneSizeOk(s.zoneSize) && Zones(s) && Lists(s) && SpareOk(s) && PagesOk(s) && UsageOk(s)
    ensures Inv(s)
  {
  }

  lemma {:induction false} FromZoneLists(s: Slab, zi: nat)
    requires Inv(s) && zi < NZONES && s.lists[zi] != []
    ensures s.lists[zi][0] in s.zones && Lists(FromZone(s, zi).0)
  {
    hide Inv, ZoneOk, TakeChunk, NextChunk, HandedOut, ListOk;
    ListSound(s, zi);
    HeadBelongs(s, zi);
    var z, g := s.lists[zi][0], FromZone(s, zi).0;
    ZoneSound(s, z);
    TakeOk(s.zoneSize, s.zones[z]);
    FreeBound(s.zoneSize, s.zones[z]);
    ZonesOf(s);
    FromZoneList(s, zi);
    forall i: nat | i < NZONES ensures ListOk(g, i) { if i != zi { OtherList(s, g, z, i); } }
  }

  lemma {:induction false} ZonesOf(s: Slab)
    requires Inv(s)
    ensures Zones(s)
  {
  }

  lemma {:induction false} FromZoneInv(s: Slab, zi: nat)
    requires Inv(s) && zi < NZONES && s.lists[zi] != []
    ensures s.lists[zi][0] in s.zones && Inv(FromZone(s, zi).0)
  {
    hide Inv, ZoneOk, TakeChunk, NextChunk, HandedOut, Zones, Lists, SpareOk, PagesOk, UsageOk, ListOk;
    ListSound(s, zi);
    HeadBelongs(s, zi);
    var z, g := s.lists[zi][0], FromZone(s, zi).0;
    ZoneSound(s, z);
    TakeOk(s.zoneSize, s.zones[z]);
    FreeBound(s.zoneSize, s.zones[z]);
    OneZoneKeeps(s, g, z);
    FromZoneLists(s, zi);
    assert Inv(g) by { InvOf(g); }
  }

  lemma {:induction false} FromZoneList(s: Slab, zi: nat)
    requires Lists(s) && Zones(s) && zi < NZONES && s.lists[zi] != []
    ensures s.lists[zi][0] in s.zones && ListOk(FromZone(s, zi).0, zi)
  {
    HeadBelongs(s, zi);
    assert ListOk(s, zi);
    var z, g, l := s.lists[zi][0], FromZone(s, zi).0, s.lists[zi];
    TakeOk(s.zoneSize, s.zones[z]);
    FreeBound(s.zoneSize, s.zones[z]);
    hide ZoneOk, NextChunk, HandedOut;
    assert g.zones[z].zi == zi;
    forall x ensures x in g.lists[zi] <==> Belongs(g, x, zi) {
      assert x in l <==> Belongs(s, x, zi);
      assert x in l <==> x == z || x in l[1..];
    }
    forall x, y | x in g.lists[zi] && y in g.lists[zi] && WhollyFree(g, x) && WhollyFree(g, y) ensures x == y {
      assert x != z && y != z && WhollyFree(s, x) && WhollyFree(s, y);
      assert x in l && y in l;
    }
  }

  // ------------------------------------------------------------- opening a zone

  /** A zone that is neither in service nor spare is put to use for an exhausted class. */
  lemma {:induction false} OpenLists(b: Slab, z: nat, zi: nat)
    requires ZoneSizeOk(b.zoneSize) && Zones(b) && Lists(b) && SpareOk(b) && z !in b.zones && zi < NZONES
    requires 4 * ChunkOf(zi) <= b.zoneSize && b.lists[zi] == []
    ensures ChunkOf(zi) >= 8 && BaseOf(ChunkOf(zi)) <= b.zoneSize
    ensures var g := Open(b, z, zi, ChunkOf(zi)).0; Zones(g) && Lists(g) && SpareOk(g)
  {
    NewZoneOk(b.zoneSize, zi);
    var g := Open(b, z, zi, ChunkOf(zi)).0;
    SpareKnown(b);
    assert g.zones[z].zi == zi && 0 < g.zones[z].nfree < g.zones[z].nmax;
    hide ZoneOk, NewZone, ChunkOf, BaseOf;
    forall y | y in g.spare ensures WhollyFree(g, y) { assert WhollyFree(b, y); }
    assert g.lists[zi] == [z];
    Cons(z, []);
    forall i: nat | i < NZONES ensures ListOk(g, i) { OpenList(b, g, z, zi, i); }
  }

  lemma {:induction false} SpareKnown(s: Slab)
    requires SpareOk(s)
    ensures forall z :: z in s.spare ==> z in s.zones
  {
    forall z | z in s.spare ensures z in s.zones { assert WhollyFree(s, z); }
  }

  lemma {:induction false} OpenList(b: Slab, g: Slab, z: nat, zi: nat, i: nat)
    requires Lists(b) && z !in b.zones && z !in b.spare && zi < NZONES && i < NZONES && b.lists[zi] == []
    requires z in g.zones && g.zones == b.zones[z := g.zones[z]] && g.spare == b.spare && g.lists == b.lists[zi := [z]]
    requires g.zones[z].zi == zi && 0 < g.zones[z].nfree < g.zones[z].nmax
    ensures ListOk(g, i)
  {
    assert ListOk(b, i);
    if i == zi { Cons(z, []); }
    forall x ensures x in g.lists[i] <==> Belongs(g, x, i) { assert x in b.lists[i] <==> Belongs(b, x, i); }
    forall x, y | x in g.lists[i] && y in g.lists[i] && WhollyFree(g, x) && WhollyFree(g, y) ensures x == y {
      if i != zi {
        assert Belongs(b, x, i) && Belongs(b, y, i) && WhollyFree(b, x) && WhollyFree(b, y);
      }
    }
  }

  lemma {:induction false} SpareOpenInv(s: Slab, zi: nat)
    requires Inv(s) && zi < NZONES && 4 * ChunkOf(zi) <= s.zoneSize && s.lists[zi] == [] && s.spare != []
    ensures ChunkOf(zi) >= 8 && BaseOf(ChunkOf(zi)) <= s.zoneSize
    ensures Inv(Open(s.(spare := s.spare[1..]), s.spare[0], zi, ChunkOf(zi)).0)
  {
    var z := s.spare[0];
    var b := s.(spare := s.spare[1..], zones := s.zones - {z});
    assert z in s.spare && WhollyFree(s, z);
    SpareBase(s);
    OpenLists(b, z, zi);
    OpenFrame(s, b, z, zi, ChunkOf(zi));
    hide ZoneOk, ChunkOf, BaseOf, PagesSpec.Pool.Inv, Open, Lists, Zones, SpareOk;
    var g := Open(s.(spare := s.spare[1..]), z, zi, ChunkOf(zi)).0;
    SameZones(s, g);
  }

  lemma {:induction false} OpenFrame(s: Slab, b: Slab, z: nat, zi: nat, size: nat)
    requires zi < |s.lists| && size > 0 && BaseOf(size) <= s.zoneSize && z in s.zones
    requires s.spare != [] && b == s.(spare := s.spare[1..], zones := s.zones - {z})
    ensures var g := Open(s.(spare := s.spare[1..]), z, zi, size).0;
      && g == Open(b, z, zi, size).0 && g.zones.Keys == s.zones.Keys
      && g.large == s.large && g.pool == s.pool && g.usage == s.usage && g.zoneSize == s.zoneSize && g.meta == s.meta
  {
    var w := NewZone(s.zoneSize, zi, size);
    hide NewZone, BaseOf;
    assert (s.zones - {z})[z := w] == s.zones[z := w];
  }

  lemma {:induction false} SameZones(s: Slab, g: Slab)
    requires PagesOk(s) && UsageOk(s) && g.zones.Keys == s.zones.Keys && g.large == s.large && g.pool == s.pool
    requires g.usage == s.usage && g.zoneSize == s.zoneSize && g.meta == s.meta
    ensures PagesOk(g) && UsageOk(g)
  {
    hide PagesSpec.Pool.Inv;
    forall y, k: nat | y in g.zones && k < g.ZonePages() ensures SmallAt(g.usage, y, k) { assert SmallAt(s.usage, y, k); }
  }

  lemma {:induction false} SpareBase(s: Slab)
    requires Zones(s) && Lists(s) && SpareOk(s) && s.spare != []
    ensures var b := s.(spare := s.spare[1..], zones := s.zones - {s.spare[0]}); Zones(b) && Lists(b) && SpareOk(b)
  {
    var z := s.spare[0];
    var b := s.(spare := s.spare[1..], zones := s.zones - {z});
    assert z in s.spare;
    hide ZoneOk;
    forall y | y in b.spare ensures WhollyFree(b, y) { assert y in s.spare && WhollyFree(s, y) && y != z; }
    forall i: nat | i < NZONES ensures ListOk(b, i) {
      assert ListOk(s, i);
      forall x ensures x in b.lists[i] <==> Belongs(b, x, i) {
        assert x in s.lists[i] <==> Belongs(s, x, i);
        assert x in s.spare <==> x == z || x in s.spare[1..];
      }
      forall x, y | x in b.lists[i] && y in b.lists[i] && WhollyFree(b, x) && WhollyFree(b, y) ensures x == y {
        assert WhollyFree(s, x) && WhollyFree(s, y);
      }
    }
  }

  // -------------------------------------------------------------------- pages

  /** The page allocator's step: a fresh run, clear of everything live. */
  lemma {:induction false} AllocPagesFacts(s: Slab, n: nat)
    requires PagesOk(s) && n > 0
    ensures var (m, p) := AllocPages(s, n);
      && (p.None? ==> m == s)
      && (p.Some? ==> m.pool.Inv() && m == s.(pool := m.pool) && m.pool.live == s.pool.live[p.value := n] && p.value !in s.pool.live)
  {
    PagesTheory.AllocExact(s.pool.free, n);
    PagesTheory.AllocStepInv(s.pool, n);
    var (free, p) := PagesSpec.Alloc(s.pool.free, n);
    if p.Some? { PagesTheory.AllocOutside(s.pool, p.value, n); }
    hide PagesSpec.Alloc, PagesSpec.Pool.Inv;
  }

  lemma {:induction false} NewOpenInv(s: Slab, zi: nat)
    requires Inv(s) && zi < NZONES && 4 * ChunkOf(zi) <= s.zoneSize && s.lists[zi] == []
    requires AllocPages(s, s.ZonePages()).1.Some?
    ensures ChunkOf(zi) >= 8 && BaseOf(ChunkOf(zi)) <= s.zoneSize
    ensures var (m, p) := AllocPages(s, s.ZonePages());
      Inv(Open(m.(usage := MarkPages(m.usage, p.value, m.ZonePages())), p.value, zi, ChunkOf(zi)).0)
  {
    AllocPagesFacts(s, s.ZonePages());
    var (m, p) := AllocPages(s, s.ZonePages());
    var z := p.value;
    var b := m.(usage := MarkPages(m.usage, z, m.ZonePages()));
    SameLists(s, b);
    OpenLists(b, z, zi);
    var g := Open(b, z, zi, ChunkOf(zi)).0;
    NewUsage(s, g, z);
    hide ZoneOk, ChunkOf, BaseOf, PagesSpec.Pool.Inv, NewZone, AllocPages, MarkPages;
  }

  lemma {:induction false} SameLists(s: Slab, b: Slab)
    requires Zones(s) && Lists(s) && SpareOk(s) && b == s.(pool := b.pool, usage := b.usage, large := b.large)
    ensures Zones(b) && Lists(b) && SpareOk(b)
  {
    hide ZoneOk;
    forall y | y in b.spare ensures WhollyFree(b, y) { assert WhollyFree(s, y); }
    forall i: nat | i < NZONES ensures ListOk(b, i) {
      assert ListOk(s, i);
      forall x ensures x in b.lists[i] <==> Belongs(b, x, i) { assert x in s.lists[i] <==> Belongs(s, x, i); }
      forall x, y | x in b.lists[i] && y in b.lists[i] && WhollyFree(b, x) && WhollyFree(b, y) ensures x == y {
        assert WhollyFree(s, x) && WhollyFree(s, y);
      }
    }
  }

  /** The new zone's pages point back to it, everybody else's entries stay. */
  lemma {:induction false} NewPages(s: Slab, g: Slab, z: nat)
    requires PagesOk(s) && z !in s.pool.live && g.zones.Keys == s.zones.Keys + {z} && g.large == s.large
    requires g.pool.Inv() && g.pool.live == s.pool.live[z := s.ZonePages()] && g.zoneSize == s.zoneSize && g.meta == s.meta
    ensures PagesOk(g)
    ensures forall y :: y in g.zones ==> y in g.pool.live && g.pool.live[y] == g.ZonePages()
    ensures forall p :: p in g.large ==> p in g.pool.live && p != z
  {
    hide PagesSpec.Pool.Inv;
  }

  lemma {:induction false} NewUsage(s: Slab, g: Slab, z: nat)
    requires PagesOk(s) && UsageOk(s) && z !in s.pool.live && g.zones.Keys == s.zones.Keys + {z} && g.large == s.large
    requires g.pool.Inv() && g.pool.live == s.pool.live[z := s.ZonePages()] && g.zoneSize == s.zoneSize && g.meta == s.meta
    requires g.usage == MarkPages(s.usage, z, s.ZonePages())
    ensures PagesOk(g) && UsageOk(g)
  {
    hide PagesSpec.Pool.Inv, MarkPages;
    NewPages(s, g, z);
    hide PagesOk;
    forall y, k: nat | y in g.zones && k < g.ZonePages() ensures SmallAt(g.usage, y, k) {
      MarkPagesAt(s.usage, z, s.ZonePages(), y + k);
      if y != z {
        assert SmallAt(s.usage, y, k);
        RunsApart(g, y, z, y + k);
      }
    }
    forall p | p in g.large ensures p in g.usage && g.usage[p] == Large(g.large[p]) {
      MarkPagesAt(s.usage, z, s.ZonePages(), p);
      LiveRun(g, p);
      RunsApart(g, p, z, p);
    }
  }

  lemma {:induction false} LiveRun(s: Slab, p: nat)
    requires PagesOk(s) && p in s.pool.live
    ensures s.pool.live[p] > 0
  {
  }

  lemma {:induction false} MallocLargeInv(s: Slab, n: nat)
    requires Inv(s) && n > 0
    ensures Inv(MallocLarge(s, n).0)
  {
    var pages := RoundUp(n, PAGE) / PAGE;
    RoundUpFacts(n, PAGE);
    AllocPagesFacts(s, pages);
    var (m, p) := AllocPages(s, pages);
    if p.Some? {
      var g := MallocLarge(s, n).0;
      LargeUsage(s, g, p.value, pages);
      hide AllocPages;
      SameLists(s, g);
    }
  }

  lemma {:induction false} LargePages(s: Slab, g: Slab, p: nat, n: nat)
    requires PagesOk(s) && p !in s.pool.live && g.zones == s.zones && g.large == s.large[p := n]
    requires g.pool.Inv() && g.pool.live == s.pool.live[p := n] && g.zoneSize == s.zoneSize && g.meta == s.meta
    ensures PagesOk(g)
    ensures forall y :: y in g.zones ==> y in g.pool.live && g.pool.live[y] == g.ZonePages() && y != p
    ensures forall q :: q in s.large ==> q != p
  {
    hide PagesSpec.Pool.Inv;
  }

  lemma {:induction false} LargeUsage(s: Slab, g: Slab, p: nat, n: nat)
    requires PagesOk(s) && UsageOk(s) && p !in s.pool.live && g.zones == s.zones && g.large == s.large[p := n]
    requires g.pool.Inv() && g.pool.live == s.pool.live[p := n] && g.zoneSize == s.zoneSize && g.meta == s.meta
    requires g.usage == s.usage[p := Large(n)]
    ensures PagesOk(g) && UsageOk(g)
  {
    hide PagesSpec.Pool.Inv;
    LargePages(s, g, p, n);
    LiveRun(g, p);
    hide PagesOk;
    forall y, k: nat | y in g.zones && k < g.ZonePages() ensures SmallAt(g.usage, y, k) {
      assert SmallAt(s.usage, y, k);
      RunsApart(g, y, p, y + k);
    }
  }

  /** Giving back a live run. */
  lemma {:induction false} FreePagesFacts(s: Slab, p: nat)
    requires PagesOk(s) && p in s.pool.live
    ensures PagesSpec.Pool.Pool(s.pool.lo, s.pool.hi, PagesSpec.Release(s.pool.free, p, s.pool.live[p]), s.pool.live - {p}).Inv()
  {
    PagesTheory.FreeStepInv(s.pool, p);
  }

  lemma {:induction false} FreeLargeInv(s: Slab, p: nat)
    requires Inv(s) && p in s.large
    ensures Inv(FreeLarge(s, p, s.large[p]))
  {
    FreePagesFacts(s, p);
    var g := FreeLarge(s, p, s.large[p]);
    FreedUsage(s, g, p);
    hide PagesSpec.Release, PagesSpec.Pool.Inv;
    SameLists(s, g);
  }

  lemma {:induction false} FreedUsage(s: Slab, g: Slab, p: nat)
    requires PagesOk(s) && UsageOk(s) && p in s.large && g.zones == s.zones && g.large == s.large - {p}
    requires g.pool.Inv() && g.pool.live == s.pool.live - {p} && g.zoneSize == s.zoneSize && g.meta == s.meta
    requires g.usage == s.usage[p := Large(0)]
    ensures PagesOk(g) && UsageOk(g)
  {
    hide PagesSpec.Pool.Inv;
    LiveRun(s, p);
    forall y, k: nat | y in g.zones && k < g.ZonePages() ensures SmallAt(g.usage, y, k) {
      assert SmallAt(s.usage, y, k);
      RunsApart(s, y, p, y + k);
    }
  }

  // -------------------------------------------------------------- releasing chunks

  /** Membership as it should be; z apart, at most one zone of the list is wholly free. */
  ghost predicate ListBut(s: Slab, i: nat, z: nat)
    requires i < |s.lists|
  {
    && Distinct(s.lists[i])
    && (forall x :: x in s.lists[i] <==> Belongs(s, x, i))
    && (forall x, y :: x in s.lists[i] && y in s.lists[i] && x != z && y != z && WhollyFree(s, x) && WhollyFree(s, y) ==> x == y)
  }

  lemma {:induction false} PutList(s: Slab, z: nat, k: nat)
    requires Inv(s) && LiveChunk(s, z, k)
    ensures s.zones[z].zi < NZONES
    ensures var g, i := Put(s, z, k), s.zones[z].zi;
      z in g.lists[i] && ListBut(g, i, z)
  {
    hide Inv, ZoneOk, HandedOut, Lists, Zones, SpareOk, PagesOk, UsageOk;
    ZoneOfLive(s, z, k);
    ListsOf(s);
    var w := s.zones[z];
    var g, i, l := Put(s, z, k), w.zi, s.lists[w.zi];
    ListSound(s, i);
    assert z in l <==> Belongs(s, z, i);
    Cons(z, l);
    forall x ensures x in g.lists[i] <==> Belongs(g, x, i) { assert x in l <==> Belongs(s, x, i); }
    forall x, y | x in g.lists[i] && y in g.lists[i] && x != z && y != z && WhollyFree(g, x) && WhollyFree(g, y) ensures x == y {
      assert WhollyFree(s, x) && WhollyFree(s, y);
      assert x in l && y in l;
    }
  }

  /** After one more chunk has come back, but before wholly free zones are retired. */
  lemma {:induction false} ZoneOfLive(s: Slab, z: nat, k: nat)
    requires Inv(s) && LiveChunk(s, z, k)
    ensures z in s.zones && z !in s.spare && HandedOut(s.zones[z], k)
    ensures ZoneSizeOk(s.zoneSize) && ZoneOk(s.zoneSize, s.zones[z]) && s.zones[z].zi < NZONES
  {
  }

  lemma {:induction false} ListsOf(s: Slab)
    requires Inv(s)
    ensures Lists(s) && |s.lists| == NZONES
  {
  }

  lemma {:induction false} PutFacts(s: Slab, z: nat, k: nat)
    requires Inv(s) && LiveChunk(s, z, k)
    ensures var g, i := Put(s, z, k), s.zones[z].zi;
      && Zones(g) && SpareOk(g) && PagesOk(g) && UsageOk(g) && z in g.zones && z !in g.spare && g.zones[z].zi == i < NZONES
      && |g.lists| == NZONES && g.zones[z].nfree > 0 && g.zones[z].nfree <= g.zones[z].nmax
      && forall j: nat :: j < NZONES && j != i ==> ListOk(g, j)
  {
    hide Inv, ZoneOk, HandedOut, Lists, Zones, SpareOk, PagesOk, UsageOk, ListOk;
    ZoneOfLive(s, z, k);
    ListsOf(s);
    PutOk(s.zoneSize, s.zones[z], k);
    var g, i := Put(s, z, k), s.zones[z].zi;
    OneZoneKeeps(s, g, z);
    forall j: nat | j < NZONES && j != i ensures ListOk(g, j) { OtherList(s, g, z, j); }
  }

  lemma {:induction false} FreeSmallInv(s: Slab, z: nat, k: nat)
    requires Inv(s) && LiveChunk(s, z, k)
    ensures s.zones[z].zi < NZONES && Inv(FreeSmall(s, z, k))
  {
    PutBetween(s, z, k);
    hide Inv, Between, Put;
    RetireInv(Put(s, z, k), z);
  }

  lemma {:induction false} PutBetween(s: Slab, z: nat, k: nat)
    requires Inv(s) && LiveChunk(s, z, k)
    ensures s.zones[z].zi < NZONES && Between(Put(s, z, k), z)
  {
    PutFacts(s, z, k);
    PutList(s, z, k);
    PutSize(s, z, k);
    hide Put, ZoneOk, HandedOut, PagesSpec.Pool.Inv, Lists, Zones, SpareOk, PagesOk, UsageOk, ListOk, ListBut;
  }

  lemma {:induction false} PutSize(s: Slab, z: nat, k: nat)
    requires z in s.zones && s.zones[z].zi < |s.lists|
    ensures Put(s, z, k).zoneSize == s.zoneSize
  {
  }

  /** The state between Put and Retire. */
  ghost predicate Between(g: Slab, z: nat) {
    && ZoneSizeOk(g.zoneSize) && Zones(g) && SpareOk(g) && PagesOk(g) && UsageOk(g) && z in g.zones && z !in g.spare
    && |g.lists| == NZONES && g.zones[z].zi < NZONES && 0 < g.zones[z].nfree <= g.zones[z].nmax
    && z in g.lists[g.zones[z].zi] && ListBut(g, g.zones[z].zi, z)
    && forall j: nat :: j < NZONES && j != g.zones[z].zi ==> ListOk(g, j)
  }

  lemma {:induction false} RetireInv(g: Slab, z: nat)
    requires Between(g, z)
    ensures Inv(Retire(g, z))
  {
    var w, l := g.zones[z], g.lists[g.zones[z].zi];
    if w.nfree != w.nmax || |l| <= 1 {
      StayInv(g, z);
    } else if |g.spare| + 1 <= THRESH {
      ToSpareInv(g, z);
    } else {
      ReleaseInv(g, z);
    }
  }

  lemma {:induction false} StayInv(g: Slab, z: nat)
    requires Between(g, z) && (g.zones[z].nfree != g.zones[z].nmax || |g.lists[g.zones[z].zi]| <= 1)
    ensures Inv(g)
  {
    hide ZoneOk, PagesSpec.Pool.Inv, UsageOk, PagesOk, Zones;
    var i := g.zones[z].zi;
    var l := g.lists[i];
    forall x, y | x in l && y in l && WhollyFree(g, x) && WhollyFree(g, y) ensures x == y {
      if |l| <= 1 { assert x == l[0] && y == l[0]; }
    }
    assert ListOk(g, i);
  }

  /** The lists once z has been taken off its own. */
  lemma {:induction false} OffList(g: Slab, m: Slab, z: nat, j: nat)
    requires Between(g, z) && j < NZONES && m.lists == g.lists[g.zones[z].zi := Remove(g.lists[g.zones[z].zi], z)]
    requires (forall x :: x != z ==> (x in m.spare <==> x in g.spare) && (x in m.zones <==> x in g.zones))
    requires (forall x :: x in m.zones && x in g.zones ==> m.zones[x] == g.zones[x]) && (z in m.spare || z !in m.zones)
    ensures ListOk(m, j)
  {
    hide ZoneOk, PagesSpec.Pool.Inv, UsageOk, PagesOk, Zones, SpareOk;
    var i := g.zones[z].zi;
    var l := g.lists[i];
    RemoveMembers(l, z);
    RemoveDistinct(l, z);
    if j != i { assert ListOk(g, j); }
    forall x ensures x in m.lists[j] <==> Belongs(m, x, j) {
      assert x in g.lists[j] <==> Belongs(g, x, j);
      assert z in g.lists[j] ==> j == i;
    }
    forall x, y | x in m.lists[j] && y in m.lists[j] && WhollyFree(m, x) && WhollyFree(m, y) ensures x == y {
      assert Belongs(m, x, j) && Belongs(m, y, j);
      assert WhollyFree(g, x) && WhollyFree(g, y);
    }
  }

  lemma {:induction false} ToSpareInv(g: Slab, z: nat)
    requires Between(g, z) && g.zones[z].nfree == g.zones[z].nmax && |g.lists[g.zones[z].zi]| > 1 && |g.spare| + 1 <= THRESH
    ensures Inv(Retire(g, z))
  {
    hide ZoneOk, PagesSpec.Pool.Inv, Remove, ListOk, PagesOk, UsageOk;
    var m := Retire(g, z);
    Cons(z, g.spare);
    forall j: nat | j < NZONES ensures ListOk(m, j) { OffList(g, m, z, j); }
    forall x | x in m.spare ensures WhollyFree(m, x) { if x != z { assert WhollyFree(g, x); } }
    SameZones(g, m);
  }

  lemma {:induction false} SpareStays(g: Slab, m: Slab, z: nat)
    requires SpareOk(g) && z !in g.spare && m.spare == g.spare && m.zones == g.zones - {z}
    ensures SpareOk(m)
  {
    forall x | x in m.spare ensures WhollyFree(m, x) { assert WhollyFree(g, x) && x != z; }
  }

  lemma {:induction false} ReleaseInv(g: Slab, z: nat)
    requires Between(g, z) && g.zones[z].nfree == g.zones[z].nmax && |g.lists[g.zones[z].zi]| > 1 && |g.spare| + 1 > THRESH
    ensures Inv(Retire(g, z))
  {
    hide SpareOk;
    var m := Retire(g, z);
    forall j: nat | j < NZONES ensures ListOk(m, j) { OffList(g, m, z, j); }
    FreePagesFacts(g, z);
    ClearedUsage(g, m, z);
    hide ZoneOk, PagesSpec.Pool.Inv, Remove, PagesSpec.Release, ClearPages, PagesOk, UsageOk, ListOk, ListBut;
    SpareStays(g, m, z);
  }

  lemma {:induction false} LessPages(s: Slab, g: Slab, z: nat)
    requires PagesOk(s) && z in s.zones && g.zones == s.zones - {z} && g.large == s.large
    requires g.pool.Inv() && g.pool.live == s.pool.live - {z} && g.zoneSize == s.zoneSize && g.meta == s.meta
    ensures PagesOk(g) && z in s.pool.live && s.pool.live[z] == s.ZonePages()
    ensures forall y :: y in g.zones ==> y in s.zones && y != z && y in s.pool.live && s.pool.live[y] == s.ZonePages()
    ensures forall p :: p in g.large ==> p in s.pool.live && p != z
  {
    hide PagesSpec.Pool.Inv;
  }

  lemma {:induction false} ClearedUsage(s: Slab, g: Slab, z: nat)
    requires PagesOk(s) && UsageOk(s) && z in s.zones && g.zones == s.zones - {z} && g.large == s.large
    requires g.pool.Inv() && g.pool.live == s.pool.live - {z} && g.zoneSize == s.zoneSize && g.meta == s.meta
    requires g.usage == ClearPages(s.usage, z, s.ZonePages())
    ensures PagesOk(g) && UsageOk(g)
  {
    hide PagesSpec.Pool.Inv, ClearPages;
    LessPages(s, g, z);
    hide PagesOk;
    forall y, k: nat | y in g.zones && k < g.ZonePages() ensures SmallAt(g.usage, y, k) {
      assert SmallAt(s.usage, y, k);
      RunsApart(s, y, z, y + k);
      ClearPagesAt(s.usage, z, s.ZonePages(), y + k);
    }
    forall p | p in g.large ensures p in g.usage && g.usage[p] == Large(g.large[p]) {
      LiveRun(s, p);
      RunsApart(s, p, z, p);
      ClearPagesAt(s.usage, z, s.ZonePages(), p);
    }
  }
}
