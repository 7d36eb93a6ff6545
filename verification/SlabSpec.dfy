/** The zones of slab.c over its page allocator: small requests are served in
    chunks cut from zones, one list of zones with free chunks per size class;
    large requests go to the pages. */
module SlabSpec {
  import opened Machine
  import opened OrderedList
  import PagesSpec

  const PAGE: nat := 4096
  const NZONES: nat := 72
  /** ZONE_RELEASE_THRESH */
  const THRESH: nat := 2
  /** sizeof(slab_zone) on a 32-bit target. */
  const ZONE_HEADER: nat := 36
  const ZONE_LIMIT: nat := 16384

  // ------------------------------------------------------------ size classes

  function RoundUp(n: nat, unit: nat): (r: nat)
    requires unit > 0
  {
    (n + unit - 1) / unit * unit
  }

  /** zoneindex: the chunk size for n bytes and the number of its size class. */
  function ZoneIndex(n: nat): (nat, nat) {
    if n < 128 then var b := RoundUp(n, 8); (b, if b == 0 then 0 else b / 8 - 1)
    else if n < 256 then var b := RoundUp(n, 16); (b, b / 16 + 7)
    else if n < 512 then var b := RoundUp(n, 32); (b, b / 32 + 15)
    else if n < 1024 then var b := RoundUp(n, 64); (b, b / 64 + 23)
    else if n < 2048 then var b := RoundUp(n, 128); (b, b / 128 + 31)
    else if n < 4096 then var b := RoundUp(n, 256); (b, b / 256 + 39)
    else if n < 8192 then var b := RoundUp(n, 512); (b, b / 512 + 47)
    else if n < 16384 then var b := RoundUp(n, 1024); (b, b / 1024 + 55)
    else (n, 0)
  }

  /** The chunk size of a class. */
  function ChunkOf(zi: nat): nat {
    if zi < 16 then 8 * (zi + 1)
    else if zi < 24 then 16 * (zi - 7)
    else if zi < 32 then 32 * (zi - 15)
    else if zi < 40 then 64 * (zi - 23)
    else if zi < 48 then 128 * (zi - 31)
    else if zi < 56 then 256 * (zi - 39)
    else if zi < 64 then 512 * (zi - 47)
    else 1024 * (zi - 55)
  }

  /** The powers of two among the chunk sizes. */
  predicate IsPower(b: nat) {
    b in {8, 16, 32, 64, 128, 256, 512, 1024, 2048, 4096, 8192, 16384}
  }

  // ------------------------------------------------------------------- state

  /** z_nmax chunks of z_chunksize bytes from offset base of the zone; those up to
      uindex have been handed out before, chunks is the z_freechunk list. */
  datatype Zone = Zone(zi: nat, size: nat, base: nat, nmax: nat, nfree: nat, uindex: nat, chunks: seq<nat>)

  /** An entry of memusage. */
  datatype Usage = FreePage | Small(off: nat) | Large(pages: nat)

  /** Zones and large blocks are numbered by their first page; meta is the first
      page of the memusage array itself. */
  datatype Slab = Slab(
    zoneSize: nat, pool: PagesSpec.Pool, meta: nat, zones: map<nat, Zone>, large: map<nat, nat>,
    lists: seq<seq<nat>>, spare: seq<nat>, usage: map<nat, Usage>)
  {
    function ZonePages(): nat { zoneSize / PAGE }
    function Limit(): nat { Min(zoneSize / 4, ZONE_LIMIT) }
  }

  /** The offset of the chunks: aligned to the chunk size when that is a power of
      two, else to 8. */
  function BaseOf(size: nat): nat
    requires size > 0
  {
    if IsPower(size) then RoundUp(ZONE_HEADER, size) else RoundUp(ZONE_HEADER, 8)
  }

  /** A zone just put to use: its first chunk is handed out. */
  function NewZone(zoneSize: nat, zi: nat, size: nat): Zone
    requires size > 0 && BaseOf(size) <= zoneSize
  {
    var nmax := (zoneSize - BaseOf(size)) / size;
    Zone(zi, size, BaseOf(size), nmax, if nmax == 0 then 0 else nmax - 1, 0, [])
  }

  /** Where chunk k of the zone at page z lies. */
  function Address(z: nat, w: Zone, k: nat): nat {
    z * PAGE + w.base + k * w.size
  }

  // ------------------------------------------------------------------ malloc

  /** The next chunk: fresh memory first, then the free list. */
  function NextChunk(w: Zone): nat {
    if w.uindex + 1 != w.nmax || w.chunks == [] then w.uindex + 1 else w.chunks[0]
  }

  function TakeChunk(w: Zone): Zone {
    if w.nfree == 0 then w
    else if w.uindex + 1 != w.nmax || w.chunks == [] then w.(nfree := w.nfree - 1, uindex := w.uindex + 1)
    else w.(nfree := w.nfree - 1, chunks := w.chunks[1..])
  }

  /** Serve from the first zone of the class; it leaves the list when it is used up. */
  function FromZone(s: Slab, zi: nat): (Slab, nat)
    requires zi < |s.lists| && s.lists[zi] != [] && s.lists[zi][0] in s.zones
  {
    var z := s.lists[zi][0];
    var w := s.zones[z];
    (s.(zones := s.zones[z := TakeChunk(w)],
        lists := if w.nfree == 1 then s.lists[zi := s.lists[zi][1..]] else s.lists), Address(z, w, NextChunk(w)))
  }

  /** memusage entries of a zone's pages. */
  function MarkPages(usage: map<nat, Usage>, z: nat, n: nat): map<nat, Usage> {
    if n == 0 then usage else MarkPages(usage, z, n - 1)[z + n - 1 := Small(n - 1)]
  }

  function ClearPages(usage: map<nat, Usage>, z: nat, n: nat): map<nat, Usage> {
    if n == 0 then usage else ClearPages(usage, z, n - 1)[z + n - 1 := FreePage]
  }

  /** Put a zone to use for a class. */
  function Open(s: Slab, z: nat, zi: nat, size: nat): (Slab, nat)
    requires zi < |s.lists| && size > 0 && BaseOf(size) <= s.zoneSize
  {
    var w := NewZone(s.zoneSize, zi, size);
    (s.(zones := s.zones[z := w], lists := s.lists[zi := [z] + s.lists[zi]]), Address(z, w, 0))
  }

  function AllocPages(s: Slab, n: nat): (Slab, Option<nat>) {
    var (free, p) := PagesSpec.Alloc(s.pool.free, n);
    if p.None? then (s.(pool := s.pool.(free := free)), None)
    else (s.(pool := s.pool.(free := free, live := s.pool.live[p.value := n])), p)
  }

  /** There are NZONES lists and their heads are zones. */
  predicate Shaped(s: Slab) {
    |s.lists| == NZONES && forall i :: 0 <= i < NZONES && s.lists[i] != [] ==> s.lists[i][0] in s.zones
  }

  function MallocSmall(s: Slab, n: nat): (Slab, Option<nat>)
    requires Shaped(s)
  {
    var (size, zi) := ZoneIndex(n);
    if zi >= NZONES || size == 0 || BaseOf(size) > s.zoneSize then (s, None)
    else if s.lists[zi] != [] then var (g, a) := FromZone(s, zi); (g, Some(a))
    else if s.spare != [] then
      var (g, a) := Open(s.(spare := s.spare[1..]), s.spare[0], zi, size);
      (g, Some(a))
    else
      var (m, p) := AllocPages(s, s.ZonePages());
      if p.None? then (m, None)
      else
        var (g, a) := Open(m.(usage := MarkPages(m.usage, p.value, m.ZonePages())), p.value, zi, size);
        (g, Some(a))
  }

  function MallocLarge(s: Slab, n: nat): (Slab, Option<nat>) {
    var pages := RoundUp(n, PAGE) / PAGE;
    var (m, p) := AllocPages(s, pages);
    if p.None? then (m, None)
    else (m.(usage := m.usage[p.value := Large(pages)], large := m.large[p.value := pages]), Some(p.value * PAGE))
  }

  function Malloc(s: Slab, n: nat): (Slab, Option<nat>)
    requires Shaped(s)
  {
    if n == 0 then (s, None)
    else if n >= s.Limit() then MallocLarge(s, n)
    else MallocSmall(s, n)
  }

  // -------------------------------------------------------------------- free

  /** Which chunk of the zone an address is. */
  function ChunkAt(z: nat, w: Zone, a: nat): int
    requires w.size > 0
  {
    (a - z * PAGE - w.base) / w.size
  }

  /** One more free chunk; a zone that was used up goes back on its list. */
  function Put(s: Slab, z: nat, k: nat): Slab
    requires z in s.zones && s.zones[z].zi < |s.lists|
  {
    var w := s.zones[z];
    s.(zones := s.zones[z := w.(chunks := [k] + w.chunks, nfree := w.nfree + 1)],
       lists := if w.nfree == 0 then s.lists[w.zi := [z] + s.lists[w.zi]] else s.lists)
  }

  /** A wholly free zone leaves its list, if it is not alone there, for zone_free;
      beyond the threshold its pages are released. */
  function Retire(s: Slab, z: nat): Slab
    requires z in s.zones && s.zones[z].zi < |s.lists|
  {
    var w := s.zones[z];
    if w.nfree != w.nmax || |s.lists[w.zi]| <= 1 then s
    else
      var m := s.(lists := s.lists[w.zi := Remove(s.lists[w.zi], z)]);
      if |s.spare| + 1 <= THRESH then m.(spare := [z] + s.spare)
      else
        m.(zones := s.zones - {z}, usage := ClearPages(s.usage, z, s.ZonePages()),
           pool := s.pool.(free := PagesSpec.Release(s.pool.free, z, s.ZonePages()), live := s.pool.live - {z}))
  }

  function FreeSmall(s: Slab, z: nat, k: nat): Slab
    requires z in s.zones && s.zones[z].zi < |s.lists|
  {
    Retire(Put(s, z, k), z)
  }

  function FreeLarge(s: Slab, p: nat, pages: nat): Slab {
    s.(usage := s.usage[p := Large(0)], large := s.large - {p},
       pool := s.pool.(free := PagesSpec.Release(s.pool.free, p, pages), live := s.pool.live - {p}))
  }

  /** rt_free: memusage tells a large block from a chunk, and where its zone starts. */
  function Free(s: Slab, a: nat): Slab
    requires |s.lists| == NZONES
  {
    var page := a / PAGE;
    if page !in s.usage then s
    else match s.usage[page]
      case FreePage => s
      case Large(n) => FreeLarge(s, page, n)
      case Small(off) =>
        var z := page - off;
        if z < 0 || z !in s.zones || s.zones[z].zi >= NZONES || s.zones[z].size == 0 || ChunkAt(z, s.zones[z], a) < 0 then s
        else FreeSmall(s, z, ChunkAt(z, s.zones[z], a))
  }
}

/** What the size classes promise. */
module SlabClasses {
  import opened Machine
  import opened SlabSpec

  lemma {:induction false} Quotient(x: nat, u: nat)
    requires u > 0
    ensures x / u * u <= x < x / u * u + u
  {
    assert x == x / u * u + x % u;
  }

  lemma {:induction false} RoundUpFacts(n: nat, unit: nat)
    requires unit > 0
    ensures var q := (n + unit - 1) / unit; RoundUp(n, unit) == q * unit && n <= q * unit < n + unit
  {
    Quotient(n + unit - 1, unit);
  }

  /** The rounding unit of a request, and how its class number follows. */
  function Unit(n: nat): (nat, int)
    requires n < ZONE_LIMIT
  {
    if n < 128 then (8, -1) else if n < 256 then (16, 7) else if n < 512 then (32, 15) else if n < 1024 then (64, 23)
    else if n < 2048 then (128, 31) else if n < 4096 then (256, 39) else if n < 8192 then (512, 47) else (1024, 55)
  }

  lemma {:induction false} IndexByUnit(n: nat) returns (q: nat)
    requires 0 < n < ZONE_LIMIT
    ensures var (u, d) := Unit(n); q + d >= 0 && ZoneIndex(n) == (q * u, q + d) && n <= q * u < n + u
  {
    var u := Unit(n).0;
    RoundUpFacts(n, u);
    q := (n + u - 1) / u;
    hide RoundUp;
    if n < 128 {
      assert RoundUp(n, 8) == q * 8;
    } else if n < 256 {
      assert RoundUp(n, 16) == q * 16;
    } else if n < 512 {
      assert RoundUp(n, 32) == q * 32;
    } else if n < 1024 {
      assert RoundUp(n, 64) == q * 64;
    } else if n < 2048 {
      assert RoundUp(n, 128) == q * 128;
    } else if n < 4096 {
      assert RoundUp(n, 256) == q * 256;
    } else if n < 8192 {
      assert RoundUp(n, 512) == q * 512;
    } else {
      assert RoundUp(n, 1024) == q * 1024;
    }
  }

  lemma {:induction false} ChunkAligned(zi: nat)
    requires zi < NZONES
    ensures ChunkOf(zi) % 8 == 0 && 8 <= ChunkOf(zi) <= ZONE_LIMIT
  {
  }

  /** Class q + d of the band with unit u has chunks of q * u bytes. */
  lemma {:induction false} BandChunk(n: nat, q: nat)
    requires 0 < n < ZONE_LIMIT
    requires var (u, d) := Unit(n); q * u >= n && q * u < n + u
    ensures var (u, d) := Unit(n); 0 <= q + d < NZONES && ChunkOf(q + d) == q * u
  {
    if n < 128 {
      assert 1 <= q <= 16;
    } else if n < 256 {
      assert 8 <= q <= 16;
    } else if n < 512 {
      assert 8 <= q <= 16;
    } else if n < 1024 {
      assert 8 <= q <= 16;
    } else if n < 2048 {
      assert 8 <= q <= 16;
    } else if n < 4096 {
      assert 8 <= q <= 16;
    } else if n < 8192 {
      assert 8 <= q <= 16;
    } else {
      assert 8 <= q <= 16;
    }
  }

  /** A request below the zone limit gets a class whose chunks are large enough,
      and the class number alone gives the chunk size. */
  lemma {:induction false} ClassFits(n: nat)
    requires 0 < n < ZONE_LIMIT
    ensures var (b, zi) := ZoneIndex(n); zi < NZONES && n <= b == ChunkOf(zi) && b % 8 == 0 && b > 0
  {
    var q := IndexByUnit(n);
    hide ZoneIndex, RoundUp, Unit, ChunkOf;
    BandChunk(n, q);
    ChunkAligned(ZoneIndex(n).1);
  }

  /** No smaller class would do. */
  lemma {:induction false} ClassTight(n: nat)
    requires 0 < n < ZONE_LIMIT && ZoneIndex(n).1 > 0
    ensures ChunkOf(ZoneIndex(n).1 - 1) < n
  {
    var q := IndexByUnit(n);
    hide ZoneIndex;
    BandBelow(n, q);
  }

  lemma {:induction false} BandBelow(n: nat, q: nat)
    requires 0 < n < ZONE_LIMIT && q + Unit(n).1 > 0
    requires var (u, d) := Unit(n); q * u < n + u
    ensures ChunkOf(q + Unit(n).1 - 1) < n
  {
    if n < 128 {
      assert q <= 16;
    } else if n < 256 {
      assert q <= 16;
    } else if n < 512 {
      assert q <= 16;
    } else if n < 1024 {
      assert q <= 16;
    } else if n < 2048 {
      assert q <= 16;
    } else if n < 4096 {
      assert q <= 16;
    } else if n < 8192 {
      assert q <= 16;
    } else {
      assert q <= 16;
    }
  }

  lemma {:induction false} ChunkGrows(i: nat, j: nat)
    requires i < j < NZONES
    ensures ChunkOf(i) < ChunkOf(j)
  {
  }

  /** The class of a request is the smallest one that fits, so it is determined by
      that alone; in particular the chunk size itself belongs to the same class. */
  lemma {:induction false} ClassUnique(n: nat, zi: nat)
    requires 0 < n < ZONE_LIMIT && zi < NZONES && n <= ChunkOf(zi) && (zi > 0 ==> ChunkOf(zi - 1) < n)
    ensures ZoneIndex(n) == (ChunkOf(zi), zi)
  {
    ClassFits(n);
    var i := ZoneIndex(n).1;
    if i > 0 { ClassTight(n); }
    hide ChunkOf, ZoneIndex;
    if zi < i { if zi < i - 1 { ChunkGrows(zi, i - 1); } }
    if i < zi { if i < zi - 1 { ChunkGrows(i, zi - 1); } }
  }

  lemma {:induction false} ClassStable(n: nat)
    requires 0 < n < ZONE_LIMIT && ZoneIndex(n).0 < ZONE_LIMIT
    ensures ZoneIndex(ZoneIndex(n).0) == ZoneIndex(n)
  {
    ClassFits(n);
    var zi := ZoneIndex(n).1;
    if zi > 0 { ChunkGrows(zi - 1, zi); }
    ClassUnique(ZoneIndex(n).0, zi);
  }
}
