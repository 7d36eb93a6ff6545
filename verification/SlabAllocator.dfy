/** rt_malloc and rt_free of slab.c over the page allocator. */
module SlabAllocator {
  import opened Machine
  import opened OrderedList
  import opened SlabSpec
  import opened SlabClasses
  import opened SlabTheory
  import opened SlabRuns
  import opened Pages
  import PagesSpec
  import PagesTheory

  class Heap {
    const pages: PageAllocator
    const zoneSize: nat
    const zoneLimit: nat
    const zonePageCnt: nat
    /** the headers at the start of the zones, by first page */
    var zones: map<nat, Zone>
    /** zone_array and zone_free: the z_next lists */
    var zoneArray: seq<seq<nat>>
    var zoneFree: seq<nat>
    var zoneFreeCnt: nat
    var memusage: map<nat, Usage>
    ghost const lo: nat
    ghost const hi: nat
    ghost const meta: nat
    /** page runs handed out, and those of them that are large blocks */
    ghost var live: map<nat, nat>
    ghost var large: map<nat, nat>

    ghost function Abs(): Slab
      reads this, pages
    {
      Slab(zoneSize, PagesSpec.Pool(lo, hi, pages.runs, live), meta, zones, large, zoneArray, zoneFree, memusage)
    }

    ghost predicate Valid()
      reads this, pages, pages.next, pages.page
    {
      && pages.Valid() && hi <= pages.next.Length
      && zoneFreeCnt == |zoneFree| && zoneLimit == Min(zoneSize / 4, ZONE_LIMIT) && zonePageCnt == zoneSize / PAGE
    }

    /** rt_system_heap_init. */
    constructor (start: nat, npages: nat)
      requires npages > 0
      ensures Valid() && fresh(pages) && fresh(pages.next) && fresh(pages.page)
      ensures Abs() == Init(start, npages)
    {
      hide PagesSpec.Alloc, PageAllocator.Valid;
      var p := new PageAllocator(start + npages, start, npages);
      var limsize := npages * PAGE;
      var size := 32768;
      while size < 131072 && size * 2 < limsize / 1024
        invariant size == 32768 || (size == 65536 && 65536 < limsize / 1024) || (size == 131072 && 131072 < limsize / 1024)
        decreases 131072 - size
      {
        size := size * 2;
      }
      var limit := size / 4;
      if limit > ZONE_LIMIT {
        limit := ZONE_LIMIT;
      }
      MetaFits(npages);
      var m := p.Alloc(RoundUp(npages * 4, PAGE) / PAGE);
      pages, zoneSize, zoneLimit, zonePageCnt := p, size, limit, size / PAGE;
      zones, zoneArray, zoneFree, zoneFreeCnt, memusage := map[], seq(NZONES, _ => []), [], 0, map[];
      lo, hi, meta := start, start + npages, if m.None? then 0 else m.value;
      live, large := if m.None? then map[] else map[m.value := MetaPages(npages)], map[];
    }

    // ---------------------------------------------------------------- malloc

    /** Take pages from the allocator. */
    method AllocPages(n: nat) returns (p: Option<nat>)
      requires Valid() && n > 0
      modifies this`live, pages, pages.next, pages.page
      ensures Valid() && (Abs(), p) == SlabSpec.AllocPages(old(Abs()), n)
    {
      p := pages.Alloc(n);
      if p.Some? {
        live := live[p.value := n];
      }
    }

    /** memusage entries of a new zone. */
    method MarkUsage(z: nat)
      modifies this`memusage
      ensures memusage == MarkPages(old(memusage), z, zonePageCnt)
    {
      var off := 0;
      while off < zonePageCnt
        invariant off <= zonePageCnt && memusage == MarkPages(old(memusage), z, off)
      {
        memusage := memusage[z + off := Small(off)];
        off := off + 1;
      }
    }

    /** memusage entries of a released one. */
    method ClearUsage(z: nat)
      modifies this`memusage
      ensures memusage == ClearPages(old(memusage), z, zonePageCnt)
    {
      var i := 0;
      while i < zonePageCnt
        invariant i <= zonePageCnt && memusage == ClearPages(old(memusage), z, i)
      {
        memusage := memusage[z + i := FreePage];
        i := i + 1;
      }
    }

    /** The next chunk of the first zone on list zi. */
    method TakeFromZone(zi: nat, size: nat) returns (a: nat)
      requires zi < |zoneArray| && zoneArray[zi] != [] && zoneArray[zi][0] in zones
      requires ZoneOk(zoneSize, zones[zoneArray[zi][0]]) && zones[zoneArray[zi][0]].nfree > 0
      requires zones[zoneArray[zi][0]].size == size
      modifies this`zones, this`zoneArray
      ensures (Abs(), a) == FromZone(old(Abs()), zi)
    {
      hide ChunkOf, BaseOf, ZoneOk;
      var z := zoneArray[zi][0];
      ghost var w, before := zones[z], zones;
      if w.uindex + 1 == w.nmax { FreeChunks(zoneSize, w); }
      zones := zones[z := zones[z].(nfree := zones[z].nfree - 1)];
      if zones[z].nfree == 0 {
        zoneArray := zoneArray[zi := zoneArray[zi][1..]];
      }
      if zones[z].uindex + 1 != zones[z].nmax {
        zones := zones[z := zones[z].(uindex := zones[z].uindex + 1)];
        a := z * PAGE + zones[z].base + zones[z].uindex * size;
      } else {
        a := z * PAGE + zones[z].base + zones[z].chunks[0] * size;
        zones := zones[z := zones[z].(chunks := zones[z].chunks[1..])];
      }
      assert zones == before[z := TakeChunk(w)];
    }

    /** Set up the header of a zone for class zi and hand out its first chunk. */
    method OpenZone(z: nat, zi: nat, size: nat) returns (a: nat)
      requires zi < |zoneArray| && size > 0 && BaseOf(size) <= zoneSize && 2 * size + BaseOf(size) <= zoneSize
      modifies this`zones, this`zoneArray
      ensures (Abs(), a) == Open(old(Abs()), z, zi, size)
    {
      var off := ZONE_HEADER;
      if IsPower(size) {
        off := RoundUp(off, size);
      } else {
        off := RoundUp(off, 8);
      }
      var nmax := (zoneSize - off) / size;
      DivAtLeast(zoneSize - off, size, 2);
      zones := zones[z := Zone(zi, size, off, nmax, nmax - 1, 0, [])];
      zoneArray := zoneArray[zi := [z] + zoneArray[zi]];
      a := z * PAGE + zones[z].base + zones[z].uindex * size;
    }

    /** rt_malloc. */
    method Malloc(n: nat) returns (r: Option<nat>)
      requires Valid() && Inv(Abs())
      modifies this, pages, pages.next, pages.page
      ensures Shaped(old(Abs()))
      ensures Valid() && (Abs(), r) == SlabSpec.Malloc(old(Abs()), n)
    {
      Heads(Abs());
      if n == 0 {
        return None;
      }
      if n >= zoneLimit {
        r := MallocLarge(n);
      } else {
        r := MallocSmall(n);
      }
    }

    /** rt_malloc at or above zone_limit: whole pages, noted in memusage. */
    method MallocLarge(n: nat) returns (r: Option<nat>)
      requires Valid() && n > 0
      modifies this, pages, pages.next, pages.page
      ensures Valid() && (Abs(), r) == SlabSpec.MallocLarge(old(Abs()), n)
    {
      RoundUpFacts(n, PAGE);
      var size := RoundUp(n, PAGE) / PAGE;
      hide RoundUp;
      r := AllocPages(size);
      if r.Some? {
        memusage := memusage[r.value := Large(size)];
        large := large[r.value := size];
        r := Some(r.value * PAGE);
      }
    }

    /** rt_malloc below zone_limit: a zone in service, a kept zone, or a new one. */
    method MallocSmall(n: nat) returns (r: Option<nat>)
      requires Valid() && Inv(Abs()) && Shaped(Abs()) && 0 < n < zoneLimit
      modifies this, pages, pages.next, pages.page
      ensures Valid() && (Abs(), r) == SlabSpec.MallocSmall(old(Abs()), n)
    {
      hide ZoneIndex, BaseOf, ChunkOf, PagesOk, UsageOk, SpareOk, PageAllocator.Valid;
      SmallFits(zoneSize, n);
      var (size, zi) := ZoneIndex(n);
      ChunkAligned(zi);
      BaseFits(size, zoneSize);
      if zoneArray[zi] != [] {
        HeadBelongs(Abs(), zi);
        var a := TakeFromZone(zi, size);
        return Some(a);
      }
      var z;
      if zoneFree != [] {
        z := zoneFree[0];
        zoneFree := zoneFree[1..];
        zoneFreeCnt := zoneFreeCnt - 1;
      } else {
        var p := AllocPages(zonePageCnt);
        if p.None? {
          return None;
        }
        z := p.value;
        MarkUsage(z);
      }
      var a := OpenZone(z, zi, size);
      return Some(a);
    }

    // ------------------------------------------------------------------ free

    /** rt_free: memusage tells what the address belongs to. */
    method Free(a: nat)
      requires Valid() && Inv(Abs()) && Holds(Abs(), a)
      modifies this, pages, pages.next, pages.page
      ensures Valid() && |old(Abs()).lists| == NZONES && Abs() == SlabSpec.Free(old(Abs()), a)
    {
      hide LargeFound, ChunkFound, Inv, Holds, LiveChunk, ChunkAt, PageAllocator.Valid;
      hide SlabSpec.Free, SlabSpec.FreeLarge, SlabSpec.FreeSmall;
      ghost var zone, chunk := Lookup(Abs(), a);
      Locate(Abs(), a, zone, chunk);
      var page := a / PAGE;
      var kup := memusage[page];
      if kup.Large? {
        FreeLarge(page, kup.pages);
      } else {
        var z := page - kup.off;
        FreeChunk(z, ChunkAt(z, zones[z], a));
      }
    }

    /** rt_free of a large block. */
    method FreeLarge(p: nat, n: nat)
      requires Valid() && Inv(Abs()) && p in large && n == large[p]
      modifies this, pages, pages.next, pages.page
      ensures Valid() && Abs() == SlabSpec.FreeLarge(old(Abs()), p, n)
    {
      LiveNotFree(Abs(), p);
      memusage := memusage[p := Large(0)];
      large := large - {p};
      live := live - {p};
      hide Inv;
      pages.Free(p, n);
    }

    /** rt_free of a chunk. */
    method FreeChunk(z: nat, k: nat)
      requires Valid() && Inv(Abs()) && LiveChunk(Abs(), z, k)
      modifies this, pages, pages.next, pages.page
      ensures Valid() && old(zones[z].zi) < NZONES && Abs() == FreeSmall(old(Abs()), z, k)
    {
      PutBetween(Abs(), z, k);
      assert |zoneArray| == NZONES;
      hide Inv, Between, SlabSpec.Put, SlabSpec.Retire;
      Put(z, k);
      Retire(z);
    }

    /** Put chunk k on the free list of zone z, and the zone on its list if it was used up. */
    method Put(z: nat, k: nat)
      requires Valid() && z in zones && zones[z].zi < |zoneArray|
      modifies this`zones, this`zoneArray
      ensures Valid() && Abs() == SlabSpec.Put(old(Abs()), z, k)
    {
      ghost var before := zones;
      zones := zones[z := zones[z].(chunks := [k] + zones[z].chunks)];
      zones := zones[z := zones[z].(nfree := zones[z].nfree + 1)];
      assert zones == before[z := before[z].(chunks := [k] + before[z].chunks, nfree := before[z].nfree + 1)];
      if zones[z].nfree == 1 {
        var zi := zones[z].zi;
        zoneArray := zoneArray[zi := [z] + zoneArray[zi]];
      }
    }

    /** Take zone z out of its list: the walk along z_next stops where *pz == z. */
    method Unlink(z: nat, zi: nat)
      requires zi < |zoneArray| && z in zoneArray[zi]
      modifies this`zoneArray
      ensures zoneArray == old(zoneArray)[zi := Remove(old(zoneArray[zi]), z)]
    {
      var l, i := zoneArray[zi], 0;
      while l[i] != z
        invariant i < |l| && z !in l[..i]
        decreases |l| - i
      {
        i := i + 1;
      }
      RemoveHere(l, i, z);
      zoneArray := zoneArray[zi := l[..i] + l[i + 1..]];
    }

    /** Whether z is wholly free and not alone on its list: z_next is set or another zone leads the list. */
    method Retire(z: nat)
      requires Valid() && Between(Abs(), z)
      modifies this, pages, pages.next, pages.page
      ensures Valid() && Abs() == SlabSpec.Retire(old(Abs()), z)
    {
      hide Between, Remove, ClearPages, PagesSpec.Release, PageAllocator.Valid, Zones, Lists, ListOk, PagesOk, UsageOk, SpareOk;
      LiveZone(Abs(), z);
      var zi := zones[z].zi;
      if zones[z].nfree == zones[z].nmax && |zoneArray[zi]| > 1 {
        Unlink(z, zi);
        if zoneFreeCnt + 1 > THRESH {
          ReleaseZone(z);
        } else {
          zoneFree := [z] + zoneFree;
          zoneFreeCnt := zoneFreeCnt + 1;
        }
      }
    }

    /** The zone would be one too many on zone_free: it is put there, taken off again and its pages released. */
    method ReleaseZone(z: nat)
      requires Valid() && zonePageCnt > 0 && z + zonePageCnt <= hi && PagesTheory.NoneFree(pages.runs, z, zonePageCnt)
      modifies this, pages, pages.next, pages.page
      ensures Valid() && zoneArray == old(zoneArray) && zoneFree == old(zoneFree) && large == old(large)
      ensures memusage == ClearPages(old(memusage), z, zonePageCnt) && zones == old(zones) - {z} && live == old(live) - {z}
      ensures pages.runs == PagesSpec.Release(old(pages.runs), z, zonePageCnt)
    {
      hide ClearPages, PagesSpec.Release;
      ClearUsage(z);
      zones := zones - {z};
      live := live - {z};
      pages.Free(z, zonePageCnt);
    }
  }

  lemma {:induction false} RemoveHere(l: seq<nat>, i: nat, z: nat)
    requires i < |l| && l[i] == z && z !in l[..i]
    ensures Remove(l, z) == l[..i] + l[i + 1..]
  {
    if i > 0 {
      assert l[0] == l[..i][0] && l[..i][1..] == l[1..][..i - 1];
      RemoveHere(l[1..], i - 1, z);
      assert l[..i] + l[i + 1..] == [l[0]] + (l[1..][..i - 1] + l[1..][i..]);
    }
  }

  /** memusage shows chunk k of zone z at address a. */
  ghost predicate ChunkFound(s: Slab, a: nat, z: nat, k: nat) {
    && LiveChunk(s, z, k) && z <= a / PAGE && a / PAGE in s.usage && s.usage[a / PAGE] == Small(a / PAGE - z)
    && s.zones[z].zi < NZONES && s.zones[z].size > 0 && ChunkAt(z, s.zones[z], a) == k
    && |s.lists| == NZONES && Free(s, a) == FreeSmall(s, z, k)
  }

  /** memusage shows a large block at address a. */
  ghost predicate LargeFound(s: Slab, a: nat) {
    && a / PAGE in s.large && a / PAGE in s.usage && s.usage[a / PAGE] == Large(s.large[a / PAGE])
    && |s.lists| == NZONES && Free(s, a) == FreeLarge(s, a / PAGE, s.large[a / PAGE])
  }

  /** memusage tells what lives at an address that is held. */
  lemma {:induction false} Locate(s: Slab, a: nat, z: nat, k: nat)
    requires LargeFound(s, a) || ChunkFound(s, a, z, k)
    ensures |s.lists| == NZONES && a / PAGE in s.usage
    ensures s.usage[a / PAGE].Large? ==>
      a / PAGE in s.large && s.usage[a / PAGE].pages == s.large[a / PAGE] && Free(s, a) == FreeLarge(s, a / PAGE, s.large[a / PAGE])
    ensures !s.usage[a / PAGE].Large? ==>
      (z <= a / PAGE && s.usage[a / PAGE] == Small(a / PAGE - z) && LiveChunk(s, z, k) && z in s.zones
       && s.zones[z].zi < NZONES && s.zones[z].size > 0 && ChunkAt(z, s.zones[z], a) == k && Free(s, a) == FreeSmall(s, z, k))
  {
    hide HandedOut, ChunkAt, Free, FreeLarge, FreeSmall;
  }

  lemma {:induction false} Lookup(s: Slab, a: nat) returns (z: nat, k: nat)
    requires Inv(s) && Holds(s, a)
    ensures LargeFound(s, a) || ChunkFound(s, a, z, k)
  {
    z, k := 0, 0;
    hide Inv, Address, LargeFound, ChunkFound, HandedOut;
    if y, j: nat :| y in s.zones && LiveChunk(s, y, j) && a == Address(y, s.zones[y], j) {
      LocateChunk(s, y, j);
      z, k := y, j;
    } else {
      var p: nat :| p in s.large && a == p * PAGE;
      LocateLarge(s, p);
    }
  }

  lemma {:induction false} UsageOf(s: Slab)
    requires Inv(s)
    ensures UsageOk(s)
  {
  }

  lemma {:induction false} LocateLarge(s: Slab, p: nat)
    requires Inv(s) && p in s.large
    ensures LargeFound(s, p * PAGE)
  {
    hide Free, FreeLarge, FreeSmall, Zones, SpareOk, PagesOk, Inv, Lists;
    LookupLarge(s, p);
    PageSplit(p, 0);
    ListCount(s);
    UsageOf(s);
  }

  lemma {:induction false} LocateChunk(s: Slab, z: nat, k: nat)
    requires Inv(s) && LiveChunk(s, z, k)
    ensures ChunkFound(s, Address(z, s.zones[z], k), z, k)
  {
    LookupChunk(s, z, k);
    assert ZoneOk(s.zoneSize, s.zones[z]);
    ChunkPage(s, z, k);
    hide Free, FreeSmall, Inv, Address, ChunkAt;
  }

  /** A live run is inside the pool and none of its pages is on the free list. */
  lemma {:induction false} LiveNotFree(s: Slab, p: nat)
    requires PagesOk(s) && p in s.pool.live
    ensures s.pool.live[p] > 0 && p + s.pool.live[p] <= s.pool.hi && PagesTheory.NoneFree(s.pool.free, p, s.pool.live[p])
  {
    forall x | p <= x < p + s.pool.live[p] ensures !PagesSpec.IsFree(s.pool.free, x) { assert s.pool.Held(x); }
  }

  lemma {:induction false} FreeChunks(zoneSize: nat, w: Zone)
    requires ZoneOk(zoneSize, w) && w.nfree > 0 && w.uindex + 1 == w.nmax
    ensures w.chunks != []
  {
  }

  lemma {:induction false} LiveZone(g: Slab, z: nat)
    requires Between(g, z)
    ensures z in g.zones && |g.lists| == NZONES && g.zones[z].zi < NZONES && z in g.lists[g.zones[z].zi]
    ensures g.ZonePages() > 0 && z + g.ZonePages() <= g.pool.hi && PagesTheory.NoneFree(g.pool.free, z, g.ZonePages())
  {
    LiveNotFree(g, z);
  }
}
