/** What callers of slab.c's rt_malloc may rely on: when it fails, which addresses
    are aligned, and that blocks are apart. */
module SlabPromises {
  import opened Machine
  import opened SlabSpec
  import opened SlabClasses
  import opened SlabTheory
  import opened SlabRuns
  import PagesSpec
  import PagesTheory

  // ----------------------------------------------------------------- failure

  /** Nowhere are count consecutive pages free. */
  ghost predicate NoPages(s: Slab, count: nat) {
    forall a :: !PagesTheory.AllFree(s.pool.free, a, count)
  }

  /** No zone serves the class of n bytes and none can be opened for it. */
  ghost predicate NoChunk(s: Slab, n: nat)
    requires Shaped(s) && ZoneIndex(n).1 < NZONES
  {
    s.lists[ZoneIndex(n).1] == [] && s.spare == [] && NoPages(s, s.ZonePages())
  }

  /** A small request fails exactly when its class has no zone with a free chunk,
      no wholly free zone is kept, and no zone's worth of consecutive pages is free. */
  lemma {:induction false} SmallFailsIff(s: Slab, n: nat)
    requires Inv(s) && 0 < n < s.Limit()
    ensures Shaped(s)
    ensures ZoneIndex(n).1 < NZONES
    ensures Malloc(s, n).1.None? <==>
      NoChunk(s, n)
  {
    Heads(s);
    SmallFits(s.zoneSize, n);
    ChunkAligned(ZoneIndex(n).1);
    BaseFits(ZoneIndex(n).0, s.zoneSize);
    PagesTheory.AllocFailsIff(s.pool.free, s.ZonePages());
    hide ZoneIndex, ChunkOf, BaseOf, ZoneSizeOk, Zones, Lists, SpareOk, PagesOk, UsageOk, PagesSpec.Alloc, Open, FromZone, MarkPages;
  }

  /** A large one fails exactly when that many consecutive pages are not free. */
  lemma {:induction false} LargeFailsIff(s: Slab, n: nat)
    requires Inv(s) && n > 0 && n >= s.Limit()
    ensures Shaped(s)
    ensures Malloc(s, n).1.None? <==> NoPages(s, RoundUp(n, PAGE) / PAGE)
  {
    Heads(s);
    RoundUpFacts(n, PAGE);
    PagesTheory.AllocFailsIff(s.pool.free, RoundUp(n, PAGE) / PAGE);
    hide RoundUp, PagesSpec.Alloc, Inv;
  }

  /** When rt_malloc answers RT_NULL: always for no bytes, where nothing changes
      either, and otherwise exactly when the class or the pages have nothing left. */
  lemma {:induction false} FailsIff(s: Slab, n: nat)
    requires Inv(s)
    ensures Shaped(s) && (0 < n < s.Limit() ==> ZoneIndex(n).1 < NZONES)
    ensures Malloc(s, n).1.None? <==>
      n == 0 || (if n < s.Limit() then NoChunk(s, n) else NoPages(s, RoundUp(n, PAGE) / PAGE))
    ensures Malloc(s, 0) == (s, None)
  {
    hide NoPages, Inv, Shaped, ZoneIndex;
    ShapedBy(s);
    if n > 0 {
      if n < s.Limit() { SmallFailsIff(s, n); } else { LargeFailsIff(s, n); }
    }
  }

  lemma {:induction false} ShapedBy(s: Slab)
    requires Inv(s)
    ensures Shaped(s)
  {
    Heads(s);
  }

  // --------------------------------------------------------------- separation

  /** A chunk and a large block share no byte. */
  lemma {:induction false} ChunkLargeApart(s: Slab, z: nat, k: nat, p: nat)
    requires Inv(s) && LiveChunk(s, z, k) && p in s.large
    ensures Address(z, s.zones[z], k) + s.zones[z].size <= p * PAGE || (p + s.large[p]) * PAGE <= Address(z, s.zones[z], k)
  {
    hide PagesOk, Lists, UsageOk, SpareOk, Zones, ZoneOk, ChunkOf, BaseOf;
    InService(s, z, k);
    ChunkInside(s.zoneSize, s.zones[z], k);
    RunsApart(s, z, p);
    if z + s.ZonePages() <= p { ZoneEnd(s.zoneSize, z, p); }
  }

  lemma {:induction false} RunsApart(s: Slab, z: nat, p: nat)
    requires PagesOk(s) && z in s.zones && p in s.large
    ensures z + s.ZonePages() <= p || p + s.large[p] <= z
  {
    assert z in s.pool.live && p in s.pool.live && z != p;
  }

  lemma {:induction false} LargeApart(s: Slab, p: nat, q: nat)
    requires Inv(s) && p in s.large && q in s.large && p < q
    ensures (p + s.large[p]) * PAGE <= q * PAGE
  {
    assert p in s.pool.live && q in s.pool.live;
  }

  // ---------------------------------------------------------------- alignment

  ghost predicate PowerOfTwo(n: nat) {
    n == 1 || (n > 1 && n % 2 == 0 && PowerOfTwo(n / 2))
  }

  lemma {:induction false} Powers(n: nat)
    requires PowerOfTwo(n)
    ensures n <= PAGE ==> n in {1, 2, 4} || IsPower(n)
    ensures n > PAGE ==> n % (2 * PAGE) == 0
  {
    assert PowerOfTwo(1);
    if n > PAGE {
      PowersAbove(n);
    } else {
      PowersBelow(n);
    }
  }

  lemma {:induction false} PowersBelow(n: nat)
    requires PowerOfTwo(n) && n <= PAGE
    ensures n in {1, 2, 4} || IsPower(n)
  {
    if n > 1 { PowersBelow(n / 2); }
  }

  lemma {:induction false} PowersAbove(n: nat)
    requires PowerOfTwo(n) && n > PAGE
    ensures n % (2 * PAGE) == 0
  {
    if n / 2 > PAGE {
      PowersAbove(n / 2);
    } else {
      PowersBelow(n / 2);
    }
  }

  /** A power of two is its own chunk size, but for the smallest. */
  lemma {:induction false} PowerClass(n: nat)
    requires IsPower(n) && n <= PAGE
    ensures ZoneIndex(n).0 == n
  {
    ClassFits(n);
    if n > 8 { PowerExact(n); }
  }

  lemma {:induction false} PowerExact(n: nat)
    requires IsPower(n) && 8 < n <= PAGE
    ensures ZoneIndex(n).0 == n
  {
    var u := if n < 128 then 8 else if n < 256 then 16 else if n < 512 then 32 else if n < 1024 then 64
             else if n < 2048 then 128 else if n < 4096 then 256 else 512;
    RoundUpFacts(n, u);
    hide RoundUp;
    DivIs(n + u - 1, u, n / u);
  }

  lemma {:induction false} SumAligned(z: nat, q: nat, k: nat, n: nat)
    requires IsPower(n) && n <= PAGE
    ensures (z * PAGE + q * n + k * n) % n == 0
  {
    assert PAGE % n == 0;
    var m := PAGE / n;
    assert PAGE == m * n;
    ThreeTimes(z, m, q, k, n);
    MultipleOf(z * m + q + k, n);
  }

  lemma {:induction false} ThreeTimes(z: nat, m: nat, q: nat, k: nat, n: nat)
    ensures z * (m * n) + q * n + k * n == (z * m + q + k) * n
  {
  }

  lemma {:induction false} MultipleOf(q: nat, n: nat)
    requires n > 0
    ensures (q * n) % n == 0
  {
    WholeMultiple(q, n);
  }

  /** Chunks of a power of two up to a page are aligned to their size. */
  lemma {:induction false} ChunkPowerAligned(z: nat, w: Zone, k: nat)
    requires IsPower(w.size) && w.size <= PAGE && w.base == BaseOf(w.size)
    ensures Address(z, w, k) % w.size == 0
  {
    RoundUpFacts(ZONE_HEADER, w.size);
    SumAligned(z, (ZONE_HEADER + w.size - 1) / w.size, k, w.size);
    hide IsPower, RoundUp;
  }

  /** rt_malloc answers a request for n bytes, if at all, with a multiple of n. */
  ghost predicate AlignedAnswer(s: Slab, n: nat)
    requires n > 0
    requires Shaped(s)
  {
    Malloc(s, n).1.Some? ==> Malloc(s, n).1.value % n == 0
  }

  lemma {:induction false} AlignedUpToAPage(s: Slab, n: nat)
    requires Inv(s) && PowerOfTwo(n) && n <= PAGE
    ensures Shaped(s)
    ensures AlignedAnswer(s, n)
  {
    Powers(n);
    var z, k := MallocStep(s, n);
    if n < 8 { TinyClass(n); } else { PowerClass(n); }
    assert n < s.Limit();
    var (g, a) := Malloc(s, n);
    hide PowerOfTwo, Malloc, ZoneIndex;
    if a.Some? { ServedAligned(s, g, ZoneIndex(n).0, a.value, z, k); }
  }

  lemma {:induction false} ServedAligned(s: Slab, g: Slab, size: nat, a: nat, z: nat, k: nat)
    requires Inv(g) && Served(s, g, size, a, z, k) && IsPower(size) && size <= PAGE
    ensures a % size == 0 && (size == 8 ==> a % 4 == 0 && a % 2 == 0)
  {
    InService(g, z, k);
    hide Inv, LiveChunk, IsPower, BaseOf, ChunkOf;
    ChunkPowerAligned(z, g.zones[z], k);
    if size == 8 { ByEight(a); }
  }

  lemma {:induction false} ByEight(a: nat)
    requires a % 8 == 0
    ensures a % 4 == 0 && a % 2 == 0
  {
    var q := a / 8;
    assert a == 2 * q * 4 == 4 * q * 2;
    MultipleOf(2 * q, 4);
    MultipleOf(4 * q, 2);
  }

  lemma {:induction false} InService(s: Slab, z: nat, k: nat)
    requires Inv(s) && LiveChunk(s, z, k)
    ensures z in s.zones && ZoneOk(s.zoneSize, s.zones[z]) && k < s.zones[z].nmax
    ensures s.zones[z].size > 0 && s.zones[z].base == BaseOf(s.zones[z].size)
  {
    assert ZoneOk(s.zoneSize, s.zones[z]);
  }

  lemma {:induction false} TinyClass(n: nat)
    requires 0 < n <= 8
    ensures ZoneIndex(n).0 == 8
  {
  }

  /** The heap lies in the 32-bit address range. */
  predicate InRange(s: Slab) {
    s.pool.hi * PAGE < WORD
  }

  /** A heap of half as many pages again as the request takes. */
  function HeapFor(lo: nat, m: nat): Slab {
    Init(lo, m + m / 2)
  }

  ghost predicate Multiple(x: nat, m: nat)
    requires m > 0
  {
    x % m == 0
  }

  /** The first page behind memusage is no multiple of m. */
  ghost predicate OffPlace(lo: nat, m: nat)
    requires m > 0
  {
    !Multiple(lo + MetaPages(m + m / 2), m)
  }

  lemma {:induction false} Place(m: nat) returns (lo: nat)
    requires m >= 2
    ensures 1 <= lo <= 2 && OffPlace(lo, m)
  {
    var meta := MetaPages(m + m / 2);
    hide MetaPages, Multiple;
    lo := if Multiple(1 + meta, m) then 2 else 1;
    if lo == 2 { NotBoth(1 + meta, m); }
  }

  /** A heap in which a request for m pages gets pages that are not aligned to them. */
  lemma {:induction false} Misaligned(m: nat) returns (s: Slab)
    requires 2 <= m && m * PAGE <= WORD / 2
    ensures Inv(s) && InRange(s) && Shaped(s)
    ensures !AlignedAnswer(s, m * PAGE)
  {
    hide Inv, Init, MetaPages, AlignedAnswer, Malloc, InRange, Shaped, OffPlace;
    var lo := Place(m);
    InitInv(lo, m + m / 2);
    s := HeapFor(lo, m);
    HeapEnds(lo, m);
    ShapedBy(s);
    OffAt(lo, m);
  }

  lemma {:induction false} HeapEnds(lo: nat, m: nat)
    requires 1 <= lo <= 2 && m * PAGE <= WORD / 2
    ensures InRange(HeapFor(lo, m))
  {
    hide MetaPages;
  }

  lemma {:induction false} OffAt(lo: nat, m: nat)
    requires m >= 2 && OffPlace(lo, m)
    requires Shaped(HeapFor(lo, m))
    ensures !AlignedAnswer(HeapFor(lo, m), m * PAGE)
  {
    var p := lo + MetaPages(m + m / 2);
    MetaHalf(m);
    InitFree(lo, m + m / 2);
    LimitBelow(lo, m);
    hide Inv, Init, Malloc, MetaPages;
    FirstLarge(HeapFor(lo, m), p, m);
    PageOff(p, m);
  }

  /** Two neighbours are not both multiples. */
  lemma {:induction false} NotBoth(x: nat, m: nat)
    requires m >= 2 && Multiple(x, m)
    ensures !Multiple(x + 1, m)
  {
    DivIs(x + 1, m, x / m);
  }

  lemma {:induction false} InitFree(lo: nat, npages: nat)
    requires MetaPages(npages) < npages
    ensures Init(lo, npages).pool.free == [PagesSpec.Run(lo + MetaPages(npages), npages - MetaPages(npages))]
  {
    hide MetaPages;
    var rs := [PagesSpec.Run(lo, npages)];
    assert rs[1..] == [];
  }

  /** A request for two thirds of the pages is beyond the limit for zone requests. */
  lemma {:induction false} LimitBelow(lo: nat, m: nat)
    requires m >= 2
    ensures m * PAGE >= HeapFor(lo, m).Limit()
  {
  }

  lemma {:induction false} MetaHalf(m: nat)
    requires m >= 2
    ensures MetaPages(m + m / 2) <= m / 2
  {
    var b := 4 * (m + m / 2);
    RoundUpFacts(b, PAGE);
    WholeMultiple((b + PAGE - 1) / PAGE, PAGE);
    assert (b + PAGE - 1) / PAGE <= m / 2;
  }

  /** In a heap that is one run of free pages a large block starts at its front. */
  lemma {:induction false} FirstLarge(s: Slab, p: nat, m: nat)
    requires Shaped(s)
    requires m > 0 && m * PAGE >= s.Limit()
    requires s.pool.free != [] && s.pool.free[0].start == p && s.pool.free[0].len >= m
    ensures Malloc(s, m * PAGE).1 == Some(p * PAGE)
  {
    RoundUpFacts(m * PAGE, PAGE);
    WholeMultiple((m * PAGE + PAGE - 1) / PAGE, PAGE);
    hide RoundUp;
  }

  /** Page p is aligned to m pages only if p is a multiple of m. */
  lemma {:induction false} PageOff(p: nat, m: nat)
    requires m > 0 && p % m != 0
    ensures p * PAGE % (m * PAGE) != 0
  {
    var q := p / m;
    assert p == q * m + p % m;
    assert p * PAGE == q * (m * PAGE) + (p % m) * PAGE by { Scale(q, m, p % m); }
    DivIs(p * PAGE, m * PAGE, q);
  }

  lemma {:induction false} Scale(q: nat, m: nat, r: nat)
    ensures (q * m + r) * PAGE == q * (m * PAGE) + r * PAGE
  {
  }

  /** Powers of two are at least a factor of two apart. */
  lemma {:induction false} PowersApart(n: nat, b: nat)
    requires PowerOfTwo(n) && PowerOfTwo(b) && n < b
    ensures 2 * n <= b
  {
    if n > 1 { PowersApart(n / 2, b / 2); }
  }

  lemma {:induction false} WordPower()
    ensures PowerOfTwo(WORD)
  {
    assert PowerOfTwo(16);
    PowersMultiply(16, 16);
    PowersMultiply(0x100, 0x100);
    PowersMultiply(0x1_0000, 0x1_0000);
  }

  lemma {:induction false} PowersMultiply(a: nat, b: nat)
    requires PowerOfTwo(a) && PowerOfTwo(b)
    ensures PowerOfTwo(a * b)
  {
    hide PowerOfTwo;
    if a <= 1 {
      PowerPositive(a);
    } else {
      var c := PowerHalf(a);
      PowersMultiply(c, b);
      Twice(c, b);
      PowerTwice(c * b);
    }
  }

  lemma {:induction false} PowerPositive(a: nat)
    requires PowerOfTwo(a)
    ensures a > 0
  {
  }

  lemma {:induction false} PowerHalf(a: nat) returns (c: nat)
    requires PowerOfTwo(a) && a > 1
    ensures a == 2 * c && PowerOfTwo(c)
  {
    c := a / 2;
  }

  lemma {:induction false} PowerTwice(a: nat)
    requires PowerOfTwo(a)
    ensures PowerOfTwo(2 * a)
  {
    assert 2 * a / 2 == a;
  }

  lemma {:induction false} Twice(a: nat, b: nat)
    ensures (2 * a) * b == 2 * (a * b)
  {
  }

  lemma {:induction false} WholePages(n: nat) returns (m: nat)
    requires n % (2 * PAGE) == 0
    ensures n == m * PAGE
  {
    m := n / (2 * PAGE) * 2;
  }

  lemma {:induction false} MisalignedBytes(n: nat) returns (s: Slab)
    requires PAGE < n <= WORD / 2 && n % (2 * PAGE) == 0
    ensures Inv(s) && InRange(s) && Shaped(s)
    ensures !AlignedAnswer(s, n)
  {
    hide Inv, AlignedAnswer, InRange, Shaped;
    var m := WholePages(n);
    s := Misaligned(m);
  }

  /** Power-of-two requests are aligned to their size in every heap exactly up to a page:
      the promise that all of them are does not hold beyond. */
  lemma {:induction false} PowerAlignedIff(n: nat)
    requires PowerOfTwo(n) && n < WORD
    ensures n <= PAGE <==> forall s: Slab :: Inv(s) && InRange(s) ==>
        (Shaped(s) && AlignedAnswer(s, n))
  {
    hide Inv, AlignedAnswer, InRange, PowerOfTwo, Shaped;
    Powers(n);
    WordPower();
    PowersApart(n, WORD);
    if n <= PAGE {
      forall s: Slab | Inv(s) && InRange(s)
        ensures Shaped(s) && AlignedAnswer(s, n)
      {
        AlignedUpToAPage(s, n);
      }
    } else {
      var s := MisalignedBytes(n);
    }
  }
}
