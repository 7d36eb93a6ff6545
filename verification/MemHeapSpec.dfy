/** The heap of memheap.c: an address-ordered block list and an unordered free
    list over the same blocks, as a state machine. */
module MemHeapSpec {
  import opened Machine
  import opened OrderedList
  import opened Tiling

  /** RT_MEMHEAP_SIZE on a 32-bit target, and RT_MEMHEAP_MINIALLOC. */
  const HDR: nat := 24
  const MINI: nat := 12

  function Payload(b: Block): int { b.ext - HDR }

  /** The sum of the free payloads. */
  function FreePay(bs: seq<Block>): int {
    if bs == [] then 0 else FreePay(bs[..|bs| - 1]) + PayOne(bs[|bs| - 1])
  }

  function PayOne(b: Block): int { if b.used then 0 else Payload(b) }

  /** Headers are word-aligned and have room. */
  ghost predicate Sound(bs: seq<Block>) {
    forall b :: b in bs ==> b.off % 4 == 0 && b.ext >= HDR
  }

  /** pool is pool_size; the used tail item's header sits at pool - HDR. */
  datatype Heap = Heap(pool: nat, blocks: seq<Block>, free: seq<nat>, avail: int, peak: int) {
    function End(): int { pool - HDR }

    ghost predicate Layout() {
      && 2 * HDR <= pool && pool % 4 == 0 && pool + 2 * HDR < WORD
      && Tiles(blocks, 0, pool - HDR) && Sound(blocks) && Settled(blocks)
    }

    /** The free list holds exactly the unused blocks, once each. */
    ghost predicate FreeList() {
      Distinct(free) && forall f :: f in free <==> HasFree(blocks, f)
    }

    ghost predicate Inv() {
      Layout() && FreeList() && avail == FreePay(blocks) && pool - avail <= peak
    }

    ghost predicate IsLive(p: int) {
      exists b :: b in blocks && b.off + HDR == p && b.used
    }

    ghost predicate NothingLive() {
      forall b :: b in blocks ==> !b.used
    }
  }

  /** rt_memheap_init. */
  function Fresh(pool: nat): Heap
    requires 2 * HDR <= pool
  {
    Heap(pool, [Block(0, pool - HDR, false)], [0], pool - 2 * HDR, 2 * HDR)
  }

  /** available_size falls to `avail`, max_used_size follows. */
  function Spend(h: Heap, avail: int): Heap {
    h.(avail := avail, peak := if h.pool - avail > h.peak then h.pool - avail else h.peak)
  }

  // ------------------------------------------------------------- rt_memheap_alloc

  /** The aligned request, at least RT_MEMHEAP_MINIALLOC. */
  function Request(n: nat): (r: nat)
    ensures r % 4 == 0 && MINI <= r
  {
    Max(AlignUp(n), MINI)
  }

  /** The search: the first block of the free list that is large enough. */
  function FirstBig(bs: seq<Block>, free: seq<nat>, size: nat): (k: nat)
    ensures k <= |free|
  {
    if free == [] then 0
    else
      var i := Pos(bs, free[0]);
      if i < |bs| && Payload(bs[i]) >= size then 0 else 1 + FirstBig(bs, free[1..], size)
  }

  /** Hand out block i, split when another block fits behind. */
  function AllocAt(h: Heap, i: nat, size: nat): Heap
    requires i < |h.blocks| && Payload(h.blocks[i]) >= size
  {
    var b := h.blocks[i];
    if Payload(b) >= size + HDR + MINI then
      Spend(h, h.avail - size - HDR).(
        blocks := Split(h.blocks, i, size + HDR, true, false),
        free := [b.off + size + HDR] + Remove(h.free, b.off))
    else
      Spend(h, h.avail - Payload(b)).(blocks := Mark(h.blocks, i, true), free := Remove(h.free, b.off))
  }

  function Alloc(h: Heap, n: nat): (Heap, Option<int>) {
    var size := Request(n);
    var k := FirstBig(h.blocks, h.free, size);
    if size >= h.avail || k == |h.free| then (h, None)
    else
      var i := Pos(h.blocks, h.free[k]);
      if i < |h.blocks| && Payload(h.blocks[i]) >= size
      then (AllocAt(h, i, size), Some(h.blocks[i].off + HDR))
      else (h, None)
  }

  // -------------------------------------------------------------- rt_memheap_free

  function FreeLeft(bs: seq<Block>, i: nat): bool
    requires i < |bs|
  {
    i > 0 && !bs[i - 1].used
  }

  function FreeRight(bs: seq<Block>, i: nat): bool
    requires i < |bs|
  {
    i + 1 < |bs| && !bs[i + 1].used
  }

  /** Release block i: a free left neighbour absorbs it, a free right neighbour is
      absorbed; without a left neighbour it is put in front of the free list. */
  function FreeAt(h: Heap, i: nat): Heap
    requires i < |h.blocks|
  {
    var bs := h.blocks;
    var f := if FreeRight(bs, i) then Remove(h.free, bs[i + 1].off) else h.free;
    h.(blocks := Coalesce(Mark(bs, i, false), i),
       free := if FreeLeft(bs, i) then f else [bs[i].off] + f,
       avail := h.avail + Payload(bs[i]) + (if FreeLeft(bs, i) then HDR else 0) + (if FreeRight(bs, i) then HDR else 0))
  }

  function Free(h: Heap, p: int): Heap {
    var i := Pos(h.blocks, p - HDR);
    if i < |h.blocks| then FreeAt(h, i) else h
  }

  function FreeOpt(h: Heap, p: Option<int>): Heap {
    if p.Some? then Free(h, p.value) else h
  }

  // ----------------------------------------------------------- rt_memheap_realloc

  /** Take ns - oldsize bytes from the free right neighbour. */
  function Grow(h: Heap, i: nat, ns: nat): Heap
    requires i + 1 < |h.blocks| && 0 < ns + HDR < h.blocks[i].ext + h.blocks[i + 1].ext
  {
    var bs := h.blocks;
    Spend(h, h.avail - (ns - Payload(bs[i]))).(
      blocks := Split(Merge(bs, i), i, ns + HDR, true, false),
      free := [bs[i].off + HDR + ns] + Remove(h.free, bs[i + 1].off))
  }

  /** Cut off the tail of block i and join it with a free right neighbour. */
  function Shrink(h: Heap, i: nat, ns: nat): Heap
    requires i < |h.blocks| && 0 < ns + HDR < h.blocks[i].ext
  {
    var bs := h.blocks;
    var cut := Split(bs, i, ns + HDR, true, false);
    h.(blocks := MergeRight(cut, i + 1),
       free := [bs[i].off + ns + HDR] + (if FreeRight(bs, i) then Remove(h.free, bs[i + 1].off) else h.free),
       avail := h.avail + Payload(bs[i]) - ns - HDR + (if FreeRight(bs, i) then HDR else 0))
  }

  /** The test for growing in place as it is written: the sum with
      RT_MEMHEAP_MINIALLOC may wrap. */
  predicate GrowTest(room: int, had: int, ns: nat) {
    room + had > (ns + MINI) % WORD
  }

  /** The wrapped test sends a realloc of block i into a right neighbour that does
      not have the room. */
  predicate Misjudged(h: Heap, i: nat, ns: nat) {
    && i < |h.blocks| && ns > Payload(h.blocks[i]) && FreeRight(h.blocks, i)
    && GrowTest(Payload(h.blocks[i + 1]), Payload(h.blocks[i]), ns)
    && Payload(h.blocks[i + 1]) + Payload(h.blocks[i]) <= ns + MINI
  }

  function AllocCopyFree(h: Heap, p: int, ns: nat): (Heap, Option<int>) {
    var (g, q) := Alloc(h, ns);
    if q.Some? then (Free(g, p), q) else (g, q)
  }

  /** rt_memheap_realloc of the live block i to ns bytes. */
  function ResizeAt(h: Heap, i: nat, ns: nat): (Heap, Option<int>)
    requires i < |h.blocks| && 0 < ns
  {
    var bs, had, p := h.blocks, Payload(h.blocks[i]), h.blocks[i].off + HDR;
    if ns > had then
      if FreeRight(bs, i) && Payload(bs[i + 1]) + had > ns + MINI then (Grow(h, i, ns), Some(p))
      else AllocCopyFree(h, p, ns)
    else if ns + HDR + MINI >= had then (h, Some(p))
    else (Shrink(h, i, ns), Some(p))
  }

  function Realloc(h: Heap, p: Option<int>, n: nat): (Heap, Option<int>) {
    if n == 0 then (FreeOpt(h, p), None)
    else if p.None? then Alloc(h, Request(n))
    else
      var i := Pos(h.blocks, p.value - HDR);
      if i < |h.blocks| then ResizeAt(h, i, Request(n)) else (h, p)
  }

  // ------------------------------------------------------------------------ runs

  datatype Op = DoAlloc(n: nat) | DoFree(p: Option<int>) | DoRealloc(p: Option<int>, n: nat)

  /** Callers pass live pointers or RT_NULL, and do not ask realloc for a size that
      its growth test misjudges. */
  ghost predicate Legal(h: Heap, op: Op) {
    match op
    case DoAlloc(n) => n < WORD
    case DoFree(p) => p.Some? ==> h.IsLive(p.value)
    case DoRealloc(p, n) =>
      n < WORD && (p.Some? ==> h.IsLive(p.value) && (n > 0 ==> !Misjudged(h, Pos(h.blocks, p.value - HDR), Request(n))))
  }

  function Step(h: Heap, op: Op): Heap {
    match op
    case DoAlloc(n) => Alloc(h, n).0
    case DoFree(p) => FreeOpt(h, p)
    case DoRealloc(p, n) => Realloc(h, p, n).0
  }

  ghost predicate Reaches(h: Heap, ops: seq<Op>, g: Heap)
    decreases |ops|
  {
    if ops == [] then g == h else Legal(h, ops[0]) && Reaches(Step(h, ops[0]), ops[1..], g)
  }
}
