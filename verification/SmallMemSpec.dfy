/** The byte heap of mem.c as a state machine over block layouts.

    A state lists every block from offset 0 to the end sentinel together with the
    three global variables of the allocator. The class in SmallMem.dfy carries
    out the pointer work and is proved to take exactly these steps. */
module SmallMemSpec {
  import opened Machine
  import opened Tiling

  /** SIZEOF_STRUCT_MEM on a 32-bit target: magic, used, next, prev. */
  const HDR: nat := 12
  /** MIN_SIZE and MIN_SIZE_ALIGNED. */
  const MIN: nat := 12

  /** Every header is word-aligned and followed by at least one payload byte. */
  ghost predicate Sound(bs: seq<Block>) {
    forall b :: b in bs ==> b.off % 4 == 0 && b.ext > HDR
  }

  /** The `next` chain from offset 0 tiles the heap and hides no free neighbours. */
  ghost predicate Good(bs: seq<Block>, end: nat) {
    Tiles(bs, 0, end) && Sound(bs) && Settled(bs)
  }

  /** size is mem_size_aligned; the end sentinel's header sits at size + HDR. */
  datatype Heap = Heap(size: nat, blocks: seq<Block>, lfree: nat, used: nat, peak: nat) {
    function End(): nat { size + HDR }

    ghost predicate LfreeOk() {
      lfree == End() || HasFree(blocks, lfree)
    }

    ghost predicate NothingLive() {
      forall b :: b in blocks ==> !b.used
    }

    /** lfree is the lowest free block, or the sentinel when there is none. */
    ghost predicate Lowest() {
      forall b :: b in blocks && !b.used ==> lfree <= b.off
    }

    ghost predicate Layout() {
      && MIN <= size && size % 4 == 0 && size + 2 * HDR < WORD
      && Good(blocks, End())
    }

    ghost predicate Inv() {
      && Layout()
      && LfreeOk()
      && (NothingLive() ==> lfree == 0)
      && used == UsedExt(blocks) && used <= peak
    }

    /** p is a pointer that rt_malloc returned and nobody has freed. */
    ghost predicate IsLive(p: int) {
      exists b :: b in blocks && b.off + HDR == p && b.used
    }

    /** What rt_free and rt_realloc accept: RT_NULL, a live pointer, or one
        outside the heap, which they ignore. */
    ghost predicate MayPass(p: Option<int>) {
      p.Some? ==> p.value < 0 || p.value >= End() || IsLive(p.value)
    }
  }

  // ------------------------------------------------------------ rt_malloc

  ghost predicate Fits(bs: seq<Block>, k: int, limit: int, size: nat) {
    0 <= k < |bs| && bs[k].off < limit && !bs[k].used && bs[k].ext >= size + HDR
  }

  /** The search of rt_malloc: walk up from index `from` while below limit. */
  function FirstFit(bs: seq<Block>, from: nat, limit: int, size: nat): (r: nat)
    requires from <= |bs|
    ensures from <= r <= |bs|
    decreases |bs| - from
  {
    if from == |bs| || bs[from].off >= limit then |bs|
    else if !bs[from].used && bs[from].ext >= size + HDR then from
    else FirstFit(bs, from + 1, limit, size)
  }

  lemma {:induction false} FirstFitLeast(bs: seq<Block>, lo: nat, hi: nat, from: nat, limit: int, size: nat)
    requires Tiles(bs, lo, hi) && from <= |bs|
    ensures var r := FirstFit(bs, from, limit, size);
      && (r < |bs| ==> Fits(bs, r, limit, size))
      && (forall k :: from <= k < r ==> !Fits(bs, k, limit, size))
    decreases |bs| - from
  {
    if from == |bs| {
    } else if bs[from].off >= limit {
      forall k | from <= k < |bs| ensures !Fits(bs, k, limit, size) { Sides(bs, lo, hi, from, k); }
    } else if !bs[from].used && bs[from].ext >= size + HDR {
    } else {
      FirstFitLeast(bs, lo, hi, from + 1, limit, size);
    }
  }

  /** Offset of the first free block at or above index i, end if there is none:
      where the lfree loop of rt_malloc stops. */
  function NextFree(bs: seq<Block>, i: nat, end: nat): nat
    requires i <= |bs|
    decreases |bs| - i
  {
    if i == |bs| then end
    else if !bs[i].used then bs[i].off
    else NextFree(bs, i + 1, end)
  }

  lemma {:induction false} NextFreeLeast(bs: seq<Block>, i: nat, end: nat)
    requires Tiles(bs, 0, end) && i <= |bs|
    ensures var f := NextFree(bs, i, end);
      && (f == end || HasFree(bs, f))
      && (forall k :: i <= k < |bs| && !bs[k].used ==> f <= bs[k].off)
    decreases |bs| - i
  {
    if i < |bs| && bs[i].used {
      NextFreeLeast(bs, i + 1, end);
    } else if i < |bs| {
      assert bs[i] in bs;
      forall k | i <= k < |bs| && !bs[k].used ensures bs[i].off <= bs[k].off { Sides(bs, 0, end, i, k); }
    }
  }

  /** Hand out block i: split it when a header and MIN bytes fit behind. */
  function Take(bs: seq<Block>, i: nat, size: nat): (r: seq<Block>)
    requires i < |bs| && bs[i].ext >= size + HDR
    ensures i < |r| && r[i].off == bs[i].off && r[i].used
  {
    if bs[i].ext >= size + 2 * HDR + MIN
    then Split(bs, i, size + HDR, true, false)
    else Mark(bs, i, true)
  }

  function MallocAt(h: Heap, i: nat, size: nat): Heap
    requires i < |h.blocks| && h.blocks[i].ext >= size + HDR
  {
    var bs := Take(h.blocks, i, size);
    var used := h.used + bs[i].ext;
    h.(blocks := bs,
       used := used,
       peak := Max(h.peak, used),
       lfree := if h.blocks[i].off == h.lfree then NextFree(bs, i, h.End()) else h.lfree)
  }

  /** What rt_malloc looks for when asked for n bytes. */
  function Request(n: nat): (r: nat)
    ensures r % 4 == 0 && MIN <= r
  {
    Max(AlignUp(n), MIN)
  }

  function Pick(h: Heap, n: nat): nat
  {
    FirstFit(h.blocks, Pos(h.blocks, h.lfree), h.size - Request(n), Request(n))
  }

  function Malloc(h: Heap, n: nat): (Heap, Option<int>)
  {
    if n == 0 || AlignUp(n) > h.size then (h, None)
    else
      var i := Pick(h, n);
      if i < |h.blocks| && h.blocks[i].ext >= Request(n) + HDR
      then (MallocAt(h, i, Request(n)), Some(h.blocks[i].off + HDR))
      else (h, None)
  }

  // ------------------------------------------------------------ rt_free

  /** plug_holes moves lfree down when the block it names is absorbed. */
  function PlugLfree(bs: seq<Block>, i: nat, lfree: nat): nat
    requires i < |bs|
  {
    var f := if i + 1 < |bs| && !bs[i + 1].used && lfree == bs[i + 1].off then bs[i].off else lfree;
    if i > 0 && !bs[i - 1].used && f == bs[i].off then bs[i - 1].off else f
  }

  function FreeAt(h: Heap, i: nat): Heap
    requires i < |h.blocks| && h.blocks[i].ext <= h.used
  {
    var bs := Mark(h.blocks, i, false);
    var f := if bs[i].off < h.lfree then bs[i].off else h.lfree;
    h.(blocks := Coalesce(bs, i), lfree := PlugLfree(bs, i, f), used := h.used - h.blocks[i].ext)
  }

  /** rt_free of a pointer at offset p of the heap; out-of-range pointers are ignored. */
  function Free(h: Heap, p: int): Heap
  {
    var i := Pos(h.blocks, p - HDR);
    if p < 0 || p >= h.End() then h
    else if i < |h.blocks| && h.blocks[i].ext <= h.used then FreeAt(h, i) else h
  }

  function FreeOpt(h: Heap, p: Option<int>): Heap {
    if p.Some? then Free(h, p.value) else h
  }

  // ------------------------------------------------------------ rt_realloc

  /** Give back the tail of block i, keeping ns payload bytes. */
  function Shrink(h: Heap, i: nat, ns: nat): Heap
    requires i < |h.blocks| && 0 < ns + HDR < h.blocks[i].ext <= h.used
  {
    var bs := Split(h.blocks, i, ns + HDR, true, false);
    h.(blocks := MergeRight(bs, i + 1),
       lfree := if i + 2 < |bs| && !bs[i + 2].used && h.lfree == bs[i + 2].off then bs[i + 1].off else h.lfree,
       used := h.used - (h.blocks[i].ext - HDR - ns))
  }

  /** Allocate a new block, copy, release the block with header at mem. */
  function AllocCopyFree(h: Heap, mem: int, ns: nat): (Heap, Option<int>)
  {
    var (g, q) := Malloc(h, ns);
    if q.Some? then (Free(g, mem + HDR), q) else (g, q)
  }

  function ResizeAt(h: Heap, i: nat, ns: nat): (Heap, Option<int>)
    requires i < |h.blocks| && HDR <= h.blocks[i].ext <= h.used && 0 < ns
  {
    var size := h.blocks[i].ext - HDR;
    var p := h.blocks[i].off + HDR;
    if size == ns then (h, Some(p))
    else if ns + HDR + MIN < size then (Shrink(h, i, ns), Some(p))
    else AllocCopyFree(h, h.blocks[i].off, ns)
  }

  function Realloc(h: Heap, rmem: Option<int>, n: nat): (Heap, Option<int>)
  {
    var ns := AlignUp(n);
    if ns > h.size then (h, None)
    else if ns == 0 then (FreeOpt(h, rmem), None)
    else if rmem.None? then Malloc(h, ns)
    else if rmem.value < 0 || rmem.value >= h.End() then (h, rmem)
    else
      var i := Pos(h.blocks, rmem.value - HDR);
      if i < |h.blocks| && HDR <= h.blocks[i].ext <= h.used then ResizeAt(h, i, ns) else (h, rmem)
  }

  // ------------------------------------------------------------ runs

  datatype Op = DoMalloc(n: nat) | DoFree(p: Option<int>) | DoRealloc(rmem: Option<int>, n: nat)

  /** The caller's side: only live pointers, or pointers outside the heap. */
  ghost predicate Legal(h: Heap, op: Op) {
    match op
    case DoMalloc(n) => n < WORD
    case DoFree(p) => h.MayPass(p)
    case DoRealloc(p, n) => n < WORD && h.MayPass(p)
  }

  function Step(h: Heap, op: Op): Heap {
    match op
    case DoMalloc(n) => Malloc(h, n).0
    case DoFree(p) => FreeOpt(h, p)
    case DoRealloc(p, n) => Realloc(h, p, n).0
  }

  /** The heap rt_system_heap_init leaves behind. */
  function Fresh(size: nat): Heap {
    Heap(size, [Block(0, size + HDR, false)], 0, 0, 0)
  }

  /** g is reached from h by legal calls. */
  ghost predicate Reaches(h: Heap, ops: seq<Op>, g: Heap)
    decreases |ops|
  {
    if ops == [] then g == h
    else Legal(h, ops[0]) && Reaches(Step(h, ops[0]), ops[1..], g)
  }
}
