/** What each call on a memory-heap object makes of the parts of the state that the
    live items do not determine: which item is taken and how much of it, the order of
    the free list, and max_used_size; and when rt_memheap_realloc succeeds. */
module MemHeapExact {
  import opened Machine
  import opened OrderedList
  import opened Tiling
  import opened MemHeapSpec
  import opened MemHeapTheory

  /** The free item at f has room for `size` bytes. */
  ghost predicate RoomAt(h: Heap, f: nat, size: nat) {
    exists b :: b in h.blocks && !b.used && b.off == f && Payload(b) >= size
  }

  /** off is the first in the free list to have room. */
  ghost predicate FirstWithRoom(h: Heap, off: int, size: nat) {
    exists k :: 0 <= k < |h.free| && h.free[k] == off && RoomAt(h, h.free[k], size)
      && forall j :: 0 <= j < k ==> !RoomAt(h, h.free[j], size)
  }

  /** The free item of h at off was handed out in g: as much of it as asked for, the
      rest as a new item in front of the free list, or all of it when the rest would
      be too small. The other free items keep their order. */
  ghost predicate Carved(h: Heap, g: Heap, off: nat, size: nat) {
    exists b :: b in h.blocks && !b.used && b.off == off && Payload(b) >= size
      && if Payload(b) >= size + HDR + MINI
         then Block(off, size + HDR, true) in g.blocks && g.free == [off + size + HDR] + Remove(h.free, off)
         else Block(off, b.ext, true) in g.blocks && g.free == Remove(h.free, off)
  }

  /** max_used_size follows what is in use, upwards only. */
  ghost predicate Peaked(h: Heap, g: Heap) {
    g.peak == if g.pool - g.avail > h.peak then g.pool - g.avail else h.peak
  }

  lemma {:induction false} RoomIs(h: Heap, f: nat, size: nat)
    requires h.Inv() && f in h.free
    ensures var i := Pos(h.blocks, f);
      i < |h.blocks| && h.blocks[i].off == f && !h.blocks[i].used && (RoomAt(h, f, size) <==> Payload(h.blocks[i]) >= size)
  {
    PosOfFree(h, f);
    var i := Pos(h.blocks, f);
    assert h.blocks[i] in h.blocks;
    if RoomAt(h, f, size) {
      var b :| b in h.blocks && !b.used && b.off == f && Payload(b) >= size;
      var k :| 0 <= k < |h.blocks| && h.blocks[k] == b;
      Laid(h);
      hide Heap.Inv;
      Sides(h.blocks, 0, h.pool - HDR, i, k);
    }
  }

  lemma {:induction false} FirstBigExact(h: Heap, free: seq<nat>, size: nat)
    requires h.Inv() && forall f :: f in free ==> f in h.free
    ensures var k := FirstBig(h.blocks, free, size);
      && (k < |free| ==> RoomAt(h, free[k], size)) && forall j :: 0 <= j < k ==> !RoomAt(h, free[j], size)
  {
    hide Heap.Inv, RoomAt, Pos;
    if free != [] {
      RoomIs(h, free[0], size);
      FirstBigExact(h, free[1..], size);
      var k := FirstBig(h.blocks, free, size);
      if k > 0 {
        forall j | 0 <= j < k ensures !RoomAt(h, free[j], size) { assert j > 0 ==> free[j] == free[1..][j - 1]; }
      }
    }
  }

  /** rt_memheap_alloc serves the request from the first item of the free list that
      has room, cut to the request when the rest makes an item, and remembers the
      highest use. */
  lemma {:induction false} AllocExact(h: Heap, n: nat)
    requires h.Inv() && Alloc(h, n).1.Some?
    ensures var (g, p) := Alloc(h, n);
      && FirstWithRoom(h, p.value - HDR, Request(n)) && p.value >= HDR && Carved(h, g, p.value - HDR, Request(n))
      && Peaked(h, g)
  {
    hide RoomAt, FirstWithRoom, Carved, FirstBig, Pos, Heap.Inv;
    var size := Request(n);
    var k := FirstBig(h.blocks, h.free, size);
    FirstBigExact(h, h.free, size);
    assert h.free[k] in h.free;
    RoomIs(h, h.free[k], size);
    var i := Pos(h.blocks, h.free[k]);
    assert FirstWithRoom(h, h.free[k], size) by { FirstIs(h, k, size); }
    AllocAtExact(h, i, size);
  }

  lemma {:induction false} FirstIs(h: Heap, k: nat, size: nat)
    requires k < |h.free| && RoomAt(h, h.free[k], size) && forall j :: 0 <= j < k ==> !RoomAt(h, h.free[j], size)
    ensures FirstWithRoom(h, h.free[k], size)
  {
    hide RoomAt;
  }

  lemma {:induction false} AllocAtExact(h: Heap, i: nat, size: nat)
    requires i < |h.blocks| && !h.blocks[i].used && Payload(h.blocks[i]) >= size
    ensures var g := AllocAt(h, i, size);
      Carved(h, g, h.blocks[i].off, size) && Peaked(h, g) && g.pool == h.pool
  {
    hide Remove;
    var g := AllocAt(h, i, size);
    assert h.blocks[i] in h.blocks && g.blocks[i] in g.blocks;
  }

  /** After rt_memheap_free the item given back is in front of the free list, unless it
      was joined to a free left neighbour; the other free items keep their order. */
  lemma {:induction false} FreeExact(h: Heap, p: int)
    requires h.Inv() && h.IsLive(p)
    ensures var g := Free(h, p);
      && p >= HDR && g.peak == h.peak && (p - HDR in g.free ==> g.free[0] == p - HDR)
      && Sub(Remove(g.free, p - HDR), h.free)
  {
    PosOfLive(h, p);
    hide Heap.Inv, Pos, FreeAt;
    FreeAtExact(h, Pos(h.blocks, p - HDR));
  }

  lemma {:induction false} FreeAtExact(h: Heap, i: nat)
    requires h.Inv() && i < |h.blocks| && h.blocks[i].used
    ensures var g, off := FreeAt(h, i), h.blocks[i].off;
      g.peak == h.peak && (off in g.free ==> g.free[0] == off) && Sub(Remove(g.free, off), h.free)
  {
    var bs, off := h.blocks, h.blocks[i].off;
    NotFree(h, i);
    var f := if FreeRight(bs, i) then Remove(h.free, bs[i + 1].off) else h.free;
    RemoveSubset(h.free, if FreeRight(bs, i) then bs[i + 1].off else 0);
    assert off !in f;
    assert Sub(f, h.free) by {
      SubSelf(h.free);
      if FreeRight(bs, i) { RemoveIsSub(h.free, bs[i + 1].off); }
    }
    RemoveAbsent(f, off);
    Cons(off, f);
    assert Remove([off] + f, off) == f;
    hide Heap.Inv, Coalesce, Sub, Remove;
  }

  lemma {:induction false} NotFree(h: Heap, i: nat)
    requires h.Inv() && i < |h.blocks| && h.blocks[i].used
    ensures h.blocks[i].off !in h.free
  {
    Laid(h);
    FreeAtOffset(h.blocks, 0, h.pool - HDR, i);
    hide Tiles;
  }

  // ------------------------------------------------------- when realloc succeeds

  /** The item at p has not the room, and cannot take it from its right neighbour. */
  ghost predicate MustMove(h: Heap, p: Option<int>, ns: nat) {
    p.None? || exists i: nat :: i < |h.blocks| && NoRoomInPlace(h, i, p.value, ns)
  }

  ghost predicate NoRoomInPlace(h: Heap, i: nat, p: int, ns: nat)
    requires i < |h.blocks|
  {
    && h.blocks[i].used && h.blocks[i].off + HDR == p && Payload(h.blocks[i]) < ns
    && (i + 1 < |h.blocks| && !h.blocks[i + 1].used ==> Payload(h.blocks[i]) + Payload(h.blocks[i + 1]) <= ns + MINI)
  }

  lemma {:induction false} MustMoveAt(h: Heap, p: int, ns: nat, i: nat)
    requires h.Inv() && i < |h.blocks| && h.blocks[i].used && h.blocks[i].off + HDR == p
    ensures MustMove(h, Some(p), ns) <==> NoRoomInPlace(h, i, p, ns)
  {
    if MustMove(h, Some(p), ns) {
      var k: nat :| k < |h.blocks| && NoRoomInPlace(h, k, p, ns);
      Laid(h);
      hide Heap.Inv;
      Sides(h.blocks, 0, h.pool - HDR, i, k);
    }
  }

  /** Callers pass a live pointer or RT_NULL and no size that the growth test misjudges. */
  ghost predicate MayAsk(h: Heap, p: Option<int>, n: nat) {
    0 < n && Legal(h, DoRealloc(p, n))
  }

  lemma {:induction false} ReallocAt(h: Heap, p: int, n: nat) returns (i: nat)
    requires h.Inv() && MayAsk(h, Some(p), n)
    ensures i < |h.blocks| && h.blocks[i].used && h.blocks[i].off + HDR == p
    ensures Realloc(h, Some(p), n) == ResizeAt(h, i, Request(n))
  {
    hide Heap.Inv, Heap.IsLive, Pos, ResizeAt, Misjudged, Request;
    PosOfLive2(h, p);
    i := Pos(h.blocks, p - HDR);
  }

  lemma {:induction false} PosOfLive2(h: Heap, p: int)
    requires h.Inv() && h.IsLive(p)
    ensures var i := Pos(h.blocks, p - HDR); i < |h.blocks| && h.blocks[i].off + HDR == p && h.blocks[i].used
  {
    PosOfLive(h, p);
  }

  /** rt_memheap_realloc fails exactly when the data must move and no other item can be
      allocated; where it need not move it answers the pointer it was given. */
  lemma {:induction false} ReallocRefusesIff(h: Heap, p: Option<int>, n: nat)
    requires h.Inv() && MayAsk(h, p, n)
    ensures var ns, r := Request(n), Realloc(h, p, n).1;
      && (r.None? <==> MustMove(h, p, ns) && (ns >= h.avail || !exists i :: Serves(h, ns, i)))
      && (!MustMove(h, p, ns) ==> r == p)
  {
    hide Heap.Inv, Heap.IsLive, Pos, Alloc, Free, Grow, Shrink, Request, Serves;
    var ns := Request(n);
    RequestTwice(n);
    AllocRefusesIff(h, ns);
    if p.Some? {
      var i := ReallocAt(h, p.value, n);
      MustMoveAt(h, p.value, ns, i);
    }
  }

  /** Where the data must move, rt_memheap_realloc is rt_memheap_alloc and, if that
      succeeds, rt_memheap_free of the old item. */
  lemma {:induction false} ReallocMoves(h: Heap, p: Option<int>, n: nat)
    requires h.Inv() && MayAsk(h, p, n) && MustMove(h, p, Request(n))
    ensures var (m, r) := Alloc(h, Request(n));
      Realloc(h, p, n) == (if r.Some? && p.Some? then Free(m, p.value) else m, r)
  {
    hide Heap.Inv, Heap.IsLive, Pos, Alloc, Free, Grow, Shrink, Request;
    if p.Some? {
      var i := ReallocAt(h, p.value, n);
      MustMoveAt(h, p.value, Request(n), i);
    }
  }

  /** In place, rt_memheap_realloc leaves alone an item that has the room and nothing
      worth giving back; else the item has exactly the aligned size, what is left over
      is in front of the free list, the other free items keep their order, and
      max_used_size follows the use. */
  lemma {:induction false} ReallocInPlace(h: Heap, p: int, n: nat)
    requires h.Inv() && MayAsk(h, Some(p), n) && !MustMove(h, Some(p), Request(n))
    ensures var g, ns := Realloc(h, Some(p), n).0, Request(n);
      if HasRoom(h, Some(p), ns) && !HasRoom(h, Some(p), ns + HDR + MINI + 1) then g == h
      else Fitted(h, g, p, ns) && Peaked(h, g)
  {
    hide Heap.Inv, Heap.IsLive, Pos, Alloc, Free, Grow, Shrink, Request, HasRoom, Fitted, Realloc, ResizeAt;
    var ns := Request(n);
    var i := ReallocAt(h, p, n);
    MustMoveAt(h, p, ns, i);
    InPlaceAt(h, i, ns);
  }

  /** The item at p has exactly ns bytes; the rest is a free item behind it. */
  ghost predicate Fitted(h: Heap, g: Heap, p: int, ns: nat) {
    && p >= HDR && Block(p - HDR, ns + HDR, true) in g.blocks && Block(p - HDR, ns + HDR, true) !in h.blocks
    && g.free != [] && g.free[0] == p + ns && Sub(g.free[1..], h.free)
  }

  lemma {:induction false} InPlaceAt(h: Heap, i: nat, ns: nat)
    requires h.Inv() && i < |h.blocks| && h.blocks[i].used && ns % 4 == 0 && ns > 0
    requires !NoRoomInPlace(h, i, h.blocks[i].off + HDR, ns)
    ensures var g, p := ResizeAt(h, i, ns).0, h.blocks[i].off + HDR;
      if HasRoom(h, Some(p), ns) && !HasRoom(h, Some(p), ns + HDR + MINI + 1) then g == h
      else Fitted(h, g, p, ns) && Peaked(h, g)
  {
    hide Heap.Inv, Alloc, Free, Grow, Shrink, HasRoom, Fitted;
    var had := Payload(h.blocks[i]);
    RoomExact(h, i, ns);
    RoomExact(h, i, ns + HDR + MINI + 1);
    if ns > had {
      GrowFitted(h, i, ns);
    } else if ns + HDR + MINI < had {
      ShrinkFitted(h, i, ns);
    }
  }

  lemma {:induction false} RoomExact(h: Heap, i: nat, size: nat)
    requires h.Inv() && i < |h.blocks| && h.blocks[i].used
    ensures HasRoom(h, Some(h.blocks[i].off + HDR), size) <==> Payload(h.blocks[i]) >= size
  {
    assert h.blocks[i] in h.blocks;
    if HasRoom(h, Some(h.blocks[i].off + HDR), size) {
      var c :| c in h.blocks && c.used && c.off + HDR == h.blocks[i].off + HDR && Payload(c) >= size;
      var k :| 0 <= k < |h.blocks| && h.blocks[k] == c;
      Laid(h);
      hide Heap.Inv;
      Sides(h.blocks, 0, h.pool - HDR, i, k);
    }
  }

  lemma {:induction false} OneSize(h: Heap, i: nat, e: nat)
    requires h.Inv() && i < |h.blocks| && h.blocks[i].ext != e
    ensures Block(h.blocks[i].off, e, true) !in h.blocks
  {
    var b := Block(h.blocks[i].off, e, true);
    if b in h.blocks {
      var k :| 0 <= k < |h.blocks| && h.blocks[k] == b;
      Laid(h);
      hide Heap.Inv;
      Sides(h.blocks, 0, h.pool - HDR, i, k);
    }
  }

  lemma {:induction false} GrowFitted(h: Heap, i: nat, ns: nat)
    requires h.Inv() && CanGrow(h, i, ns) && ns > 0
    ensures var g := Grow(h, i, ns);
      Fitted(h, g, h.blocks[i].off + HDR, ns) && Peaked(h, g)
  {
    OneSize(h, i, ns + HDR);
    hide Heap.Inv, Sub, Remove;
    GrownBlocks(h, i, ns);
    var g, bs := Grow(h, i, ns), h.blocks;
    hide Split, Merge;
    assert g.blocks[i] == Block(bs[i].off, ns + HDR, true) && g.blocks[i] in g.blocks;
    RemoveIsSub(h.free, bs[i + 1].off);
    assert g.free[1..] == Remove(h.free, bs[i + 1].off);
  }

  lemma {:induction false} ShrinkFitted(h: Heap, i: nat, ns: nat)
    requires h.Inv() && CanShrink(h, i, ns)
    ensures var g := Shrink(h, i, ns);
      Fitted(h, g, h.blocks[i].off + HDR, ns) && Peaked(h, g)
  {
    hide Heap.Inv, Sub, Remove, Shrink, Peaked;
    OneSize(h, i, ns + HDR);
    ShrinkPeaked(h, i, ns);
    ShrunkBlocks(h, i, ns);
    ShrinkFree(h, i, ns);
    var g := Shrink(h, i, ns);
    assert g.blocks[i] in g.blocks;
  }

  lemma {:induction false} ShrinkFree(h: Heap, i: nat, ns: nat)
    requires CanShrink(h, i, ns)
    ensures var f := Shrink(h, i, ns).free; f != [] && f[0] == h.blocks[i].off + HDR + ns && Sub(f[1..], h.free)
  {
    hide Sub, Remove, MergeRight, Split;
    SubSelf(h.free);
    var bs := h.blocks;
    var f := if FreeRight(bs, i) then Remove(h.free, bs[i + 1].off) else h.free;
    if FreeRight(bs, i) { RemoveIsSub(h.free, bs[i + 1].off); }
    assert ([bs[i].off + ns + HDR] + f)[1..] == f;
  }

  lemma {:induction false} ShrinkPeaked(h: Heap, i: nat, ns: nat)
    requires h.Inv() && CanShrink(h, i, ns)
    ensures Peaked(h, Shrink(h, i, ns))
  {
    hide MergeRight, Split, Heap.Layout, Heap.FreeList, FreePay;
  }
}
