/** What each call on the small-memory heap makes of the parts of the state that the
    live blocks do not determine: the size of the new block, lfree and max_mem. */
module SmallMemExact {
  import opened Machine
  import opened Tiling
  import opened SmallMemSpec
  import opened SmallMemTheory
  import opened SmallMemFit

  /** The free block that starts at f reaches over x. */
  ghost predicate Covers(bs: seq<Block>, f: nat, x: nat) {
    exists b :: b in bs && !b.used && b.off == f && f <= x < b.End()
  }

  /** f is the lowest free block at or above x, or the end when there is none. */
  ghost predicate NextAbove(h: Heap, f: nat, x: nat) {
    && (f == h.End() || (HasFree(h.blocks, f) && x <= f))
    && forall b :: b in h.blocks && !b.used && x <= b.off ==> f <= b.off
  }

  // -------------------------------------------------------------- rt_malloc

  /** rt_malloc serves the request from the lowest block that serves it, cuts the
      block to the request when a header and MIN_SIZE bytes are left over, moves
      lfree on only when it was taken, and remembers the highest use. */
  lemma {:induction false} MallocExact(h: Heap, n: nat)
    requires h.Inv() && Malloc(h, n).1.Some?
    ensures var (g, p) := Malloc(h, n);
      && LowestServing(h, n, p.value) && p.value >= HDR
      && Carved(h, g, p.value - HDR, Request(n))
      && g.peak == Max(h.peak, g.used)
      && (if h.lfree == p.value - HDR then NextAbove(g, g.lfree, p.value - HDR) else g.lfree == h.lfree)
  {
    hide Tiles, Settled, UsedExt, NextFree, FirstFit, Pos, Take, LowestServing;
    MallocAnswers(h, n);
    PickFacts(h, n);
    var i, size := Pick(h, n), Request(n);
    var g := MallocAt(h, i, size);
    TakeExact(h.blocks, i, size);
    assert h.blocks[i] in h.blocks && g.blocks[i] in g.blocks;
    assert Carved(h, g, h.blocks[i].off, size);
    if h.lfree == h.blocks[i].off {
      TakeGood(h.blocks, h.End(), i, size);
      NextFreeAbove(g.blocks, i, h.End());
    }
  }

  /** The free block of h at off was handed out in g: as much of it as asked for, or
      all of it when what is left over would be no block. */
  ghost predicate Carved(h: Heap, g: Heap, off: nat, size: nat) {
    exists b :: b in h.blocks && !b.used && b.off == off && b.ext >= size + HDR
      && Block(off, if b.ext >= size + 2 * HDR + MIN then size + HDR else b.ext, true) in g.blocks
  }

  lemma {:induction false} TakeExact(bs: seq<Block>, i: nat, size: nat)
    requires i < |bs| && bs[i].ext >= size + HDR
    ensures var r := Take(bs, i, size);
      i < |r| && r[i] == Block(bs[i].off, if bs[i].ext >= size + 2 * HDR + MIN then size + HDR else bs[i].ext, true)
  {
  }

  lemma {:induction false} NextFreeAbove(bs: seq<Block>, i: nat, end: nat)
    requires Tiles(bs, 0, end) && i < |bs|
    ensures var f := NextFree(bs, i, end);
      && (f == end || (HasFree(bs, f) && bs[i].off <= f))
      && forall b :: b in bs && !b.used && bs[i].off <= b.off ==> f <= b.off
    decreases |bs| - i
  {
    if !bs[i].used {
      assert bs[i] in bs;
    } else if i + 1 < |bs| {
      assert Abut(bs, i);
      NextFreeAbove(bs, i + 1, end);
      forall b | b in bs && !b.used && bs[i].off <= b.off ensures bs[i + 1].off <= b.off {
        var k :| 0 <= k < |bs| && bs[k] == b;
        Sides(bs, 0, end, i, k);
      }
    } else {
      assert NextFree(bs, i + 1, end) == end;
      forall b | b in bs && !b.used && bs[i].off <= b.off ensures false {
        var k :| 0 <= k < |bs| && bs[k] == b;
        Sides(bs, 0, end, i, k);
      }
    }
  }

  // ---------------------------------------------------------------- rt_free

  /** Merging a free block with its right neighbour keeps every offset covered. */
  lemma {:induction false} MergeCovers(bs: seq<Block>, hi: nat, j: nat, f: nat, x: nat)
    requires Tiles(bs, 0, hi) && j + 1 < |bs| && !bs[j].used && Covers(bs, f, x)
    ensures Covers(Merge(bs, j), if f == bs[j + 1].off then bs[j].off else f, x)
  {
    var r := Merge(bs, j);
    var b :| b in bs && !b.used && b.off == f && f <= x < b.End();
    var k :| 0 <= k < |bs| && bs[k] == b;
    assert r[j] in r && r[j] == Block(bs[j].off, bs[j].ext + bs[j + 1].ext, bs[j].used);
    Sides(bs, 0, hi, j + 1, k);
    assert Abut(bs, j);
    if k < j {
      assert r[k] == b;
    } else if k > j + 1 {
      assert r[k - 1] == b;
    }
  }

  lemma {:induction false} CoalesceCovers(bs: seq<Block>, hi: nat, i: nat, f: nat, x: nat)
    requires Tiles(bs, 0, hi) && i < |bs| && !bs[i].used && Covers(bs, f, x)
    ensures Covers(Coalesce(bs, i), PlugLfree(bs, i, f), x)
  {
    hide Covers, Tiles, Merge;
    var a := MergeRight(bs, i);
    var g := if i + 1 < |bs| && !bs[i + 1].used && f == bs[i + 1].off then bs[i].off else f;
    if i + 1 < |bs| && !bs[i + 1].used {
      MergeCovers(bs, hi, i, f, x);
      MergeTiles(bs, i, 0, hi);
    }
    MergeFront(bs, i);
    if i > 0 && !bs[i - 1].used { MergeCovers(a, hi, i - 1, g, x); }
  }

  lemma {:induction false} MergeFront(bs: seq<Block>, i: nat)
    requires i < |bs|
    ensures var a := MergeRight(bs, i); i < |a| && a[i].off == bs[i].off && (i > 0 ==> a[i - 1] == bs[i - 1])
  {
  }

  /** After rt_free lfree is the free block that reaches over the lower of the block
      given back and what lfree was; max_mem stays. */
  lemma {:induction false} FreeExact(h: Heap, p: int)
    requires h.Inv() && h.IsLive(p)
    ensures var g := Free(h, p);
      p >= HDR && Covers(g.blocks, g.lfree, Min(h.lfree, p - HDR)) && g.peak == h.peak
  {
    PosLive(h, p);
    FreeAtExact(h, Pos(h.blocks, p - HDR));
    hide Covers, FreeAt, Heap.IsLive, UsedExt, Good;
  }

  lemma {:induction false} FreeAtExact(h: Heap, i: nat)
    requires h.Inv() && i < |h.blocks| && h.blocks[i].used && h.blocks[i].ext <= h.used
    ensures var g := FreeAt(h, i); Covers(g.blocks, g.lfree, Min(h.lfree, h.blocks[i].off)) && g.peak == h.peak
  {
    Laid(h);
    LfreeFree(h, i);
    var bs, f := Mark(h.blocks, i, false), Min(h.lfree, h.blocks[i].off);
    MarkTiles(h.blocks, i, false, 0, h.End());
    assert Covers(bs, f, f) by {
      if h.lfree < h.blocks[i].off { FreeCovers(h, i); } else { assert bs[i] in bs; }
    }
    hide Covers, Heap.Inv, Coalesce, Tiles;
    CoalesceCovers(bs, h.End(), i, f, f);
  }

  lemma {:induction false} FreeCovers(h: Heap, i: nat)
    requires h.Inv() && i < |h.blocks| && h.lfree < h.blocks[i].off
    ensures Covers(Mark(h.blocks, i, false), h.lfree, h.lfree)
  {
    Laid(h);
    Within(h.blocks, 0, h.End(), i);
    var b :| b in h.blocks && b.off == h.lfree && !b.used;
    var k :| 0 <= k < |h.blocks| && h.blocks[k] == b;
    assert Mark(h.blocks, i, false)[k] == b;
    assert b.ext > 0;
  }

  // -------------------------------------------------------------- rt_realloc

  /** rt_realloc in place leaves the heap alone when the size is the same; else the
      block has exactly the new size, lfree the free block that reaches over what it
      was, and max_mem stays. */
  lemma {:induction false} ReallocInPlace(h: Heap, p: int, n: nat)
    requires h.Inv() && n < WORD && h.IsLive(p) && 0 < AlignUp(n) <= h.size && !MustMove(h, Some(p), AlignUp(n))
    ensures var (g, r) := Realloc(h, Some(p), n);
      && r == Some(p) && p >= HDR && g.peak == h.peak
      && (g == h || (g.lfree == h.lfree == h.End()) || Covers(g.blocks, g.lfree, h.lfree))
      && Block(p - HDR, AlignUp(n) + HDR, true) in g.blocks
      && (Block(p - HDR, AlignUp(n) + HDR, true) in h.blocks ==> g == h)
  {
    hide Covers, Shrink, Heap.Inv, Pos, MustMove, Heap.IsLive, Malloc, Free, UsedExt, Realloc, ResizeAt;
    var ns := AlignUp(n);
    var i := ReallocAt(h, p, n);
    MustMoveAt(h, p, ns, i);
    if h.blocks[i].ext - HDR == ns { SameInPlace(h, i, ns); } else { ShrinkInPlace(h, i, ns); }
  }

  lemma {:induction false} ReallocAt(h: Heap, p: int, n: nat) returns (i: nat)
    requires h.Inv() && n < WORD && h.IsLive(p) && 0 < AlignUp(n) <= h.size
    ensures i < |h.blocks| && h.blocks[i].used && h.blocks[i].off + HDR == p && HDR < h.blocks[i].ext <= h.used
    ensures Realloc(h, Some(p), n) == ResizeAt(h, i, AlignUp(n))
  {
    hide Pos, Shrink, Malloc, Free, Heap.Inv, Heap.IsLive, ResizeAt;
    PosLive(h, p);
    i := Pos(h.blocks, p - HDR);
  }

  lemma {:induction false} SameInPlace(h: Heap, i: nat, ns: nat)
    requires i < |h.blocks| && h.blocks[i].used && h.blocks[i].ext == ns + HDR <= h.used && 0 < ns
    ensures ResizeAt(h, i, ns) == (h, Some(h.blocks[i].off + HDR))
    ensures Block(h.blocks[i].off, ns + HDR, true) in h.blocks
  {
    assert h.blocks[i] in h.blocks;
  }

  lemma {:induction false} ShrinkInPlace(h: Heap, i: nat, ns: nat)
    requires h.Inv() && i < |h.blocks| && h.blocks[i].used && 0 < ns && ns + 2 * HDR + MIN < h.blocks[i].ext <= h.used
    ensures ResizeAt(h, i, ns).1 == Some(h.blocks[i].off + HDR)
    ensures var g := ResizeAt(h, i, ns).0;
      g.peak == h.peak && ((g.lfree == h.lfree == h.End()) || Covers(g.blocks, g.lfree, h.lfree))
      && Block(h.blocks[i].off, ns + HDR, true) in g.blocks && Block(h.blocks[i].off, ns + HDR, true) !in h.blocks
  {
    hide Covers, Shrink, Heap.Inv, AllocCopyFree;
    ShrinkKeeps(h.blocks, i, ns + HDR);
    ShrinkExact(h, i, ns);
    OneSize(h, i, ns);
    ShrinkIs(h, i, ns);
  }

  lemma {:induction false} ShrinkIs(h: Heap, i: nat, ns: nat)
    requires i < |h.blocks| && 0 < ns + HDR < h.blocks[i].ext <= h.used
    ensures Shrink(h, i, ns).blocks == MergeRight(Split(h.blocks, i, ns + HDR, true, false), i + 1)
  {
  }

  lemma {:induction false} OneSize(h: Heap, i: nat, ns: nat)
    requires h.Inv() && i < |h.blocks| && h.blocks[i].ext != ns + HDR
    ensures Block(h.blocks[i].off, ns + HDR, true) !in h.blocks
  {
    var b := Block(h.blocks[i].off, ns + HDR, true);
    if b in h.blocks {
      var k :| 0 <= k < |h.blocks| && h.blocks[k] == b;
      Laid(h);
      Sides(h.blocks, 0, h.End(), i, k);
    }
  }

  lemma {:induction false} ShrinkExact(h: Heap, i: nat, ns: nat)
    requires h.Inv() && i < |h.blocks| && h.blocks[i].used && 0 < ns && ns + 2 * HDR + MIN < h.blocks[i].ext <= h.used
    ensures var g := Shrink(h, i, ns);
      g.peak == h.peak && ((g.lfree == h.lfree == h.End()) || Covers(g.blocks, g.lfree, h.lfree))
  {
    ShrinkNewLfree(h, i, ns);
    LfreeFree(h, i);
    if h.lfree != h.End() {
      LfreeAfterShrink(h, i, ns);
    }
    hide Covers, Heap.Inv;
  }

  lemma {:induction false} LfreeAfterShrink(h: Heap, i: nat, ns: nat)
    requires h.Inv() && i < |h.blocks| && h.blocks[i].used && 0 < ns && ns + 2 * HDR + MIN < h.blocks[i].ext <= h.used
    requires h.lfree != h.End()
    ensures Covers(Shrink(h, i, ns).blocks, Shrink(h, i, ns).lfree, h.lfree)
  {
    ShrinkNewLfree(h, i, ns);
    var b :| b in h.blocks && b.off == h.lfree && !b.used;
    assert b.ext > 0 by { BlockExt(h, b); }
    FreeAfterShrink(h, i, ns, b);
    if h.lfree == h.blocks[i].End() { TailCovers(h, i, ns); }
    hide Shrink, Heap.Inv;
  }

  lemma {:induction false} BlockExt(h: Heap, b: Block)
    requires h.Inv() && b in h.blocks
    ensures b.ext > 0
  {
  }

  /** The tail that is cut off and joined reaches over the old right neighbour. */
  lemma {:induction false} TailCovers(h: Heap, i: nat, ns: nat)
    requires h.Inv() && i < |h.blocks| && h.blocks[i].used && 0 < ns && ns + 2 * HDR + MIN < h.blocks[i].ext <= h.used
    requires h.lfree == h.blocks[i].End() && h.lfree != h.End()
    ensures Covers(Shrink(h, i, ns).blocks, h.blocks[i].off + HDR + ns, h.lfree)
  {
    LfreeFree(h, i);
    assert Abut(h.blocks, i);
    var r := Shrink(h, i, ns).blocks;
    assert r[i + 1] == Block(h.blocks[i].off + HDR + ns, h.blocks[i].ext - HDR - ns + h.blocks[i + 1].ext, false);
    assert r[i + 1] in r;
    assert h.blocks[i + 1].ext > 0;
  }

  /** Elsewhere rt_realloc is rt_malloc of the aligned size and, if that succeeds,
      rt_free of the old block. */
  lemma {:induction false} ReallocMoves(h: Heap, p: Option<int>, n: nat)
    requires h.Inv() && n < WORD && (p.Some? ==> h.IsLive(p.value)) && 0 < AlignUp(n) <= h.size && MustMove(h, p, AlignUp(n))
    ensures var (m, r) := Malloc(h, AlignUp(n));
      Realloc(h, p, n) == (if r.Some? && p.Some? then Free(m, p.value) else m, r)
  {
    var ns := AlignUp(n);
    hide Malloc, Free, Shrink, Pos, MustMove, Heap.IsLive, Heap.Inv;
    if p.Some? {
      PosLive(h, p.value);
      MustMoveAt(h, p.value, ns, Pos(h.blocks, p.value - HDR));
    }
  }
}
