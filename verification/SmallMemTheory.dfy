/** Properties of the byte heap of mem.c over single calls and whole runs. */
module SmallMemTheory {
  import opened Machine
  import opened Tiling
  import opened SmallMemSpec

  // ------------------------------------------------------------ blocks stay sound

  lemma {:induction false} SplitSound(bs: seq<Block>, i: nat, e: nat, u: bool, v: bool)
    requires Sound(bs) && i < |bs| && HDR < e && e + HDR < bs[i].ext && e % 4 == 0
    ensures Sound(Split(bs, i, e, u, v))
  {
    var r := Split(bs, i, e, u, v);
    forall b | b in r ensures b.off % 4 == 0 && b.ext > HDR {
      assert b in bs[..i] || b == r[i] || b == r[i + 1] || b in bs[i + 1..];
    }
  }

  lemma {:induction false} MergeSound(bs: seq<Block>, i: nat)
    requires Sound(bs) && i + 1 < |bs|
    ensures Sound(Merge(bs, i))
  {
    var r := Merge(bs, i);
    forall b | b in r ensures b.off % 4 == 0 && b.ext > HDR {
      assert b in bs[..i] || b == r[i] || b in bs[i + 2..];
      assert bs[i] in bs;
    }
  }

  lemma {:induction false} MarkSound(bs: seq<Block>, i: nat, u: bool)
    requires Sound(bs) && i < |bs|
    ensures Sound(Mark(bs, i, u))
  {
    var r := Mark(bs, i, u);
    forall b | b in r ensures b.off % 4 == 0 && b.ext > HDR {
      var k :| 0 <= k < |r| && r[k] == b;
      assert bs[k] in bs;
    }
  }

  lemma {:induction false} CoalesceSound(bs: seq<Block>, i: nat)
    requires Sound(bs) && i < |bs|
    ensures Sound(Coalesce(bs, i))
  {
    var a := MergeRight(bs, i);
    if i + 1 < |bs| && !bs[i + 1].used { MergeSound(bs, i); }
    if i > 0 && !a[i - 1].used { MergeSound(a, i - 1); }
  }

  /** plug_holes keeps lfree on a free block. */
  lemma {:induction false} CoalesceFree(bs: seq<Block>, i: nat, f: nat)
    requires i < |bs| && !bs[i].used && HasFree(bs, f)
    ensures HasFree(Coalesce(bs, i), PlugLfree(bs, i, f))
  {
    var a := MergeRight(bs, i);
    var g := if i + 1 < |bs| && !bs[i + 1].used && f == bs[i + 1].off then bs[i].off else f;
    assert HasFree(a, g) by {
      if i + 1 < |bs| && !bs[i + 1].used { MergeFree(bs, i, f); }
    }
    if i > 0 && !a[i - 1].used { MergeFree(a, i - 1, g); }
  }

  /** A live pointer leads to its block. */
  lemma {:induction false} PosLive(h: Heap, p: int)
    requires h.Inv() && h.IsLive(p)
    ensures var i := Pos(h.blocks, p - HDR);
      && i < |h.blocks| && h.blocks[i].used && h.blocks[i].off + HDR == p
      && HDR < h.blocks[i].ext <= h.used
      && HDR <= p < h.End()
  {
    var b :| b in h.blocks && b.off + HDR == p && b.used;
    var i: nat :| i < |h.blocks| && h.blocks[i] == b;
    PosUnique(h.blocks, 0, h.End(), i);
    SumAtLeast(h.blocks, i);
    Within(h.blocks, 0, h.End(), i);
  }

  // ------------------------------------------------------------ rt_malloc

  lemma {:induction false} TakeGood(bs: seq<Block>, end: nat, i: nat, size: nat)
    requires Good(bs, end) && i < |bs| && !bs[i].used
    requires bs[i].ext >= size + HDR && size % 4 == 0 && size > 0
    ensures Good(Take(bs, i, size), end)
  {
    if bs[i].ext >= size + 2 * HDR + MIN {
      SplitTiles(bs, i, size + HDR, true, false, 0, end);
      SplitSound(bs, i, size + HDR, true, false);
      SplitSettled(bs, i, size + HDR);
    } else {
      MarkSettled(bs, i);
      MarkSound(bs, i, true);
      MarkTiles(bs, i, true, 0, end);
    }
  }

  lemma {:induction false} TakeLive(bs: seq<Block>, i: nat, size: nat)
    requires i < |bs| && bs[i].ext >= size + HDR && !bs[i].used
    ensures var r := Take(bs, i, size);
      Live(r) == Live(bs[..i]) + [r[i]] + Live(bs[i + 1..])
  {
    if bs[i].ext >= size + 2 * HDR + MIN {
      SplitLive(bs, i, size + HDR, true, false);
    } else {
      MarkLive(bs, i, true);
    }
  }

  lemma {:induction false} TakeSum(bs: seq<Block>, i: nat, size: nat)
    requires i < |bs| && bs[i].ext >= size + HDR && !bs[i].used
    ensures var r := Take(bs, i, size); UsedExt(r) == UsedExt(bs) + r[i].ext
  {
    if bs[i].ext >= size + 2 * HDR + MIN {
      SplitSum(bs, i, size + HDR, true, false);
    } else {
      MarkSum(bs, i, true);
    }
  }

  lemma {:induction false} TakeFree(bs: seq<Block>, i: nat, size: nat, f: nat)
    requires i < |bs| && bs[i].ext >= size + HDR && !bs[i].used
    requires HasFree(bs, f) && f != bs[i].off
    ensures HasFree(Take(bs, i, size), f)
  {
    if bs[i].ext >= size + 2 * HDR + MIN {
      SplitFree(bs, i, size + HDR, true, false, f);
    } else {
      MarkFree(bs, i, true, f);
    }
  }

  /** What a search that starts at lfree can and cannot find. */
  lemma {:induction false} PickFacts(h: Heap, n: nat)
    requires h.Inv()
    ensures var i := Pick(h, n);
      && (i < |h.blocks| ==> Fits(h.blocks, i, h.size - Request(n), Request(n)) && h.lfree <= h.blocks[i].off)
      && (forall k :: 0 <= k < i && k < |h.blocks| && h.lfree <= h.blocks[k].off
            ==> !Fits(h.blocks, k, h.size - Request(n), Request(n)))
  {
    hide FirstFit, UsedExt, Settled, Sound;
    var from := Pos(h.blocks, h.lfree);
    if from == |h.blocks| { PosMissing(h.blocks, h.lfree); }
    FirstFitLeast(h.blocks, 0, h.End(), from, h.size - Request(n), Request(n));
    OrderedAll(h.blocks, 0, h.End());
  }

  lemma {:induction false} MallocAtInv(h: Heap, i: nat, size: nat)
    requires h.Inv() && i < |h.blocks| && !h.blocks[i].used
    requires h.blocks[i].ext >= size + HDR && size % 4 == 0 && size > 0
    ensures MallocAt(h, i, size).Inv()
  {
    var g := MallocAt(h, i, size);
    TakeGood(h.blocks, h.End(), i, size);
    TakeSum(h.blocks, i, size);
    assert g.blocks[i] in g.blocks && g.blocks[i].used;
    if h.blocks[i].off == h.lfree {
      NextFreeLeast(g.blocks, i, h.End());
    } else if h.lfree != h.End() {
      TakeFree(h.blocks, i, size, h.lfree);
    }
  }

  lemma {:induction false} MallocInv(h: Heap, n: nat)
    requires h.Inv()
    ensures Malloc(h, n).0.Inv()
  {
    PickFacts(h, n);
    if Malloc(h, n).1.Some? {
      MallocAtInv(h, Pick(h, n), Request(n));
    }
  }

  /** A successful rt_malloc returns an aligned pointer that was not live, to a
      block carved from the front of a free one and at least as large as the
      request; every other live block stays where it was. */
  lemma {:induction false} MallocResult(h: Heap, n: nat)
    requires h.Inv() && Malloc(h, n).1.Some?
    ensures var (g, p) := Malloc(h, n);
      var i := Pick(h, n);
      && i < |h.blocks| && !h.blocks[i].used && i < |g.blocks|
      && g.blocks[i].used && g.blocks[i].off == h.blocks[i].off && g.blocks[i].off + HDR == p.value
      && Request(n) + HDR <= g.blocks[i].ext <= h.blocks[i].ext
      && p.value % 4 == 0 && g.IsLive(p.value) && !h.IsLive(p.value)
      && Live(h.blocks) == Live(h.blocks[..i]) + Live(h.blocks[i + 1..])
      && Live(g.blocks) == Live(h.blocks[..i]) + [g.blocks[i]] + Live(h.blocks[i + 1..])
  {
    hide Live, FirstFit, Pos, NextFree, UsedExt, Take, Settled, Tiles, Pick;
    PickFacts(h, n);
    var i := Pick(h, n);
    TakeLive(h.blocks, i, Request(n));
    FreeBlockLive(h.blocks, i);
    TakeExtent(h.blocks, i, Request(n));
    assert h.blocks[i] in h.blocks;
    NotLive(h, i);
  }

  lemma {:induction false} TakeExtent(bs: seq<Block>, i: nat, size: nat)
    requires i < |bs| && bs[i].ext >= size + HDR
    ensures var r := Take(bs, i, size);
      size + HDR <= r[i].ext <= bs[i].ext && r[i] in r && r[..i] == bs[..i]
  {
  }

  lemma {:induction false} NotLive(h: Heap, i: nat)
    requires h.Inv() && i < |h.blocks| && !h.blocks[i].used
    ensures !h.IsLive(h.blocks[i].off + HDR)
  {
    if h.IsLive(h.blocks[i].off + HDR) {
      PosLive(h, h.blocks[i].off + HDR);
      PosUnique(h.blocks, 0, h.End(), i);
    }
  }

  // ------------------------------------------------------------ rt_free

  lemma {:induction false} FreeGood(bs: seq<Block>, end: nat, i: nat)
    requires Good(bs, end) && i < |bs| && bs[i].used
    ensures Good(Coalesce(Mark(bs, i, false), i), end)
  {
    var m := Mark(bs, i, false);
    MarkTiles(bs, i, false, 0, end);
    CoalesceTiles(m, i, 0, end);
    MarkSettled(bs, i);
    CoalesceSettles(m, i);
    MarkSound(bs, i, false);
    CoalesceSound(m, i);
  }

  lemma {:induction false} FreeLfreeOk(h: Heap, i: nat)
    requires h.Inv() && i < |h.blocks| && h.blocks[i].used && h.blocks[i].ext <= h.used
    ensures FreeAt(h, i).LfreeOk() && FreeAt(h, i).lfree <= h.blocks[i].off
  {
    var bs := Mark(h.blocks, i, false);
    var f := if bs[i].off < h.lfree then bs[i].off else h.lfree;
    Within(h.blocks, 0, h.End(), i);
    if i > 0 { Sides(h.blocks, 0, h.End(), i, i - 1); }
    assert HasFree(bs, f) by {
      if bs[i].off < h.lfree {
        assert bs[i] in bs;
      } else {
        NotBoth(h, i);
        MarkFree(h.blocks, i, false, f);
      }
    }
    CoalesceFree(bs, i, f);
  }

  lemma {:induction false} NotBoth(h: Heap, i: nat)
    requires h.Layout() && i < |h.blocks| && h.blocks[i].used && HasFree(h.blocks, h.lfree)
    ensures h.lfree != h.blocks[i].off
  {
    var b :| b in h.blocks && b.off == h.lfree && !b.used;
    var k: nat :| k < |h.blocks| && h.blocks[k] == b;
    PosUnique(h.blocks, 0, h.End(), k);
    PosUnique(h.blocks, 0, h.End(), i);
  }

  lemma {:induction false} FreeAtInv(h: Heap, i: nat)
    requires h.Inv() && i < |h.blocks| && h.blocks[i].used
    ensures h.blocks[i].ext <= h.used
    ensures FreeAt(h, i).Inv()
    ensures FreeAt(h, i).lfree <= h.blocks[i].off
  {
    hide Settled, UsedExt, Coalesce;
    SumAtLeast(h.blocks, i);
    FreeGood(h.blocks, h.End(), i);
    FreeLfreeOk(h, i);
    MarkSum(h.blocks, i, false);
    CoalesceSum(Mark(h.blocks, i, false), i);
    var g := FreeAt(h, i);
    if g.NothingLive() {
      AllFreeIsOne(g.blocks, 0, g.End());
      Within(h.blocks, 0, h.End(), i);
    }
  }

  lemma {:induction false} FreeInv(h: Heap, p: int)
    requires h.Inv() && (p < 0 || p >= h.End() || h.IsLive(p))
    ensures Free(h, p).Inv()
  {
    if 0 <= p < h.End() {
      PosLive(h, p);
      FreeAtInv(h, Pos(h.blocks, p - HDR));
    }
  }

  /** Everything rt_free relies on and re-establishes. */
  lemma {:induction false} FreeOptInv(h: Heap, p: Option<int>)
    requires h.Inv() && h.MayPass(p)
    ensures FreeOpt(h, p).Inv()
    ensures p.Some? && 0 <= p.value < h.End() ==>
      var i := Pos(h.blocks, p.value - HDR);
      && HDR <= p.value && i < |h.blocks| && h.blocks[i].used && h.blocks[i].off + HDR == p.value
      && h.blocks[i].ext <= h.used && FreeOpt(h, p) == FreeAt(h, i)
  {
    hide Good, UsedExt, Heap.LfreeOk, Heap.NothingLive, FreeAt;
    if p.Some? {
      FreeInv(h, p.value);
      if 0 <= p.value < h.End() { PosLive(h, p.value); }
    }
  }

  /** rt_free removes exactly the released block from the live ones. */
  lemma {:induction false} FreeLive(h: Heap, i: nat)
    requires h.Inv() && i < |h.blocks| && h.blocks[i].used
    ensures var g := Free(h, h.blocks[i].off + HDR);
      && Live(h.blocks) == Live(h.blocks[..i]) + [h.blocks[i]] + Live(h.blocks[i + 1..])
      && Live(g.blocks) == Live(h.blocks[..i]) + Live(h.blocks[i + 1..])
      && g.used + h.blocks[i].ext == h.used
  {
    assert h.blocks[i] in h.blocks;
    PosLive(h, h.blocks[i].off + HDR);
    PosUnique(h.blocks, 0, h.End(), i);
    UsedBlockLive(h.blocks, i);
    CoalesceLive(Mark(h.blocks, i, false), i);
    MarkedLive(h.blocks, i);
  }

  // ------------------------------------------------------------ rt_realloc

  /** plug_holes after the split of rt_realloc only looks to the right. */
  lemma {:induction false} ShrinkPlug(bs: seq<Block>, i: nat, lfree: nat)
    requires 0 < i < |bs| && bs[i - 1].used
    ensures MergeRight(bs, i) == Coalesce(bs, i)
    ensures PlugLfree(bs, i, lfree) ==
      if i + 1 < |bs| && !bs[i + 1].used && lfree == bs[i + 1].off then bs[i].off else lfree
  {
    CoalesceAfterUsed(bs, i);
  }

  /** Shrink in terms of the split and of plug_holes. */
  lemma {:induction false} ShrinkAsPlug(h: Heap, i: nat, ns: nat)
    requires i < |h.blocks| && h.blocks[i].used && 0 < ns && ns + HDR < h.blocks[i].ext <= h.used
    ensures var m := Split(h.blocks, i, ns + HDR, true, false);
      && i + 1 < |m| && !m[i + 1].used && m[i + 1].off == h.blocks[i].off + HDR + ns
      && Shrink(h, i, ns) == h.(blocks := Coalesce(m, i + 1), lfree := PlugLfree(m, i + 1, h.lfree),
                                used := h.used - (h.blocks[i].ext - HDR - ns))
  {
    ShrinkPlug(Split(h.blocks, i, ns + HDR, true, false), i + 1, h.lfree);
    hide PlugLfree, Coalesce, MergeRight;
  }

  lemma {:induction false} ShrinkGood(bs: seq<Block>, end: nat, i: nat, e: nat)
    requires Good(bs, end) && i < |bs| && bs[i].used
    requires HDR < e && e % 4 == 0 && e + HDR < bs[i].ext
    ensures Good(MergeRight(Split(bs, i, e, true, false), i + 1), end)
  {
    var m := Split(bs, i, e, true, false);
    SplitTiles(bs, i, e, true, false, 0, end);
    SplitSound(bs, i, e, true, false);
    CutSettledBut(bs, i, e);
    CoalesceAfterUsed(m, i + 1);
    CoalesceTiles(m, i + 1, 0, end);
    CoalesceSettles(m, i + 1);
    CoalesceSound(m, i + 1);
  }

  /** No block reaches past the sentinel, so plug_holes leaves lfree there. */
  lemma {:induction false} PlugAtEnd(bs: seq<Block>, i: nat, end: nat)
    requires Tiles(bs, 0, end) && i < |bs|
    ensures PlugLfree(bs, i, end) == end
  {
    Within(bs, 0, end, i);
    if i + 1 < |bs| { Within(bs, 0, end, i + 1); }
  }

  lemma {:induction false} ShrinkLfreeOk(h: Heap, i: nat, ns: nat)
    requires h.Layout() && h.LfreeOk() && i < |h.blocks| && h.blocks[i].used
    requires 0 < ns && ns + 2 * HDR + MIN < h.blocks[i].ext <= h.used
    ensures Shrink(h, i, ns).LfreeOk()
  {
    var bs := Split(h.blocks, i, ns + HDR, true, false);
    CoalesceAfterUsed(bs, i + 1);
    assert Shrink(h, i, ns).lfree == PlugLfree(bs, i + 1, h.lfree);
    hide Coalesce, MergeRight, PlugLfree, HasFree, Settled, Sound;
    if h.lfree != h.End() {
      NotBoth(h, i);
      SplitFree(h.blocks, i, ns + HDR, true, false, h.lfree);
      CoalesceFree(bs, i + 1, h.lfree);
    } else {
      SplitTiles(h.blocks, i, ns + HDR, true, false, 0, h.End());
      PlugAtEnd(bs, i + 1, h.End());
    }
  }

  lemma {:induction false} ShrinkSum(bs: seq<Block>, i: nat, e: nat)
    requires i < |bs| && bs[i].used && 0 < e < bs[i].ext
    ensures UsedExt(MergeRight(Split(bs, i, e, true, false), i + 1)) + bs[i].ext == UsedExt(bs) + e
    ensures bs[i].ext <= UsedExt(bs)
  {
    hide UsedExt;
    var m := Split(bs, i, e, true, false);
    SumAtLeast(bs, i);
    SplitSum(bs, i, e, true, false);
    CoalesceAfterUsed(m, i + 1);
    CoalesceSum(m, i + 1);
  }

  lemma {:induction false} ShrinkInv(h: Heap, i: nat, ns: nat)
    requires h.Inv() && i < |h.blocks| && h.blocks[i].used
    requires 0 < ns && ns % 4 == 0 && ns + 2 * HDR + MIN < h.blocks[i].ext
    ensures h.blocks[i].ext <= h.used && Shrink(h, i, ns).Inv()
  {
    hide UsedExt, MergeRight, Split, Good, HasFree;
    ShrinkSum(h.blocks, i, ns + HDR);
    ShrinkGood(h.blocks, h.End(), i, ns + HDR);
    ShrinkLfreeOk(h, i, ns);
    ShrinkKeeps(h.blocks, i, ns + HDR);
  }

  lemma {:induction false} ShrinkKeeps(bs: seq<Block>, i: nat, e: nat)
    requires i < |bs| && bs[i].used && 0 < e < bs[i].ext
    ensures var r := MergeRight(Split(bs, i, e, true, false), i + 1);
      i < |r| && r[i] == Block(bs[i].off, e, true) && r[i] in r
  {
    var m := Split(bs, i, e, true, false);
  }

  /** Shrinking keeps the block's place and every other live block. */
  lemma {:induction false} ShrinkLive(h: Heap, i: nat, ns: nat)
    requires i < |h.blocks| && h.blocks[i].used
    requires 0 < ns && ns + HDR < h.blocks[i].ext <= h.used
    ensures Live(Shrink(h, i, ns).blocks)
         == Live(h.blocks[..i]) + [Block(h.blocks[i].off, ns + HDR, true)] + Live(h.blocks[i + 1..])
  {
    var bs := Split(h.blocks, i, ns + HDR, true, false);
    SplitLive(h.blocks, i, ns + HDR, true, false);
    CoalesceAfterUsed(bs, i + 1);
    CoalesceLive(bs, i + 1);
  }

  lemma {:induction false} MallocKeepsLive(h: Heap, n: nat, p: int)
    requires h.Inv() && h.IsLive(p)
    ensures Malloc(h, n).0.IsLive(p)
  {
    if Malloc(h, n).1.Some? {
      var b :| b in h.blocks && b.off + HDR == p && b.used;
      var g := Malloc(h, n).0;
      MallocResult(h, n);
      LiveMember(h.blocks, b);
      LiveMember(g.blocks, b);
    }
  }

  lemma {:induction false} ResizeInv(h: Heap, i: nat, ns: nat)
    requires h.Inv() && i < |h.blocks| && h.blocks[i].used && HDR <= h.blocks[i].ext <= h.used
    requires 0 < ns && ns % 4 == 0
    ensures ResizeAt(h, i, ns).0.Inv()
  {
    hide SmallMemSpec.Malloc, Shrink, SmallMemSpec.Free, Good, UsedExt, Heap.LfreeOk, Heap.NothingLive;
    if h.blocks[i].ext - HDR == ns {
    } else if ns + HDR + MIN < h.blocks[i].ext - HDR {
      ShrinkInv(h, i, ns);
    } else {
      var p := h.blocks[i].off + HDR;
      assert h.blocks[i] in h.blocks;
      MallocInv(h, ns);
      MallocKeepsLive(h, ns, p);
      FreeInv(Malloc(h, ns).0, p);
    }
  }

  lemma {:induction false} ReallocInv(h: Heap, p: Option<int>, n: nat)
    requires h.Inv() && n < WORD && h.MayPass(p)
    ensures Realloc(h, p, n).0.Inv()
  {
    hide SmallMemSpec.Malloc, SmallMemSpec.Free, ResizeAt, Pos, Good, UsedExt, Heap.LfreeOk, Heap.NothingLive;
    var ns := AlignUp(n);
    if ns > h.size {
    } else if ns == 0 {
      if p.Some? { FreeInv(h, p.value); }
    } else if p.None? {
      MallocInv(h, ns);
    } else if 0 <= p.value < h.End() {
      PosLive(h, p.value);
      ResizeInv(h, Pos(h.blocks, p.value - HDR), ns);
    }
  }

  /** After the allocation inside rt_realloc, old and new block lie side by side. */
  lemma {:induction false} BothLive(h: Heap, n: nat, b: Block)
    requires h.Inv() && b in h.blocks && b.used && Malloc(h, n).1.Some?
    ensures var (g, q) := Malloc(h, n);
      && b in g.blocks && q.value != b.off + HDR
      && exists c :: c in g.blocks && c.used && c.off + HDR == q.value && c.ext >= Request(n) + HDR
  {
    hide SmallMemSpec.Malloc, FirstFit, Pos;
    var (g, q) := Malloc(h, n);
    MallocResult(h, n);
    LiveMember(h.blocks, b);
    LiveMember(g.blocks, b);
    assert g.blocks[Pick(h, n)] in g.blocks;
    assert h.IsLive(b.off + HDR);
  }

  /** rt_free of b keeps every other live block. */
  lemma {:induction false} FreeMembers(g: Heap, b: Block)
    requires g.Inv() && b in g.blocks && b.used
    ensures forall x :: x in SmallMemSpec.Free(g, b.off + HDR).blocks && x.used ==> x in g.blocks
    ensures forall x :: x in g.blocks && x.used && x.off != b.off ==> x in SmallMemSpec.Free(g, b.off + HDR).blocks
  {
    var i: nat :| i < |g.blocks| && g.blocks[i] == b;
    FreeLive(g, i);
    hide SmallMemSpec.Free, Heap.Inv;
    var f := SmallMemSpec.Free(g, b.off + HDR);
    forall x | x in f.blocks && x.used ensures x in g.blocks {
      LiveMember(f.blocks, x);
      LiveMember(g.blocks, x);
    }
    forall x | x in g.blocks && x.used && x.off != b.off ensures x in f.blocks {
      LiveMember(f.blocks, x);
      LiveMember(g.blocks, x);
    }
  }

  // ------------------------------------------------------------ what a call leaves alone

  /** Exactly the block at `gone` stopped being live, exactly the one at r came. */
  ghost predicate OthersStay(h: Heap, g: Heap, gone: Option<int>, r: Option<int>) {
    Survive(h.blocks, g.blocks, HDR, gone, r)
  }

  /** The pointer r, if there is one, leads to a live block with n payload bytes. */
  ghost predicate HasRoom(g: Heap, r: Option<int>, n: nat) {
    r.Some? ==> exists c :: c in g.blocks && c.used && c.off + HDR == r.value && c.ext >= n + HDR
  }

  lemma {:induction false} MallocOthers(h: Heap, n: nat)
    requires h.Inv()
    ensures var (g, r) := Malloc(h, n); OthersStay(h, g, None, r) && HasRoom(g, r, Request(n)) && (r.None? ==> g == h)
  {
    var (g, r) := Malloc(h, n);
    if r.Some? {
      hide SmallMemSpec.Malloc, Pick, UsedExt, Live, Survive, Tiles, Settled, Sound, Heap.LfreeOk, Heap.NothingLive, Heap.IsLive;
      MallocResult(h, n);
      var i := Pick(h, n);
      OneCame(h.blocks, g.blocks, HDR, h.End(), i, g.blocks[i]);
      assert g.blocks[i] in g.blocks;
    }
  }

  lemma {:induction false} FreeOthers(h: Heap, p: Option<int>)
    requires h.Inv() && h.MayPass(p)
    ensures OthersStay(h, FreeOpt(h, p), p, None)
  {
    hide SmallMemSpec.Free, Pos, OthersStay, Heap.Inv, Heap.IsLive;
    if p.Some? && 0 <= p.value < h.End() {
      PosLive(h, p.value);
      FreeOneOther(h, Pos(h.blocks, p.value - HDR));
    } else {
      FreeNobody(h, p);
    }
  }

  lemma {:induction false} FreeNobody(h: Heap, p: Option<int>)
    requires h.Inv() && (p.Some? ==> p.value < 0 || p.value >= h.End())
    ensures OthersStay(h, FreeOpt(h, p), p, None)
  {
    OutsideIsNobody(h, p);
    hide Heap.Inv, Pos;
  }

  lemma {:induction false} FreeOneOther(h: Heap, i: nat)
    requires h.Inv() && i < |h.blocks| && h.blocks[i].used
    ensures OthersStay(h, Free(h, h.blocks[i].off + HDR), Some(h.blocks[i].off + HDR), None)
  {
    hide SmallMemSpec.Free, UsedExt, Live, Survive, Tiles, Settled, Sound, Heap.LfreeOk, Heap.NothingLive;
    FreeLive(h, i);
    OneWent(h.blocks, Free(h, h.blocks[i].off + HDR).blocks, HDR, h.End(), i);
  }

  /** No live block's pointer lies outside the heap. */
  lemma {:induction false} OutsideIsNobody(h: Heap, p: Option<int>)
    requires h.Inv() && (p.Some? ==> p.value < 0 || p.value >= h.End())
    ensures forall x :: x in h.blocks && x.used ==> p != Some(x.off + HDR)
  {
    forall x | x in h.blocks && x.used ensures p != Some(x.off + HDR) {
      assert h.IsLive(x.off + HDR);
      PosLive(h, x.off + HDR);
    }
  }

  lemma {:induction false} ShrinkOthers(h: Heap, i: nat, ns: nat)
    requires h.Inv() && i < |h.blocks| && h.blocks[i].used && 0 < ns && ns + HDR < h.blocks[i].ext <= h.used
    ensures var p := Some(h.blocks[i].off + HDR); OthersStay(h, Shrink(h, i, ns), p, p) && HasRoom(Shrink(h, i, ns), p, ns)
  {
    ShrinkRoom(h, i, ns);
    ShrinkStays(h, i, ns);
    hide Heap.Inv, Shrink, OthersStay, HasRoom;
  }

  lemma {:induction false} ShrinkStays(h: Heap, i: nat, ns: nat)
    requires Tiles(h.blocks, 0, h.End()) && i < |h.blocks| && h.blocks[i].used && 0 < ns && ns + HDR < h.blocks[i].ext <= h.used
    ensures var p := Some(h.blocks[i].off + HDR); OthersStay(h, Shrink(h, i, ns), p, p)
  {
    hide Live, Shrink, Survive, Tiles;
    ShrinkLive(h, i, ns);
    UsedBlockLive(h.blocks, i);
    OneResized(h.blocks, Shrink(h, i, ns).blocks, HDR, h.End(), i, Block(h.blocks[i].off, ns + HDR, true));
  }

  lemma {:induction false} ShrinkRoom(h: Heap, i: nat, ns: nat)
    requires i < |h.blocks| && h.blocks[i].used && 0 < ns && ns + HDR < h.blocks[i].ext <= h.used
    ensures HasRoom(Shrink(h, i, ns), Some(h.blocks[i].off + HDR), ns)
  {
    ShrinkKeeps(h.blocks, i, ns + HDR);
    assert Block(h.blocks[i].off, ns + HDR, true) in Shrink(h, i, ns).blocks;
  }

  lemma {:induction false} MoveOthers(h: Heap, b: Block, ns: nat)
    requires h.Inv() && b in h.blocks && b.used
    ensures var (g, r) := AllocCopyFree(h, b.off, ns);
      && OthersStay(h, g, if r.Some? then Some(b.off + HDR) else None, r)
      && HasRoom(g, r, Request(ns)) && (r.None? ==> g == h)
  {
    MallocOthers(h, ns);
    MallocInv(h, ns);
    var (m, r) := Malloc(h, ns);
    hide SmallMemSpec.Malloc, SmallMemSpec.Free, Heap.Inv;
    if r.Some? {
      assert b in m.blocks && m.IsLive(b.off + HDR);
      FreeOthers(m, Some(b.off + HDR));
      ThenFreed(h, m, Free(m, b.off + HDR), b, r, Request(ns));
    }
  }

  lemma {:induction false} ThenFreed(h: Heap, m: Heap, g: Heap, b: Block, r: Option<int>, n: nat)
    requires OthersStay(h, m, None, r) && HasRoom(m, r, n) && b in h.blocks && b.used
    requires OthersStay(m, g, Some(b.off + HDR), None)
    ensures OthersStay(h, g, Some(b.off + HDR), r) && HasRoom(g, r, n)
  {
    assert r != Some(b.off + HDR);
  }

  /** The request covers what was asked for unless RT_ALIGN wraps. */
  lemma {:induction false} RoomEnough(g: Heap, r: Option<int>, n: nat)
    requires HasRoom(g, r, Request(n)) && n + 3 < WORD
    ensures HasRoom(g, r, n)
  {
  }

  /** What rt_realloc to a size above zero, of the block at p if any, promises. */
  ghost predicate Resized(h: Heap, g: Heap, p: Option<int>, r: Option<int>, n: nat) {
    (r.Some? ==> OthersStay(h, g, p, r) && HasRoom(g, r, n)) && (r.None? ==> g == h)
  }

  lemma {:induction false} MoveResized(h: Heap, i: nat, ns: nat)
    requires h.Inv() && i < |h.blocks| && h.blocks[i].used && ns + 3 < WORD
    ensures var (g, r) := AllocCopyFree(h, h.blocks[i].off, ns); Resized(h, g, Some(h.blocks[i].off + HDR), r, ns)
  {
    hide AllocCopyFree, Heap.Inv, OthersStay, Request, HasRoom;
    assert h.blocks[i] in h.blocks;
    MoveOthers(h, h.blocks[i], ns);
    var (g, r) := AllocCopyFree(h, h.blocks[i].off, ns);
    RoomEnough(g, r, ns);
  }

  lemma {:induction false} ResizeOthers(h: Heap, i: nat, ns: nat)
    requires h.Inv() && i < |h.blocks| && h.blocks[i].used && HDR < h.blocks[i].ext <= h.used && 0 < ns && ns + 3 < WORD
    ensures var (g, r) := ResizeAt(h, i, ns); Resized(h, g, Some(h.blocks[i].off + HDR), r, ns)
  {
    hide Shrink, AllocCopyFree, Heap.Inv, OthersStay, HasRoom;
    if h.blocks[i].ext - HDR == ns {
      SameOthers(h, i, ns);
    } else if ns + HDR + MIN < h.blocks[i].ext - HDR {
      ShrinkOthers(h, i, ns);
    } else {
      MoveResized(h, i, ns);
    }
  }

  lemma {:induction false} SameOthers(h: Heap, i: nat, ns: nat)
    requires h.Inv() && i < |h.blocks| && h.blocks[i].used && h.blocks[i].ext == ns + HDR
    ensures var p := Some(h.blocks[i].off + HDR); OthersStay(h, h, p, p) && HasRoom(h, p, ns)
  {
    assert h.blocks[i] in h.blocks;
    forall x | x in h.blocks && x.used && x.off != h.blocks[i].off ensures x.off + HDR != h.blocks[i].off + HDR {}
    hide Heap.Inv;
  }

  lemma {:induction false} FirstResized(h: Heap, ns: nat)
    requires h.Inv() && ns + 3 < WORD
    ensures var (g, r) := Malloc(h, ns); Resized(h, g, None, r, ns)
  {
    hide SmallMemSpec.Malloc, Heap.Inv, OthersStay, Request, HasRoom;
    MallocOthers(h, ns);
    RoomEnough(Malloc(h, ns).0, Malloc(h, ns).1, ns);
  }

  /** rt_realloc leaves every other live block live where and as it is, and makes
      nothing live but its result; the result has room for the aligned request; a
      failed call for more than no bytes changes nothing. */
  lemma {:induction false} ReallocResult(h: Heap, p: Option<int>, n: nat)
    requires h.Inv() && n < WORD && h.MayPass(p)
    ensures var (g, r) := Realloc(h, p, n);
      if AlignUp(n) == 0 then r.None? && OthersStay(h, g, p, None)
      else if p.Some? && !h.IsLive(p.value) then g == h && r == if AlignUp(n) > h.size then None else p
      else Resized(h, g, p, r, AlignUp(n))
  {
    var ns := AlignUp(n);
    hide SmallMemSpec.Malloc, FreeOpt, ResizeAt, Pos, OthersStay, HasRoom, Heap.IsLive, Good, UsedExt, Heap.LfreeOk, Heap.NothingLive;
    if ns == 0 {
      FreeOthers(h, p);
    } else if ns <= h.size && p.None? {
      FirstResized(h, ns);
    } else if ns <= h.size && 0 <= p.value < h.End() {
      PosLive(h, p.value);
      ResizeOthers(h, Pos(h.blocks, p.value - HDR), ns);
    } else if p.Some? && h.IsLive(p.value) {
      PosLive(h, p.value);
    }
  }

  lemma {:induction false} Laid(h: Heap)
    requires h.Inv()
    ensures Tiles(h.blocks, 0, h.End())
  {
  }

  // ------------------------------------------------------------ whole runs

  lemma {:induction false} StepInv(h: Heap, op: Op)
    requires h.Inv() && Legal(h, op)
    ensures Step(h, op).Inv()
  {
    match op
    case DoMalloc(n) => MallocInv(h, n);
    case DoFree(p) => if p.Some? { FreeInv(h, p.value); }
    case DoRealloc(p, n) => ReallocInv(h, p, n);
  }

  lemma {:induction false} FreshInv(size: nat)
    requires MIN <= size && size % 4 == 0 && size + 2 * HDR < WORD
    ensures Fresh(size).Inv()
  {
    var f := Fresh(size);
    assert f.blocks[0] in f.blocks;
    assert f.blocks[..0] == [];
  }

  /** Every state of every run keeps the heap invariant. */
  lemma {:induction false} RunInv(h: Heap, ops: seq<Op>, g: Heap)
    requires h.Inv() && Reaches(h, ops, g)
    ensures g.Inv() && g.size == h.size
    decreases |ops|
  {
    if ops != [] {
      StepInv(h, ops[0]);
      RunInv(Step(h, ops[0]), ops[1..], g);
    }
  }

  /** When a run leaves nothing live, the heap is the fresh heap again
      (only the high-water mark remembers the run). */
  lemma {:induction false} EmptyRunIsFresh(size: nat, ops: seq<Op>, g: Heap)
    requires MIN <= size && size % 4 == 0 && size + 2 * HDR < WORD
    requires Reaches(Fresh(size), ops, g) && g.NothingLive()
    ensures g == Fresh(size).(peak := g.peak)
  {
    FreshInv(size);
    RunInv(Fresh(size), ops, g);
    AllFreeIsOne(g.blocks, 0, g.End());
    assert UsedExt(g.blocks) == 0 by { assert g.blocks[..0] == []; }
  }

  /** Two runs that end with the same live blocks end with the same layout and
      the same accounting, whatever calls they made in between. */
  lemma {:induction false} LayoutDependsOnLiveOnly(size: nat, ops1: seq<Op>, g1: Heap, ops2: seq<Op>, g2: Heap)
    requires MIN <= size && size % 4 == 0 && size + 2 * HDR < WORD
    requires Reaches(Fresh(size), ops1, g1) && Reaches(Fresh(size), ops2, g2)
    requires Live(g1.blocks) == Live(g2.blocks)
    ensures g1.blocks == g2.blocks && g1.used == g2.used
  {
    FreshInv(size);
    RunInv(Fresh(size), ops1, g1);
    RunInv(Fresh(size), ops2, g2);
    Canonical(g1.blocks, g2.blocks, 0, g1.End());
  }

  /** rt_malloc followed at once by rt_free of its result undoes it. */
  lemma {:induction false} MallocFreeRoundTrip(h: Heap, n: nat)
    requires h.Inv() && Malloc(h, n).1.Some?
    ensures var (g, p) := Malloc(h, n); Free(g, p.value) == h.(peak := g.peak)
  {
    hide Live, UsedExt, Take, Tiles, Sound, Settled, Coalesce, NextFree, FirstFit, PlugLfree;
    var (g, p) := Malloc(h, n);
    var i := Pick(h, n);
    MallocInv(h, n);
    MallocResult(h, n);
    PosUnique(g.blocks, 0, g.End(), i);
    FreeLive(g, i);
    FreeAtInv(g, i);
    RoundTripBlocks(h, n);
    PickFacts(h, n);
    RoundTripLfree(h, i, Request(n));
  }

  lemma {:induction false} RoundTripBlocks(h: Heap, n: nat)
    requires h.Inv() && Malloc(h, n).1.Some?
    ensures var (g, p) := Malloc(h, n); Free(g, p.value).blocks == h.blocks
  {
    hide Live, UsedExt, Take, Tiles, Sound, Settled, Coalesce, NextFree, FirstFit, PlugLfree;
    var (g, p) := Malloc(h, n);
    var i := Pick(h, n);
    MallocInv(h, n);
    MallocResult(h, n);
    FreeLive(g, i);
    FreeInv(g, p.value);
    TakeExtent(h.blocks, i, Request(n));
    TakeTailLive(h.blocks, i, Request(n));
    Canonical(Free(g, p.value).blocks, h.blocks, 0, h.End());
  }

  lemma {:induction false} TakeTailLive(bs: seq<Block>, i: nat, size: nat)
    requires i < |bs| && bs[i].ext >= size + HDR
    ensures Live(Take(bs, i, size)[i + 1..]) == Live(bs[i + 1..])
  {
    var r := Take(bs, i, size);
    if bs[i].ext >= size + 2 * HDR + MIN {
      var rest := Block(bs[i].off + size + HDR, bs[i].ext - size - HDR, false);
      assert r[i + 1..] == [rest] + bs[i + 1..];
      LiveConcat([rest], bs[i + 1..]);
      LiveSingle(rest);
      assert LiveOne(rest) + Live(bs[i + 1..]) == Live(bs[i + 1..]);
    } else {
      assert r[i + 1..] == bs[i + 1..];
    }
  }

  /** plug_holes leaves lfree alone when it lies at or below a block whose left
      neighbour is used. */
  lemma {:induction false} PlugKeeps(bs: seq<Block>, i: nat, f: nat, end: nat)
    requires Tiles(bs, 0, end) && i < |bs| && f <= bs[i].off && (i > 0 ==> bs[i - 1].used)
    ensures PlugLfree(bs, i, f) == f
  {
    if i + 1 < |bs| { Sides(bs, 0, end, i, i + 1); }
  }

  lemma {:induction false} RoundTripLfree(h: Heap, i: nat, size: nat)
    requires h.Inv() && i < |h.blocks| && !h.blocks[i].used
    requires h.lfree <= h.blocks[i].off && h.blocks[i].ext >= size + HDR && size > 0 && size % 4 == 0
    ensures var g := MallocAt(h, i, size);
      g.blocks[i].ext <= g.used && FreeAt(g, i).lfree == h.lfree
  {
    var g := MallocAt(h, i, size);
    MallocAtInv(h, i, size);
    SumAtLeast(g.blocks, i);
    TakeExtent(h.blocks, i, size);
    var m := Mark(g.blocks, i, false);
    MarkTiles(g.blocks, i, false, 0, g.End());
    assert i > 0 ==> m[i - 1].used by {
      if i > 0 { assert Apart(h.blocks, i - 1); assert g.blocks[..i][i - 1] == h.blocks[..i][i - 1]; }
    }
    PlugKeeps(m, i, h.lfree, g.End());
    NextFreeAbove(g.blocks, i, h.End());
    hide Take, NextFree, UsedExt, Good, Heap.LfreeOk, Heap.NothingLive, PlugLfree, Coalesce;
  }

  /** With a used block at i, the next free one lies strictly above it. */
  lemma {:induction false} NextFreeAbove(bs: seq<Block>, i: nat, end: nat)
    requires Tiles(bs, 0, end) && i < |bs| && bs[i].used
    ensures bs[i].off < NextFree(bs, i, end)
    decreases |bs| - i
  {
    Within(bs, 0, end, i);
    if i + 1 < |bs| {
      Sides(bs, 0, end, i, i + 1);
      if bs[i + 1].used { NextFreeAbove(bs, i + 1, end); }
    }
  }
}
