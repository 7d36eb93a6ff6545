/** The two lists of memheap.c agree in every run, and the accounts balance. */
module MemHeapTheory {
  import opened Machine
  import opened OrderedList
  import opened Tiling
  import opened MemHeapSpec

  // ------------------------------------------------------------- free payloads

  lemma {:induction false} PayConcat(a: seq<Block>, b: seq<Block>)
    ensures FreePay(a + b) == FreePay(a) + FreePay(b)
    decreases |b|
  {
    if b == [] {
      assert a + b == a;
    } else {
      assert (a + b)[..|a + b| - 1] == a + b[..|b| - 1];
      PayConcat(a, b[..|b| - 1]);
    }
  }

  lemma {:induction false} PaySingle(b: Block)
    ensures FreePay([b]) == PayOne(b)
  {
    assert [b][..0] == [];
  }

  lemma {:induction false} PayPair(b: Block, c: Block)
    ensures FreePay([b, c]) == PayOne(b) + PayOne(c)
  {
    assert [b, c] == [b] + [c];
    PayConcat([b], [c]);
    PaySingle(b);
    PaySingle(c);
  }

  lemma {:induction false} PayReplace(p: seq<Block>, m: seq<Block>, n: seq<Block>, q: seq<Block>)
    ensures FreePay(p + n + q) - FreePay(n) == FreePay(p + m + q) - FreePay(m)
  {
    PayConcat(p + m, q);
    PayConcat(p, m);
    PayConcat(p + n, q);
    PayConcat(p, n);
  }

  lemma {:induction false} PaySplit(bs: seq<Block>, i: nat, e: nat, u: bool, v: bool)
    requires i < |bs| && 0 < e < bs[i].ext
    ensures FreePay(Split(bs, i, e, u, v)) ==
      FreePay(bs) - PayOne(bs[i]) + PayOne(Block(bs[i].off, e, u)) + PayOne(Block(bs[i].off + e, bs[i].ext - e, v))
  {
    var x, y := Block(bs[i].off, e, u), Block(bs[i].off + e, bs[i].ext - e, v);
    PayReplace(bs[..i], [bs[i]], [x, y], bs[i + 1..]);
    assert bs == bs[..i] + [bs[i]] + bs[i + 1..];
    PaySingle(bs[i]);
    PayPair(x, y);
  }

  lemma {:induction false} PayMark(bs: seq<Block>, i: nat, u: bool)
    requires i < |bs|
    ensures FreePay(Mark(bs, i, u)) == FreePay(bs) - PayOne(bs[i]) + PayOne(bs[i].(used := u))
  {
    var x := bs[i].(used := u);
    PayReplace(bs[..i], [bs[i]], [x], bs[i + 1..]);
    assert bs == bs[..i] + [bs[i]] + bs[i + 1..];
    assert Mark(bs, i, u) == bs[..i] + [x] + bs[i + 1..];
    PaySingle(bs[i]);
    PaySingle(x);
  }

  lemma {:induction false} PayMerge(bs: seq<Block>, i: nat)
    requires i + 1 < |bs|
    ensures FreePay(Merge(bs, i)) ==
      FreePay(bs) - PayOne(bs[i]) - PayOne(bs[i + 1]) + PayOne(Block(bs[i].off, bs[i].ext + bs[i + 1].ext, bs[i].used))
  {
    var x := Block(bs[i].off, bs[i].ext + bs[i + 1].ext, bs[i].used);
    PayReplace(bs[..i], [bs[i], bs[i + 1]], [x], bs[i + 2..]);
    CutPair(bs, i);
    PaySingle(x);
    PayPair(bs[i], bs[i + 1]);
  }

  /** Every merge of two free blocks turns a header into payload. */
  lemma {:induction false} PayCoalesce(bs: seq<Block>, i: nat)
    requires i < |bs| && !bs[i].used
    ensures FreePay(Coalesce(bs, i)) ==
      FreePay(bs) + (if FreeLeft(bs, i) then HDR else 0) + (if FreeRight(bs, i) then HDR else 0)
  {
    var r := MergeRight(bs, i);
    if FreeRight(bs, i) { PayMerge(bs, i); }
    if i > 0 && !r[i - 1].used { PayMerge(r, i - 1); }
  }

  lemma {:induction false} PayNonNegative(bs: seq<Block>)
    requires Sound(bs)
    ensures FreePay(bs) >= 0
  {
    if bs != [] {
      var p := bs[..|bs| - 1];
      assert bs == p + [bs[|bs| - 1]];
      PayNonNegative(p);
    }
  }

  lemma {:induction false} PayAtLeast(bs: seq<Block>, i: nat)
    requires Sound(bs) && i < |bs| && !bs[i].used
    ensures Payload(bs[i]) <= FreePay(bs)
  {
    assert bs == bs[..i] + [bs[i]] + bs[i + 1..];
    PayConcat(bs[..i] + [bs[i]], bs[i + 1..]);
    PayConcat(bs[..i], [bs[i]]);
    PaySingle(bs[i]);
    assert forall b :: b in bs[..i] ==> b in bs;
    PayNonNegative(bs[..i]);
    PayNonNegative(bs[i + 1..]);
  }

  // ------------------------------------------------------------------ soundness

  lemma {:induction false} SoundEdits(bs: seq<Block>, i: nat)
    requires Sound(bs) && i < |bs|
    ensures forall u :: Sound(Mark(bs, i, u))
    ensures forall e: nat, u, v :: HDR <= e && e + HDR <= bs[i].ext && e % 4 == 0 ==> Sound(Split(bs, i, e, u, v))
    ensures i + 1 < |bs| ==> Sound(Merge(bs, i))
  {
    assert bs[i] in bs;
    forall u ensures Sound(Mark(bs, i, u)) {
      forall b | b in Mark(bs, i, u) ensures b.off % 4 == 0 && b.ext >= HDR {
        var k :| 0 <= k < |bs| && Mark(bs, i, u)[k] == b;
        assert bs[k] in bs;
      }
    }
    forall e: nat, u, v | HDR <= e && e + HDR <= bs[i].ext && e % 4 == 0 ensures Sound(Split(bs, i, e, u, v)) {
      forall b | b in Split(bs, i, e, u, v) ensures b.off % 4 == 0 && b.ext >= HDR {
        assert b in bs[..i] || b in bs[i + 1..] || b == Block(bs[i].off, e, u) || b == Block(bs[i].off + e, bs[i].ext - e, v);
      }
    }
    if i + 1 < |bs| {
      assert bs[i + 1] in bs;
      forall b | b in Merge(bs, i) ensures b.off % 4 == 0 && b.ext >= HDR {
        assert b in bs[..i] || b in bs[i + 2..] || b == Block(bs[i].off, bs[i].ext + bs[i + 1].ext, bs[i].used);
      }
    }
  }

  lemma {:induction false} SoundCoalesce(bs: seq<Block>, i: nat)
    requires Sound(bs) && i < |bs|
    ensures Sound(Coalesce(bs, i))
  {
    hide Sound;
    SoundEdits(bs, i);
    var r := MergeRight(bs, i);
    if i > 0 { SoundEdits(r, i - 1); }
  }

  // ------------------------------------------------- where the free blocks start

  /** Free offsets exactly. */
  lemma {:induction false} FreeSplit(bs: seq<Block>, lo: nat, hi: nat, i: nat, e: nat, f: nat)
    requires Tiles(bs, lo, hi) && i < |bs| && 0 < e < bs[i].ext
    ensures HasFree(Split(bs, i, e, true, false), f) <==> f == bs[i].off + e || (f != bs[i].off && HasFree(bs, f))
  {
    var r := Split(bs, i, e, true, false);
    SplitTiles(bs, i, e, true, false, lo, hi);
    if HasFree(r, f) {
      var b :| b in r && b.off == f && !b.used;
      var k :| 0 <= k < |r| && r[k] == b;
      if k != i + 1 {
        var j := if k < i then k else k - 1;
        assert r[k] == bs[j] && bs[j] in bs;
        Sides(bs, lo, hi, i, j);
      }
    }
    if f == bs[i].off + e { assert r[i + 1] in r; }
    if f != bs[i].off && HasFree(bs, f) { SplitFree(bs, i, e, true, false, f); }
  }

  lemma {:induction false} FreeMarkUsed(bs: seq<Block>, lo: nat, hi: nat, i: nat, f: nat)
    requires Tiles(bs, lo, hi) && i < |bs|
    ensures HasFree(Mark(bs, i, true), f) <==> f != bs[i].off && HasFree(bs, f)
  {
    var r := Mark(bs, i, true);
    if HasFree(r, f) {
      var b :| b in r && b.off == f && !b.used;
      var k :| 0 <= k < |r| && r[k] == b;
      assert bs[k] == b && bs[k] in bs;
      Sides(bs, lo, hi, i, k);
    }
    if f != bs[i].off && HasFree(bs, f) { MarkFree(bs, i, true, f); }
  }

  lemma {:induction false} FreeMarkFree(bs: seq<Block>, i: nat, f: nat)
    requires i < |bs|
    ensures HasFree(Mark(bs, i, false), f) <==> f == bs[i].off || HasFree(bs, f)
  {
    var r := Mark(bs, i, false);
    assert r[i] in r;
    if HasFree(r, f) {
      var b :| b in r && b.off == f && !b.used;
      var k :| 0 <= k < |r| && r[k] == b;
      if k != i { assert bs[k] in bs; }
    }
    if f != bs[i].off && HasFree(bs, f) { MarkFree(bs, i, false, f); }
  }

  lemma {:induction false} FreeMergeFrom(bs: seq<Block>, lo: nat, hi: nat, i: nat, f: nat)
    requires Tiles(bs, lo, hi) && i + 1 < |bs| && HasFree(Merge(bs, i), f)
    ensures f != bs[i + 1].off && HasFree(bs, f)
  {
    var r := Merge(bs, i);
    var b :| b in r && b.off == f && !b.used;
    var k :| 0 <= k < |r| && r[k] == b;
    var j := if k <= i then k else k + 1;
    assert r[k].off == bs[j].off && r[k].used == bs[j].used && bs[j] in bs;
    Sides(bs, lo, hi, i + 1, j);
    hide Tiles;
  }

  lemma {:induction false} FreeMergeTo(bs: seq<Block>, i: nat, f: nat)
    requires i + 1 < |bs| && f != bs[i + 1].off && HasFree(bs, f)
    ensures HasFree(Merge(bs, i), f)
  {
    var r := Merge(bs, i);
    var b :| b in bs && b.off == f && !b.used;
    var j :| 0 <= j < |bs| && bs[j] == b;
    if j == i { assert r[i] in r; } else { assert r[if j < i then j else j - 1] == b; }
  }

  lemma {:induction false} FreeMerge(bs: seq<Block>, lo: nat, hi: nat, i: nat, f: nat)
    requires Tiles(bs, lo, hi) && i + 1 < |bs| && !bs[i + 1].used
    ensures HasFree(Merge(bs, i), f) <==> f != bs[i + 1].off && HasFree(bs, f)
  {
    hide HasFree, Merge, Tiles;
    if HasFree(Merge(bs, i), f) { FreeMergeFrom(bs, lo, hi, i, f); }
    if f != bs[i + 1].off && HasFree(bs, f) { FreeMergeTo(bs, i, f); }
  }

  lemma {:induction false} FreeCoalesce(bs: seq<Block>, lo: nat, hi: nat, i: nat, f: nat)
    requires Tiles(bs, lo, hi) && i < |bs| && !bs[i].used
    ensures HasFree(Coalesce(bs, i), f) <==>
      HasFree(bs, f) && !(FreeRight(bs, i) && f == bs[i + 1].off) && !(FreeLeft(bs, i) && f == bs[i].off)
  {
    var r := MergeRight(bs, i);
    if FreeRight(bs, i) {
      FreeMerge(bs, lo, hi, i, f);
      MergeTiles(bs, i, lo, hi);
    }
    if FreeLeft(bs, i) { FreeMerge(r, lo, hi, i - 1, f); }
  }

  /** A free offset belongs to one free block. */
  lemma {:induction false} FreeAtOffset(bs: seq<Block>, lo: nat, hi: nat, i: nat)
    requires Tiles(bs, lo, hi) && i < |bs|
    ensures HasFree(bs, bs[i].off) <==> !bs[i].used
  {
    assert bs[i] in bs;
    if HasFree(bs, bs[i].off) {
      var b :| b in bs && b.off == bs[i].off && !b.used;
      var k :| 0 <= k < |bs| && bs[k] == b;
      Sides(bs, lo, hi, i, k);
    }
  }

  lemma {:induction false} FreeInside(bs: seq<Block>, lo: nat, hi: nat, i: nat, f: nat)
    requires Tiles(bs, lo, hi) && i < |bs| && bs[i].off < f < bs[i].End()
    ensures !HasFree(bs, f)
  {
    if HasFree(bs, f) {
      var b :| b in bs && b.off == f && !b.used;
      var k :| 0 <= k < |bs| && bs[k] == b;
      Sides(bs, lo, hi, i, k);
    }
  }

  lemma {:induction false} PosOfFree(h: Heap, f: nat)
    requires h.Layout() && HasFree(h.blocks, f)
    ensures var i := Pos(h.blocks, f); i < |h.blocks| && h.blocks[i].off == f && !h.blocks[i].used
  {
    var b :| b in h.blocks && b.off == f && !b.used;
    var k :| 0 <= k < |h.blocks| && h.blocks[k] == b;
    PosUnique(h.blocks, 0, h.pool - HDR, k);
  }

  lemma {:induction false} PosOfLive(h: Heap, p: int)
    requires h.Layout() && h.IsLive(p)
    ensures var i := Pos(h.blocks, p - HDR); i < |h.blocks| && h.blocks[i].off + HDR == p && h.blocks[i].used
  {
    var b :| b in h.blocks && b.off + HDR == p && b.used;
    var k :| 0 <= k < |h.blocks| && h.blocks[k] == b;
    PosUnique(h.blocks, 0, h.pool - HDR, k);
  }

  // --------------------------------------------------------------- each operation

  lemma {:induction false} FreshInv(pool: nat)
    requires 2 * HDR <= pool && pool % 4 == 0 && pool + 2 * HDR < WORD
    ensures Fresh(pool).Inv()
  {
    var b := Block(0, pool - HDR, false);
    PaySingle(b);
    assert [0][1..] == [];
    assert b in [b];
  }

  ghost predicate CanSplit(h: Heap, i: nat, size: nat) {
    i < |h.blocks| && !h.blocks[i].used && size % 4 == 0 && Payload(h.blocks[i]) >= size + HDR + MINI
  }

  lemma {:induction false} SplitLayout(h: Heap, i: nat, size: nat)
    requires h.Inv() && CanSplit(h, i, size)
    ensures AllocAt(h, i, size).Layout()
  {
    hide Split, Tiles, Settled, Sound, HasFree, Distinct, FreePay, Remove;
    SplitTiles(h.blocks, i, size + HDR, true, false, 0, h.pool - HDR);
    SplitSettled(h.blocks, i, size + HDR);
    SoundEdits(h.blocks, i);
  }

  lemma {:induction false} SplitList(h: Heap, i: nat, size: nat)
    requires h.Inv() && CanSplit(h, i, size)
    ensures AllocAt(h, i, size).FreeList()
  {
    var bs, e, f, g := h.blocks, size + HDR, h.blocks[i].off, AllocAt(h, i, size);
    RemoveMembers(h.free, f);
    RemoveDistinct(h.free, f);
    FreeInside(bs, 0, h.pool - HDR, i, f + e);
    Cons(f + e, Remove(h.free, f));
    forall x: nat ensures x in g.free <==> HasFree(g.blocks, x) { FreeSplit(bs, 0, h.pool - HDR, i, e, x); }
    hide Split, Tiles, Settled, Sound, HasFree, Distinct, FreePay, Remove;
  }

  lemma {:induction false} SplitKeeps(h: Heap, i: nat, size: nat)
    requires h.Inv() && CanSplit(h, i, size)
    ensures AllocAt(h, i, size).Inv()
  {
    SplitLayout(h, i, size);
    SplitList(h, i, size);
    PaySplit(h.blocks, i, size + HDR, true, false);
    hide Heap.Layout, Heap.FreeList, Split, FreePay, Remove;
  }

  lemma {:induction false} MarkKeeps(h: Heap, i: nat, size: nat)
    requires h.Inv() && i < |h.blocks| && !h.blocks[i].used
    requires size <= Payload(h.blocks[i]) < size + HDR + MINI
    ensures AllocAt(h, i, size).Inv()
  {
    var bs, f := h.blocks, h.blocks[i].off;
    var g := AllocAt(h, i, size);
    MarkTiles(bs, i, true, 0, h.pool - HDR);
    MarkSettled(bs, i);
    SoundEdits(bs, i);
    PayMark(bs, i, true);
    RemoveMembers(h.free, f);
    RemoveDistinct(h.free, f);
    forall x: nat ensures x in g.free <==> HasFree(g.blocks, x) { FreeMarkUsed(bs, 0, h.pool - HDR, i, x); }
    hide Mark, Tiles, Settled, Sound, HasFree, Distinct, FreePay, Remove;
  }

  lemma {:induction false} AllocAtInv(h: Heap, i: nat, size: nat)
    requires h.Inv() && i < |h.blocks| && !h.blocks[i].used && size % 4 == 0 && Payload(h.blocks[i]) >= size
    ensures AllocAt(h, i, size).Inv()
  {
    if Payload(h.blocks[i]) >= size + HDR + MINI { SplitKeeps(h, i, size); } else { MarkKeeps(h, i, size); }
  }

  /** The search stops at a large enough block of the free list, or shows there is none. */
  lemma {:induction false} FirstBigFits(h: Heap, free: seq<nat>, size: nat)
    requires h.Layout() && forall f :: f in free ==> HasFree(h.blocks, f)
    ensures var k := FirstBig(h.blocks, free, size);
      if k < |free| then var i := Pos(h.blocks, free[k]);
        i < |h.blocks| && h.blocks[i].off == free[k] && !h.blocks[i].used && Payload(h.blocks[i]) >= size
      else forall f :: f in free ==> Pos(h.blocks, f) < |h.blocks| && Payload(h.blocks[Pos(h.blocks, f)]) < size
    decreases |free|
  {
    hide Tiles, Settled, Sound, HasFree, Pos;
    if free != [] {
      assert free[0] in free;
      PosOfFree(h, free[0]);
      assert forall f :: f in free[1..] ==> f in free;
      FirstBigFits(h, free[1..], size);
      assert forall f :: f in free ==> f == free[0] || f in free[1..];
    }
  }

  lemma {:induction false} AllocInv(h: Heap, n: nat)
    requires h.Inv()
    ensures Alloc(h, n).0.Inv()
    ensures Alloc(h, n).1.Some? ==> var i := Pos(h.blocks, Alloc(h, n).1.value - HDR);
      && i < |h.blocks| && !h.blocks[i].used && Payload(h.blocks[i]) >= Request(n)
      && Alloc(h, n) == (AllocAt(h, i, Request(n)), Some(h.blocks[i].off + HDR))
  {
    hide AllocAt, Tiles, Settled, Sound, HasFree, Pos, Distinct, FreePay;
    var size := Request(n);
    FirstBigFits(h, h.free, size);
    var k := FirstBig(h.blocks, h.free, size);
    if size < h.avail && k < |h.free| {
      AllocAtInv(h, Pos(h.blocks, h.free[k]), size);
    }
  }

  lemma {:induction false} FreeAtLayout(h: Heap, i: nat)
    requires h.Inv() && i < |h.blocks| && h.blocks[i].used
    ensures FreeAt(h, i).Layout()
  {
    var bs := h.blocks;
    var m := Mark(bs, i, false);
    MarkTiles(bs, i, false, 0, h.pool - HDR);
    MarkSettled(bs, i);
    SoundEdits(bs, i);
    SoundCoalesce(m, i);
    CoalesceTiles(m, i, 0, h.pool - HDR);
    CoalesceSettles(m, i);
    hide Coalesce, Tiles, Settled, SettledBut, Sound, HasFree, Distinct, FreePay, Remove;
  }

  lemma {:induction false} FreeAtPay(h: Heap, i: nat)
    requires h.Inv() && i < |h.blocks| && h.blocks[i].used
    ensures FreeAt(h, i).avail == FreePay(FreeAt(h, i).blocks) && h.avail <= FreeAt(h, i).avail
  {
    hide Merge, Heap.FreeList;
    var bs := h.blocks;
    var m := Mark(bs, i, false);
    assert bs[i] in bs;
    PayMark(bs, i, false);
    PayCoalesce(m, i);
    assert FreeLeft(m, i) == FreeLeft(bs, i) && FreeRight(m, i) == FreeRight(bs, i);
    hide Coalesce, Tiles, Settled, Sound, HasFree, Distinct, FreePay, Remove;
  }

  lemma {:induction false} FreeAtInv(h: Heap, i: nat)
    requires h.Inv() && i < |h.blocks| && h.blocks[i].used
    ensures FreeAt(h, i).Inv()
  {
    FreeAtLayout(h, i);
    FreeAtList(h, i);
    FreeAtPay(h, i);
    hide Heap.Layout, Heap.FreeList, FreePay, Coalesce, Remove;
  }

  lemma {:induction false} FreeAtList(h: Heap, i: nat)
    requires h.Inv() && i < |h.blocks| && h.blocks[i].used
    ensures FreeAt(h, i).FreeList()
  {
    var bs := h.blocks;
    var m, g, hi := Mark(bs, i, false), FreeAt(h, i), h.pool - HDR;
    var f := if FreeRight(bs, i) then Remove(h.free, bs[i + 1].off) else h.free;
    MarkTiles(bs, i, false, 0, hi);
    FreeAtOffset(bs, 0, hi, i);
    if FreeRight(bs, i) {
      RemoveMembers(h.free, bs[i + 1].off);
      RemoveDistinct(h.free, bs[i + 1].off);
      Sides(bs, 0, hi, i, i + 1);
    }
    Cons(bs[i].off, f);
    assert FreeLeft(m, i) == FreeLeft(bs, i) && FreeRight(m, i) == FreeRight(bs, i);
    assert m[i].off == bs[i].off && (i + 1 < |bs| ==> m[i + 1] == bs[i + 1]);
    forall x: nat ensures x in g.free <==> HasFree(g.blocks, x) {
      FreeMarkFree(bs, i, x);
      FreeCoalesce(m, 0, hi, i, x);
      hide Mark, Coalesce, Tiles, Settled, Sound, HasFree, Distinct, Remove;
    }
  }

  lemma {:induction false} FreeInv(h: Heap, p: Option<int>)
    requires h.Inv() && (p.Some? ==> h.IsLive(p.value))
    ensures FreeOpt(h, p).Inv()
  {
    if p.Some? {
      PosOfLive(h, p.value);
      FreeAtInv(h, Pos(h.blocks, p.value - HDR));
    }
  }

  ghost predicate CanGrow(h: Heap, i: nat, ns: nat) {
    && i + 1 < |h.blocks| && h.blocks[i].used && !h.blocks[i + 1].used && ns % 4 == 0
    && Payload(h.blocks[i]) < ns && ns + MINI < Payload(h.blocks[i]) + Payload(h.blocks[i + 1])
  }

  lemma {:induction false} GrowSettled(bs: seq<Block>, i: nat, e: nat)
    requires Settled(bs) && i + 1 < |bs| && bs[i].used && !bs[i + 1].used && 0 < e < bs[i].ext + bs[i + 1].ext
    ensures Settled(Split(Merge(bs, i), i, e, true, false))
  {
    var r := Split(Merge(bs, i), i, e, true, false);
    assert |r| == |bs|;
    forall k | 0 <= k < |r| - 1 ensures Apart(r, k) {
      assert Apart(bs, k);
      assert forall j :: 0 <= j < |bs| ==> r[j].used == bs[j].used;
    }
  }

  lemma {:induction false} GrowLayout(h: Heap, i: nat, ns: nat)
    requires h.Inv() && CanGrow(h, i, ns) && ns > 0
    ensures Grow(h, i, ns).Layout()
  {
    var bs, hi, e := h.blocks, h.pool - HDR, ns + HDR;
    var m := Merge(bs, i);
    MergeTiles(bs, i, 0, hi);
    SplitTiles(m, i, e, true, false, 0, hi);
    GrowSettled(bs, i, e);
    SoundEdits(bs, i);
    SoundEdits(m, i);
    hide Tiles, Settled, Sound, HasFree, Distinct, FreePay, Remove;
  }

  lemma {:induction false} GrowInv(h: Heap, i: nat, ns: nat)
    requires h.Inv() && CanGrow(h, i, ns) && ns > 0
    ensures Grow(h, i, ns).Inv()
  {
    var bs, e := h.blocks, ns + HDR;
    PayMerge(bs, i);
    PaySplit(Merge(bs, i), i, e, true, false);
    GrowLayout(h, i, ns);
    GrowList(h, i, ns);
    hide Heap.Layout, Heap.FreeList, FreePay, Remove;
  }

  lemma {:induction false} GrowList(h: Heap, i: nat, ns: nat)
    requires h.Inv() && CanGrow(h, i, ns) && ns > 0
    ensures Grow(h, i, ns).FreeList()
  {
    var bs, hi, e := h.blocks, h.pool - HDR, ns + HDR;
    var m, g := Merge(bs, i), Grow(h, i, ns);
    var f := bs[i + 1].off;
    MergeTiles(bs, i, 0, hi);
    assert Abut(bs, i);
    RemoveMembers(h.free, f);
    RemoveDistinct(h.free, f);
    FreeInside(bs, 0, hi, i + 1, bs[i].off + e);
    Cons(bs[i].off + e, Remove(h.free, f));
    FreeAtOffset(bs, 0, hi, i);
    forall x: nat ensures x in g.free <==> HasFree(g.blocks, x) {
      FreeMerge(bs, 0, hi, i, x);
      FreeSplit(m, 0, hi, i, e, x);
      hide Mark, Coalesce, Tiles, Settled, Sound, HasFree, Distinct, Remove;
    }
  }

  ghost predicate CanShrink(h: Heap, i: nat, ns: nat) {
    i < |h.blocks| && h.blocks[i].used && ns % 4 == 0 && ns + HDR + MINI < Payload(h.blocks[i])
  }

  lemma {:induction false} ShrinkLayout(h: Heap, i: nat, ns: nat)
    requires h.Inv() && CanShrink(h, i, ns)
    ensures Shrink(h, i, ns).Layout()
  {
    hide Tiles, Settled, Sound, Split, MergeRight;
    ShrinkBlocks(h.blocks, i, ns + HDR, h.pool - HDR);
  }

  lemma {:induction false} ShrinkBlocks(bs: seq<Block>, i: nat, e: nat, hi: nat)
    requires Tiles(bs, 0, hi) && Sound(bs) && Settled(bs) && i < |bs| && bs[i].used
    requires HDR <= e && e + HDR <= bs[i].ext && e % 4 == 0
    ensures var r := MergeRight(Split(bs, i, e, true, false), i + 1); Tiles(r, 0, hi) && Sound(r) && Settled(r)
  {
    CutTail(bs, i, e, hi);
    var c := Split(bs, i, e, true, false);
    CoalesceAfterUsed(c, i + 1);
    hide Split, MergeRight, Coalesce, Tiles, Settled, SettledBut, Sound;
    CoalesceTiles(c, i + 1, 0, hi);
    CoalesceSettles(c, i + 1);
    SoundCoalesce(c, i + 1);
  }

  lemma {:induction false} CutTail(bs: seq<Block>, i: nat, e: nat, hi: nat)
    requires Tiles(bs, 0, hi) && Sound(bs) && Settled(bs) && i < |bs| && bs[i].used
    requires HDR <= e && e + HDR <= bs[i].ext && e % 4 == 0
    ensures var c := Split(bs, i, e, true, false);
      Tiles(c, 0, hi) && Sound(c) && SettledBut(c, i + 1) && i + 1 < |c| && !c[i + 1].used
  {
    SplitTiles(bs, i, e, true, false, 0, hi);
    CutSettledBut(bs, i, e);
    SoundEdits(bs, i);
  }

  lemma {:induction false} ShrinkPay(h: Heap, i: nat, ns: nat)
    requires h.Inv() && CanShrink(h, i, ns)
    ensures Shrink(h, i, ns).avail == FreePay(Shrink(h, i, ns).blocks) && h.avail <= Shrink(h, i, ns).avail
  {
    var bs, e := h.blocks, ns + HDR;
    var c := Split(bs, i, e, true, false);
    CoalesceAfterUsed(c, i + 1);
    PaySplit(bs, i, e, true, false);
    PayCoalesce(c, i + 1);
    assert FreeRight(c, i + 1) == FreeRight(bs, i) by { assert i + 1 < |bs| ==> c[i + 2] == bs[i + 1]; }
    hide Coalesce, MergeRight, Heap.Layout, Heap.FreeList, FreePay, Remove;
  }

  lemma {:induction false} ShrinkInv(h: Heap, i: nat, ns: nat)
    requires h.Inv() && CanShrink(h, i, ns)
    ensures Shrink(h, i, ns).Inv()
  {
    ShrinkLayout(h, i, ns);
    ShrinkList(h, i, ns);
    ShrinkPay(h, i, ns);
    hide Heap.Layout, Heap.FreeList, FreePay, Remove, MergeRight;
  }

  lemma {:induction false} ShrinkList(h: Heap, i: nat, ns: nat)
    requires h.Inv() && CanShrink(h, i, ns)
    ensures Shrink(h, i, ns).FreeList()
  {
    hide Sound, FreePay, Tiles, HasFree, Merge;
    var bs, hi, e := h.blocks, h.pool - HDR, ns + HDR;
    var c, g := Split(bs, i, e, true, false), Shrink(h, i, ns);
    SplitTiles(bs, i, e, true, false, 0, hi);
    FreeInside(bs, 0, hi, i, bs[i].off + e);
    FreeAtOffset(bs, 0, hi, i);
    var f := if FreeRight(bs, i) then Remove(h.free, bs[i + 1].off) else h.free;
    if FreeRight(bs, i) {
      RemoveMembers(h.free, bs[i + 1].off);
      RemoveDistinct(h.free, bs[i + 1].off);
      Sides(bs, 0, hi, i, i + 1);
    }
    Cons(bs[i].off + e, f);
    assert i + 1 < |bs| ==> c[i + 2] == bs[i + 1];
    forall x: nat ensures x in g.free <==> HasFree(g.blocks, x) {
      FreeSplit(bs, 0, hi, i, e, x);
      if FreeRight(bs, i) { FreeMerge(c, 0, hi, i + 1, x); }
      hide Tiles, Settled, Sound, HasFree, Distinct, Remove, Split;
    }
  }

  lemma {:induction false} ResizeInv(h: Heap, i: nat, ns: nat)
    requires h.Inv() && i < |h.blocks| && h.blocks[i].used && ns % 4 == 0 && ns > 0
    ensures ResizeAt(h, i, ns).0.Inv()
  {
    var bs, had := h.blocks, Payload(h.blocks[i]);
    if ns > had && FreeRight(bs, i) && Payload(bs[i + 1]) + had > ns + MINI {
      GrowInv(h, i, ns);
    } else if ns > had {
      MoveInv(h, i, ns);
    } else if ns + HDR + MINI < had {
      ShrinkInv(h, i, ns);
    }
    hide Heap.Inv, Grow, Shrink, AllocCopyFree;
  }

  lemma {:induction false} MoveInv(h: Heap, i: nat, ns: nat)
    requires h.Inv() && i < |h.blocks| && h.blocks[i].used
    ensures AllocCopyFree(h, h.blocks[i].off + HDR, ns).0.Inv()
  {
    var p := h.blocks[i].off + HDR;
    AllocInv(h, ns);
    if Alloc(h, ns).1.Some? {
      AllocKeepsLive(h, ns, h.blocks[i]);
      FreeInv(Alloc(h, ns).0, Some(p));
    }
    hide Heap.Inv, Alloc, Free;
  }

  /** An allocation leaves every live block where and as it is. */
  lemma {:induction false} AllocKeepsLive(h: Heap, n: nat, b: Block)
    requires h.Inv() && b in h.blocks && b.used
    ensures b in Alloc(h, n).0.blocks && Alloc(h, n).0.IsLive(b.off + HDR)
  {
    AllocInv(h, n);
    if Alloc(h, n).1.Some? {
      hide Heap.Inv, Alloc, AllocAt;
      TakenKeeps(h, Pos(h.blocks, Alloc(h, n).1.value - HDR), Request(n), b);
    }
  }

  lemma {:induction false} TakenKeeps(h: Heap, i: nat, size: nat, b: Block)
    requires i < |h.blocks| && !h.blocks[i].used && Payload(h.blocks[i]) >= size && b in h.blocks && b.used
    ensures b in AllocAt(h, i, size).blocks
  {
    var bs := h.blocks;
    assert bs == bs[..i] + [bs[i]] + bs[i + 1..];
    assert b in bs[..i] || b in bs[i + 1..];
    assert Mark(bs, i, true) == bs[..i] + [bs[i].(used := true)] + bs[i + 1..];
  }

  lemma {:induction false} StepInv(h: Heap, op: Op)
    requires h.Inv() && Legal(h, op)
    ensures Step(h, op).Inv()
  {
    hide Heap.Inv, Heap.Layout, Heap.IsLive, Misjudged, Alloc, ResizeAt, FreeOpt, Pos, Request;
    Laid(h);
    match op
    case DoAlloc(n) => AllocInv(h, n);
    case DoFree(p) => FreeInv(h, p);
    case DoRealloc(p, n) =>
      if n == 0 {
        FreeInv(h, p);
      } else if p.None? {
        AllocInv(h, Request(n));
      } else {
        PosOfLive(h, p.value);
        ResizeInv(h, Pos(h.blocks, p.value - HDR), Request(n));
      }
  }

  /** In every reachable state the address list tiles the pool, the free list is
      exactly the unused blocks, no two neighbours are both free, available_size is
      the sum of the free payloads and max_used_size bounds what is in use. */
  lemma {:induction false} RunInv(h: Heap, ops: seq<Op>, g: Heap)
    requires h.Inv() && Reaches(h, ops, g)
    ensures g.Inv() && g.pool == h.pool
    decreases |ops|
  {
    hide Heap.Inv, Step;
    if ops != [] {
      StepInv(h, ops[0]);
      StepPool(h, ops[0]);
      RunInv(Step(h, ops[0]), ops[1..], g);
    }
  }

  lemma {:induction false} StepPool(h: Heap, op: Op)
    ensures Step(h, op).pool == h.pool
  {
    hide Coalesce, MergeRight, Split, Merge, Mark, Pos, FirstBig, Remove;
  }

  // ----------------------------------------------------------- over whole runs

  /** A run that leaves nothing allocated leaves the heap as it was initialised. */
  lemma {:induction false} EmptyRunIsFresh(pool: nat, ops: seq<Op>, g: Heap)
    requires 2 * HDR <= pool && pool % 4 == 0 && pool + 2 * HDR < WORD
    requires Reaches(Fresh(pool), ops, g) && g.NothingLive()
    ensures g == Fresh(pool).(peak := g.peak)
  {
    FreshInv(pool);
    RunInv(Fresh(pool), ops, g);
    AllFreeIsOne(g.blocks, 0, pool - HDR);
    PaySingle(g.blocks[0]);
    assert g.blocks[0] in g.blocks;
    OnlyOne(g.free, 0);
  }

  lemma {:induction false} OnlyOne(s: seq<nat>, x: nat)
    requires Distinct(s) && forall y :: y in s <==> y == x
    ensures s == [x]
  {
    assert x in s;
    assert s[0] in s;
    if |s| > 1 { TwoApart(s); }
  }

  lemma {:induction false} TwoApart(s: seq<nat>)
    requires Distinct(s) && |s| > 1
    ensures s[0] != s[1] && s[1] in s
  {
    assert s[1] == s[1..][0];
  }

  /** Two runs that leave the same live blocks leave the same layout and the same
      amount available; only the order of the free list may differ. */
  lemma {:induction false} LayoutDependsOnLiveOnly(pool: nat, ops1: seq<Op>, g1: Heap, ops2: seq<Op>, g2: Heap)
    requires 2 * HDR <= pool && pool % 4 == 0 && pool + 2 * HDR < WORD
    requires Reaches(Fresh(pool), ops1, g1) && Reaches(Fresh(pool), ops2, g2) && Live(g1.blocks) == Live(g2.blocks)
    ensures g1.blocks == g2.blocks && g1.avail == g2.avail && forall f :: f in g1.free <==> f in g2.free
  {
    FreshInv(pool);
    RunInv(Fresh(pool), ops1, g1);
    RunInv(Fresh(pool), ops2, g2);
    Canonical(g1.blocks, g2.blocks, 0, pool - HDR);
  }

  /** An allocation is refused exactly when no free block has room or the request
      is not below what is available. */
  lemma {:induction false} AllocRefusesIff(h: Heap, n: nat)
    requires h.Inv()
    ensures Alloc(h, n).1.None? <==>
      Request(n) >= h.avail || !exists i :: Serves(h, n, i)
  {
    hide Tiles, Settled, Sound, Distinct, FreePay, AllocAt;
    var size, k := Request(n), FirstBig(h.blocks, h.free, Request(n));
    FirstBigFits(h, h.free, size);
    if k < |h.free| {
      assert Serves(h, n, Pos(h.blocks, h.free[k]));
    } else {
      forall i | Serves(h, n, i) ensures false {
        assert h.blocks[i] in h.blocks;
        assert HasFree(h.blocks, h.blocks[i].off);
        assert h.blocks[i].off in h.free;
        PosUnique(h.blocks, 0, h.pool - HDR, i);
      }
    }
  }

  /** Free block i has room for n bytes. */
  ghost predicate Serves(h: Heap, n: nat, i: int) {
    0 <= i < |h.blocks| && !h.blocks[i].used && Payload(h.blocks[i]) >= Request(n)
  }

  /** While some block has room, the one request that is refused is the one for
      everything that is available. */
  lemma {:induction false} RefusedWithRoomIff(h: Heap, n: nat, i: int)
    requires h.Inv() && Serves(h, n, i)
    ensures Alloc(h, n).1.None? <==> Request(n) == h.avail
  {
    AllocRefusesIff(h, n);
    PayAtLeast(h.blocks, i);
  }

  /** So a fresh heap does not give out its whole payload. */
  lemma {:induction false} WholePoolRefused(pool: nat)
    requires 2 * HDR + MINI <= pool && pool % 4 == 0 && pool + 2 * HDR < WORD
    ensures Serves(Fresh(pool), pool - 2 * HDR, 0) && Alloc(Fresh(pool), pool - 2 * HDR).1.None?
  {
    FreshInv(pool);
    RefusedWithRoomIff(Fresh(pool), pool - 2 * HDR, 0);
  }

  /** A successful allocation followed by the release of its result restores the
      layout and the amount available; the block moves to the front of the free list. */
  lemma {:induction false} AllocFreeRoundTrip(h: Heap, n: nat)
    requires h.Inv() && Alloc(h, n).1.Some?
    ensures var (g, p) := Alloc(h, n);
      var r, f := Free(g, p.value), p.value - HDR;
      f >= 0 && r == h.(peak := g.peak, free := [f] + Remove(h.free, f))
  {
    hide Coalesce, Tiles, Settled, Sound, HasFree, Distinct, FreePay, Remove, Split, Mark;
    AllocInv(h, n);
    var i := Pos(h.blocks, Alloc(h, n).1.value - HDR);
    var g := AllocAt(h, i, Request(n));
    var f := h.blocks[i].off;
    TakenAt(h, i, Request(n));
    FreeAtInv(g, i);
    var r := FreeAt(g, i);
    RoundTripBlocks(h, i, Request(n));
    RoundTripList(h, i, Request(n));
    PosUnique(g.blocks, 0, h.pool - HDR, i);
    assert r.avail == FreePay(r.blocks) && h.avail == FreePay(h.blocks);
  }

  lemma {:induction false} TakenAt(h: Heap, i: nat, size: nat)
    requires h.Inv() && i < |h.blocks| && !h.blocks[i].used && size % 4 == 0 && Payload(h.blocks[i]) >= size
    ensures var g := AllocAt(h, i, size);
      && g.Inv() && i < |g.blocks| && g.blocks[i].used && g.blocks[i].off == h.blocks[i].off
      && (i > 0 ==> g.blocks[i - 1] == h.blocks[i - 1])
      && (Payload(h.blocks[i]) < size + HDR + MINI && i + 1 < |h.blocks| ==>
          i + 1 < |g.blocks| && g.blocks[i + 1] == h.blocks[i + 1])
  {
    AllocAtInv(h, i, size);
    hide Tiles, Settled, Sound, HasFree, Distinct, FreePay, Remove;
  }

  lemma {:induction false} RoundTripLive(h: Heap, i: nat, size: nat)
    requires i < |h.blocks| && !h.blocks[i].used && Payload(h.blocks[i]) >= size
    ensures var g := AllocAt(h, i, size); i < |g.blocks| && Live(FreeAt(g, i).blocks) == Live(h.blocks)
  {
    var g := AllocAt(h, i, size).blocks;
    AroundAlloc(h, i, size);
    CoalesceLive(Mark(g, i, false), i);
    MarkedLive(g, i);
    FreeBlockLive(h.blocks, i);
    hide Coalesce, Live, AllocAt;
  }

  lemma {:induction false} RoundTripBlocks(h: Heap, i: nat, size: nat)
    requires h.Inv() && i < |h.blocks| && !h.blocks[i].used && size % 4 == 0 && Payload(h.blocks[i]) >= size
    ensures var g := AllocAt(h, i, size); i < |g.blocks| && FreeAt(g, i).blocks == h.blocks
  {
    var g := AllocAt(h, i, size);
    TakenAt(h, i, size);
    RoundTripLive(h, i, size);
    FreeAtLayout(g, i);
    hide AllocAt, FreeAt, Live, Tiles, Settled, Sound, Heap.FreeList, FreePay;
    SamePool(h, i, size);
    Canonical(FreeAt(g, i).blocks, h.blocks, 0, h.pool - HDR);
  }

  lemma {:induction false} SamePool(h: Heap, i: nat, size: nat)
    requires i < |h.blocks| && Payload(h.blocks[i]) >= size && i < |AllocAt(h, i, size).blocks|
    ensures FreeAt(AllocAt(h, i, size), i).pool == h.pool
  {
    hide Split, Mark, Coalesce, Remove;
  }

  lemma {:induction false} AroundAlloc(h: Heap, i: nat, size: nat)
    requires i < |h.blocks| && !h.blocks[i].used && Payload(h.blocks[i]) >= size
    ensures var g := AllocAt(h, i, size);
      i < |g.blocks| && g.blocks[..i] == h.blocks[..i] && Live(g.blocks[i + 1..]) == Live(h.blocks[i + 1..])
  {
    var g, bs := AllocAt(h, i, size), h.blocks;
    if Payload(bs[i]) >= size + HDR + MINI {
      var y := Block(bs[i].off + size + HDR, bs[i].ext - size - HDR, false);
      assert g.blocks[i + 1..] == [y] + bs[i + 1..];
      LiveConcat([y], bs[i + 1..]);
      LiveSingle(y);
      assert [] + Live(bs[i + 1..]) == Live(bs[i + 1..]);
    } else {
      assert g.blocks[i + 1..] == bs[i + 1..];
    }
  }

  lemma {:induction false} RoundTripList(h: Heap, i: nat, size: nat)
    requires h.Inv() && i < |h.blocks| && !h.blocks[i].used && size % 4 == 0 && Payload(h.blocks[i]) >= size
    ensures var g, f := AllocAt(h, i, size), h.blocks[i].off;
      i < |g.blocks| && FreeAt(g, i).free == [f] + Remove(h.free, f)
  {
    var g, f := AllocAt(h, i, size), h.blocks[i].off;
    TakenAt(h, i, size);
    if i > 0 { assert Apart(h.blocks, i - 1); }
    if i + 1 < |h.blocks| { assert Apart(h.blocks, i); }
    assert !FreeLeft(g.blocks, i);
    if Payload(h.blocks[i]) >= size + HDR + MINI {
      assert g.blocks[i + 1] == Block(f + size + HDR, h.blocks[i].ext - size - HDR, false);
      Cons(f + size + HDR, Remove(h.free, f));
      assert FreeRight(g.blocks, i);
      assert Remove(g.free, f + size + HDR) == Remove(h.free, f);
    } else {
      assert !FreeRight(g.blocks, i);
    }
  }

  // ------------------------------------------------------- what callers keep

  /** The new block is live, large enough, and was not part of any live block. */
  lemma {:induction false} AllocResult(h: Heap, n: nat)
    requires h.Inv() && Alloc(h, n).1.Some?
    ensures var (g, p) := Alloc(h, n);
      var i := Pos(g.blocks, p.value - HDR);
      && i < |g.blocks| && g.blocks[i].used && g.blocks[i].off + HDR == p.value && Payload(g.blocks[i]) >= Request(n)
      && (forall b :: b in h.blocks && b.used ==> b in g.blocks)
      && forall b :: b in h.blocks && b.used ==> b.End() <= g.blocks[i].off || g.blocks[i].End() <= b.off
  {
    AllocInv(h, n);
    var i := Pos(h.blocks, Alloc(h, n).1.value - HDR);
    var g := Alloc(h, n).0;
    TakenAt(h, i, Request(n));
    PosUnique(g.blocks, 0, h.pool - HDR, i);
    TakenInside(h, i, Request(n));
    forall b | b in h.blocks && b.used ensures b in g.blocks && (b.End() <= g.blocks[i].off || g.blocks[i].End() <= b.off) {
      AllocKeepsLive(h, n, b);
      ClearOf(h, i, b);
    }
    hide Alloc, AllocAt, Heap.Inv, Tiles;
  }

  lemma {:induction false} TakenInside(h: Heap, i: nat, size: nat)
    requires i < |h.blocks| && Payload(h.blocks[i]) >= size
    ensures var g := AllocAt(h, i, size);
      i < |g.blocks| && g.blocks[i].off == h.blocks[i].off && g.blocks[i].End() <= h.blocks[i].End() && Payload(g.blocks[i]) >= size
  {
    hide Remove;
  }

  lemma {:induction false} ClearOf(h: Heap, i: nat, b: Block)
    requires h.Inv() && i < |h.blocks| && !h.blocks[i].used && b in h.blocks && b.used
    ensures b.End() <= h.blocks[i].off || h.blocks[i].End() <= b.off
  {
    var k :| 0 <= k < |h.blocks| && h.blocks[k] == b;
    Sides(h.blocks, 0, h.pool - HDR, i, k);
  }

  /** A realloc that succeeds without moving the block keeps its address, gives it
      room for the request and keeps every other live block. */
  lemma {:induction false} ResizeInPlace(h: Heap, i: nat, ns: nat)
    requires h.Inv() && i < |h.blocks| && h.blocks[i].used && ns % 4 == 0 && ns > 0
    requires ResizeAt(h, i, ns).1 == Some(h.blocks[i].off + HDR) && !(ns > Payload(h.blocks[i]) && !CanGrow(h, i, ns))
    ensures var g := ResizeAt(h, i, ns).0;
      && i < |g.blocks| && g.blocks[i].off == h.blocks[i].off && g.blocks[i].used && Payload(g.blocks[i]) >= ns
      && forall k :: 0 <= k < |h.blocks| && k != i && h.blocks[k].used ==> h.blocks[k] in g.blocks
  {
    var g, bs := ResizeAt(h, i, ns).0, h.blocks;
    forall k | 0 <= k < |bs| && k != i && bs[k].used ensures bs[k] in g.blocks {
      assert k < i ==> bs[k] == bs[..i][k];
      assert k > i ==> bs[k] == bs[i + 1..][k - i - 1];
      assert k > i + 1 ==> bs[k] == bs[i + 2..][k - i - 2];
      if ns > Payload(bs[i]) {
        GrownBlocks(h, i, ns);
      } else if ns + HDR + MINI < Payload(bs[i]) {
        ShrunkBlocks(h, i, ns);
      }
    }
    if ns > Payload(bs[i]) {
      GrownBlocks(h, i, ns);
    } else if ns + HDR + MINI < Payload(bs[i]) {
      ShrunkBlocks(h, i, ns);
    }
  }

  lemma {:induction false} GrownBlocks(h: Heap, i: nat, ns: nat)
    requires CanGrow(h, i, ns) && ns > 0
    ensures var g, bs := Grow(h, i, ns).blocks, h.blocks;
      g == bs[..i] + [Block(bs[i].off, ns + HDR, true), Block(bs[i].off + ns + HDR, bs[i].ext + bs[i + 1].ext - ns - HDR, false)] + bs[i + 2..]
  {
    var bs := h.blocks;
    assert Merge(bs, i)[..i] == bs[..i] && Merge(bs, i)[i + 1..] == bs[i + 2..];
  }

  lemma {:induction false} ShrunkBlocks(h: Heap, i: nat, ns: nat)
    requires CanShrink(h, i, ns)
    ensures var g, bs := Shrink(h, i, ns).blocks, h.blocks;
      && |g| >= i + 2 && g[i] == Block(bs[i].off, ns + HDR, true) && g[..i] == bs[..i]
      && g[i + 2..] == if FreeRight(bs, i) then bs[i + 2..] else bs[i + 1..]
  {
    var bs := h.blocks;
    var c := Split(bs, i, ns + HDR, true, false);
    assert c[i + 2..] == bs[i + 1..] && c[..i] == bs[..i];
    if FreeRight(bs, i) {
      assert c[i + 2] == bs[i + 1];
      assert c[i + 3..] == bs[i + 2..];
    }
  }

  /** Exactly the block at `gone` stopped being live, exactly the one at r came. */
  ghost predicate OthersStay(h: Heap, g: Heap, gone: Option<int>, r: Option<int>) {
    Survive(h.blocks, g.blocks, HDR, gone, r)
  }

  ghost predicate HasRoom(g: Heap, r: Option<int>, n: nat) {
    r.Some? ==> exists c :: c in g.blocks && c.used && c.off + HDR == r.value && Payload(c) >= n
  }

  lemma {:induction false} AllocOthers(h: Heap, n: nat)
    requires h.Inv()
    ensures var (g, r) := Alloc(h, n); OthersStay(h, g, None, r) && HasRoom(g, r, Request(n)) && (r.None? ==> g == h)
  {
    hide Heap.Inv, Alloc, Request, OthersStay, HasRoom;
    AllocInv(h, n);
    if Alloc(h, n).1.Some? {
      TakeOthers(h, Pos(h.blocks, Alloc(h, n).1.value - HDR), Request(n));
    } else {
      NobodyMoved(h, n);
      NoRoomNeeded(h, Request(n));
    }
  }

  lemma {:induction false} NoRoomNeeded(h: Heap, n: nat)
    ensures HasRoom(h, None, n)
  {
  }

  lemma {:induction false} NobodyMoved(h: Heap, n: nat)
    requires Alloc(h, n).1.None?
    ensures Alloc(h, n).0 == h && OthersStay(h, h, None, None)
  {
    hide AllocAt, FirstBig, Pos;
  }

  lemma {:induction false} TakeOthers(h: Heap, i: nat, size: nat)
    requires h.Inv() && i < |h.blocks| && !h.blocks[i].used && Payload(h.blocks[i]) >= size
    ensures var g, p := AllocAt(h, i, size), Some(h.blocks[i].off + HDR); OthersStay(h, g, None, p) && HasRoom(g, p, size)
  {
    TakeRoom(h, i, size);
    TakeStays(h, i, size);
    hide Heap.Inv, AllocAt, OthersStay, HasRoom;
  }

  lemma {:induction false} TakeRoom(h: Heap, i: nat, size: nat)
    requires i < |h.blocks| && Payload(h.blocks[i]) >= size
    ensures HasRoom(AllocAt(h, i, size), Some(h.blocks[i].off + HDR), size)
  {
    TakenInside(h, i, size);
    TakenUsed(h, i, size);
    hide AllocAt;
    assert AllocAt(h, i, size).blocks[i] in AllocAt(h, i, size).blocks;
  }

  lemma {:induction false} TakeStays(h: Heap, i: nat, size: nat)
    requires h.pool >= HDR && Tiles(h.blocks, 0, h.pool - HDR)
    requires i < |h.blocks| && !h.blocks[i].used && Payload(h.blocks[i]) >= size
    ensures OthersStay(h, AllocAt(h, i, size), None, Some(h.blocks[i].off + HDR))
  {
    hide Live, Survive, AllocAt, Tiles, Payload;
    TakenLive(h, i, size);
    var g := AllocAt(h, i, size).blocks;
    OneCame(h.blocks, g, HDR, h.pool - HDR, i, g[i]);
  }

  lemma {:induction false} TakenLive(h: Heap, i: nat, size: nat)
    requires i < |h.blocks| && !h.blocks[i].used && Payload(h.blocks[i]) >= size
    ensures var g := AllocAt(h, i, size).blocks;
      && i < |g| && g[i].off == h.blocks[i].off
      && Live(h.blocks) == Live(h.blocks[..i]) + Live(h.blocks[i + 1..])
      && Live(g) == Live(h.blocks[..i]) + [g[i]] + Live(h.blocks[i + 1..])
  {
    TakenInside(h, i, size);
    TakenUsed(h, i, size);
    AroundAlloc(h, i, size);
    hide Live, AllocAt;
    FreeBlockLive(h.blocks, i);
    UsedBlockLive(AllocAt(h, i, size).blocks, i);
  }

  lemma {:induction false} TakenUsed(h: Heap, i: nat, size: nat)
    requires i < |h.blocks| && Payload(h.blocks[i]) >= size
    ensures i < |AllocAt(h, i, size).blocks| && AllocAt(h, i, size).blocks[i].used
  {
    hide Remove;
  }

  lemma {:induction false} FreeOthers(h: Heap, p: Option<int>)
    requires h.Inv() && (p.Some? ==> h.IsLive(p.value))
    ensures OthersStay(h, FreeOpt(h, p), p, None)
  {
    if p.Some? {
      FreeOneOther(h, p.value);
    }
    hide Heap.Inv, Heap.IsLive, Free;
  }

  lemma {:induction false} FreeOneOther(h: Heap, p: int)
    requires h.Inv() && h.IsLive(p)
    ensures OthersStay(h, Free(h, p), Some(p), None)
  {
    PosOfLive(h, p);
    var i := Pos(h.blocks, p - HDR);
    assert Tiles(h.blocks, 0, h.pool - HDR);
    hide Heap.Inv, Heap.IsLive, Pos, FreeAt, Tiles, OthersStay;
    GiveStays(h, i);
  }

  lemma {:induction false} GiveStays(h: Heap, i: nat)
    requires h.pool >= HDR && Tiles(h.blocks, 0, h.pool - HDR) && i < |h.blocks| && h.blocks[i].used
    ensures OthersStay(h, FreeAt(h, i), Some(h.blocks[i].off + HDR), None)
  {
    hide Live, Survive, Coalesce, Tiles, Remove;
    FreedLive(h.blocks, i);
    OneWent(h.blocks, Coalesce(Mark(h.blocks, i, false), i), HDR, h.pool - HDR, i);
  }

  lemma {:induction false} FreedLive(bs: seq<Block>, i: nat)
    requires i < |bs| && bs[i].used
    ensures Live(bs) == Live(bs[..i]) + [bs[i]] + Live(bs[i + 1..])
    ensures Live(Coalesce(Mark(bs, i, false), i)) == Live(bs[..i]) + Live(bs[i + 1..])
  {
    CoalesceLive(Mark(bs, i, false), i);
    MarkedLive(bs, i);
    UsedBlockLive(bs, i);
    hide Live, Coalesce;
  }

  lemma {:induction false} MoveOthers(h: Heap, i: nat, ns: nat)
    requires h.Inv() && i < |h.blocks| && h.blocks[i].used
    ensures var (g, r) := AllocCopyFree(h, h.blocks[i].off + HDR, ns);
      Resized(h, g, Some(h.blocks[i].off + HDR), r, Request(ns))
  {
    hide Heap.Inv, Heap.IsLive, Alloc, Free, Request, OthersStay, HasRoom;
    var p := h.blocks[i].off + HDR;
    assert h.blocks[i] in h.blocks;
    AllocOthers(h, ns);
    AllocInv(h, ns);
    var (m, r) := Alloc(h, ns);
    if r.Some? {
      AllocKeepsLive(h, ns, h.blocks[i]);
      FreeOthers(m, Some(p));
      ThenFreed(h, m, Free(m, p), h.blocks[i], r, Request(ns));
    }
  }

  lemma {:induction false} ThenFreed(h: Heap, m: Heap, g: Heap, b: Block, r: Option<int>, n: nat)
    requires OthersStay(h, m, None, r) && HasRoom(m, r, n) && b in h.blocks && b.used
    requires OthersStay(m, g, Some(b.off + HDR), None)
    ensures OthersStay(h, g, Some(b.off + HDR), r) && HasRoom(g, r, n)
  {
    assert r != Some(b.off + HDR);
  }

  /** What a resize of the block at p promises. */
  ghost predicate Resized(h: Heap, g: Heap, p: Option<int>, r: Option<int>, n: nat) {
    (r.Some? ==> OthersStay(h, g, p, r) && HasRoom(g, r, n)) && (r.None? ==> g == h)
  }

  /** A block b in g at the start of block i, which it replaces. */
  lemma {:induction false} Replaced(h: Heap, g: Heap, i: nat, b: Block, n: nat)
    requires h.pool >= HDR && Tiles(h.blocks, 0, h.pool - HDR) && i < |h.blocks| && b.off == h.blocks[i].off
    requires b in g.blocks && b.used && Payload(b) >= n
    requires Live(h.blocks) == Live(h.blocks[..i]) + [h.blocks[i]] + Live(h.blocks[i + 1..])
    requires Live(g.blocks) == Live(h.blocks[..i]) + [b] + Live(h.blocks[i + 1..])
    ensures var p := Some(h.blocks[i].off + HDR); OthersStay(h, g, p, p) && HasRoom(g, p, n)
  {
    hide Live, Survive, Tiles;
    OneResized(h.blocks, g.blocks, HDR, h.pool - HDR, i, b);
  }

  lemma {:induction false} GrowOthers(h: Heap, i: nat, ns: nat)
    requires h.pool >= HDR && Tiles(h.blocks, 0, h.pool - HDR) && CanGrow(h, i, ns) && ns > 0
    ensures var g, p := Grow(h, i, ns), Some(h.blocks[i].off + HDR); OthersStay(h, g, p, p) && HasRoom(g, p, ns)
  {
    hide Live, OthersStay, HasRoom, Grow, Tiles;
    GrownLive(h, i, ns);
    Replaced(h, Grow(h, i, ns), i, Block(h.blocks[i].off, ns + HDR, true), ns);
  }

  lemma {:induction false} GrownLive(h: Heap, i: nat, ns: nat)
    requires CanGrow(h, i, ns) && ns > 0
    ensures var g, bs, b := Grow(h, i, ns).blocks, h.blocks, Block(h.blocks[i].off, ns + HDR, true);
      && b in g
      && Live(bs) == Live(bs[..i]) + [bs[i]] + Live(bs[i + 1..])
      && Live(g) == Live(bs[..i]) + [b] + Live(bs[i + 1..])
  {
    hide Live, Grow, Merge, Split, Remove, FreePay;
    var bs := h.blocks;
    var b, f := Block(bs[i].off, ns + HDR, true), Block(bs[i].off + ns + HDR, bs[i].ext + bs[i + 1].ext - ns - HDR, false);
    GrownBlocks(h, i, ns);
    UsedBlockLive(bs, i);
    PairReplaced(bs, i, b, f);
  }

  lemma {:induction false} PairReplaced(bs: seq<Block>, i: nat, b: Block, f: Block)
    requires i + 1 < |bs| && !bs[i + 1].used && b.used && !f.used
    ensures b in bs[..i] + [b, f] + bs[i + 2..]
    ensures Live(bs[..i] + [b, f] + bs[i + 2..]) == Live(bs[..i]) + [b] + Live(bs[i + 1..])
  {
    hide Live;
    assert (bs[..i] + [b, f] + bs[i + 2..])[i] == b;
    FreeHead(bs[i + 1..]);
    assert bs[i + 1..][1..] == bs[i + 2..];
    LiveConcat(bs[..i] + [b, f], bs[i + 2..]);
    LiveConcat(bs[..i], [b, f]);
    LivePair(b, f);
    assert [b] + [] == [b];
  }

  lemma {:induction false} FreeHead(s: seq<Block>)
    requires s != [] && !s[0].used
    ensures Live(s) == Live(s[1..])
  {
    assert s == [s[0]] + s[1..];
    LiveConcat([s[0]], s[1..]);
    LiveSingle(s[0]);
    hide Live;
    assert [] + Live(s[1..]) == Live(s[1..]);
  }

  lemma {:induction false} ShrinkOthers(h: Heap, i: nat, ns: nat)
    requires h.pool >= HDR && Tiles(h.blocks, 0, h.pool - HDR) && CanShrink(h, i, ns)
    ensures var g, p := Shrink(h, i, ns), Some(h.blocks[i].off + HDR); OthersStay(h, g, p, p) && HasRoom(g, p, ns)
  {
    hide Live, OthersStay, HasRoom, Shrink, Tiles;
    ShrunkLive(h, i, ns);
    Replaced(h, Shrink(h, i, ns), i, Block(h.blocks[i].off, ns + HDR, true), ns);
  }

  lemma {:induction false} ShrunkLive(h: Heap, i: nat, ns: nat)
    requires CanShrink(h, i, ns)
    ensures var g, bs, b := Shrink(h, i, ns).blocks, h.blocks, Block(h.blocks[i].off, ns + HDR, true);
      && b in g
      && Live(bs) == Live(bs[..i]) + [bs[i]] + Live(bs[i + 1..])
      && Live(g) == Live(bs[..i]) + [b] + Live(bs[i + 1..])
  {
    var bs := h.blocks;
    var c := Split(bs, i, ns + HDR, true, false);
    ShrunkBlocks(h, i, ns);
    assert Shrink(h, i, ns).blocks[i] in Shrink(h, i, ns).blocks;
    assert Shrink(h, i, ns).blocks == MergeRight(c, i + 1);
    hide Live, Shrink, MergeRight, Coalesce;
    UsedBlockLive(bs, i);
    SplitLive(bs, i, ns + HDR, true, false);
    CoalesceAfterUsed(c, i + 1);
    CoalesceLive(c, i + 1);
  }

  lemma {:induction false} StayOthers(h: Heap, i: nat, ns: nat)
    requires i < |h.blocks| && h.blocks[i].used && h.pool >= HDR && Tiles(h.blocks, 0, h.pool - HDR) && Payload(h.blocks[i]) >= ns
    ensures var p := Some(h.blocks[i].off + HDR); OthersStay(h, h, p, p) && HasRoom(h, p, ns)
  {
    hide Live, OthersStay, HasRoom, Tiles;
    UsedBlockLive(h.blocks, i);
    assert h.blocks[i] in h.blocks;
    Replaced(h, h, i, h.blocks[i], ns);
  }

  lemma {:induction false} Laid(h: Heap)
    requires h.Inv()
    ensures h.Layout() && h.pool >= HDR && Tiles(h.blocks, 0, h.pool - HDR)
  {
  }

  /** rt_memheap_realloc of a live item, whether it grows, moves, stays or shrinks:
      every other live item stays live where and as it is, nothing but the result is
      live besides, the result has room for the request, and a failure changes nothing. */
  lemma {:induction false} ResizeResult(h: Heap, i: nat, ns: nat)
    requires h.Inv() && i < |h.blocks| && h.blocks[i].used && ns % 4 == 0 && ns >= MINI && Request(ns) == ns
    ensures var (g, r) := ResizeAt(h, i, ns); Resized(h, g, Some(h.blocks[i].off + HDR), r, ns)
  {
    hide Heap.Inv, Heap.Layout, Grow, Shrink, AllocCopyFree, OthersStay, HasRoom, Tiles, Request;
    Laid(h);
    var bs, had := h.blocks, Payload(h.blocks[i]);
    if ns > had && FreeRight(bs, i) && Payload(bs[i + 1]) + had > ns + MINI {
      GrowOthers(h, i, ns);
    } else if ns > had {
      MoveOthers(h, i, ns);
    } else if ns + HDR + MINI < had {
      ShrinkOthers(h, i, ns);
    } else {
      StayOthers(h, i, ns);
    }
  }

  lemma {:induction false} ReallocResult(h: Heap, p: Option<int>, n: nat)
    requires h.Inv() && n < WORD && (p.Some? ==> h.IsLive(p.value))
    ensures var (g, r) := Realloc(h, p, n);
      if n == 0 then r.None? && OthersStay(h, g, p, None) else Resized(h, g, p, r, Request(n))
  {
    hide Heap.Inv, Heap.Layout, Alloc, FreeOpt, ResizeAt, Pos, OthersStay, HasRoom, Heap.IsLive, Request;
    Laid(h);
    RequestTwice(n);
    if n == 0 {
      FreeOthers(h, p);
    } else if p.None? {
      AllocOthers(h, Request(n));
    } else {
      PosOfLive(h, p.value);
      ResizeResult(h, Pos(h.blocks, p.value - HDR), Request(n));
    }
  }

  /** An aligned request is itself. */
  lemma {:induction false} RequestTwice(n: nat)
    requires n < WORD
    ensures Request(n) >= MINI && Request(n) + 3 < WORD && Request(Request(n)) == Request(n)
  {
  }

  // ------------------------------------------------------- sizes near 2^32

  /** Exactly when realloc's growth test is wrong: the right neighbour is free and the
      sum with RT_MEMHEAP_MINIALLOC wraps to less than both payloads together. */
  lemma {:induction false} MisjudgedIff(h: Heap, i: nat, n: nat)
    requires h.Inv() && i < |h.blocks| && h.blocks[i].used && 0 < n < WORD
    ensures Misjudged(h, i, Request(n)) <==>
      && FreeRight(h.blocks, i) && Request(n) + MINI >= WORD
      && Payload(h.blocks[i + 1]) + Payload(h.blocks[i]) > Request(n) + MINI - WORD
  {
    Laid(h);
    hide Heap.Inv, Heap.Layout, Settled, Sound;
    assert h.pool + 2 * HDR < WORD by { PoolBound(h); }
    Within(h.blocks, 0, h.pool - HDR, i);
    if i + 1 < |h.blocks| {
      Within(h.blocks, 0, h.pool - HDR, i + 1);
      assert Abut(h.blocks, i);
    }
    hide Tiles;
    RequestRange(n);
  }

  lemma {:induction false} PoolBound(h: Heap)
    requires h.Inv()
    ensures h.pool + 2 * HDR < WORD
  {
  }

  lemma {:induction false} RequestRange(n: nat)
    requires n < WORD
    ensures Request(n) < WORD
    ensures (Request(n) + MINI) % WORD == Request(n) + MINI - if Request(n) + MINI >= WORD then WORD else 0
  {
  }

  /** Otherwise the test as written is the test that is meant. */
  lemma {:induction false} TestAgrees(h: Heap, i: nat, ns: nat)
    requires i < |h.blocks| && ns > Payload(h.blocks[i]) && FreeRight(h.blocks, i) && !Misjudged(h, i, ns)
    ensures GrowTest(Payload(h.blocks[i + 1]), Payload(h.blocks[i]), ns) <==> Payload(h.blocks[i + 1]) + Payload(h.blocks[i]) > ns + MINI
  {
  }

  /** It does go wrong: after one allocation, asking for 12 bytes below 2^32. */
  lemma {:induction false} GrowthMisjudged()
    ensures exists h :: Reaches(Fresh(200), [DoAlloc(16)], h) && h.IsLive(HDR) && Misjudged(h, 0, Request(WORD - 12))
  {
    var h := Heap(200, [Block(0, 40, true), Block(40, 136, false)], [40], 112, 88);
    var f := Fresh(200);
    assert Pos(f.blocks, 0) == 0;
    assert Split(f.blocks, 0, 40, true, false) == h.blocks;
    assert Remove(f.free, 0) == [];
    assert AllocAt(f, 0, 16) == h;
    assert FirstBig(f.blocks, f.free, 16) == 0;
    assert Step(f, DoAlloc(16)) == h;
    assert [DoAlloc(16)][1..] == [];
    assert Reaches(h, [], h);
    assert h.blocks[0] in h.blocks;
    assert Reaches(f, [DoAlloc(16)], h) && Misjudged(h, 0, Request(WORD - 12));
  }

  /** RT_ALIGN wraps for the three largest requests: only then is a block handed out
      that is smaller than the request. */
  lemma {:induction false} ShortIff(h: Heap, n: nat)
    requires h.Inv() && n < WORD && Alloc(h, n).1.Some?
    ensures var (g, p) := Alloc(h, n);
      var i := Pos(g.blocks, p.value - HDR);
      i < |g.blocks| && g.blocks[i].off + HDR == p.value && (Payload(g.blocks[i]) < n <==> n + 3 >= WORD)
  {
    AllocResult(h, n);
    AllocInv(h, n);
    var g := Alloc(h, n).0;
    var i := Pos(g.blocks, Alloc(h, n).1.value - HDR);
    Laid(g);
    PoolBound(g);
    hide Heap.Inv, Heap.Layout, Alloc, Pos;
    Within(g.blocks, 0, g.pool - HDR, i);
  }
}
