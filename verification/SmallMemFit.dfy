/** Which block rt_malloc of mem.c takes, and when it wrongly refuses. */
module SmallMemFit {
  import opened Machine
  import opened Tiling
  import opened SmallMemSpec
  import opened SmallMemTheory

  // ------------------------------------------------------------ lfree is the lowest free block

  lemma {:induction false} MallocLowest(h: Heap, n: nat)
    requires h.Inv() && h.Lowest()
    ensures Malloc(h, n).0.Lowest()
  {
    if Malloc(h, n).1.Some? {
      PickFacts(h, n);
      TakeLowest(h, Pick(h, n), Request(n));
    }
  }

  lemma {:induction false} TakeLowest(h: Heap, i: nat, size: nat)
    requires h.Inv() && h.Lowest() && i < |h.blocks| && !h.blocks[i].used
    requires h.blocks[i].ext >= size + HDR && size % 4 == 0 && size > 0
    ensures MallocAt(h, i, size).Lowest()
  {
    hide Tiles, UsedExt, Settled, HasFree, NextFree;
    var g := MallocAt(h, i, size);
    TakeGood(h.blocks, h.End(), i, size);
    NextFreeLeast(g.blocks, i, h.End());
    OrderedAll(h.blocks, 0, h.End());
    assert h.blocks[i] in h.blocks;
    forall b | b in g.blocks && !b.used ensures g.lfree <= b.off {
      var k :| 0 <= k < |g.blocks| && g.blocks[k] == b;
      if k < i {
        assert h.blocks[k] == b && h.blocks[k] in h.blocks;
        assert h.blocks[k].End() <= h.blocks[i].off;
      } else if h.blocks[i].off != h.lfree {
        OrderedAll(g.blocks, 0, h.End());
      }
    }
  }

  lemma {:induction false} CoalesceMember(bs: seq<Block>, i: nat, b: Block)
    requires i < |bs| && b in Coalesce(bs, i) && !bs[i].used
    ensures b in bs || (exists k :: 0 <= k < |bs| && bs[k].off == b.off && !bs[k].used)
  {
    var a := MergeRight(bs, i);
    var r := MergeLeft(a, i);
    var k :| 0 <= k < |r| && r[k] == b;
    assert forall j :: 0 <= j < i ==> a[j] == bs[j];
    if r != a {
      if k >= i { assert r[k] == a[k + 1]; assert a[k + 1] in bs; }
    } else if k != i && a != bs && k > i {
      assert a[k] == bs[k + 1];
    }
  }

  lemma {:induction false} FreeLowest(h: Heap, p: int)
    requires h.Inv() && h.Lowest() && (p < 0 || p >= h.End() || h.IsLive(p))
    ensures Free(h, p).Lowest()
  {
    if 0 <= p < h.End() {
      PosLive(h, p);
      FreeAtLowest(h, Pos(h.blocks, p - HDR));
    }
  }

  lemma {:induction false} FreeAtLowest(h: Heap, i: nat)
    requires h.Inv() && h.Lowest() && i < |h.blocks| && h.blocks[i].used && h.blocks[i].ext <= h.used
    ensures FreeAt(h, i).Lowest()
  {
    hide UsedExt, Settled, HasFree, Coalesce;
    var bs := Mark(h.blocks, i, false);
    var g := FreeAt(h, i);
    OrderedAll(h.blocks, 0, h.End());
    var f := if bs[i].off < h.lfree then bs[i].off else h.lfree;
    forall k | 0 <= k < |bs| && !bs[k].used ensures g.lfree <= bs[k].off {
      if k != i { assert h.blocks[k] in h.blocks; }
      assert f <= bs[k].off;
      if i > 0 && !bs[i - 1].used { assert h.blocks[i - 1] in h.blocks; }
    }
    forall b | b in g.blocks && !b.used ensures g.lfree <= b.off {
      CoalesceMember(bs, i, b);
    }
  }

  /** The free blocks after a shrink: the cut-off tail, and old ones. */
  lemma {:induction false} ShrinkFreeBlocks(bs: seq<Block>, i: nat, e: nat)
    requires i < |bs| && 0 < e < bs[i].ext
    ensures var r := MergeRight(Split(bs, i, e, true, false), i + 1);
      && (exists b :: b in r && b.off == bs[i].off + e && !b.used)
      && (forall b :: b in r && !b.used && b.off != bs[i].off + e ==> b in bs)
  {
    var m := Split(bs, i, e, true, false);
    var r := MergeRight(m, i + 1);
    assert r[i + 1] in r;
    assert r[..i + 1] == m[..i + 1];
    forall b | b in r && !b.used && b.off != bs[i].off + e ensures b in bs {
      var k :| 0 <= k < |r| && r[k] == b;
      if k <= i {
        assert r[..i + 1][k] == m[..i + 1][k];
      } else if r == m {
        assert b == m[k] == bs[k - 1];
      } else {
        assert b == m[k + 1] == bs[k];
      }
    }
  }

  /** Exactly when the split inside rt_realloc leaves lfree the lowest free
      block: it was, and lies below the shrunk block or is the free block after it. */
  lemma {:induction false} ShrinkLowestIff(h: Heap, i: nat, ns: nat)
    requires h.Inv() && i < |h.blocks| && h.blocks[i].used
    requires 0 < ns && ns % 4 == 0 && ns + 2 * HDR + MIN < h.blocks[i].ext <= h.used
    ensures Shrink(h, i, ns).Lowest() <==>
      h.Lowest() && (h.lfree < h.blocks[i].off || (h.lfree == h.blocks[i].End() && h.lfree != h.End()))
  {
    LfreeFree(h, i);
    ShrinkFreeBlocks(h.blocks, i, ns + HDR);
    ShrinkNewLfree(h, i, ns);
    if Shrink(h, i, ns).Lowest() {
      forall b | b in h.blocks && !b.used ensures h.lfree <= b.off { FreeAfterShrink(h, i, ns, b); }
    }
    hide UsedExt, Good, HasFree, MergeRight, Split;
  }

  /** A free block is still there after a shrink, or was joined to the tail that
      was cut off in front of it. */
  lemma {:induction false} FreeAfterShrink(h: Heap, i: nat, ns: nat, b: Block)
    requires h.Inv() && i < |h.blocks| && h.blocks[i].used && b in h.blocks && !b.used
    requires 0 < ns && ns + 2 * HDR + MIN < h.blocks[i].ext <= h.used
    ensures b in Shrink(h, i, ns).blocks || b.off == h.blocks[i].End()
    ensures b.off < h.blocks[i].off || h.blocks[i].End() <= b.off
  {
    OrderedAll(h.blocks, 0, h.End());
    var k: nat :| k < |h.blocks| && h.blocks[k] == b;
    StillThere(h.blocks, i, ns + HDR, k);
    assert i + 1 < |h.blocks| ==> Abut(h.blocks, i);
    hide MergeRight, Split, UsedExt, Settled, HasFree;
  }

  lemma {:induction false} StillThere(bs: seq<Block>, i: nat, e: nat, k: nat)
    requires i < |bs| && k < |bs| && k != i && 0 < e < bs[i].ext
    ensures bs[k] in MergeRight(Split(bs, i, e, true, false), i + 1) || k == i + 1
  {
    var m := Split(bs, i, e, true, false);
    var r := MergeRight(m, i + 1);
    if k < i {
      assert m[k] == bs[k] && r[k] == m[k];
    } else if k > i + 1 {
      assert m[k + 1] == bs[k];
      assert r == m || r[k] == m[k + 1];
    }
  }

  lemma {:induction false} ShrinkNewLfree(h: Heap, i: nat, ns: nat)
    requires h.Inv() && i < |h.blocks| && h.blocks[i].used
    requires 0 < ns && ns + 2 * HDR + MIN < h.blocks[i].ext <= h.used
    ensures Shrink(h, i, ns).lfree ==
      if h.lfree == h.blocks[i].End() && h.lfree != h.End() then h.blocks[i].off + HDR + ns else h.lfree
  {
    LfreeFree(h, i);
    OrderedAll(h.blocks, 0, h.End());
    var bs := Split(h.blocks, i, ns + HDR, true, false);
    assert i + 2 < |bs| ==> bs[i + 2] == h.blocks[i + 1] && Abut(h.blocks, i);
  }

  /** lfree is no used block's offset, and names a free block when it is not the end. */
  lemma {:induction false} LfreeFree(h: Heap, i: nat)
    requires h.Inv() && i < |h.blocks| && h.blocks[i].used
    ensures h.lfree != h.blocks[i].off && h.lfree <= h.End()
    ensures h.lfree < h.blocks[i].off || h.blocks[i].End() <= h.lfree
    ensures h.lfree != h.End() && h.lfree == h.blocks[i].End() ==>
      i + 1 < |h.blocks| && !h.blocks[i + 1].used
  {
    OrderedAll(h.blocks, 0, h.End());
    if h.lfree != h.End() {
      var b :| b in h.blocks && b.off == h.lfree && !b.used;
      var k: nat :| k < |h.blocks| && h.blocks[k] == b;
      if k > i { assert Abut(h.blocks, i); }
    }
  }

  /** op takes the split path of rt_realloc. */
  ghost predicate SplitsInRealloc(h: Heap, op: Op) {
    && op.DoRealloc? && op.rmem.Some? && 0 < AlignUp(op.n) <= h.size
    && 0 <= op.rmem.value < h.End()
    && var i := Pos(h.blocks, op.rmem.value - HDR);
      i < |h.blocks| && AlignUp(op.n) + 2 * HDR + MIN < h.blocks[i].ext
  }

  lemma {:induction false} StepLowest(h: Heap, op: Op)
    requires h.Inv() && h.Lowest() && Legal(h, op) && !SplitsInRealloc(h, op)
    ensures Step(h, op).Lowest()
  {
    hide Malloc, FreeAt, Shrink, Good, HasFree, UsedExt;
    match op
    case DoMalloc(n) => MallocLowest(h, n);
    case DoFree(p) => if p.Some? { FreeLowest(h, p.value); }
    case DoRealloc(p, n) =>
      var ns := AlignUp(n);
      if ns > h.size {
      } else if ns == 0 {
        if p.Some? { FreeLowest(h, p.value); }
      } else if p.None? {
        MallocLowest(h, ns);
      } else if 0 <= p.value < h.End() {
        PosLive(h, p.value);
        MallocLowest(h, ns);
        MallocInv(h, ns);
        MallocKeepsLive(h, ns, p.value);
        FreeLowest(Malloc(h, ns).0, p.value);
      }
  }

  ghost predicate NeverSplits(h: Heap, ops: seq<Op>)
    decreases |ops|
  {
    ops == [] || (!SplitsInRealloc(h, ops[0]) && NeverSplits(Step(h, ops[0]), ops[1..]))
  }

  lemma {:induction false} RunLowest(h: Heap, ops: seq<Op>, g: Heap)
    requires h.Inv() && h.Lowest() && Reaches(h, ops, g) && NeverSplits(h, ops)
    ensures g.Lowest()
    decreases |ops|
  {
    if ops != [] {
      StepInv(h, ops[0]);
      StepLowest(h, ops[0]);
      RunLowest(Step(h, ops[0]), ops[1..], g);
    }
  }

  // ------------------------------------------------------------ first fit

  /** Block k could serve a request for n bytes. */
  ghost predicate Serves(h: Heap, n: nat, k: int) {
    0 <= k < |h.blocks| && !h.blocks[k].used && h.blocks[k].ext >= Request(n) + HDR
  }

  /** rt_malloc takes the lowest serving block from lfree on that starts below
      size - request, and fails exactly when there is none. */
  lemma {:induction false} SearchExact(h: Heap, n: nat)
    requires h.Inv() && n > 0
    ensures Malloc(h, n).1.None? <==>
      AlignUp(n) > h.size
      || forall k :: Serves(h, n, k) ==> h.blocks[k].off < h.lfree || h.blocks[k].off >= h.size - Request(n)
    ensures Malloc(h, n).1.Some? ==>
      && Serves(h, n, Pick(h, n)) && Malloc(h, n).1.value == h.blocks[Pick(h, n)].off + HDR
      && h.lfree <= h.blocks[Pick(h, n)].off
      && forall k :: Serves(h, n, k) && h.lfree <= h.blocks[k].off < h.size - Request(n) ==> Pick(h, n) <= k
  {
    hide FirstFit, Pos, Settled, Tiles, UsedExt, Take, NextFree;
    PickFacts(h, n);
  }

  /** With lfree lowest, every serving block below size - request is reached. */
  lemma {:induction false} FirstFitExact(h: Heap, n: nat)
    requires h.Inv() && h.Lowest() && n > 0
    ensures Malloc(h, n).1.None? <==>
      AlignUp(n) > h.size || forall k :: Serves(h, n, k) ==> h.blocks[k].off >= h.size - Request(n)
    ensures Malloc(h, n).1.Some? ==>
      && Serves(h, n, Pick(h, n)) && Malloc(h, n).1.value == h.blocks[Pick(h, n)].off + HDR
      && forall k :: Serves(h, n, k) && h.blocks[k].off < h.size - Request(n) ==> Pick(h, n) <= k
  {
    SearchExact(h, n);
    hide Malloc, Pick, Heap.Inv;
    forall k | Serves(h, n, k) ensures h.lfree <= h.blocks[k].off {
      assert h.blocks[k] in h.blocks;
    }
  }

  /** A serving block that starts at or above size - request is the last one and
      exactly as large as the request. */
  lemma {:induction false} OnlyExactLast(h: Heap, n: nat, k: nat)
    requires h.Inv() && Serves(h, n, k) && h.blocks[k].off >= h.size - Request(n)
    ensures k == |h.blocks| - 1 && h.blocks[k].ext == Request(n) + HDR
  {
    OrderedAll(h.blocks, 0, h.End());
  }

  /** Promise "rt_malloc succeeds whenever some free block is large enough", in
      every reachable state: kept exactly when a large enough block exists that is
      not below lfree and not an exactly fitting last one. */
  lemma {:induction false} RefusesIff(h: Heap, n: nat)
    requires h.Inv() && n > 0 && n + 3 < WORD && (exists k :: Serves(h, n, k))
    ensures Malloc(h, n).1.None? <==>
      forall k :: Serves(h, n, k) ==>
        h.blocks[k].off < h.lfree || (k == |h.blocks| - 1 && h.blocks[k].ext == Request(n) + HDR)
  {
    SearchExact(h, n);
    OrderedAll(h.blocks, 0, h.End());
    hide Malloc, Heap.LfreeOk, Heap.NothingLive, UsedExt;
    forall k | Serves(h, n, k)
      ensures h.blocks[k].off >= h.size - Request(n) <==> k == |h.blocks| - 1 && h.blocks[k].ext == Request(n) + HDR
    {
      if h.blocks[k].off >= h.size - Request(n) { OnlyExactLast(h, n, k); }
    }
    var k :| Serves(h, n, k);
    assert AlignUp(n) <= h.size;
  }

  /** With lfree lowest only the exactly fitting last block is passed over. */
  lemma {:induction false} RefusesLowestIff(h: Heap, n: nat)
    requires h.Inv() && h.Lowest() && n > 0 && n + 3 < WORD && (exists k :: Serves(h, n, k))
    ensures Malloc(h, n).1.None? <==>
      forall k :: Serves(h, n, k) ==> k == |h.blocks| - 1 && h.blocks[k].ext == Request(n) + HDR
  {
    RefusesIff(h, n);
    hide Malloc, Heap.Inv;
    forall k | Serves(h, n, k) ensures h.lfree <= h.blocks[k].off {
      assert h.blocks[k] in h.blocks;
    }
  }

  // ------------------------------------------------------------ when rt_realloc succeeds

  /** The live block at p is neither of ns bytes nor large enough to be split. */
  ghost predicate MustMove(h: Heap, p: Option<int>, ns: nat) {
    p.None? || exists b ::
      b in h.blocks && b.used && b.off + HDR == p.value && b.ext - HDR != ns && b.ext - HDR <= ns + HDR + MIN
  }

  lemma {:induction false} MustMoveAt(h: Heap, p: int, ns: nat, i: nat)
    requires h.Inv() && i < |h.blocks| && h.blocks[i].used && h.blocks[i].off + HDR == p
    ensures MustMove(h, Some(p), ns) <==> h.blocks[i].ext - HDR != ns && h.blocks[i].ext - HDR <= ns + HDR + MIN
  {
    assert h.blocks[i] in h.blocks;
    if MustMove(h, Some(p), ns) {
      var b :| b in h.blocks && b.used && b.off + HDR == p && b.ext - HDR != ns && b.ext - HDR <= ns + HDR + MIN;
      var k :| 0 <= k < |h.blocks| && h.blocks[k] == b;
      Laid(h);
      hide Heap.Inv;
      Sides(h.blocks, 0, h.End(), i, k);
    }
  }

  /** rt_malloc finds nothing for ns bytes. */
  ghost predicate NothingServes(h: Heap, ns: nat) {
    forall k :: Serves(h, ns, k) ==> h.blocks[k].off < h.lfree || h.blocks[k].off >= h.size - Request(ns)
  }

  /** When rt_realloc of a live block or of RT_NULL fails: exactly when the size is
      beyond the heap, or the data must move and nothing serves the new size. In
      place it answers the pointer it was given; elsewhere, the lowest block that
      serves. */
  lemma {:induction false} ReallocRefusesIff(h: Heap, p: Option<int>, n: nat)
    requires h.Inv() && n < WORD && (p.Some? ==> h.IsLive(p.value)) && AlignUp(n) > 0
    ensures var ns, r := AlignUp(n), Realloc(h, p, n).1;
      && (r.None? <==> ns > h.size || (MustMove(h, p, ns) && NothingServes(h, ns)))
      && (ns <= h.size && !MustMove(h, p, ns) ==> r == p)
      && (r.Some? && MustMove(h, p, ns) ==> LowestServing(h, ns, r.value))
  {
    var ns := AlignUp(n);
    hide Heap.Inv, Malloc, Free, Shrink, Pos, MustMove, NothingServes, LowestServing, FreeOpt, Heap.IsLive;
    AlignStable(n);
    MallocAnswers(h, ns);
    if p.Some? {
      PosLive(h, p.value);
      MustMoveAt(h, p.value, ns, Pos(h.blocks, p.value - HDR));
    } else {
      assert MustMove(h, p, ns) by { MustMoveNull(h, ns); }
    }
  }

  lemma {:induction false} MustMoveNull(h: Heap, ns: nat)
    ensures MustMove(h, None, ns)
  {
  }

  lemma {:induction false} AlignStable(n: nat)
    requires n < WORD
    ensures AlignUp(AlignUp(n)) == AlignUp(n)
  {
  }

  /** p is the payload of the lowest block, from lfree on and below the bound, that
      serves n bytes. */
  ghost predicate LowestServing(h: Heap, n: nat, p: int) {
    exists k :: Serves(h, n, k) && p == h.blocks[k].off + HDR && h.lfree <= h.blocks[k].off < h.size - Request(n)
      && forall j :: Serves(h, n, j) && h.lfree <= h.blocks[j].off < h.size - Request(n) ==> k <= j
  }

  lemma {:induction false} MallocAnswers(h: Heap, n: nat)
    requires h.Inv() && n > 0
    ensures var r := Malloc(h, n).1;
      && (r.None? <==> AlignUp(n) > h.size || NothingServes(h, n))
      && (r.Some? ==> LowestServing(h, n, r.value))
  {
    SearchExact(h, n);
    PickFacts(h, n);
    hide Malloc, Pick, Heap.Inv;
  }

  /** The promise fails: a fresh heap refuses a request for its whole size. */
  lemma {:induction false} WholeHeapRefused(size: nat)
    requires MIN <= size && size % 4 == 0 && size + 2 * HDR < WORD
    ensures Serves(Fresh(size), size, 0) && Malloc(Fresh(size), size).1.None?
  {
  }

  lemma PosOfTwo(a: Block, b: Block, off: int)
    requires a.off != b.off
    ensures Pos([a, b], off) == if off == b.off then 1 else if off == a.off then 0 else 2
  {
    assert PosFrom([a, b], off, 1) == if off == b.off then 1 else 2;
  }

  lemma PosOfThree(a: Block, b: Block, c: Block, off: int)
    requires off != a.off && off != b.off && off != c.off
    ensures Pos([a, b, c], off) == 3
  {
    assert PosFrom([a, b, c], off, 3) == 3;
    assert PosFrom([a, b, c], off, 2) == 3;
    assert PosFrom([a, b, c], off, 1) == 3;
  }

  const R0 := Fresh(100)
  const R1 := Heap(100, [Block(0, 72, true), Block(72, 40, false)], 72, 72, 72)
  const R2 := Heap(100, [Block(0, 72, true), Block(72, 40, true)], 112, 112, 112)
  const R3 := Heap(100, [Block(0, 24, true), Block(24, 48, false), Block(72, 40, true)], 112, 64, 112)

  lemma {:induction false} StaleFirst()
    ensures Malloc(R0, 60).0 == R1
  {
    assert Take(R0.blocks, 0, 60) == R1.blocks;
  }

  lemma {:induction false} StaleSecond()
    ensures Malloc(R1, 24).0 == R2
  {
    PosOfTwo(R1.blocks[0], R1.blocks[1], 72);
    assert Take(R1.blocks, 1, 24) == R2.blocks;
  }

  lemma {:induction false} StaleThird()
    ensures R2.IsLive(12) && Realloc(R2, Some(12), 12).0 == R3
  {
    PosOfTwo(R2.blocks[0], R2.blocks[1], 0);
    assert R2.blocks[0] in R2.blocks;
    assert Split(R2.blocks, 0, 24, true, false) == R3.blocks;
  }

  /** The states of a run in which rt_realloc splits block 0 while lfree is at the end. */
  lemma {:induction false} StaleLfreeRun()
    ensures Reaches(R0, [DoMalloc(60), DoMalloc(24), DoRealloc(Some(12), 12)], R3)
  {
    hide Malloc, Realloc, Reaches;
    StaleFirst();
    StaleSecond();
    StaleThird();
    ThreeSteps(R0, R1, R2, R3, [DoMalloc(60), DoMalloc(24), DoRealloc(Some(12), 12)]);
  }

  lemma {:induction false} ThreeSteps(h0: Heap, h1: Heap, h2: Heap, h3: Heap, ops: seq<Op>)
    requires |ops| == 3 && Legal(h0, ops[0]) && Legal(h1, ops[1]) && Legal(h2, ops[2])
    requires Step(h0, ops[0]) == h1 && Step(h1, ops[1]) == h2 && Step(h2, ops[2]) == h3
    ensures Reaches(h0, ops, h3)
  {
    hide Step, Legal;
    var o1 := ops[1..];
    var o2 := o1[1..];
    assert o2[1..] == [];
    assert Reaches(h3, o2[1..], h3);
    assert Reaches(h2, o2, h3);
    assert Reaches(h1, o1, h3);
  }

  /** A run after which rt_malloc(12) fails although the free block at offset 24
      has 36 payload bytes: the split did not lower lfree. */
  lemma {:induction false} StaleLfreeRefuses()
    ensures exists ops, g :: Reaches(Fresh(100), ops, g) && Serves(g, 12, 1) && Malloc(g, 12).1.None?
  {
    StaleLfreeRun();
    hide Reaches;
    PosOfThree(R3.blocks[0], R3.blocks[1], R3.blocks[2], 112);
    assert Serves(R3, 12, 1) && Malloc(R3, 12).1.None?;
  }

  /** RT_ALIGN wraps for the three largest requests: only then can rt_malloc
      succeed with fewer bytes than asked for. */
  lemma {:induction false} ShortIff(h: Heap, n: nat)
    requires h.Inv() && 0 < n < WORD && Malloc(h, n).1.Some?
    ensures Malloc(h, n).0.blocks[Pick(h, n)].ext - HDR < n <==> n + 3 >= WORD
  {
    MallocResult(h, n);
    var g := Malloc(h, n).0;
    MallocInv(h, n);
    OrderedAll(g.blocks, 0, g.End());
  }
}
