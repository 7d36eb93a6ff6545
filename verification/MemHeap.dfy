/** memheap.c as it is written: items linked into a circular list in address
    order and, when free, into a second list behind the free-list header. Item
    numbers are offsets in the pool; the free-list header lies outside the pool
    and is numbered pool_size. */
module MemHeap {
  import opened Machine
  import opened OrderedList
  import opened Tiling
  import opened MemHeapSpec
  import MemHeapTheory
  import RtList

  function Offs(bs: seq<Block>): (r: seq<nat>)
    ensures |r| == |bs|
  {
    seq(|bs|, k requires 0 <= k < |bs| => bs[k].off)
  }

  lemma {:induction false} OffsSplit(bs: seq<Block>, tail: seq<nat>, i: nat, e: nat, u: bool, v: bool)
    requires i < |bs| && 0 < e < bs[i].ext
    ensures Offs(Split(bs, i, e, u, v)) + tail == RtList.InsertAt(Offs(bs) + tail, i + 1, bs[i].off + e)
  {
    var r := Split(bs, i, e, u, v);
    var a, b := Offs(r) + tail, RtList.InsertAt(Offs(bs) + tail, i + 1, bs[i].off + e);
    assert |a| == |b|;
    forall k | 0 <= k < |a| ensures a[k] == b[k] {}
  }

  lemma {:induction false} OffsMerge(bs: seq<Block>, tail: seq<nat>, i: nat)
    requires i + 1 < |bs| && Distinct(Offs(bs) + tail)
    ensures Offs(Merge(bs, i)) + tail == Remove(Offs(bs) + tail, bs[i + 1].off)
  {
    var s := Offs(bs) + tail;
    assert s[i + 1] == bs[i + 1].off;
    RtList.DistinctParts(s, i + 1);
    assert s == s[..i + 1] + [s[i + 1]] + s[i + 2..];
    assert s[i + 1] in s[i + 1..];
    RtList.RemoveMiddle(s[..i + 1], s[i + 1], s[i + 2..]);
    var m := Merge(bs, i);
    var a, b := Offs(m) + tail, s[..i + 1] + s[i + 2..];
    assert |a| == |b|;
    forall k | 0 <= k < |a| ensures a[k] == b[k] {
      MergeAt(bs, i, k);
    }
  }

  lemma {:induction false} MergeAt(bs: seq<Block>, i: nat, k: nat)
    requires i + 1 < |bs|
    ensures k < |Merge(bs, i)| ==> Merge(bs, i)[k].off == if k <= i then bs[k].off else bs[k + 1].off
  {
  }

  class MemHeap {
    /** pool_size */
    const pool: nat
    /** next and prev of the items, from block_list on */
    const items: RtList.List
    /** next_free and prev_free, from free_header on */
    const freed: RtList.List
    /** the RT_MEMHEAP_USED bit of each item's magic */
    var used: map<nat, bool>
    var avail: int
    var peak: int
    ghost var blocks: seq<Block>
    ghost var free: seq<nat>

    ghost function Abs(): Heap
      reads this
    {
      Heap(pool, blocks, free, avail, peak)
    }

    ghost predicate ItemRing()
      reads this`blocks, items
    {
      pool >= 2 * HDR && items.Valid() && items.nodes == Offs(blocks) + [pool - HDR]
    }

    ghost predicate FreeRing()
      reads this`free, freed
    {
      freed.Valid() && freed.nodes == [pool] + free
    }

    ghost predicate Flags()
      reads this`blocks, this`used
    {
      && (forall k :: 0 <= k < |blocks| ==> blocks[k].off in used && used[blocks[k].off] == blocks[k].used)
      && (pool >= HDR ==> pool - HDR in used && used[pool - HDR])
    }

    ghost predicate Wired()
      reads this, items, freed
    {
      items != freed && ItemRing() && FreeRing() && Flags()
    }

    /** rt_memheap_init. */
    constructor (size: nat)
      requires 2 * HDR <= AlignDown(size)
      ensures Wired() && fresh(items) && fresh(freed) && pool == AlignDown(size) && Abs() == Fresh(pool)
    {
      var n := AlignDown(size);
      pool := n;
      avail := n - 2 * HDR;
      peak := 2 * HDR;
      freed := new RtList.List(n);
      items := new RtList.List(0);
      used := map[0 := false, n - HDR := true];
      blocks, free := [Block(0, n - HDR, false)], [0];
      new;
      items.InsertAfter(0, pool - HDR);
      freed.InsertAfter(pool, 0);
    }

    /** The neighbours of item i in the ring. */
    lemma {:induction false} Neighbours(i: nat)
      requires ItemRing() && i < |blocks|
      ensures var x, a, b := blocks[i].off, if i > 0 then blocks[i - 1].off else pool - HDR,
          if i + 1 < |blocks| then blocks[i + 1].off else pool - HDR;
        && x in items.nodes && RtList.Index(items.nodes, x) == i && x in items.next && x in items.prev
        && items.next[x] == b && items.prev[x] == a
    {
      var s := items.nodes;
      assert s[i] == blocks[i].off;
      RtList.RingAt(items.next, items.prev, s, i);
      RtList.IndexUnique(s, i);
      assert i + 1 < |blocks| ==> s[i + 1] == blocks[i + 1].off;
      assert i > 0 ==> s[i - 1] == blocks[i - 1].off;
    }

    lemma {:induction false} NotLinked(z: nat)
      requires ItemRing() && z !in Offs(blocks) + [pool - HDR]
      ensures z !in items.nodes
    {
    }

    /** MEMITEM_SIZE of item i. */
    method Size(x: nat, ghost i: nat) returns (n: int)
      requires ItemRing() && Tiles(blocks, 0, pool - HDR) && i < |blocks| && blocks[i].off == x
      ensures n == Payload(blocks[i])
    {
      Neighbours(i);
      if i + 1 < |blocks| { assert Abut(blocks, i); }
      n := items.next[x] - x - HDR;
    }

    /** The flag of the item behind, or in front of, item i. */
    method IsUsed(x: nat) returns (u: bool)
      requires x in used
      ensures u == used[x]
    {
      u := used[x];
    }

    // -------------------------------------------------- list operations

    /** Break item i after e bytes; the new item is free. */
    method CutItem(x: nat, e: nat, ghost i: nat)
      requires items != freed && ItemRing() && Flags() && i < |blocks| && blocks[i].off == x && 0 < e < blocks[i].ext
      requires x + e !in items.nodes
      modifies this`used, this`blocks, items
      ensures ItemRing() && Flags() && blocks == Split(old(blocks), i, e, old(blocks)[i].used, false)
    {
      hide Split, RtList.List.Valid, RtList.InsertAt;
      ghost var bs := blocks;
      Neighbours(i);
      OffsSplit(bs, [pool - HDR], i, e, bs[i].used, false);
      var y := x + e;
      forall k | 0 <= k < |bs| ensures bs[k].off != y { assert items.nodes[k] == bs[k].off; }
      assert items.nodes[|bs|] == pool - HDR;
      items.InsertAfter(x, y);
      used := used[y := false];
      blocks := Split(bs, i, e, bs[i].used, false);
      NewFlags(bs, i, e);
    }

    lemma {:induction false} NewFlags(bs: seq<Block>, i: nat, e: nat)
      requires i < |bs| && 0 < e < bs[i].ext && blocks == Split(bs, i, e, bs[i].used, false)
      requires bs[i].off + e in used && !used[bs[i].off + e] && bs[i].off + e != pool - HDR
      requires forall k :: 0 <= k < |bs| ==> bs[k].off != bs[i].off + e && bs[k].off in used && used[bs[k].off] == bs[k].used
      requires pool >= HDR ==> pool - HDR in used && used[pool - HDR]
      ensures Flags()
    {
      forall k | 0 <= k < |blocks| ensures blocks[k].off in used && used[blocks[k].off] == blocks[k].used {
        if k > i + 1 { assert blocks[k] == bs[k - 1]; }
      }
    }

    /** Unlink item i + 1: its bytes join item i. */
    method DropItem(y: nat, ghost i: nat)
      requires items != freed && ItemRing() && Flags() && i + 1 < |blocks| && blocks[i + 1].off == y
      modifies this`blocks, items
      ensures ItemRing() && Flags() && blocks == Merge(old(blocks), i)
    {
      ghost var bs := blocks;
      Neighbours(i + 1);
      OffsMerge(bs, [pool - HDR], i);
      assert items.nodes[0] != y by {
        assert items.nodes[0] == bs[0].off;
        RtList.IndexUnique(items.nodes, 0);
      }
      items.RemoveNode(y);
      blocks := Merge(bs, i);
      forall k | 0 <= k < |blocks| ensures blocks[k].off in used && used[blocks[k].off] == blocks[k].used {
        if k > i { assert blocks[k] == bs[k + 1]; } else if k < i { assert blocks[k] == bs[k]; }
      }
    }

    /** Set or clear the used bit of item i. */
    method SetUsed(x: nat, u: bool, ghost i: nat)
      requires ItemRing() && Flags() && i < |blocks| && blocks[i].off == x
      modifies this`used, this`blocks
      ensures ItemRing() && Flags() && blocks == Mark(old(blocks), i, u)
    {
      ghost var bs := blocks;
      ghost var s := items.nodes;
      RtList.IndexUnique(s, i);
      RtList.IndexUnique(s, |bs|);
      forall k | 0 <= k < |bs| && k != i ensures bs[k].off != x { RtList.IndexUnique(s, k); }
      used := used[x := u];
      blocks := Mark(bs, i, u);
      assert Offs(blocks) == Offs(bs);
    }

    /** Put an item at the front of the free list. */
    method PushFree(x: nat)
      requires items != freed && FreeRing() && x !in free && x != pool
      modifies this`free, freed
      ensures FreeRing() && free == [x] + old(free)
    {
      assert freed.nodes[0] == pool && RtList.Index(freed.nodes, pool) == 0;
      freed.InsertAfter(pool, x);
      free := [x] + free;
    }

    /** Take an item off the free list. */
    method Unfree(x: nat)
      requires items != freed && FreeRing() && x in free && x != pool
      modifies this`free, freed
      ensures FreeRing() && free == Remove(old(free), x)
    {
      assert x in freed.nodes;
      Cons(pool, free);
      freed.RemoveNode(x);
      free := Remove(free, x);
    }

    // ------------------------------------------------------- rt_memheap_alloc

    /** The search of rt_memheap_alloc along the free list. */
    method Search(size: nat) returns (x: nat, freeSize: int, ghost k: nat)
      requires Wired() && Abs().Layout() && Abs().FreeList() && size > 0
      ensures k <= |free| && k == FirstBig(blocks, free, size)
      ensures if k == |free| then freeSize < size
        else x == free[k] && freeSize >= size && Pos(blocks, x) < |blocks| && freeSize == Payload(blocks[Pos(blocks, x)])
    {
      hide FreeRing, RtList.List.Valid, Tiles, Settled, Sound, HasFree, Flags, Pos, Distinct;
      freeSize := 0;
      k := 0;
      assert free[0..] == free;
      HeaderApart();
      NextFree(0);
      x := freed.next[pool];
      while x != pool && freeSize < size
        invariant k <= |free| && x == (if k < |free| then free[k] else pool)
        invariant freeSize < size ==> FirstBig(blocks, free, size) == k + FirstBig(blocks, free[k..], size)
        invariant freeSize >= size ==> k < |free| && k == FirstBig(blocks, free, size) && Pos(blocks, x) < |blocks|
        invariant freeSize >= size ==> freeSize == Payload(blocks[Pos(blocks, x)])
        decreases |free| - k, size - freeSize
      {
        assert x in free;
        MemHeapTheory.PosOfFree(Abs(), x);
        assert free[k..][0] == x && free[k..][1..] == free[k + 1..];
        freeSize := Size(x, Pos(blocks, x));
        if freeSize < size {
          NextFree(k + 1);
          x := freed.next[x];
          k := k + 1;
        }
      }
      assert k == |free| ==> free[k..] == [];
    }

    lemma {:induction false} HeaderApart()
      requires FreeRing()
      ensures pool !in free
    {
      Cons(pool, free);
    }

    /** The links of the free list. */
    lemma {:induction false} NextFree(k: nat)
      requires FreeRing() && k <= |free|
      ensures var x := if k == 0 then pool else free[k - 1];
        x in freed.next && freed.next[x] == if k < |free| then free[k] else pool
    {
      assert freed.nodes[k] == if k == 0 then pool else free[k - 1];
      RtList.RingAt(freed.next, freed.prev, freed.nodes, k);
      assert k < |free| ==> freed.nodes[k + 1] == free[k];
    }

    /** available_size falls, max_used_size follows. */
    method Use(n: int)
      modifies this`avail, this`peak
      ensures Abs() == Spend(old(Abs()), old(avail) - n)
    {
      avail := avail - n;
      if pool - avail > peak {
        peak := pool - avail;
      }
    }

    /** Hand out item x of `freeSize` bytes. */
    method Take(x: nat, size: nat, freeSize: int, ghost i: nat)
      requires Wired() && Abs().Inv() && i < |blocks| && blocks[i].off == x && !blocks[i].used && size > 0
      requires freeSize == Payload(blocks[i]) >= size
      modifies this, items, freed
      ensures Wired() && Abs() == AllocAt(old(Abs()), i, size)
    {
      hide Remove, Tiles, Distinct, Flags, FreeRing, Heap.Layout, Heap.FreeList;
      FreeItem(Abs(), i);
      if freeSize >= size + HDR + MINI {
        NoItemInside(Abs(), i, x + size + HDR);
        RemoveSubset(free, x);
        hide Heap.Inv;
        TakeFront(x, size, i);
      } else {
        hide Heap.Inv;
        Use(freeSize);
        Unfree(x);
        SetUsed(x, true, i);
      }
    }

    /** Split item i and hand out its front. */
    method TakeFront(x: nat, size: nat, ghost i: nat)
      requires Wired() && i < |blocks| && blocks[i].off == x && size > 0 && size + HDR + MINI <= Payload(blocks[i])
      requires x in free && x != pool
      requires x + size + HDR !in items.nodes && x + size + HDR !in free && x + size + HDR != pool
      modifies this, items, freed
      ensures Wired() && Abs() == AllocAt(old(Abs()), i, size)
    {
      hide Split, Mark, Remove, Flags, ItemRing, FreeRing;
      SplitThenMark(blocks, i, size + HDR);
      SplitFree(x, size + HDR, i);
      Use(size + HDR);
      SetUsed(x, true, i);
    }

    /** Split the free item i; its back takes its place at the front of the free list. */
    method SplitFree(x: nat, e: nat, ghost i: nat)
      requires Wired() && i < |blocks| && blocks[i].off == x && 0 < e < blocks[i].ext && x in free && x != pool
      requires x + e !in items.nodes && x + e !in free && x + e != pool
      modifies this`used, this`blocks, this`free, items, freed
      ensures Wired() && blocks == Split(old(blocks), i, e, old(blocks)[i].used, false)
      ensures free == [x + e] + Remove(old(free), x)
    {
      RemoveSubset(free, x);
      hide Split, Remove, Flags, ItemRing, FreeRing;
      CutItem(x, e, i);
      Unfree(x);
      PushFree(x + e);
    }

    /** rt_memheap_alloc. */
    method Alloc(n: nat) returns (r: Option<int>)
      requires Wired() && Abs().Inv()
      modifies this, items, freed
      ensures Wired() && (Abs(), r) == MemHeapSpec.Alloc(old(Abs()), n)
    {
      hide Tiles, Settled, Sound, HasFree, ItemRing, FreeRing, Flags, Distinct, FreePay;
      ghost var h := Abs();
      MemHeapTheory.FirstBigFits(h, h.free, Request(n));
      var size := AlignUp(n);
      if size < MINI {
        size := MINI;
      }
      if size >= avail {
        return None;
      }
      hide FirstBig, Pos, AllocAt;
      var x, freeSize;
      ghost var k;
      x, freeSize, k := Search(size);
      if freeSize < size {
        return None;
      }
      Take(x, size, freeSize, Pos(blocks, x));
      return Some(x + HDR);
    }

    // -------------------------------------------------------- rt_memheap_free

    /** Join item i with its free left neighbour. */
    method JoinLeft(x: nat, ghost i: nat) returns (y: nat)
      requires Wired() && i < |blocks| && blocks[i].off == x && FreeLeft(blocks, i)
      modifies this`blocks, this`avail, items
      ensures Wired() && blocks == Merge(old(blocks), i - 1) && y == old(blocks)[i - 1].off && avail == old(avail) + HDR
    {
      Neighbours(i);
      avail := avail + HDR;
      y := items.prev[x];
      DropItem(x, i - 1);
    }

    /** Join item i with its free right neighbour, which leaves the free list. */
    method JoinRight(x: nat, ghost i: nat)
      requires Wired() && i < |blocks| && blocks[i].off == x && FreeRight(blocks, i)
      requires blocks[i + 1].off in free && blocks[i + 1].off != pool
      modifies this`blocks, this`avail, this`free, items, freed
      ensures Wired() && blocks == Merge(old(blocks), i) && free == Remove(old(free), old(blocks)[i + 1].off)
      ensures avail == old(avail) + HDR
    {
      Neighbours(i);
      avail := avail + HDR;
      var y := items.next[x];
      DropItem(y, i);
      Unfree(y);
    }

    /** rt_memheap_free of a live pointer or RT_NULL. */
    method Free(p: Option<int>)
      requires Wired() && Abs().Inv() && (p.Some? ==> Abs().IsLive(p.value))
      modifies this, items, freed
      ensures Wired() && Abs() == FreeOpt(old(Abs()), p)
    {
      if p.None? {
        return;
      }
      MemHeapTheory.PosOfLive(Abs(), p.value);
      FreeItemAt(p.value - HDR, Pos(blocks, p.value - HDR));
    }

    /** rt_memheap_free of item i. */
    method FreeItemAt(x: nat, ghost i: nat)
      requires Wired() && Abs().Inv() && i < |blocks| && blocks[i].off == x && blocks[i].used
      modifies this, items, freed
      ensures Wired() && Abs() == FreeAt(old(Abs()), i)
    {
      ghost var m := Mark(blocks, i, false);
      UsedItem(Abs(), i);
      MergeOrder(m, i);
      hide Heap.Inv, Merge, Coalesce, Remove;
      MarkAndFinish(x, i);
    }

    /** The steps of rt_memheap_free: clear the bit, count the payload, merge. */
    method MarkAndFinish(x: nat, ghost i: nat)
      requires Wired() && Tiles(blocks, 0, pool - HDR) && i < |blocks| && blocks[i].off == x && x != pool && x !in free
      requires FreeRight(blocks, i) ==> blocks[i + 1].off in free && blocks[i + 1].off != pool
      requires Coalesce(Mark(blocks, i, false), i) == MergeBoth(Mark(blocks, i, false), i)
      modifies this, items, freed
      ensures Wired() && Abs() == FreeAt(old(Abs()), i)
    {
      hide Tiles, Coalesce, Remove, Flags, ItemRing, FreeRing, MergeBoth, Mark;
      ghost var m := Mark(blocks, i, false);
      MarkNeighbours(blocks, i);
      var size := Size(x, i);
      SetUsed(x, false, i);
      avail := avail + size;
      FinishFree(x, i, m);
    }

    /** Merge with the neighbours, and insert into the free list unless the left
        neighbour already is there. */
    method FinishFree(x: nat, ghost i: nat, ghost m: seq<Block>)
      requires Wired() && blocks == m && i < |m| && m[i].off == x && x != pool && x !in free
      requires FreeRight(m, i) ==> m[i + 1].off in free && m[i + 1].off != pool
      requires Coalesce(m, i) == MergeBoth(m, i)
      modifies this, items, freed
      ensures Wired() && blocks == Coalesce(m, i)
      ensures peak == old(peak)
      ensures avail == old(avail) + (if FreeLeft(m, i) then HDR else 0) + (if FreeRight(m, i) then HDR else 0)
      ensures var f := if FreeRight(m, i) then Remove(old(free), m[i + 1].off) else old(free);
        free == if FreeLeft(m, i) then f else [x] + f
    {
      hide ItemRing, FreeRing, RtList.List.Valid, Coalesce, Remove;
      Neighbours(i);
      var y, insert := x, true;
      ghost var j := i;
      if !used[items.prev[x]] {
        y := JoinLeft(x, i);
        insert := false;
        j := i - 1;
      }
      Neighbours(j);
      assert j + 1 < |blocks| ==> i + 1 < |m| && blocks[j + 1] == m[i + 1];
      if !used[items.next[y]] {
        JoinRight(y, j);
        RemoveSubset(old(free), m[i + 1].off);
      }
      if insert {
        PushFree(y);
      }
    }

    // ----------------------------------------------------- rt_memheap_realloc

    /** Grow item i into its free right neighbour. */
    method GrowInPlace(x: nat, ns: nat, ghost i: nat)
      requires Wired() && Abs().Inv() && MemHeapTheory.CanGrow(Abs(), i, ns) && blocks[i].off == x && ns > 0
      modifies this, items, freed
      ensures Wired() && Abs() == Grow(old(Abs()), i, ns)
    {
      FreeItem(Abs(), i + 1);
      GrowRoom(Abs(), i, ns);
      RemoveSubset(free, blocks[i + 1].off);
      hide Heap.Inv;
      GrowInto(x, ns, i);
    }

    /** The growth of item i once the right neighbour is known to be free and large enough. */
    method GrowInto(x: nat, ns: nat, ghost i: nat)
      requires Wired() && Tiles(blocks, 0, pool - HDR) && i + 1 < |blocks| && blocks[i].off == x
      requires blocks[i + 1].off in free && blocks[i + 1].off != pool
      requires var m, y := Merge(blocks, i), x + HDR + ns;
        && y !in Offs(m) + [pool - HDR] && y !in free && y != pool
        && i < |m| && m[i].off == x && m[i].used && 0 < ns + HDR < m[i].ext
      modifies this, items, freed
      ensures Wired() && Abs() == Grow(old(Abs()), i, ns)
    {
      hide ItemRing, FreeRing, RtList.List.Valid;
      ghost var f := free;
      hide Split, Merge, Remove, Tiles, Flags;
      var had := Size(x, i);
      Use(ns - had);
      Neighbours(i);
      var y := items.next[x];
      Unfree(y);
      DropItem(y, i);
      CutItem(x, ns + HDR, i);
      RemoveSubset(f, y);
      PushFree(x + HDR + ns);
    }

    /** Cut off the tail of item i. */
    method ShrinkInPlace(x: nat, ns: nat, ghost i: nat)
      requires Wired() && Abs().Inv() && MemHeapTheory.CanShrink(Abs(), i, ns) && blocks[i].off == x
      modifies this, items, freed
      ensures Wired() && Abs() == Shrink(old(Abs()), i, ns)
    {
      hide Heap.Inv, Tiles, MergeRight, Split, Flags, FreeRing, ItemRing, Shrink, Remove, Offs;
      ShrinkRoom(Abs(), i, ns);
      ShrinkAsGiven(Abs(), i, ns);
      CutTail(x, ns, i, Split(blocks, i, ns + HDR, true, false));
    }

    /** The cut itself: a new header behind ns bytes, given away as a free item. */
    method CutTail(x: nat, ns: nat, ghost i: nat, ghost c: seq<Block>)
      requires Wired() && i < |blocks| && blocks[i].off == x && blocks[i].used && 0 < ns + HDR < blocks[i].ext
      requires var z := x + ns + HDR;
        && z !in Offs(blocks) + [pool - HDR] && z !in free && z != pool
        && c == Split(blocks, i, ns + HDR, true, false) && i + 1 < |c| && c[i + 1].off == z && !c[i + 1].used
      requires Tiles(c, 0, pool - HDR) && Tiles(MergeRight(c, i + 1), 0, pool - HDR)
      requires FreeRight(c, i + 1) ==> c[i + 2].off in free && c[i + 2].off != pool
      modifies this, items, freed
      ensures Wired() && Abs() == old(Abs()).(
        blocks := MergeRight(c, i + 1),
        free := [c[i + 1].off] + if FreeRight(c, i + 1) then Remove(old(free), c[i + 2].off) else old(free),
        avail := old(avail) + Payload(c[i + 1]) + if FreeRight(c, i + 1) then HDR else 0)
    {
      hide Tiles, MergeRight, Split, Flags, FreeRing, Remove, ItemRing;
      NotLinked(x + ns + HDR);
      CutItem(x, ns + HDR, i);
      GiveTail(x + ns + HDR, i + 1);
    }

    /** Make item i, just cut off, a free one: join a free right neighbour first. */
    method GiveTail(z: nat, ghost i: nat)
      requires Wired() && i < |blocks| && blocks[i].off == z && !blocks[i].used && z !in free && z != pool
      requires Tiles(blocks, 0, pool - HDR) && Tiles(MergeRight(blocks, i), 0, pool - HDR)
      requires FreeRight(blocks, i) ==> blocks[i + 1].off in free && blocks[i + 1].off != pool
      modifies this, items, freed
      ensures Wired() && blocks == MergeRight(old(blocks), i) && peak == old(peak)
      ensures free == [z] + if FreeRight(old(blocks), i) then Remove(old(free), old(blocks)[i + 1].off) else old(free)
      ensures avail == old(avail) + Payload(old(blocks)[i]) + if FreeRight(old(blocks), i) then HDR else 0
    {
      hide Tiles, Remove, Flags, ItemRing, FreeRing, Distinct;
      Neighbours(i);
      FlagRight(i);
      if !used[items.next[z]] {
        var f := items.next[z];
        var size := Size(f, i + 1);
        avail := avail - size;
        DropItem(f, i);
        RemoveSubset(free, f);
        Unfree(f);
      }
      PushFree(z);
      var size := Size(z, i);
      avail := avail + size;
    }

    /** The used bit of the item behind item i; the tail item counts as used. */
    lemma {:induction false} FlagRight(i: nat)
      requires ItemRing() && Flags() && i < |blocks|
      ensures var x := blocks[i].off;
        x in items.next && items.next[x] in used && used[items.next[x]] == !FreeRight(blocks, i)
    {
      Neighbours(i);
    }

    /** rt_memheap_realloc. */
    method Realloc(p: Option<int>, n: nat) returns (r: Option<int>)
      requires Wired() && Abs().Inv() && Legal(Abs(), DoRealloc(p, n))
      modifies this, items, freed
      ensures Wired() && (Abs(), r) == MemHeapSpec.Realloc(old(Abs()), p, n)
    {
      ghost var h := Abs();
      if n == 0 {
        Free(p);
        return None;
      }
      var ns := AlignUp(n);
      if ns < MINI {
        ns := MINI;
      }
      if p.None? {
        r := Alloc(ns);
        return;
      }
      MemHeapTheory.PosOfLive(h, p.value);
      r := Resize(p.value - HDR, ns, Pos(blocks, p.value - HDR));
    }

    /** rt_memheap_realloc of item i. */
    method Resize(x: nat, ns: nat, ghost i: nat) returns (r: Option<int>)
      requires Wired() && Abs().Inv() && i < |blocks| && blocks[i].off == x && blocks[i].used
      requires 0 < ns < WORD && ns % 4 == 0 && !Misjudged(Abs(), i, ns)
      modifies this, items, freed
      ensures Wired() && (Abs(), r) == ResizeAt(old(Abs()), i, ns)
    {
      hide Misjudged, GrowTest;
      ghost var h := Abs();
      var had := Size(x, i);
      Neighbours(i);
      if ns > had {
        var y := items.next[x];
        if !used[y] {
          var room := Size(y, i + 1);
          MemHeapTheory.TestAgrees(h, i, ns);
          if GrowTest(room, had, ns) {
            hide Grow;
            GrowInPlace(x, ns, i);
            return Some(x + HDR);
          }
        }
        hide AllocCopyFree;
        r := Move(x, ns, i);
      } else if ns + HDR + MINI >= had {
        return Some(x + HDR);
      } else {
        hide Shrink;
        ShrinkInPlace(x, ns, i);
        return Some(x + HDR);
      }
    }

    /** Allocate elsewhere and release item i. */
    method Move(x: nat, ns: nat, ghost i: nat) returns (r: Option<int>)
      requires Wired() && Abs().Inv() && i < |blocks| && blocks[i].off == x && blocks[i].used
      modifies this, items, freed
      ensures Wired() && (Abs(), r) == AllocCopyFree(old(Abs()), x + HDR, ns)
    {
      ghost var h := Abs();
      MemHeapTheory.AllocInv(h, ns);
      assert h.blocks[i] in h.blocks;
      MemHeapTheory.AllocKeepsLive(h, ns, h.blocks[i]);
      hide Heap.Inv, MemHeapSpec.Alloc, MemHeapSpec.Free, Heap.IsLive;
      r := Alloc(ns);
      if r.Some? {
        Free(Some(x + HDR));
      }
    }
  }

  // ------------------------------------------------------------- about layouts

  /** A free item is on the free list. */
  lemma {:induction false} FreeItem(h: Heap, i: nat)
    requires h.Inv() && i < |h.blocks| && !h.blocks[i].used
    ensures h.blocks[i].off in h.free && h.blocks[i].off != h.pool
  {
    assert h.blocks[i] in h.blocks;
    assert HasFree(h.blocks, h.blocks[i].off);
    Within(h.blocks, 0, h.pool - HDR, i);
  }

  lemma {:induction false} UsedItem(h: Heap, i: nat)
    requires h.Inv() && i < |h.blocks| && h.blocks[i].used
    ensures h.blocks[i].off !in h.free && h.blocks[i].off != h.pool
    ensures FreeRight(h.blocks, i) ==> h.blocks[i + 1].off in h.free && h.blocks[i + 1].off != h.pool
  {
    MemHeapTheory.FreeAtOffset(h.blocks, 0, h.pool - HDR, i);
    Within(h.blocks, 0, h.pool - HDR, i);
    if FreeRight(h.blocks, i) { FreeItem(h, i + 1); }
  }

  /** No item starts inside another. */
  lemma {:induction false} NoItemInside(h: Heap, i: nat, y: nat)
    requires h.Inv() && i < |h.blocks| && h.blocks[i].off < y < h.blocks[i].End()
    ensures y !in Offs(h.blocks) + [h.pool - HDR] && y !in h.free && y != h.pool
  {
    Within(h.blocks, 0, h.pool - HDR, i);
    MemHeapTheory.FreeInside(h.blocks, 0, h.pool - HDR, i, y);
    forall k | 0 <= k < |h.blocks| ensures h.blocks[k].off != y { Sides(h.blocks, 0, h.pool - HDR, i, k); }
  }

  lemma {:induction false} SplitThenMark(bs: seq<Block>, i: nat, e: nat)
    requires i < |bs| && 0 < e < bs[i].ext
    ensures var s := Split(bs, i, e, bs[i].used, false);
      i < |s| && s[i].off == bs[i].off && Mark(s, i, true) == Split(bs, i, e, true, false)
  {
  }

  lemma {:induction false} MarkNeighbours(bs: seq<Block>, i: nat)
    requires i < |bs|
    ensures var m := Mark(bs, i, false);
      && i < |m| && m[i].off == bs[i].off && FreeLeft(m, i) == FreeLeft(bs, i) && FreeRight(m, i) == FreeRight(bs, i)
      && (i + 1 < |bs| ==> i + 1 < |m| && m[i + 1] == bs[i + 1])
  {
  }

  /** Left neighbour first, as rt_memheap_free does it. */
  function MergeBoth(bs: seq<Block>, i: nat): seq<Block>
    requires i < |bs|
  {
    if FreeLeft(bs, i) then MergeRight(Merge(bs, i - 1), i - 1) else MergeRight(bs, i)
  }

  lemma {:induction false} MergeOrder(bs: seq<Block>, i: nat)
    requires i < |bs|
    ensures Coalesce(bs, i) == MergeBoth(bs, i)
  {
    if FreeLeft(bs, i) && FreeRight(bs, i) {
      var a, b := Merge(Merge(bs, i), i - 1), Merge(Merge(bs, i - 1), i - 1);
      assert Merge(bs, i - 1)[i] == bs[i + 1];
      assert a == b;
    }
  }

  lemma {:induction false} GrowRoom(h: Heap, i: nat, ns: nat)
    requires h.Inv() && MemHeapTheory.CanGrow(h, i, ns) && ns > 0
    ensures var y := h.blocks[i].off + HDR + ns;
      && y !in Offs(Merge(h.blocks, i)) + [h.pool - HDR] && y !in h.free && y != h.pool
      && Merge(h.blocks, i)[i].off == h.blocks[i].off && Merge(h.blocks, i)[i].used && 0 < ns + HDR < Merge(h.blocks, i)[i].ext
  {
    assert Abut(h.blocks, i);
    NoItemInside(h, i + 1, h.blocks[i].off + HDR + ns);
    var m := Merge(h.blocks, i);
    forall k | 0 <= k < |m| ensures m[k].off in Offs(h.blocks) {
      MergeAt(h.blocks, i, k);
      assert Offs(h.blocks)[if k <= i then k else k + 1] == m[k].off;
    }
  }

  lemma {:induction false} ShrinkRoom(h: Heap, i: nat, ns: nat)
    requires h.Inv() && MemHeapTheory.CanShrink(h, i, ns)
    ensures var c := Split(h.blocks, i, ns + HDR, true, false);
      && Tiles(c, 0, h.pool - HDR) && Tiles(MergeRight(c, i + 1), 0, h.pool - HDR)
      && i + 1 < |c| && c[i + 1] == Block(h.blocks[i].off + ns + HDR, h.blocks[i].ext - ns - HDR, false)
      && (FreeRight(c, i + 1) ==> c[i + 2].off in h.free && c[i + 2].off != h.pool)
    ensures var z := h.blocks[i].off + ns + HDR; z !in Offs(h.blocks) + [h.pool - HDR] && z !in h.free && z != h.pool
    ensures 0 < ns + HDR < h.blocks[i].ext
  {
    hide Tiles, Settled, Sound, Distinct, FreePay, MergeRight, Offs, HasFree, Heap.FreeList;
    NoItemInside(h, i, h.blocks[i].off + ns + HDR);
    SplitTiles(h.blocks, i, ns + HDR, true, false, 0, h.pool - HDR);
    UsedItem(h, i);
    var c := Split(h.blocks, i, ns + HDR, true, false);
    assert i + 1 < |h.blocks| ==> c[i + 2] == h.blocks[i + 1];
    MergeRightTiles(c, i + 1, h.pool - HDR);
  }

  /** Shrinking is cutting, then giving the tail away. */
  lemma {:induction false} ShrinkAsGiven(h: Heap, i: nat, ns: nat)
    requires MemHeapTheory.CanShrink(h, i, ns)
    ensures var c := Split(h.blocks, i, ns + HDR, true, false);
      && i + 1 < |c|
      && Shrink(h, i, ns) == h.(
        blocks := MergeRight(c, i + 1),
        free := [c[i + 1].off] + if FreeRight(c, i + 1) then Remove(h.free, c[i + 2].off) else h.free,
        avail := h.avail + Payload(c[i + 1]) + if FreeRight(c, i + 1) then HDR else 0)
  {
    var c := Split(h.blocks, i, ns + HDR, true, false);
    assert i + 1 < |h.blocks| ==> c[i + 2] == h.blocks[i + 1];
    hide MergeRight, Remove;
  }

  lemma {:induction false} MergeRightTiles(bs: seq<Block>, i: nat, hi: nat)
    requires Tiles(bs, 0, hi) && i < |bs|
    ensures Tiles(MergeRight(bs, i), 0, hi)
  {
    if i + 1 < |bs| { MergeTiles(bs, i, 0, hi); }
  }
}
