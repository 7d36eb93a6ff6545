/** mem.c as it is written: headers linked by byte offset inside the heap, four
    global variables, and the loops that walk the links. Each call is proved to
    take the step that SmallMemSpec describes and to leave live payload alone. */
module SmallMem {
  import opened Machine
  import opened Tiling
  import opened SmallMemSpec
  import opened SmallMemTheory
  import opened SmallMemHeaders

  class SmallHeap {
    /** mem_size_aligned */
    var memSize: nat
    /** the headers stored at each byte offset */
    var hdr: Headers
    var lfree: nat
    var usedMem: nat
    var maxMem: nat
    /** heap contents as the users of the blocks see them */
    var data: seq<Byte>
    ghost var blocks: seq<Block>

    ghost function Abs(): Heap
      reads this
    {
      Heap(memSize, blocks, lfree, usedMem, maxMem)
    }

    ghost predicate Valid()
      reads this
    {
      && Abs().Inv()
      && Chain(hdr, blocks, memSize + HDR)
      && |data| == memSize + 2 * HDR
    }

    /** The allocator's static variables before any call. */
    constructor ()
      ensures memSize == 0 && usedMem == 0 && maxMem == 0
    {
      memSize, hdr, lfree, usedMem, maxMem, data, blocks := 0, map[], 0, 0, 0, [], [];
    }

    /** rt_system_heap_init. Reports failure, and changes nothing, when the
        aligned range cannot hold two headers. The statistics are not reset. */
    method Init(begin: nat, end: nat) returns (ok: bool)
      requires begin < WORD && end < WORD
      modifies this
      ensures ok <==> AlignDown(end) > 2 * HDR && AlignDown(end) - 2 * HDR >= AlignUp(begin)
      ensures !ok ==> unchanged(this)
      ensures ok ==>
        && memSize == AlignDown(end) - AlignUp(begin) - 2 * HDR
        && Abs() == Fresh(memSize).(used := old(usedMem), peak := old(maxMem))
        && (memSize >= MIN && old(usedMem) == 0 ==> Valid())
    {
      var beginAlign, endAlign := AlignUp(begin), AlignDown(end);
      if !(endAlign > 2 * HDR && endAlign - 2 * HDR >= beginAlign) {
        return false;
      }
      memSize := endAlign - beginAlign - 2 * HDR;
      hdr := map[0 := Header(false, memSize + HDR, 0)];
      var heapEnd := hdr[0].next;
      hdr := hdr[heapEnd := Header(true, memSize + HDR, memSize + HDR)];
      lfree := 0;
      data := seq(memSize + 2 * HDR, _ => 0);
      blocks := [Block(0, memSize + HDR, false)];
      if memSize >= MIN {
        FreshInv(memSize);
        assert Linked(hdr, blocks, 0);
      }
      return true;
    }

    /** Store a header: the bytes under it are lost to payload. */
    method Store(at: nat, h: Header)
      requires at + HDR <= |data|
      modifies this`hdr, this`data
      ensures hdr == old(hdr)[at := h] && data == Clobber(old(data), at)
    {
      hdr := hdr[at := h];
      data := Clobber(data, at);
    }

    ghost predicate Wired()
      reads this`memSize, this`hdr, this`data, this`blocks
    {
      && Tiles(blocks, 0, memSize + HDR)
      && Chain(hdr, blocks, memSize + HDR)
      && |data| == memSize + 2 * HDR
    }

    lemma ValidWired()
      requires Valid()
      ensures Wired()
    {
    }

    lemma WiredValid()
      requires Wired() && Abs().Inv()
      ensures Valid()
    {
    }

    /** First half of plug_holes: join mem with a free block after it. */
    method PlugForward(mem: nat, ghost i: nat)
      requires Wired() && i < |blocks| && blocks[i].off == mem
      modifies this`hdr, this`lfree, this`data, this`blocks
      ensures Wired() && blocks == MergeRight(old(blocks), i)
      ensures lfree == if i + 1 < |old(blocks)| && !old(blocks)[i + 1].used && old(lfree) == old(blocks)[i + 1].off
                       then mem else old(lfree)
      ensures Keeps(old(data), data, old(blocks))
    {
      ghost var bs, end := blocks, memSize + HDR;
      ForwardFacts(hdr, bs, end, i);
      hide Chain, Tiles, Keeps, Clobber, Merge;
      var nmem := hdr[mem].next;
      if mem != nmem && !hdr[nmem].used && nmem != memSize + HDR {
        if lfree == nmem {
          lfree := mem;
        }
        JoinKeeps(data, bs, end, i);
        ChainMerge(hdr, bs, end, i);
        MergeTiles(bs, i, 0, end);
        Store(mem, hdr[mem].(next := hdr[nmem].next));
        Store(hdr[nmem].next, hdr[hdr[nmem].next].(prev := mem));
        blocks := Merge(bs, i);
      } else {
        KeepsSame(data, bs);
      }
    }

    /** Second half of plug_holes: join mem with a free block before it. */
    method PlugBackward(mem: nat, ghost i: nat)
      requires Wired() && i < |blocks| && blocks[i].off == mem
      modifies this`hdr, this`lfree, this`data, this`blocks
      ensures Wired() && blocks == MergeLeft(old(blocks), i)
      ensures lfree == if i > 0 && !old(blocks)[i - 1].used && old(lfree) == mem
                       then old(blocks)[i - 1].off else old(lfree)
      ensures Keeps(old(data), data, old(blocks))
    {
      ghost var bs, end := blocks, memSize + HDR;
      BackwardFacts(hdr, bs, end, i);
      hide Chain, Tiles, Keeps, Clobber, Merge;
      var pmem := hdr[mem].prev;
      if pmem != mem && !hdr[pmem].used {
        if lfree == mem {
          lfree := pmem;
        }
        JoinKeeps(data, bs, end, i - 1);
        ChainMerge(hdr, bs, end, i - 1);
        MergeTiles(bs, i - 1, 0, end);
        Store(pmem, hdr[pmem].(next := hdr[mem].next));
        Store(hdr[mem].next, hdr[hdr[mem].next].(prev := pmem));
        blocks := Merge(bs, i - 1);
      } else {
        KeepsSame(data, bs);
      }
    }

    /** plug_holes: join the free block at mem with its free neighbours. */
    method PlugHoles(mem: nat, ghost i: nat)
      requires Wired() && i < |blocks| && blocks[i].off == mem && !blocks[i].used
      modifies this`hdr, this`lfree, this`data, this`blocks
      ensures Wired() && blocks == Coalesce(old(blocks), i)
      ensures lfree == PlugLfree(old(blocks), i, old(lfree))
      ensures Keeps(old(data), data, old(blocks))
    {
      ghost var bs := blocks;
      PlugForward(mem, i);
      ghost var a, d := blocks, data;
      assert i > 0 ==> a[..i][i - 1] == bs[..i][i - 1];
      RightKeepsUsed(bs, i);
      hide Wired, Merge;
      PlugBackward(mem, i);
      KeepsTransitive(old(data), d, data, bs, a);
    }

    /** The lfree loop of rt_malloc: move up to the next free block. */
    method SkipUsed(ghost i: nat)
      requires Wired() && i < |blocks| && lfree == blocks[i].off
      modifies this`lfree
      ensures Wired() && lfree == NextFree(blocks, i, memSize + HDR)
    {
      ghost var k := i;
      ghost var end := memSize + HDR;
      assert Linked(hdr, blocks, k);
      while hdr[lfree].used && lfree != memSize + HDR
        invariant i <= k <= |blocks| && lfree in hdr
        invariant k < |blocks| ==> lfree == blocks[k].off && Linked(hdr, blocks, k)
        invariant k == |blocks| ==> lfree == end
        invariant NextFree(blocks, i, end) == NextFree(blocks, k, end)
        decreases |blocks| - k
      {
        ChainNext(hdr, blocks, end, k);
        lfree := hdr[lfree].next;
        k := k + 1;
        if k < |blocks| { assert Linked(hdr, blocks, k); }
      }
      if k < |blocks| { Within(blocks, 0, end, k); }
    }

    /** Make a new free header e bytes into the block at ptr, mark that block
        used, and link the new header in between (rt_malloc and rt_realloc). */
    method Cut(ptr: nat, e: nat)
      requires ptr in hdr && hdr[ptr].next in hdr && 0 < e && ptr + e < hdr[ptr].next
      requires hdr[ptr].next + HDR <= |data|
      modifies this`hdr, this`data
      ensures hdr == SplitHeaders(old(hdr), ptr, e, memSize + HDR)
      ensures data == var d := Clobber(Clobber(old(data), ptr + e), ptr);
                      if old(hdr)[ptr].next != memSize + HDR then Clobber(d, old(hdr)[ptr].next) else d
    {
      var ptr2 := ptr + e;
      Store(ptr2, Header(false, hdr[ptr].next, ptr));
      Store(ptr, Header(true, ptr2, hdr[ptr].prev));
      if hdr[ptr2].next != memSize + HDR {
        Store(hdr[ptr2].next, hdr[hdr[ptr2].next].(prev := ptr2));
      }
    }

    /** Cut block i in two, the front used and the tail free. */
    method CutBlock(ptr: nat, e: nat, ghost i: nat)
      requires Wired() && i < |blocks| && blocks[i].off == ptr && 0 < e < blocks[i].ext
      modifies this`hdr, this`data, this`blocks
      ensures Wired() && blocks == Split(old(blocks), i, e, true, false)
      ensures Keeps(old(data), data, blocks)
    {
      ghost var bs, end := blocks, memSize + HDR;
      BackwardFacts(hdr, bs, end, i);
      SplitTiles(bs, i, e, true, false, 0, end);
      ChainSplit(hdr, bs, end, i, e);
      SplitKeeps(data, bs, end, i, e);
      hide Chain, Tiles, Split, Keeps, Clobber, SplitHeaders;
      Cut(ptr, e);
      blocks := Split(bs, i, e, true, false);
    }

    /** Set the used flag of block i. */
    method SetUsed(mem: nat, u: bool, ghost i: nat)
      requires Wired() && i < |blocks| && blocks[i].off == mem
      modifies this`hdr, this`data, this`blocks
      ensures Wired() && blocks == Mark(old(blocks), i, u)
      ensures mem in hdr && hdr[mem].next == mem + blocks[i].ext
      ensures Keeps(old(data), data, blocks)
    {
      ghost var m, end := Mark(blocks, i, u), memSize + HDR;
      BackwardFacts(hdr, blocks, end, i);
      ChainMark(hdr, blocks, end, i, u);
      MarkTiles(blocks, i, u, 0, end);
      KeepsSame(data, m);
      ClobberKeeps(data, data, m, end, mem);
      hide Keeps, Chain, Clobber, Mark, Tiles;
      Store(mem, hdr[mem].(used := u));
      blocks := m;
    }

    /** Split or hand out whole, with the statistics. */
    method TakeBlock(ptr: nat, size: nat, ghost i: nat)
      requires Wired() && i < |blocks| && blocks[i].off == ptr && !blocks[i].used
      requires blocks[i].ext >= size + HDR
      modifies this`hdr, this`data, this`blocks, this`usedMem, this`maxMem
      ensures Wired() && blocks == Take(old(blocks), i, size)
      ensures usedMem == old(usedMem) + blocks[i].ext && maxMem == Max(old(maxMem), usedMem)
      ensures Keeps(old(data), data, blocks)
    {
      BackwardFacts(hdr, blocks, memSize + HDR, i);
      TakeForms(blocks, i, size);
      hide Wired, Keeps, Take, Split, Mark;
      if hdr[ptr].next - (ptr + HDR) >= size + HDR + MIN {
        CutBlock(ptr, HDR + size, i);
        usedMem := usedMem + (size + HDR);
        if maxMem < usedMem { maxMem := usedMem; }
      } else {
        SetUsed(ptr, true, i);
        usedMem := usedMem + (hdr[ptr].next - ptr);
        if maxMem < usedMem { maxMem := usedMem; }
      }
    }

    /** What rt_malloc does once the block at ptr fits. */
    method Carve(ptr: nat, size: nat, ghost i: nat)
      requires Wired() && i < |blocks| && blocks[i].off == ptr && !blocks[i].used
      requires blocks[i].ext >= size + HDR
      modifies this`hdr, this`lfree, this`data, this`blocks, this`usedMem, this`maxMem
      ensures Wired() && Abs() == MallocAt(old(Abs()), i, size)
      ensures Keeps(old(data), data, blocks)
    {
      hide Keeps, Take, NextFree, Wired;
      TakeBlock(ptr, size, i);
      if ptr == lfree {
        SkipUsed(i);
      }
    }

    /** The search loop of rt_malloc, from lfree up to the last offset at which
        size bytes are tried. */
    method Search(size: nat) returns (found: bool, ptr: nat, ghost k: nat)
      requires Wired()
      requires lfree == if Pos(blocks, lfree) < |blocks| then blocks[Pos(blocks, lfree)].off else memSize + HDR
      ensures k == FirstFit(blocks, Pos(blocks, lfree), memSize - size, size)
      ensures found <==> k < |blocks|
      ensures found ==> ptr == blocks[k].off && !blocks[k].used && blocks[k].ext >= size + HDR
    {
      ghost var end := memSize + HDR;
      ghost var from := Pos(blocks, lfree);
      hide Chain, Tiles, Pos;
      ptr := lfree;
      k := from;
      while ptr < memSize - size
        invariant k <= |blocks| && ptr == if k < |blocks| then blocks[k].off else end
        invariant FirstFit(blocks, from, memSize - size, size) == FirstFit(blocks, k, memSize - size, size)
        decreases |blocks| - k
      {
        BackwardFacts(hdr, blocks, end, k);
        HeaderUsed(hdr, blocks, end, k);
        if !hdr[ptr].used && hdr[ptr].next - (ptr + HDR) >= size {
          return true, ptr, k;
        }
        ChainNext(hdr, blocks, end, k);
        ptr := hdr[ptr].next;
        k := k + 1;
      }
      return false, ptr, |blocks|;
    }

    /** rt_malloc, on any well-linked heap whose lfree is one of its headers. */
    method Allocate(n: nat) returns (p: Option<int>)
      requires Wired()
      requires lfree == if Pos(blocks, lfree) < |blocks| then blocks[Pos(blocks, lfree)].off else memSize + HDR
      modifies this`hdr, this`lfree, this`data, this`blocks, this`usedMem, this`maxMem
      ensures Wired() && (Abs(), p) == SmallMemSpec.Malloc(old(Abs()), n)
      ensures Keeps(old(data), data, blocks)
    {
      hide Wired, FirstFit, Pos, MallocAt, Keeps;
      KeepsSame(data, blocks);
      if n == 0 {
        return None;
      }
      var size := AlignUp(n);
      if size > memSize {
        return None;
      }
      if size < MIN {
        size := MIN;
      }
      var found, ptr, k := Search(size);
      if !found {
        return None;
      }
      Carve(ptr, size, k);
      return Some(ptr + HDR);
    }

    /** rt_malloc. */
    method Malloc(n: nat) returns (p: Option<int>)
      requires Valid() && n < WORD
      modifies this`hdr, this`lfree, this`data, this`blocks, this`usedMem, this`maxMem
      ensures Valid() && (Abs(), p) == SmallMemSpec.Malloc(old(Abs()), n)
      ensures Keeps(old(data), data, old(blocks)) && Keeps(old(data), data, blocks)
    {
      ghost var h, d := Abs(), data;
      ValidWired();
      LfreePos(Abs());
      MallocInv(Abs(), n);
      hide Wired, Pos, Keeps, SmallMemSpec.Malloc, UsedExt, Good, Heap.LfreeOk, Heap.NothingLive;
      p := Allocate(n);
      WiredValid();
      MallocKeepsOld(h, n, d, data);
    }

    /** The pointer work of rt_free for the live block i at mem. */
    method Release(mem: nat, ghost i: nat)
      requires Wired() && i < |blocks| && blocks[i].off == mem && blocks[i].used && blocks[i].ext <= usedMem
      modifies this`hdr, this`lfree, this`data, this`blocks, this`usedMem
      ensures Wired() && Abs() == FreeAt(old(Abs()), i)
      ensures Keeps(old(data), data, blocks)
    {
      hide Heap.Inv, Chain, Tiles, Settled, Good, UsedExt, KeepsBut, Heap.LfreeOk;
      ghost var m, d0 := Mark(blocks, i, false), data;
      CoalescedUsed(m, i);
      hide Keeps, Coalesce, PlugLfree, Wired, Mark;
      SetUsed(mem, false, i);
      ghost var d1 := data;
      if mem < lfree {
        lfree := mem;
      }
      usedMem := usedMem - (hdr[mem].next - mem);
      PlugHoles(mem, i);
      KeepsTransitive(d0, d1, data, m, m);
      KeepsFewer(d0, data, m, blocks);
    }

    /** rt_free. */
    method Free(p: Option<int>)
      requires Valid() && Abs().MayPass(p)
      modifies this`hdr, this`lfree, this`data, this`blocks, this`usedMem
      ensures Valid() && Abs() == FreeOpt(old(Abs()), p)
      ensures KeepsBut(old(data), data, old(blocks), p) && Keeps(old(data), data, blocks)
    {
      ghost var h, d := Abs(), data;
      FreeOptInv(Abs(), p);
      KeepsSame(data, blocks);
      ValidWired();
      hide Pos, FreeAt, FreeOpt, Keeps, Wired, UsedExt, Good, Heap.LfreeOk, Heap.NothingLive, Heap.MayPass;
      if p.None? {
      } else if p.value < 0 || p.value >= memSize + HDR {
      } else {
        Release(p.value - HDR, Pos(blocks, p.value - HDR));
      }
      WiredValid();
      FreeKeepsOld(h, p, d, data);
    }

    /** The split branch of rt_realloc. */
    method ShrinkInPlace(mem: nat, newsize: nat, ghost i: nat)
      requires Wired() && i < |blocks| && blocks[i].off == mem && blocks[i].used
      requires 0 < newsize && newsize + HDR < blocks[i].ext <= usedMem
      modifies this`hdr, this`lfree, this`data, this`blocks, this`usedMem
      ensures Wired() && Abs() == Shrink(old(Abs()), i, newsize)
      ensures Keeps(old(data), data, blocks)
    {
      hide Heap.Inv, Chain, Tiles, Settled, Good, UsedExt, MergeRight, KeepsBut;
      ghost var m, d0 := Split(blocks, i, newsize + HDR, true, false), data;
      BackwardFacts(hdr, blocks, memSize + HDR, i);
      ShrinkAsPlug(Abs(), i, newsize);
      CoalescedUsed(m, i + 1);
      hide Keeps, Coalesce, Wired, Split, PlugLfree, Shrink;
      usedMem := usedMem - (hdr[mem].next - mem - HDR - newsize);
      CutBlock(mem, HDR + newsize, i);
      ghost var d1 := data;
      PlugHoles(mem + HDR + newsize, i + 1);
      KeepsTransitive(d0, d1, data, m, m);
      KeepsFewer(d0, data, m, blocks);
    }

    /** rt_memcpy inside the heap. */
    method CopyPayload(p: nat, q: nat, len: nat)
      requires Valid() && p + len <= |data| && q + len <= |data|
      modifies this`data
      ensures Valid() && data == CopyBytes(old(data), p, q, len)
    {
      hide CopyBytes, UsedExt, Good, Heap.LfreeOk, Heap.NothingLive, Chain;
      data := CopyBytes(data, p, q, len);
    }

    /** Copy len bytes from the live block at mem to the one at q, then free the
        former. */
    method CopyAndFree(mem: nat, q: nat, len: nat)
      requires Valid() && HoldsBoth(blocks, mem, q, len)
      modifies this`hdr, this`lfree, this`data, this`blocks, this`usedMem
      ensures Valid() && Abs() == SmallMemSpec.Free(old(Abs()), mem + HDR)
      ensures KeepsBut(old(data), data, blocks, Some(q)) && Copied(old(data), data, mem + HDR, q, len)
      ensures forall x :: x in blocks && x.used ==> x in old(blocks)
    {
      hide KeepsBut, Copied, CopyBytes, Keeps, HoldsBoth, SmallMemSpec.Free, Heap.MayPass, Heap.Inv, Chain;
      ghost var g, d := Abs(), data;
      Laid(g);
      BothInside(g, mem, q, len);
      FreeSparesOther(g, mem, q, len);
      CopySpares(g.blocks, g.End(), mem, q, len, d);
      CopyPayload(mem + HDR, q, len);
      ghost var e := data;
      Free(Some(mem + HDR));
      SpareThenFree(d, e, data, g.blocks, blocks, mem, q, len);
    }

    /** The last part of rt_realloc: allocate, copy, free. */
    method MoveTo(mem: nat, size: nat, newsize: nat, ghost b: Block) returns (r: Option<int>)
      requires Valid() && b in blocks && b == Block(mem, size + HDR, true)
      requires 0 < newsize && newsize + 3 < WORD
      modifies this`hdr, this`lfree, this`data, this`blocks, this`usedMem, this`maxMem
      ensures Valid()
      ensures (Abs(), r) == AllocCopyFree(old(Abs()), mem, newsize)
      ensures KeepsBut(old(data), data, blocks, r)
      ensures r.Some? ==> Copied(old(data), data, mem + HDR, r.value, Min(size, newsize))
    {
      ghost var h, d := Abs(), data;
      MallocHoldsBoth(h, newsize, b);
      hide Keeps, KeepsBut, Copied, HoldsBoth, SmallMemSpec.Malloc, SmallMemSpec.Free, UsedExt, Good, Heap.LfreeOk, Heap.NothingLive;
      r := Malloc(newsize);
      if r.Some? {
        ghost var e, bs := data, blocks;
        CopyAndFree(mem, r.value, Min(size, newsize));
        AllocThenMove(d, e, data, bs, blocks, mem, r.value, Min(size, newsize));
      } else {
        KeepsIsKeepsBut(d, data, blocks, r);
      }
    }

    /** The split branch of rt_realloc keeps the heap valid and the kept payload. */
    method ShrinkTo(mem: nat, newsize: nat, ghost i: nat)
      requires Valid() && i < |blocks| && blocks[i].off == mem && blocks[i].used && blocks[i].ext <= usedMem
      requires 0 < newsize && newsize % 4 == 0 && newsize + 2 * HDR + MIN < blocks[i].ext
      modifies this`hdr, this`lfree, this`data, this`blocks, this`usedMem
      ensures Valid() && Abs() == Shrink(old(Abs()), i, newsize)
      ensures KeepsBut(old(data), data, blocks, Some(mem + HDR))
      ensures Copied(old(data), data, mem + HDR, mem + HDR, newsize)
    {
      ghost var h, d := Abs(), data;
      ShrinkInv(h, i, newsize);
      Within(blocks, 0, memSize + HDR, i);
      ValidWired();
      hide Wired, Keeps, KeepsBut, Copied, Shrink, UsedExt, Good, Heap.LfreeOk, Heap.NothingLive;
      ShrinkInPlace(mem, newsize, i);
      WiredValid();
      KeepsIsKeepsBut(d, data, blocks, Some(mem + HDR));
      ShrinkCopied(h, i, newsize, d, data);
    }

    /** rt_realloc of the live block i to newsize bytes. */
    method Resize(mem: nat, newsize: nat, ghost i: nat, ghost b: Block) returns (r: Option<int>)
      requires Valid() && i < |blocks| && blocks[i] == b && b.off == mem && b.used && HDR < b.ext <= usedMem
      requires 0 < newsize && newsize % 4 == 0 && newsize + 3 < WORD
      modifies this`hdr, this`lfree, this`data, this`blocks, this`usedMem, this`maxMem
      ensures Valid()
      ensures (Abs(), r) == ResizeAt(old(Abs()), i, newsize)
      ensures KeepsBut(old(data), data, blocks, r)
      ensures r.Some? ==> Copied(old(data), data, mem + HDR, r.value, Min(b.ext - HDR, newsize))
    {
      HeaderUsed(hdr, blocks, memSize + HDR, i);
      ResizeSame(Abs(), i, data);
      assert b in blocks;
      hide Keeps, KeepsBut, Copied, Shrink, AllocCopyFree, Valid, Heap.Inv, UsedExt, Good, Heap.LfreeOk, Heap.NothingLive;
      var size := hdr[mem].next - mem - HDR;
      assert size == b.ext - HDR;
      if size == newsize {
        r := Some(mem + HDR);
      } else if newsize + HDR + MIN < size {
        ShrinkTo(mem, newsize, i);
        r := Some(mem + HDR);
      } else {
        r := MoveTo(mem, size, newsize, b);
      }
    }

    /** rt_realloc. The first min(old, new) payload bytes of the block survive
        success, and so does the payload of every other live block. */
    method Realloc(rmem: Option<int>, n: nat) returns (r: Option<int>)
      requires Valid() && n < WORD && Abs().MayPass(rmem)
      modifies this`hdr, this`lfree, this`data, this`blocks, this`usedMem, this`maxMem
      ensures Valid() && (Abs(), r) == SmallMemSpec.Realloc(old(Abs()), rmem, n)
      ensures KeepsBut(old(data), data, old(blocks), rmem) && KeepsBut(old(data), data, blocks, r)
      ensures Moved(old(Abs()), old(data), data, rmem, r, n)
    {
      ghost var h, d := Abs(), data;
      ReallocNoop(h, d, rmem, n);
      ReallocCases(h, rmem, n);
      hide Keeps, KeepsBut, Copied, SmallMemSpec.Malloc, FreeOpt, ResizeAt, Pos, Moved, Heap.Inv, Chain, Heap.MayPass, SmallMemSpec.Realloc;
      var newsize := AlignUp(n);
      if newsize > memSize {
        r := None;
      } else if newsize == 0 {
        Free(rmem);
        KeepsIsKeepsBut(d, data, blocks, None);
        MovedNone(h, d, data, rmem, None, n);
        r := None;
      } else if rmem.None? {
        r := Malloc(newsize);
        KeepsIsKeepsBut(d, data, blocks, r);
        MovedNone(h, d, data, rmem, r, n);
      } else if rmem.value < 0 || rmem.value >= memSize + HDR {
        r := rmem;
      } else {
        ghost var i := Pos(blocks, rmem.value - HDR);
        r := Resize(rmem.value - HDR, newsize, i, blocks[i]);
        MovedResize(h, d, data, rmem, r, n);
      }
      ReallocKeepsOld(h, rmem, n, d, data);
    }
  }
}
