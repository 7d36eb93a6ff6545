/** Headers of mem.c as records at byte offsets: how the linked records spell out
    a tiling, what each group of stores does to it, and why no store of a header
    touches the payload of a live block. */
module SmallMemHeaders {
  import opened Machine
  import opened Tiling
  import opened SmallMemSpec
  import opened SmallMemTheory

  type Byte = b: int | 0 <= b < 256

  /** struct heap_mem without its magic number. */
  datatype Header = Header(used: bool, next: nat, prev: nat)

  type Headers = map<nat, Header>

  // ------------------------------------------------------------ headers

  /** The linked headers spell out the tiling bs, ended by the sentinel. The
      sentinel's own prev is never read, and splits do not maintain it. */
  ghost predicate Chain(hdr: Headers, bs: seq<Block>, end: nat) {
    && end in hdr && hdr[end].used && hdr[end].next == end
    && forall i :: 0 <= i < |bs| ==> Linked(hdr, bs, i)
  }

  ghost predicate Linked(hdr: Headers, bs: seq<Block>, i: int)
    requires 0 <= i < |bs|
  {
    && bs[i].off in hdr
    && hdr[bs[i].off] == Header(bs[i].used, bs[i].End(), if i == 0 then bs[0].off else bs[i - 1].off)
  }

  function SetPrev(hdr: Headers, at: nat, p: nat): Headers
    requires at in hdr
  {
    hdr[at := hdr[at].(prev := p)]
  }

  lemma {:induction false} ChainNext(hdr: Headers, bs: seq<Block>, end: nat, i: nat)
    requires Chain(hdr, bs, end) && Tiles(bs, 0, end) && i < |bs|
    ensures bs[i].End() in hdr
    ensures bs[i].End() == (if i + 1 < |bs| then bs[i + 1].off else end)
  {
    if i + 1 < |bs| { assert Linked(hdr, bs, i + 1) && Abut(bs, i); }
  }

  lemma {:induction false} ChainMark(hdr: Headers, bs: seq<Block>, end: nat, i: nat, u: bool)
    requires Chain(hdr, bs, end) && Tiles(bs, 0, end) && i < |bs| && bs[i].off in hdr
    ensures Chain(hdr[bs[i].off := hdr[bs[i].off].(used := u)], Mark(bs, i, u), end)
  {
    var h := hdr[bs[i].off := hdr[bs[i].off].(used := u)];
    Within(bs, 0, end, i);
    forall k | 0 <= k < |bs| ensures Linked(h, Mark(bs, i, u), k) {
      assert Linked(hdr, bs, k);
      Sides(bs, 0, end, i, k);
    }
  }

  /** The two stores with which plug_holes joins block i to its right neighbour. */
  lemma {:induction false} ChainMerge(hdr: Headers, bs: seq<Block>, end: nat, i: nat)
    requires Chain(hdr, bs, end) && Tiles(bs, 0, end) && i + 1 < |bs|
    requires bs[i].off in hdr && bs[i + 1].End() in hdr
    ensures Chain(SetPrev(hdr[bs[i].off := hdr[bs[i].off].(next := bs[i + 1].End())], bs[i + 1].End(), bs[i].off),
                  Merge(bs, i), end)
  {
    var r := Merge(bs, i);
    var h := SetPrev(hdr[bs[i].off := hdr[bs[i].off].(next := bs[i + 1].End())], bs[i + 1].End(), bs[i].off);
    assert Linked(hdr, bs, i) && Linked(hdr, bs, i + 1) && Abut(bs, i);
    Within(bs, 0, end, i + 1);
    Sides(bs, 0, end, i, i + 1);
    forall k | 0 <= k < |r| ensures Linked(h, r, k) {
      if k < i {
        assert Linked(hdr, bs, k);
        Sides(bs, 0, end, i, k);
      } else if k > i {
        assert Linked(hdr, bs, k + 1);
        Sides(bs, 0, end, i + 1, k + 1);
        if k == i + 1 { assert Abut(bs, i + 1); } else { assert Abut(bs, i + 1); Sides(bs, 0, end, i + 2, k + 1); }
      }
    }
  }

  /** The stores with which rt_malloc and rt_realloc cut block i after e bytes. */
  function SplitHeaders(hdr: Headers, at: nat, e: nat, end: nat): Headers
    requires at in hdr && hdr[at].next in hdr
  {
    var next := hdr[at].next;
    var h := hdr[at + e := Header(false, next, at)][at := Header(true, at + e, hdr[at].prev)];
    if next != end then SetPrev(h, next, at + e) else h
  }

  lemma {:induction false} SplitAt(bs: seq<Block>, i: nat, e: nat, k: nat)
    requires i < |bs| && 0 < e < bs[i].ext && k <= |bs|
    ensures var r := Split(bs, i, e, true, false);
      && |r| == |bs| + 1
      && (k < i ==> r[k] == bs[k])
      && (k > i + 1 ==> r[k] == bs[k - 1])
      && r[i] == Block(bs[i].off, e, true) && r[i + 1] == Block(bs[i].off + e, bs[i].ext - e, false)
  {
  }

  lemma {:induction false} ChainSplit(hdr: Headers, bs: seq<Block>, end: nat, i: nat, e: nat)
    requires Chain(hdr, bs, end) && Tiles(bs, 0, end) && i < |bs| && 0 < e < bs[i].ext
    requires bs[i].off in hdr && hdr[bs[i].off].next in hdr
    ensures Chain(SplitHeaders(hdr, bs[i].off, e, end), Split(bs, i, e, true, false), end)
  {
    hide Split;
    var r := Split(bs, i, e, true, false);
    var h := SplitHeaders(hdr, bs[i].off, e, end);
    assert Linked(hdr, bs, i);
    ChainNext(hdr, bs, end, i);
    Within(bs, 0, end, i);
    SplitAt(bs, i, e, i);
    forall k | 0 <= k < |r| ensures Linked(h, r, k) {
      SplitAt(bs, i, e, k);
      if k > 0 { SplitAt(bs, i, e, k - 1); }
      if k < i {
        assert Linked(hdr, bs, k);
        Sides(bs, 0, end, i, k);
      } else if k == i + 2 {
        assert Linked(hdr, bs, i + 1);
        assert Abut(bs, i);
        Within(bs, 0, end, i + 1);
      } else if k > i + 2 {
        assert Linked(hdr, bs, k - 1) && Abut(bs, i);
        Sides(bs, 0, end, i + 1, k - 1);
      }
    }
  }

  // ------------------------------------------------------------ payload

  /** Bytes of the heap once a header has been stored at off. */
  function Clobber(d: seq<Byte>, off: nat): (r: seq<Byte>)
    requires off + HDR <= |d|
    ensures |r| == |d|
    ensures forall k :: 0 <= k < |d| && (k < off || off + HDR <= k) ==> r[k] == d[k]
  {
    seq(|d|, k requires 0 <= k < |d| => if off <= k < off + HDR then 0 else d[k])
  }

  /** Every live block of bs has the same payload in d and e. */
  ghost predicate Keeps(d: seq<Byte>, e: seq<Byte>, bs: seq<Block>) {
    && |d| == |e|
    && forall b, k :: b in bs && b.used && b.off + HDR <= k < b.End() && k < |d| ==> e[k] == d[k]
  }

  /** Storing at a header's place touches no payload. */
  lemma {:induction false} ClobberKeeps(d: seq<Byte>, e: seq<Byte>, bs: seq<Block>, end: nat, off: nat)
    requires Keeps(d, e, bs) && Tiles(bs, 0, end) && |d| == end + HDR
    requires off == end || exists i :: 0 <= i < |bs| && bs[i].off == off
    ensures off + HDR <= |e| && Keeps(d, Clobber(e, off), bs)
  {
    if off != end {
      var i: nat :| i < |bs| && bs[i].off == off;
      Within(bs, 0, end, i);
    }
    forall b, k | b in bs && b.used && b.off + HDR <= k < b.End() && k < |d| ensures Clobber(e, off)[k] == d[k] {
      var j: nat :| j < |bs| && bs[j] == b;
      Within(bs, 0, end, j);
      if off != end {
        var i: nat :| i < |bs| && bs[i].off == off;
        Sides(bs, 0, end, i, j);
      }
    }
  }

  lemma {:induction false} KeepsSame(d: seq<Byte>, bs: seq<Block>)
    ensures Keeps(d, d, bs)
  {
  }

  lemma {:induction false} KeepsTransitive(d: seq<Byte>, e: seq<Byte>, f: seq<Byte>, bs: seq<Block>, a: seq<Block>)
    requires Keeps(d, e, bs) && Keeps(e, f, a) && forall b :: b in bs && b.used ==> b in a
    ensures Keeps(d, f, bs)
  {
  }

  /** What the code reads when it looks at the block after i. */
  lemma {:induction false} ForwardFacts(hdr: Headers, bs: seq<Block>, end: nat, i: nat)
    requires Chain(hdr, bs, end) && Tiles(bs, 0, end) && i < |bs|
    ensures var m := bs[i].off;
      && m in hdr && hdr[m].next in hdr && hdr[m].next != m
      && (!hdr[hdr[m].next].used && hdr[m].next != end <==> i + 1 < |bs| && !bs[i + 1].used)
      && (i + 1 < |bs| ==>
            && hdr[m].next == bs[i + 1].off && m != bs[i + 1].End()
            && hdr[bs[i + 1].off].next == bs[i + 1].End() && bs[i + 1].End() in hdr)
  {
    Within(bs, 0, end, i);
    assert Linked(hdr, bs, i) && bs[i].ext > 0;
    ChainNext(hdr, bs, end, i);
    if i + 1 < |bs| {
      assert Linked(hdr, bs, i + 1);
      ChainNext(hdr, bs, end, i + 1);
      Within(bs, 0, end, i + 1);
      Sides(bs, 0, end, i, i + 1);
    }
  }

  /** What the code reads when it looks at the block before i. */
  lemma {:induction false} BackwardFacts(hdr: Headers, bs: seq<Block>, end: nat, i: nat)
    requires Chain(hdr, bs, end) && Tiles(bs, 0, end) && i < |bs|
    ensures var m := bs[i].off;
      && m in hdr && hdr[m].prev in hdr && hdr[m].next == bs[i].End() && bs[i].End() in hdr
      && (hdr[m].prev != m && !hdr[hdr[m].prev].used <==> i > 0 && !bs[i - 1].used)
      && (i > 0 ==> hdr[m].prev == bs[i - 1].off && bs[i - 1].off != m && bs[i - 1].off != bs[i].End())
  {
    assert Linked(hdr, bs, i) && bs[i].ext > 0;
    ChainNext(hdr, bs, end, i);
    if i > 0 { assert Linked(hdr, bs, i - 1); Sides(bs, 0, end, i, i - 1); }
  }

  /** The two stores of a join touch no payload. */
  lemma {:induction false} JoinKeeps(d: seq<Byte>, bs: seq<Block>, end: nat, i: nat)
    requires Tiles(bs, 0, end) && |d| == end + HDR && i + 1 < |bs|
    ensures bs[i].off + HDR <= |d| && bs[i + 1].End() + HDR <= |d|
    ensures Keeps(d, Clobber(Clobber(d, bs[i].off), bs[i + 1].End()), bs)
  {
    Within(bs, 0, end, i);
    Within(bs, 0, end, i + 1);
    if i + 2 < |bs| { assert Abut(bs, i + 1); }
    hide Keeps, Clobber;
    KeepsSame(d, bs);
    ClobberKeeps(d, d, bs, end, bs[i].off);
    ClobberKeeps(d, Clobber(d, bs[i].off), bs, end, bs[i + 1].End());
  }

  /** Joining free blocks loses no live one. */
  lemma {:induction false} RightKeepsUsed(bs: seq<Block>, i: nat)
    requires i < |bs| && !bs[i].used
    ensures forall b :: b in bs && b.used ==> b in MergeRight(bs, i)
  {
    if i + 1 < |bs| && !bs[i + 1].used {
      CutPair(bs, i);
      forall b | b in bs && b.used ensures b in Merge(bs, i) {
        assert b in bs[..i] || b in bs[i + 2..];
      }
    }
  }

  lemma {:induction false} TakeForms(bs: seq<Block>, i: nat, size: nat)
    requires i < |bs| && bs[i].ext >= size + HDR
    ensures var r := Take(bs, i, size);
      && r[i].off == bs[i].off
      && (bs[i].ext >= size + 2 * HDR + MIN ==>
            r == Split(bs, i, size + HDR, true, false) && r[i].ext == size + HDR)
      && (bs[i].ext < size + 2 * HDR + MIN ==> r == Mark(bs, i, true) && r[i].ext == bs[i].ext)
  {
  }

  lemma {:induction false} HeaderUsed(hdr: Headers, bs: seq<Block>, end: nat, i: nat)
    requires Chain(hdr, bs, end) && i < |bs|
    ensures bs[i].off in hdr && hdr[bs[i].off].used == bs[i].used && hdr[bs[i].off].next == bs[i].End()
  {
    assert Linked(hdr, bs, i);
  }

  lemma {:induction false} LfreePos(h: Heap)
    requires h.Inv()
    ensures var k := Pos(h.blocks, h.lfree); h.lfree == if k < |h.blocks| then h.blocks[k].off else h.End()
  {
    if h.lfree != h.End() && Pos(h.blocks, h.lfree) == |h.blocks| { PosMissing(h.blocks, h.lfree); }
  }

  lemma {:induction false} SplitPlaces(bs: seq<Block>, end: nat, i: nat, e: nat)
    requires Tiles(bs, 0, end) && i < |bs| && 0 < e < bs[i].ext
    ensures var r := Split(bs, i, e, true, false);
      && Tiles(r, 0, end) && i + 1 < |r|
      && r[i].off == bs[i].off && r[i + 1].off == bs[i].off + e
      && (bs[i].End() == end || (i + 2 < |r| && r[i + 2].off == bs[i].End()))
  {
    SplitTiles(bs, i, e, true, false, 0, end);
    var r := Split(bs, i, e, true, false);
    if i + 1 < |bs| { assert r[i + 2] == bs[i + 1] && Abut(bs, i); }
  }

  /** The stores of a split touch no payload of the blocks it leaves. */
  lemma {:induction false} SplitKeeps(d: seq<Byte>, bs: seq<Block>, end: nat, i: nat, e: nat)
    requires Tiles(bs, 0, end) && |d| == end + HDR && i < |bs| && 0 < e < bs[i].ext
    ensures var r := Split(bs, i, e, true, false);
      var p := bs[i].off;
      && p + e + HDR <= |d| && bs[i].End() + HDR <= |d|
      && Keeps(d, Clobber(Clobber(d, p + e), p), r)
      && Keeps(d, Clobber(Clobber(Clobber(d, p + e), p), bs[i].End()), r)
  {
    var r := Split(bs, i, e, true, false);
    var p := bs[i].off;
    SplitPlaces(bs, end, i, e);
    hide Split, Clobber, Tiles, Keeps;
    KeepsSame(d, r);
    ClobberKeeps(d, d, r, end, p + e);
    ClobberKeeps(d, Clobber(d, p + e), r, end, p);
    ClobberKeeps(d, Clobber(Clobber(d, p + e), p), r, end, bs[i].End());
  }

  lemma {:induction false} CoalescedUsed(bs: seq<Block>, i: nat)
    requires i < |bs| && !bs[i].used
    ensures forall b :: b in Coalesce(bs, i) && b.used ==> b in bs
  {
    CoalesceLive(bs, i);
    forall b | b in Coalesce(bs, i) && b.used ensures b in bs {
      LiveMember(bs, b);
      LiveMember(Coalesce(bs, i), b);
    }
  }

  lemma {:induction false} KeepsFewer(d: seq<Byte>, e: seq<Byte>, bs: seq<Block>, a: seq<Block>)
    requires Keeps(d, e, bs) && forall b :: b in a && b.used ==> b in bs
    ensures Keeps(d, e, a)
  {
  }

  // ------------------------------------------------------------ copying

  /** Keeps, except for the block whose payload starts at r. */
  ghost predicate KeepsBut(d: seq<Byte>, e: seq<Byte>, bs: seq<Block>, r: Option<int>) {
    && |d| == |e|
    && forall b, k :: b in bs && b.used && r != Some(b.off + HDR) && b.off + HDR <= k < b.End() && k < |d| ==> e[k] == d[k]
  }

  /** The len bytes at p in d are the len bytes at q in e. */
  ghost predicate Copied(d: seq<Byte>, e: seq<Byte>, p: int, q: int, len: int) {
    && 0 <= p && 0 <= q && 0 <= len && p + len <= |d| && q + len <= |e|
    && forall k :: q <= k < q + len ==> e[k] == d[p + (k - q)]
  }

  function CopyBytes(d: seq<Byte>, p: nat, q: nat, len: nat): (e: seq<Byte>)
    requires p + len <= |d| && q + len <= |d|
    ensures |e| == |d| && Copied(d, e, p, q, len)
    ensures forall k :: 0 <= k < |d| && (k < q || q + len <= k) ==> e[k] == d[k]
  {
    seq(|d|, k requires 0 <= k < |d| => if q <= k < q + len then d[p + (k - q)] else d[k])
  }

  lemma {:induction false} KeepsIsKeepsBut(d: seq<Byte>, e: seq<Byte>, bs: seq<Block>, r: Option<int>)
    requires Keeps(d, e, bs)
    ensures KeepsBut(d, e, bs, r)
  {
  }

  /** Distinct live blocks at mem and, by payload pointer, at q, both with room
      for len bytes. */
  ghost predicate HoldsBoth(bs: seq<Block>, mem: nat, q: int, len: nat) {
    && q != mem + HDR
    && (exists b :: b in bs && b.used && b.off == mem && b.ext >= len + HDR)
    && (exists c :: c in bs && c.used && c.off + HDR == q && c.ext >= len + HDR)
  }

  lemma {:induction false} MallocHoldsBoth(h: Heap, n: nat, b: Block)
    requires h.Inv() && b in h.blocks && b.used && b.ext >= HDR && 0 < n && n + 3 < WORD
    ensures Malloc(h, n).1.Some? ==>
      && 0 <= Malloc(h, n).1.value
      && HoldsBoth(Malloc(h, n).0.blocks, b.off, Malloc(h, n).1.value, Min(b.ext - HDR, n))
  {
    hide SmallMemSpec.Malloc, Heap.Inv;
    if Malloc(h, n).1.Some? {
      BothLive(h, n, b);
    }
  }

  /** Both payloads lie inside the heap. */
  lemma {:induction false} BothInside(g: Heap, mem: nat, q: int, len: nat)
    requires g.Inv() && HoldsBoth(g.blocks, mem, q, len)
    ensures mem + HDR + len <= g.End() && 0 <= q && q + len <= g.End() && g.MayPass(Some(mem + HDR))
  {
    var b :| b in g.blocks && b.used && b.off == mem && b.ext >= len + HDR;
    var c :| c in g.blocks && c.used && c.off + HDR == q && c.ext >= len + HDR;
    var i: nat :| i < |g.blocks| && g.blocks[i] == b;
    var j: nat :| j < |g.blocks| && g.blocks[j] == c;
    Within(g.blocks, 0, g.End(), i);
    Within(g.blocks, 0, g.End(), j);
  }

  /** Two live blocks of one tiling do not share payload. */
  lemma {:induction false} Disjoint(bs: seq<Block>, end: nat, b: Block, c: Block)
    requires Tiles(bs, 0, end) && b in bs && c in bs && b.off != c.off
    ensures b.End() <= c.off || c.End() <= b.off
  {
    var i: nat :| i < |bs| && bs[i] == b;
    var j: nat :| j < |bs| && bs[j] == c;
    Sides(bs, 0, end, i, j);
  }

  /** A copy into q's block touches no other live payload. */
  lemma {:induction false} CopySpares(bs: seq<Block>, end: nat, mem: nat, q: nat, len: nat, d: seq<Byte>)
    requires Tiles(bs, 0, end) && HoldsBoth(bs, mem, q, len)
    requires |d| == end + HDR && mem + HDR + len <= |d| && q + len <= |d|
    ensures KeepsBut(d, CopyBytes(d, mem + HDR, q, len), bs, Some(q))
  {
    var e := CopyBytes(d, mem + HDR, q, len);
    var c :| c in bs && c.used && c.off + HDR == q && c.ext >= len + HDR;
    forall x, k | x in bs && x.used && Some(q) != Some(x.off + HDR) && x.off + HDR <= k < x.End() && k < |d|
      ensures e[k] == d[k]
    {
      Disjoint(bs, end, x, c);
    }
  }

  /** rt_free of the block at mem leaves q's block and brings no new live one. */
  lemma {:induction false} FreeSparesOther(g: Heap, mem: nat, q: int, len: nat)
    requires g.Inv() && HoldsBoth(g.blocks, mem, q, len)
    ensures var f := SmallMemSpec.Free(g, mem + HDR).blocks;
      && (forall x :: x in f && x.used ==> x in g.blocks)
      && (exists c :: c in f && c.used && c.off + HDR == q && c.ext >= len + HDR)
  {
    var b :| b in g.blocks && b.used && b.off == mem && b.ext >= len + HDR;
    var c :| c in g.blocks && c.used && c.off + HDR == q && c.ext >= len + HDR;
    FreeMembers(g, b);
  }

  lemma {:induction false} SpareThenFree(d: seq<Byte>, e: seq<Byte>, f: seq<Byte>, bs: seq<Block>, cs: seq<Block>,
      mem: nat, q: nat, len: nat)
    requires KeepsBut(d, e, bs, Some(q)) && Keeps(e, f, cs)
    requires mem + HDR + len <= |d| && q + len <= |d| && e == CopyBytes(d, mem + HDR, q, len)
    requires forall x :: x in cs && x.used ==> x in bs
    requires exists c :: c in cs && c.used && c.off + HDR == q && c.ext >= len + HDR
    ensures KeepsBut(d, f, cs, Some(q)) && Copied(d, f, mem + HDR, q, len)
  {
    var c :| c in cs && c.used && c.off + HDR == q && c.ext >= len + HDR;
    assert forall k :: q <= k < q + len ==> f[k] == e[k];
  }

  /** Composition of rt_malloc's effect on the bytes with the move. */
  lemma {:induction false} AllocThenMove(d: seq<Byte>, e: seq<Byte>, f: seq<Byte>, bs: seq<Block>, cs: seq<Block>,
      mem: nat, q: nat, len: nat)
    requires Keeps(d, e, bs) && KeepsBut(e, f, cs, Some(q)) && Copied(e, f, mem + HDR, q, len)
    requires forall x :: x in cs && x.used ==> x in bs
    requires HoldsBoth(bs, mem, q, len)
    ensures KeepsBut(d, f, cs, Some(q)) && Copied(d, f, mem + HDR, q, len)
  {
    var p := mem + HDR;
    var b :| b in bs && b.used && b.off == mem && b.ext >= len + HDR;
    assert forall k :: p <= k < p + len ==> e[k] == d[k];
  }

  /** The kept part of a shrunk block is unchanged. */
  lemma {:induction false} ShrinkCopied(h: Heap, i: nat, ns: nat, d: seq<Byte>, e: seq<Byte>)
    requires i < |h.blocks| && h.blocks[i].used && 0 < ns && ns + HDR < h.blocks[i].ext <= h.used
    requires h.blocks[i].End() <= |d| && Keeps(d, e, Shrink(h, i, ns).blocks)
    ensures Copied(d, e, h.blocks[i].off + HDR, h.blocks[i].off + HDR, ns)
  {
    var p := h.blocks[i].off + HDR;
    ShrinkKeeps(h.blocks, i, ns + HDR);
    var b := Block(h.blocks[i].off, ns + HDR, true);
    assert b in Shrink(h, i, ns).blocks;
    assert forall k :: p <= k < p + ns ==> e[k] == d[k];
  }

  /** What rt_realloc owes the caller's bytes: min(old, new) of them arrive. */
  ghost predicate Moved(h: Heap, d: seq<Byte>, e: seq<Byte>, rmem: Option<int>, r: Option<int>, n: nat) {
    rmem.Some? && r.Some? && h.IsLive(rmem.value) ==>
      var i := Pos(h.blocks, rmem.value - HDR);
      i < |h.blocks| && Copied(d, e, rmem.value, r.value, Min(Max(h.blocks[i].ext, HDR) - HDR, AlignUp(n)))
  }

  lemma {:induction false} MovedNone(h: Heap, d: seq<Byte>, e: seq<Byte>, rmem: Option<int>, r: Option<int>, n: nat)
    requires rmem.None? || r.None? || !h.IsLive(rmem.value)
    ensures Moved(h, d, e, rmem, r, n)
  {
  }

  lemma {:induction false} MovedResize(h: Heap, d: seq<Byte>, e: seq<Byte>, rmem: Option<int>, r: Option<int>, n: nat)
    requires rmem.Some?
    requires var i := Pos(h.blocks, rmem.value - HDR);
      i < |h.blocks| && HDR < h.blocks[i].ext &&
      (r.Some? ==> Copied(d, e, h.blocks[i].off + HDR, r.value, Min(h.blocks[i].ext - HDR, AlignUp(n))))
    ensures Moved(h, d, e, rmem, r, n)
  {
  }

  /** The calls of rt_realloc that change nothing owe nothing. */
  lemma {:induction false} ReallocNoop(h: Heap, d: seq<Byte>, rmem: Option<int>, n: nat)
    requires h.Inv()
    ensures KeepsBut(d, d, h.blocks, None) && KeepsBut(d, d, h.blocks, rmem)
    ensures Moved(h, d, d, rmem, None, n)
    ensures rmem.Some? && (rmem.value < 0 || rmem.value >= h.End()) ==> Moved(h, d, d, rmem, rmem, n)
  {
    if rmem.Some? && h.IsLive(rmem.value) { PosLive(h, rmem.value); }
  }

  /** rt_realloc case by case; the last case names a live block. */
  lemma {:induction false} ReallocCases(h: Heap, rmem: Option<int>, n: nat)
    requires h.Inv() && n < WORD && h.MayPass(rmem)
    ensures var ns := AlignUp(n);
      if ns > h.size then Realloc(h, rmem, n) == (h, None)
      else if ns == 0 then Realloc(h, rmem, n) == (FreeOpt(h, rmem), None)
      else if rmem.None? then Realloc(h, rmem, n) == SmallMemSpec.Malloc(h, ns)
      else if rmem.value < 0 || rmem.value >= h.End() then Realloc(h, rmem, n) == (h, rmem)
      else
        var i := Pos(h.blocks, rmem.value - HDR);
        && ns + 3 < WORD && HDR <= rmem.value
        && i < |h.blocks| && h.blocks[i].off == rmem.value - HDR && h.blocks[i].used && HDR < h.blocks[i].ext <= h.used
        && Realloc(h, rmem, n) == ResizeAt(h, i, ns)
  {
    if rmem.Some? && h.IsLive(rmem.value) { PosLive(h, rmem.value); }
    hide ResizeAt, SmallMemSpec.Malloc, FreeOpt, Pos, UsedExt, Good, Heap.LfreeOk, Heap.NothingLive;
  }

  /** rt_realloc to the size the block already has. */
  lemma {:induction false} ResizeSame(h: Heap, i: nat, d: seq<Byte>)
    requires h.Inv() && i < |h.blocks| && h.blocks[i].ext > HDR && |d| == h.size + 2 * HDR
    ensures var p := h.blocks[i].off + HDR;
      KeepsBut(d, d, h.blocks, Some(p)) && Copied(d, d, p, p, h.blocks[i].ext - HDR)
  {
    Within(h.blocks, 0, h.End(), i);
  }

  // ------------------------------------------------------------ the payload of blocks live before

  /** Bytes kept for the blocks live afterwards are kept for those live before, if
      those stay. */
  lemma {:induction false} OldKept(h: Heap, g: Heap, gone: Option<int>, r: Option<int>, d: seq<Byte>, e: seq<Byte>)
    requires OthersStay(h, g, gone, r) && KeepsBut(d, e, g.blocks, r)
    ensures KeepsBut(d, e, h.blocks, gone)
  {
  }

  /** rt_realloc touches no byte of a block that was live before, except the one
      it was called for. */
  lemma {:induction false} ReallocKeepsOld(h: Heap, p: Option<int>, n: nat, d: seq<Byte>, e: seq<Byte>)
    requires h.Inv() && n < WORD && h.MayPass(p)
    requires var (g, r) := Realloc(h, p, n); KeepsBut(d, e, g.blocks, r)
    ensures KeepsBut(d, e, h.blocks, p)
  {
    var (g, r) := Realloc(h, p, n);
    hide Realloc, OthersStay, HasRoom, Heap.Inv, Heap.IsLive, Heap.MayPass, KeepsBut, AlignUp;
    ReallocResult(h, p, n);
    if r.None? && g == h {
      KeepsMore(d, e, h.blocks, p);
    } else if g != h || r != p {
      OldKept(h, g, p, r, d, e);
    }
  }

  lemma {:induction false} KeepsMore(d: seq<Byte>, e: seq<Byte>, bs: seq<Block>, p: Option<int>)
    requires KeepsBut(d, e, bs, None)
    ensures KeepsBut(d, e, bs, p)
  {
  }

  lemma {:induction false} MallocKeepsOld(h: Heap, n: nat, d: seq<Byte>, e: seq<Byte>)
    requires h.Inv() && Keeps(d, e, SmallMemSpec.Malloc(h, n).0.blocks)
    ensures Keeps(d, e, h.blocks)
  {
    hide SmallMemSpec.Malloc, Heap.Inv;
    MallocOthers(h, n);
  }

  lemma {:induction false} FreeKeepsOld(h: Heap, p: Option<int>, d: seq<Byte>, e: seq<Byte>)
    requires h.Inv() && h.MayPass(p) && Keeps(d, e, FreeOpt(h, p).blocks)
    ensures KeepsBut(d, e, h.blocks, p)
  {
    hide FreeOpt, Heap.Inv, Heap.MayPass;
    FreeOthers(h, p);
  }
}
