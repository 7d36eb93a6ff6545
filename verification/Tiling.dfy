/** Address-ordered tilings of an interval by used and free blocks.

    Both in-band heaps of the kernel keep such a tiling: the byte heap of mem.c
    as the `next` chain from offset 0, and memheap.c as its circular block list.
    The central result is Canonical: a tiling without adjacent free blocks is
    determined by its used blocks alone. */
module Tiling {
  import opened Machine

  datatype Block = Block(off: nat, ext: nat, used: bool) {
    function End(): nat { off + ext }
  }

  /** Block i ends where its right neighbour starts. */
  ghost predicate Abut(bs: seq<Block>, i: int)
    requires 0 <= i < |bs| - 1
  {
    bs[i].End() == bs[i + 1].off
  }

  /** Block i and its right neighbour are not both free. */
  ghost predicate Apart(bs: seq<Block>, i: int)
    requires 0 <= i < |bs| - 1
  {
    bs[i].used || bs[i + 1].used
  }

  /** bs covers [lo, hi) with non-empty blocks, each starting where the last ended. */
  ghost predicate Tiles(bs: seq<Block>, lo: nat, hi: nat) {
    && (|bs| == 0 ==> lo == hi)
    && (|bs| > 0 ==> bs[0].off == lo && bs[|bs| - 1].End() == hi)
    && (forall i :: 0 <= i < |bs| ==> bs[i].ext > 0)
    && (forall i :: 0 <= i < |bs| - 1 ==> Abut(bs, i))
  }

  /** No two address neighbours are both free. */
  ghost predicate Settled(bs: seq<Block>) {
    forall i :: 0 <= i < |bs| - 1 ==> Apart(bs, i)
  }

  lemma {:induction false} Ordered(bs: seq<Block>, lo: nat, hi: nat, i: nat, j: nat)
    requires Tiles(bs, lo, hi) && i < j < |bs|
    ensures bs[i].End() <= bs[j].off
    decreases j - i
  {
    if i + 1 < j {
      Ordered(bs, lo, hi, i + 1, j);
    }
    assert Abut(bs, i);
  }

  lemma {:induction false} OrderedAll(bs: seq<Block>, lo: nat, hi: nat)
    requires Tiles(bs, lo, hi)
    ensures forall i, j :: 0 <= i < j < |bs| ==> bs[i].End() <= bs[j].off
    ensures forall i :: 0 <= i < |bs| ==> lo <= bs[i].off && bs[i].End() <= hi
  {
    forall i, j | 0 <= i < j < |bs| ensures bs[i].End() <= bs[j].off {
      Ordered(bs, lo, hi, i, j);
    }
    forall i | 0 <= i < |bs| ensures lo <= bs[i].off && bs[i].End() <= hi {
      if i > 0 { Ordered(bs, lo, hi, 0, i); }
      if i < |bs| - 1 { Ordered(bs, lo, hi, i, |bs| - 1); }
    }
  }

  lemma {:induction false} Within(bs: seq<Block>, lo: nat, hi: nat, i: nat)
    requires Tiles(bs, lo, hi) && i < |bs|
    ensures lo <= bs[i].off && bs[i].End() <= hi
  {
    OrderedAll(bs, lo, hi);
  }

  /** Where block k lies relative to block i. */
  lemma {:induction false} Sides(bs: seq<Block>, lo: nat, hi: nat, i: nat, k: nat)
    requires Tiles(bs, lo, hi) && i < |bs| && k < |bs|
    ensures k < i ==> bs[k].End() <= bs[i].off
    ensures i < k ==> bs[i].End() <= bs[k].off
    ensures bs[i].ext > 0 && bs[k].ext > 0
  {
    if k < i { Ordered(bs, lo, hi, k, i); }
    if i < k { Ordered(bs, lo, hi, i, k); }
  }

  // ------------------------------------------------------------ the edits

  /** Cut block i after e bytes: the first part gets flag u, the rest flag v. */
  function Split(bs: seq<Block>, i: nat, e: nat, u: bool, v: bool): seq<Block>
    requires i < |bs| && 0 < e < bs[i].ext
  {
    bs[..i] + [Block(bs[i].off, e, u), Block(bs[i].off + e, bs[i].ext - e, v)] + bs[i + 1..]
  }

  /** Join block i with its right neighbour; block i's flag survives. */
  function Merge(bs: seq<Block>, i: nat): seq<Block>
    requires i + 1 < |bs|
  {
    bs[..i] + [Block(bs[i].off, bs[i].ext + bs[i + 1].ext, bs[i].used)] + bs[i + 2..]
  }

  function MergeRight(bs: seq<Block>, i: nat): (r: seq<Block>)
    requires i < |bs|
    ensures i < |r|
  {
    if i + 1 < |bs| && !bs[i + 1].used then Merge(bs, i) else bs
  }

  function MergeLeft(bs: seq<Block>, i: nat): seq<Block>
    requires i < |bs|
  {
    if i > 0 && !bs[i - 1].used then Merge(bs, i - 1) else bs
  }

  /** Join the free block i with whichever neighbours are free, right one first. */
  function Coalesce(bs: seq<Block>, i: nat): seq<Block>
    requires i < |bs|
  {
    MergeLeft(MergeRight(bs, i), i)
  }

  function Mark(bs: seq<Block>, i: nat, u: bool): seq<Block>
    requires i < |bs|
  {
    bs[i := bs[i].(used := u)]
  }

  lemma {:induction false} CutPair(bs: seq<Block>, i: nat)
    requires i + 1 < |bs|
    ensures bs == bs[..i] + [bs[i], bs[i + 1]] + bs[i + 2..]
  {
  }

  lemma {:induction false} SplitTiles(bs: seq<Block>, i: nat, e: nat, u: bool, v: bool, lo: nat, hi: nat)
    requires Tiles(bs, lo, hi) && i < |bs| && 0 < e < bs[i].ext
    ensures Tiles(Split(bs, i, e, u, v), lo, hi)
  {
    var r := Split(bs, i, e, u, v);
    forall k | 0 <= k < |r| - 1 ensures Abut(r, k) {
      if k < i { assert Abut(bs, k); }
      else if k > i {
        assert Abut(bs, k - 1);
        assert r[k].End() == bs[k - 1].End() && r[k + 1] == bs[k];
      }
    }
  }

  lemma {:induction false} MergeTiles(bs: seq<Block>, i: nat, lo: nat, hi: nat)
    requires Tiles(bs, lo, hi) && i + 1 < |bs|
    ensures Tiles(Merge(bs, i), lo, hi)
  {
    var r := Merge(bs, i);
    assert Abut(bs, i);
    forall k | 0 <= k < |r| - 1 ensures Abut(r, k) {
      if k < i { assert Abut(bs, k); }
      else { assert Abut(bs, k + 1); assert r[k].End() == bs[k + 1].End() && r[k + 1] == bs[k + 2]; }
    }
  }

  lemma {:induction false} CoalesceTiles(bs: seq<Block>, i: nat, lo: nat, hi: nat)
    requires Tiles(bs, lo, hi) && i < |bs|
    ensures Tiles(Coalesce(bs, i), lo, hi)
  {
    var r := MergeRight(bs, i);
    if i + 1 < |bs| && !bs[i + 1].used { MergeTiles(bs, i, lo, hi); }
    if i > 0 && !r[i - 1].used { MergeTiles(r, i - 1, lo, hi); }
  }

  /** Free neighbours away from block i are the only ones a coalesce has to fear. */
  ghost predicate SettledBut(bs: seq<Block>, i: nat) {
    forall k :: 0 <= k < |bs| - 1 && k != i && k + 1 != i ==> Apart(bs, k)
  }

  /** Coalescing at i repairs a tiling in which only block i may touch free
      neighbours. */
  lemma {:induction false} CoalesceSettles(bs: seq<Block>, i: nat)
    requires i < |bs| && !bs[i].used && SettledBut(bs, i)
    ensures Settled(Coalesce(bs, i))
  {
    MergeRightSettles(bs, i);
    MergeLeftSettles(MergeRight(bs, i), i);
  }

  lemma {:induction false} MergeRightSettles(bs: seq<Block>, i: nat)
    requires i < |bs| && !bs[i].used && SettledBut(bs, i)
    ensures SettledBut(MergeRight(bs, i), i)
    ensures i + 1 < |MergeRight(bs, i)| ==> MergeRight(bs, i)[i + 1].used
  {
    if i + 1 < |bs| && !bs[i + 1].used {
      var a := Merge(bs, i);
      if i + 2 < |bs| { assert Apart(bs, i + 1); }
      forall k | 0 <= k < |a| - 1 && k != i && k + 1 != i ensures Apart(a, k) {
        if k > i { assert Apart(bs, k + 1); assert a[k] == bs[k + 1] && a[k + 1] == bs[k + 2]; }
        else { assert Apart(bs, k); }
      }
    }
  }

  lemma {:induction false} MergeLeftSettles(a: seq<Block>, i: nat)
    requires i < |a| && !a[i].used && SettledBut(a, i)
    requires i + 1 < |a| ==> a[i + 1].used
    ensures Settled(MergeLeft(a, i))
  {
    if i > 0 && !a[i - 1].used {
      var r := Merge(a, i - 1);
      if i >= 2 { assert Apart(a, i - 2); }
      forall k | 0 <= k < |r| - 1 ensures Apart(r, k) {
        if k >= i { assert Apart(a, k + 1); assert r[k] == a[k + 1] && r[k + 1] == a[k + 2]; }
        else if k == i - 1 { assert r[k + 1] == a[i + 1]; }
        else if k < i - 2 { assert Apart(a, k); }
      }
    } else {
      forall k | 0 <= k < |a| - 1 ensures Apart(a, k) {
        if k != i && k + 1 != i { assert Apart(a, k); }
      }
    }
  }

  /** Handing out the front of a free block keeps a tiling settled. */
  lemma {:induction false} SplitSettled(bs: seq<Block>, i: nat, e: nat)
    requires Settled(bs) && i < |bs| && 0 < e < bs[i].ext && !bs[i].used
    ensures Settled(Split(bs, i, e, true, false))
  {
    var r := Split(bs, i, e, true, false);
    if i + 1 < |bs| { assert Apart(bs, i); }
    forall k | 0 <= k < |r| - 1 ensures Apart(r, k) {
      if k + 1 < i { assert Apart(bs, k); }
      else if k == i + 1 { assert r[k + 1] == bs[i + 1]; }
      else if k > i + 1 { assert Apart(bs, k - 1); assert r[k] == bs[k - 1] && r[k + 1] == bs[k]; }
    }
  }

  lemma {:induction false} MarkSettled(bs: seq<Block>, i: nat)
    requires i < |bs| && Settled(bs)
    ensures Settled(Mark(bs, i, true)) && SettledBut(Mark(bs, i, false), i)
  {
    forall k | 0 <= k < |bs| - 1 ensures Apart(Mark(bs, i, true), k) { assert Apart(bs, k); }
    forall k | 0 <= k < |bs| - 1 && k != i && k + 1 != i ensures Apart(Mark(bs, i, false), k) { assert Apart(bs, k); }
  }

  lemma {:induction false} MarkTiles(bs: seq<Block>, i: nat, u: bool, lo: nat, hi: nat)
    requires Tiles(bs, lo, hi) && i < |bs|
    ensures Tiles(Mark(bs, i, u), lo, hi) && Mark(bs, i, u)[i].off == bs[i].off
  {
    forall k | 0 <= k < |bs| - 1 ensures Abut(Mark(bs, i, u), k) { assert Abut(bs, k); }
  }

  /** Cutting off the tail of a used block leaves one place to repair. */
  lemma {:induction false} CutSettledBut(bs: seq<Block>, i: nat, e: nat)
    requires Settled(bs) && i < |bs| && 0 < e < bs[i].ext && bs[i].used
    ensures SettledBut(Split(bs, i, e, true, false), i + 1)
  {
    var r := Split(bs, i, e, true, false);
    forall k | 0 <= k < |r| - 1 && k != i + 1 && k + 1 != i + 1 ensures Apart(r, k) {
      if k + 1 <= i { assert Apart(bs, k); }
      else { assert Apart(bs, k - 1); assert r[k] == bs[k - 1] && r[k + 1] == bs[k]; }
    }
  }

  // ------------------------------------------------------------ free blocks by offset

  /** Some free block starts at offset f. */
  ghost predicate HasFree(bs: seq<Block>, f: nat) {
    exists b :: b in bs && b.off == f && !b.used
  }

  lemma {:induction false} MergeFree(bs: seq<Block>, i: nat, f: nat)
    requires i + 1 < |bs| && !bs[i].used && !bs[i + 1].used && HasFree(bs, f)
    ensures HasFree(Merge(bs, i), if f == bs[i + 1].off then bs[i].off else f)
  {
    var r := Merge(bs, i);
    var x := Block(bs[i].off, bs[i].ext + bs[i + 1].ext, bs[i].used);
    assert x in r by { assert r[i] == x; }
    CutPair(bs, i);
    var b :| b in bs && b.off == f && !b.used;
    assert b in bs[..i] || b == bs[i] || b == bs[i + 1] || b in bs[i + 2..];
    if f != bs[i + 1].off && f != bs[i].off {
      assert b in r;
    }
  }

  lemma {:induction false} SplitFree(bs: seq<Block>, i: nat, e: nat, u: bool, v: bool, f: nat)
    requires i < |bs| && 0 < e < bs[i].ext && HasFree(bs, f) && f != bs[i].off
    ensures HasFree(Split(bs, i, e, u, v), f)
  {
    var b :| b in bs && b.off == f && !b.used;
    assert bs == bs[..i] + [bs[i]] + bs[i + 1..];
    assert b in Split(bs, i, e, u, v);
  }

  lemma {:induction false} MarkFree(bs: seq<Block>, i: nat, u: bool, f: nat)
    requires i < |bs| && HasFree(bs, f) && f != bs[i].off
    ensures HasFree(Mark(bs, i, u), f)
  {
    var b :| b in bs && b.off == f && !b.used;
    var k :| 0 <= k < |bs| && bs[k] == b;
    assert Mark(bs, i, u)[k] == b;
  }

  // ------------------------------------------------------------ sums

  function UsedExt(bs: seq<Block>): nat {
    if bs == [] then 0 else UsedExt(bs[..|bs| - 1]) + (if bs[|bs| - 1].used then bs[|bs| - 1].ext else 0)
  }

  lemma {:induction false} UsedExtConcat(a: seq<Block>, b: seq<Block>)
    ensures UsedExt(a + b) == UsedExt(a) + UsedExt(b)
    decreases |b|
  {
    if b == [] {
      assert a + b == a;
    } else {
      assert (a + b)[..|a + b| - 1] == a + b[..|b| - 1];
      UsedExtConcat(a, b[..|b| - 1]);
    }
  }

  /** Replacing the middle of a tiling changes the sum by the middle's change. */
  lemma {:induction false} UsedExtReplace(p: seq<Block>, m: seq<Block>, n: seq<Block>, q: seq<Block>)
    ensures UsedExt(p + n + q) + UsedExt(m) == UsedExt(p + m + q) + UsedExt(n)
  {
    UsedExtConcat(p + m, q);
    UsedExtConcat(p, m);
    UsedExtConcat(p + n, q);
    UsedExtConcat(p, n);
  }

  function One(b: Block): nat { if b.used then b.ext else 0 }

  lemma {:induction false} UsedExtOne(b: Block)
    ensures UsedExt([b]) == One(b)
  {
    assert [b][..0] == [];
  }

  lemma {:induction false} UsedExtTwo(b: Block, c: Block)
    ensures UsedExt([b, c]) == One(b) + One(c)
  {
    assert [b, c] == [b] + [c];
    UsedExtConcat([b], [c]);
    UsedExtOne(b);
    UsedExtOne(c);
  }

  lemma {:induction false} SplitSum(bs: seq<Block>, i: nat, e: nat, u: bool, v: bool)
    requires i < |bs| && 0 < e < bs[i].ext
    ensures UsedExt(Split(bs, i, e, u, v)) + One(bs[i])
         == UsedExt(bs) + (if u then e else 0) + (if v then bs[i].ext - e else 0)
  {
    var x, y := Block(bs[i].off, e, u), Block(bs[i].off + e, bs[i].ext - e, v);
    UsedExtReplace(bs[..i], [bs[i]], [x, y], bs[i + 1..]);
    assert UsedExt(bs[..i] + [bs[i]] + bs[i + 1..]) == UsedExt(bs) by {
      assert bs == bs[..i] + [bs[i]] + bs[i + 1..];
    }
    assert UsedExt([x, y]) == One(x) + One(y) by { UsedExtTwo(x, y); }
    assert UsedExt([bs[i]]) == One(bs[i]) by { UsedExtOne(bs[i]); }
  }

  lemma {:induction false} MarkSum(bs: seq<Block>, i: nat, u: bool)
    requires i < |bs|
    ensures UsedExt(Mark(bs, i, u)) + One(bs[i]) == UsedExt(bs) + One(bs[i].(used := u))
  {
    UsedExtReplace(bs[..i], [bs[i]], [bs[i].(used := u)], bs[i + 1..]);
    assert bs == bs[..i] + [bs[i]] + bs[i + 1..];
    assert Mark(bs, i, u) == bs[..i] + [bs[i].(used := u)] + bs[i + 1..];
    UsedExtOne(bs[i]);
    UsedExtOne(bs[i].(used := u));
  }

  lemma {:induction false} MergeSum(bs: seq<Block>, i: nat)
    requires i + 1 < |bs| && !bs[i].used && !bs[i + 1].used
    ensures UsedExt(Merge(bs, i)) == UsedExt(bs)
  {
    var x := Block(bs[i].off, bs[i].ext + bs[i + 1].ext, bs[i].used);
    UsedExtReplace(bs[..i], [bs[i], bs[i + 1]], [x], bs[i + 2..]);
    assert bs == bs[..i] + [bs[i], bs[i + 1]] + bs[i + 2..];
    UsedExtOne(x);
    UsedExtTwo(bs[i], bs[i + 1]);
  }

  lemma {:induction false} CoalesceSum(bs: seq<Block>, i: nat)
    requires i < |bs| && !bs[i].used
    ensures UsedExt(Coalesce(bs, i)) == UsedExt(bs)
  {
    var r := MergeRight(bs, i);
    if i + 1 < |bs| && !bs[i + 1].used { MergeSum(bs, i); }
    if i > 0 && !r[i - 1].used { MergeSum(r, i - 1); }
  }

  // ------------------------------------------------------------ canonicity

  /** The used blocks in address order. */
  function Live(bs: seq<Block>): seq<Block> {
    if bs == [] then [] else Live(bs[..|bs| - 1]) + LiveOne(bs[|bs| - 1])
  }

  function LiveOne(b: Block): seq<Block> { if b.used then [b] else [] }

  lemma {:induction false} LiveSingle(b: Block)
    ensures Live([b]) == LiveOne(b)
  {
    assert [b][..0] == [];
  }

  lemma {:induction false} LivePair(b: Block, c: Block)
    ensures Live([b, c]) == LiveOne(b) + LiveOne(c)
  {
    assert [b, c] == [b] + [c];
    LiveConcat([b], [c]);
    LiveSingle(b);
    LiveSingle(c);
  }

  lemma {:induction false} LiveConcat(a: seq<Block>, b: seq<Block>)
    ensures Live(a + b) == Live(a) + Live(b)
    decreases |b|
  {
    if b == [] {
      assert a + b == a;
    } else {
      assert (a + b)[..|a + b| - 1] == a + b[..|b| - 1];
      LiveConcat(a, b[..|b| - 1]);
    }
  }

  lemma {:induction false} LiveMember(bs: seq<Block>, x: Block)
    ensures x in Live(bs) <==> x in bs && x.used
  {
    if bs != [] {
      LiveMember(bs[..|bs| - 1], x);
      assert bs == bs[..|bs| - 1] + [bs[|bs| - 1]];
    }
  }

  lemma {:induction false} LiveReplace(p: seq<Block>, m: seq<Block>, n: seq<Block>, q: seq<Block>)
    requires Live(m) == Live(n)
    ensures Live(p + m + q) == Live(p + n + q)
  {
    LiveConcat(p + m, q);
    LiveConcat(p, m);
    LiveConcat(p + n, q);
    LiveConcat(p, n);
  }

  lemma {:induction false} JoinFree(p: seq<Block>, x: Block, y: Block, z: Block, q: seq<Block>)
    requires !x.used && !y.used && !z.used
    ensures Live(p + [x, y] + q) == Live(p + [z] + q)
  {
    assert Live([x, y]) == [] by { LivePair(x, y); }
    assert Live([z]) == [] by { LiveSingle(z); }
    LiveReplace(p, [x, y], [z], q);
  }

  lemma {:induction false} MergeLive(bs: seq<Block>, i: nat)
    requires i + 1 < |bs| && !bs[i].used && !bs[i + 1].used
    ensures Live(Merge(bs, i)) == Live(bs)
  {
    CutPair(bs, i);
    JoinFree(bs[..i], bs[i], bs[i + 1], Block(bs[i].off, bs[i].ext + bs[i + 1].ext, bs[i].used), bs[i + 2..]);
  }

  /** Coalescing forgets free boundaries and nothing else. */
  lemma {:induction false} CoalesceLive(bs: seq<Block>, i: nat)
    requires i < |bs| && !bs[i].used
    ensures Live(Coalesce(bs, i)) == Live(bs)
  {
    var r := MergeRight(bs, i);
    if i + 1 < |bs| && !bs[i + 1].used { MergeLive(bs, i); }
    if i > 0 && !r[i - 1].used { MergeLive(r, i - 1); }
  }

  lemma {:induction false} MarkLive(bs: seq<Block>, i: nat, u: bool)
    requires i < |bs|
    ensures Live(Mark(bs, i, u)) == Live(bs[..i]) + (if u then [bs[i].(used := true)] else []) + Live(bs[i + 1..])
  {
    var x := bs[i].(used := u);
    assert Mark(bs, i, u) == bs[..i] + [x] + bs[i + 1..];
    LiveConcat(bs[..i] + [x], bs[i + 1..]);
    LiveConcat(bs[..i], [x]);
    LiveSingle(x);
  }

  lemma {:induction false} SplitLive(bs: seq<Block>, i: nat, e: nat, u: bool, v: bool)
    requires i < |bs| && 0 < e < bs[i].ext && !v
    ensures Live(Split(bs, i, e, u, v)) == Live(bs[..i]) + (if u then [Block(bs[i].off, e, true)] else []) + Live(bs[i + 1..])
  {
    var x, y := Block(bs[i].off, e, u), Block(bs[i].off + e, bs[i].ext - e, v);
    LiveConcat(bs[..i] + [x, y], bs[i + 1..]);
    LiveConcat(bs[..i], [x, y]);
    LivePair(x, y);
    assert LiveOne(x) + LiveOne(y) == LiveOne(x);
  }

  /** All but the last block tile up to where it starts. */
  lemma {:induction false} Prefix(bs: seq<Block>, lo: nat, hi: nat)
    requires Tiles(bs, lo, hi) && bs != []
    ensures Tiles(bs[..|bs| - 1], lo, bs[|bs| - 1].off)
    ensures Settled(bs) ==> Settled(bs[..|bs| - 1])
  {
    var p := bs[..|bs| - 1];
    forall k | 0 <= k < |p| - 1 ensures Abut(p, k) { assert Abut(bs, k); }
    if |p| > 0 { assert Abut(bs, |p| - 1); }
    if Settled(bs) {
      forall k | 0 <= k < |p| - 1 ensures Apart(p, k) { assert Apart(bs, k); }
    }
  }

  lemma {:induction false} EmptyTiles(a: seq<Block>, b: seq<Block>, lo: nat, hi: nat)
    requires Tiles(a, lo, hi) && Tiles(b, lo, hi) && (a == [] || b == [])
    ensures a == b
  {
    OrderedAll(a, lo, hi);
    OrderedAll(b, lo, hi);
  }

  /** A settled tiling is determined by its used blocks: whatever sequence of
      allocations and releases led to it, equal live blocks mean equal layout. */
  lemma {:induction false} Canonical(a: seq<Block>, b: seq<Block>, lo: nat, hi: nat)
    requires Tiles(a, lo, hi) && Tiles(b, lo, hi) && Settled(a) && Settled(b)
    requires Live(a) == Live(b)
    ensures a == b
    decreases |a|
  {
    if a == [] || b == [] {
      EmptyTiles(a, b, lo, hi);
    } else {
      LastEqual(a, b, lo, hi);
      Prefix(a, lo, hi);
      Prefix(b, lo, hi);
      var pa, pb := a[..|a| - 1], b[..|b| - 1];
      Canonical(pa, pb, lo, a[|a| - 1].off);
      assert a == pa + [a[|a| - 1]] && b == pb + [b[|b| - 1]];
    }
  }

  lemma {:induction false} LastEqual(a: seq<Block>, b: seq<Block>, lo: nat, hi: nat)
    requires Tiles(a, lo, hi) && Tiles(b, lo, hi) && Settled(a) && Settled(b)
    requires Live(a) == Live(b) && a != [] && b != []
    ensures a[|a| - 1] == b[|b| - 1] && Live(a[..|a| - 1]) == Live(b[..|b| - 1])
  {
    if a[|a| - 1].used {
      UsedAtEnd(a, b, lo, hi);
      LastUsed(a, b);
    } else {
      if b[|b| - 1].used { UsedAtEnd(b, a, lo, hi); }
      LastFree(a, b, lo, hi);
    }
  }

  lemma {:induction false} LastUsed(a: seq<Block>, b: seq<Block>)
    requires Live(a) == Live(b)
    requires a != [] && b != [] && a[|a| - 1].used && b[|b| - 1].used
    ensures a[|a| - 1] == b[|b| - 1] && Live(a[..|a| - 1]) == Live(b[..|b| - 1])
  {
    var x, y := Live(a[..|a| - 1]), Live(b[..|b| - 1]);
    assert Live(a) == x + [a[|a| - 1]] && Live(b) == y + [b[|b| - 1]];
    assert Live(a)[|Live(a)| - 1] == a[|a| - 1] && Live(b)[|Live(b)| - 1] == b[|b| - 1];
    assert Live(a)[..|Live(a)| - 1] == x && Live(b)[..|Live(b)| - 1] == y;
  }

  /** A tiling that ends in a used block cannot share its live blocks with one
      that ends in a free block. */
  lemma {:induction false} UsedAtEnd(a: seq<Block>, b: seq<Block>, lo: nat, hi: nat)
    requires Tiles(a, lo, hi) && Tiles(b, lo, hi) && Live(a) == Live(b)
    requires a != [] && b != [] && a[|a| - 1].used
    ensures b[|b| - 1].used
  {
    var la := a[|a| - 1];
    LiveMember(a, la);
    LiveMember(b, la);
    var k: nat :| k < |b| && b[k] == la;
    if k < |b| - 1 { Ordered(b, lo, hi, k, |b| - 1); }
  }

  /** The trailing free block starts where the last live block ends. */
  lemma {:induction false} LastFree(a: seq<Block>, b: seq<Block>, lo: nat, hi: nat)
    requires Tiles(a, lo, hi) && Tiles(b, lo, hi) && Settled(a) && Settled(b)
    requires Live(a) == Live(b) && a != [] && b != []
    requires !a[|a| - 1].used && !b[|b| - 1].used
    ensures a[|a| - 1] == b[|b| - 1] && Live(a[..|a| - 1]) == Live(b[..|b| - 1])
  {
    LastFreeBound(a, b, lo, hi);
    LastFreeBound(b, a, lo, hi);
    assert Live(a) == Live(a[..|a| - 1]) by { assert LiveOne(a[|a| - 1]) == []; }
    assert Live(b) == Live(b[..|b| - 1]) by { assert LiveOne(b[|b| - 1]) == []; }
  }

  lemma {:induction false} LastFreeBound(a: seq<Block>, b: seq<Block>, lo: nat, hi: nat)
    requires Tiles(a, lo, hi) && Tiles(b, lo, hi) && Settled(a)
    requires Live(a) == Live(b) && a != [] && b != []
    requires !a[|a| - 1].used && !b[|b| - 1].used
    ensures a[|a| - 1].off <= b[|b| - 1].off
  {
    Within(b, lo, hi, |b| - 1);
    if |a| > 1 {
      var x := a[|a| - 2];
      assert Apart(a, |a| - 2) && Abut(a, |a| - 2);
      LiveMember(a, x);
      LiveMember(b, x);
      var k: nat :| k < |b| && b[k] == x;
      Ordered(b, lo, hi, k, |b| - 1);
    }
  }

  // ------------------------------------------------------------ lookup

  /** Index of the first block at or after k whose header is at off, |bs| if
      there is none. */
  function PosFrom(bs: seq<Block>, off: int, k: nat): (r: nat)
    requires k <= |bs|
    ensures k <= r <= |bs| && (r < |bs| ==> bs[r].off == off)
    decreases |bs| - k
  {
    if k == |bs| || bs[k].off == off then k else PosFrom(bs, off, k + 1)
  }

  function Pos(bs: seq<Block>, off: int): (r: nat)
    ensures r <= |bs| && (r < |bs| ==> bs[r].off == off)
  {
    PosFrom(bs, off, 0)
  }

  lemma {:induction false} PosFound(bs: seq<Block>, off: int, k: nat, i: nat)
    requires k <= i < |bs| && bs[i].off == off
    ensures PosFrom(bs, off, k) <= i
    decreases |bs| - k
  {
    if bs[k].off != off { PosFound(bs, off, k + 1, i); }
  }

  lemma {:induction false} PosMissing(bs: seq<Block>, off: int)
    requires Pos(bs, off) == |bs|
    ensures forall i :: 0 <= i < |bs| ==> bs[i].off != off
  {
    forall i | 0 <= i < |bs| ensures bs[i].off != off {
      if bs[i].off == off { PosFound(bs, off, 0, i); }
    }
  }

  lemma {:induction false} PosUnique(bs: seq<Block>, lo: nat, hi: nat, i: nat)
    requires Tiles(bs, lo, hi) && i < |bs|
    ensures Pos(bs, bs[i].off) == i
  {
    PosFound(bs, bs[i].off, 0, i);
    Sides(bs, lo, hi, i, Pos(bs, bs[i].off));
  }

  lemma {:induction false} SumAtLeast(bs: seq<Block>, i: nat)
    requires i < |bs| && bs[i].used
    ensures bs[i].ext <= UsedExt(bs)
  {
    MarkSum(bs, i, false);
  }

  lemma {:induction false} FreeBlockLive(bs: seq<Block>, i: nat)
    requires i < |bs| && !bs[i].used
    ensures Live(bs) == Live(bs[..i]) + Live(bs[i + 1..])
  {
    MarkLive(bs, i, false);
    assert Mark(bs, i, false) == bs;
    assert Live(bs[..i]) + [] == Live(bs[..i]);
  }

  lemma {:induction false} UsedBlockLive(bs: seq<Block>, i: nat)
    requires i < |bs| && bs[i].used
    ensures Live(bs) == Live(bs[..i]) + [bs[i]] + Live(bs[i + 1..])
  {
    MarkLive(bs, i, true);
    assert Mark(bs, i, true) == bs;
  }

  lemma {:induction false} MarkedLive(bs: seq<Block>, i: nat)
    requires i < |bs|
    ensures Live(Mark(bs, i, false)) == Live(bs[..i]) + Live(bs[i + 1..])
  {
    MarkLive(bs, i, false);
    assert Live(bs[..i]) + [] == Live(bs[..i]);
  }

  lemma {:induction false} AllFreeIsOne(bs: seq<Block>, lo: nat, hi: nat)
    requires Tiles(bs, lo, hi) && Settled(bs) && lo < hi
    requires forall b :: b in bs ==> !b.used
    ensures bs == [Block(lo, hi - lo, false)]
  {
    var k := if |bs| > 1 then 1 else 0;
    assert bs[0] in bs && bs[k] in bs;
    assert k > 0 ==> Apart(bs, k - 1);
  }

  /** After a used block the left half of plug_holes has nothing to do. */
  lemma {:induction false} CoalesceAfterUsed(bs: seq<Block>, i: nat)
    requires 0 < i < |bs| && bs[i - 1].used
    ensures MergeRight(bs, i) == Coalesce(bs, i)
  {
  }

  // -------------------------------------------------- which blocks stay live

  /** Every block live in bs is live in cs and is not the one whose payload starts
      at r, except the one at `gone`; nothing else but the block at r is live in cs.
      Payloads start hdr bytes into their blocks. */
  ghost predicate Survive(bs: seq<Block>, cs: seq<Block>, hdr: nat, gone: Option<int>, r: Option<int>) {
    && (forall x :: x in bs && x.used && gone != Some(x.off + hdr) ==> x in cs && r != Some(x.off + hdr))
    && (forall x :: x in cs && x.used && r != Some(x.off + hdr) ==> x in bs && gone != Some(x.off + hdr))
  }

  /** The live blocks on both sides of block i do not start where it does. */
  lemma {:induction false} LiveBeside(bs: seq<Block>, hi: nat, i: nat)
    requires Tiles(bs, 0, hi) && i < |bs|
    ensures forall x :: x in Live(bs[..i]) + Live(bs[i + 1..]) ==> x.used && x.off != bs[i].off
  {
    forall x | x in Live(bs[..i]) + Live(bs[i + 1..]) ensures x.used && x.off != bs[i].off {
      LiveMember(bs[..i], x);
      LiveMember(bs[i + 1..], x);
      hide Live;
      if x in bs[..i] {
        var k: nat :| k < i && bs[k] == x;
        Sides(bs, 0, hi, k, i);
      } else {
        var k: nat :| i < k < |bs| && bs[k] == x;
        Sides(bs, 0, hi, i, k);
      }
    }
  }

  function PointerOf(s: seq<Block>, hdr: nat): Option<int> {
    if s == [] then None else Some(s[0].off + hdr)
  }

  /** At block i at most one live block went and at most one came. */
  lemma {:induction false} OneChanged(bs: seq<Block>, cs: seq<Block>, hdr: nat, hi: nat, i: nat, was: seq<Block>, now: seq<Block>)
    requires Tiles(bs, 0, hi) && i < |bs| && |was| <= 1 && |now| <= 1
    requires (was == [] || was[0].off == bs[i].off) && (now == [] || now[0].off == bs[i].off)
    requires Live(bs) == Live(bs[..i]) + was + Live(bs[i + 1..])
    requires Live(cs) == Live(bs[..i]) + now + Live(bs[i + 1..])
    ensures Survive(bs, cs, hdr, PointerOf(was, hdr), PointerOf(now, hdr))
  {
    hide Live, Tiles;
    LiveBeside(bs, hi, i);
    var a, c := Live(bs[..i]), Live(bs[i + 1..]);
    forall x: Block ensures x in bs && x.used <==> x in a + c || x in was {
      LiveMember(bs, x);
    }
    forall x: Block ensures x in cs && x.used <==> x in a + c || x in now {
      LiveMember(cs, x);
    }
    Swapped(bs, cs, hdr, bs[i].off, a + c, was, now);
  }

  lemma {:induction false} Swapped(bs: seq<Block>, cs: seq<Block>, hdr: nat, off: nat, rest: seq<Block>, was: seq<Block>, now: seq<Block>)
    requires |was| <= 1 && |now| <= 1 && forall x :: x in rest ==> x.off != off
    requires (forall x :: x in was ==> x.off == off) && (forall x :: x in now ==> x.off == off)
    requires forall x :: x in bs && x.used <==> x in rest || x in was
    requires forall x :: x in cs && x.used <==> x in rest || x in now
    ensures Survive(bs, cs, hdr, PointerOf(was, hdr), PointerOf(now, hdr))
  {
    assert was != [] ==> was[0] in was && forall x :: x in was ==> x == was[0];
    assert now != [] ==> now[0] in now && forall x :: x in now ==> x == now[0];
  }

  lemma {:induction false} OneCame(bs: seq<Block>, cs: seq<Block>, hdr: nat, hi: nat, i: nat, b: Block)
    requires Tiles(bs, 0, hi) && i < |bs| && b.off == bs[i].off
    requires Live(bs) == Live(bs[..i]) + Live(bs[i + 1..])
    requires Live(cs) == Live(bs[..i]) + [b] + Live(bs[i + 1..])
    ensures Survive(bs, cs, hdr, None, Some(b.off + hdr))
  {
    hide Live, Survive, Tiles;
    assert Live(bs[..i]) + [] == Live(bs[..i]);
    OneChanged(bs, cs, hdr, hi, i, [], [b]);
  }

  lemma {:induction false} OneWent(bs: seq<Block>, cs: seq<Block>, hdr: nat, hi: nat, i: nat)
    requires Tiles(bs, 0, hi) && i < |bs|
    requires Live(bs) == Live(bs[..i]) + [bs[i]] + Live(bs[i + 1..])
    requires Live(cs) == Live(bs[..i]) + Live(bs[i + 1..])
    ensures Survive(bs, cs, hdr, Some(bs[i].off + hdr), None)
  {
    hide Live, Survive, Tiles;
    assert Live(bs[..i]) + [] == Live(bs[..i]);
    OneChanged(bs, cs, hdr, hi, i, [bs[i]], []);
  }

  lemma {:induction false} OneResized(bs: seq<Block>, cs: seq<Block>, hdr: nat, hi: nat, i: nat, b: Block)
    requires Tiles(bs, 0, hi) && i < |bs| && b.off == bs[i].off
    requires Live(bs) == Live(bs[..i]) + [bs[i]] + Live(bs[i + 1..])
    requires Live(cs) == Live(bs[..i]) + [b] + Live(bs[i + 1..])
    ensures Survive(bs, cs, hdr, Some(b.off + hdr), Some(b.off + hdr))
  {
    hide Live, Survive, Tiles;
    OneChanged(bs, cs, hdr, hi, i, [bs[i]], [b]);
  }
}
