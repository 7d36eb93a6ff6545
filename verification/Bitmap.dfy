/** Priority bitmaps: 32-bit words with one bit a priority, and the bit search
    __rt_ffs of kservice.c. */
module Bitmap {

  /** 1L << p. */
  function Mask(p: nat): bv32
    requires p < 32
  {
    1 << p
  }

  /** w | m. */
  function With(w: bv32, m: bv32): bv32 { w | m }

  /** w & ~m. */
  function Without(w: bv32, m: bv32): bv32 { w & !m }

  predicate Bit(w: bv32, p: nat)
    requires p < 32
  {
    w & Mask(p) != 0
  }

  lemma {:induction false} MaskNonZero(p: nat)
    requires p < 32
    ensures Mask(p) != 0
  {
  }

  lemma {:induction false} MasksApart(p: nat, q: nat)
    requires p < 32 && q < 32 && p != q
    ensures Mask(p) & Mask(q) == 0
  {
  }

  lemma {:induction false} OrSame(w: bv32, m: bv32)
    ensures (w | m) & m == m
  {
  }

  lemma {:induction false} OrOther(w: bv32, m: bv32, n: bv32)
    requires m & n == 0
    ensures (w | m) & n == w & n
  {
  }

  lemma {:induction false} ClearSame(w: bv32, m: bv32)
    ensures (w & !m) & m == 0
  {
  }

  lemma {:induction false} ClearOther(w: bv32, m: bv32, n: bv32)
    requires m & n == 0
    ensures (w & !m) & n == w & n
  {
  }

  lemma {:induction false} SetThis(w: bv32, p: nat)
    requires p < 32
    ensures Bit(With(w, Mask(p)), p)
  {
    MaskNonZero(p);
    OrSame(w, Mask(p));
    hide Mask;
  }

  lemma {:induction false} SetOther(w: bv32, p: nat, q: nat)
    requires p < 32 && q < 32 && q != p
    ensures Bit(With(w, Mask(p)), q) <==> Bit(w, q)
  {
    MasksApart(p, q);
    OrOther(w, Mask(p), Mask(q));
    hide Mask;
  }

  lemma {:induction false} ClearOtherBit(w: bv32, p: nat, q: nat)
    requires p < 32 && q < 32 && q != p
    ensures Bit(Without(w, Mask(p)), q) <==> Bit(w, q)
  {
    MasksApart(p, q);
    ClearOther(w, Mask(p), Mask(q));
    hide Mask;
  }

  /** w |= 1L << p sets bit p and no other. */
  lemma {:induction false} SetBit(w: bv32, p: nat, q: nat)
    requires p < 32 && q < 32
    ensures Bit(With(w, Mask(p)), q) <==> q == p || Bit(w, q)
  {
    hide Bit, Mask;
    if q == p { SetThis(w, p); } else { SetOther(w, p, q); }
  }

  /** w &= ~(1L << p) clears bit p and no other. */
  lemma {:induction false} ClearBit(w: bv32, p: nat, q: nat)
    requires p < 32 && q < 32
    ensures Bit(Without(w, Mask(p)), q) <==> q != p && Bit(w, q)
  {
    if q == p {
      ClearSame(w, Mask(p));
    } else {
      ClearOtherBit(w, p, q);
    }
    hide Mask;
  }

  // ---------------------------------------------------------------- __rt_ffs

  /** A row of __lowest_bit_bitmap; the rows differ in their first entry only. */
  function Row(first: nat): (r: seq<nat>)
    ensures |r| == 16
  {
    [first, 0, 1, 0, 2, 0, 1, 0, 3, 0, 1, 0, 2, 0, 1, 0]
  }

  /** The first entries of rows 00, 10, ..., F0. */
  const FIRST: seq<nat> := [0, 4, 5, 4, 6, 4, 5, 4, 7, 4, 5, 4, 6, 4, 5, 4]

  /** __lowest_bit_bitmap[v]. */
  function Lowest(v: nat): nat
    requires v < 256
  {
    Row(FIRST[v / 16])[v % 16]
  }

  /** __rt_ffs. */
  function Ffs(value: bv32): nat {
    if value == 0 then 0
    else if value & 0xff != 0 then Lowest((value & 0xff) as nat) + 1
    else if value & 0xff00 != 0 then Lowest(((value & 0xff00) >> 8) as nat) + 9
    else if value & 0xff0000 != 0 then Lowest(((value & 0xff0000) >> 16) as nat) + 17
    else Lowest(((value & 0xff000000) >> 24) as nat) + 25
  }

  /** m is the lowest bit of v: nothing below it is set. */
  predicate IsLowest(v: bv32, m: bv32) {
    v & (2 * m - 1) == m
  }

  lemma {:induction false} Halves(b: bv32)
    requires b < 256
    ensures b as nat / 16 == (b >> 4) as nat && b as nat % 16 == (b & 15) as nat
  {
  }

  lemma {:induction false} LowHalf(b: bv32)
    requires b & 15 != 0
    ensures var t := Row(0)[(b & 15) as nat]; t < 4 && IsLowest(b, Mask(t))
  {
  }

  lemma {:induction false} HighHalf(b: bv32)
    requires 0 < b < 256 && b & 15 == 0
    ensures var t := FIRST[(b >> 4) as nat]; t < 8 && IsLowest(b, Mask(t))
  {
  }

  /** The table is right: entry b is the index of the lowest bit of b. */
  lemma {:induction false} LowestRight(b: bv32)
    requires 0 < b < 256
    ensures Lowest(b as nat) < 8 && IsLowest(b, Mask(Lowest(b as nat)))
  {
    Halves(b);
    hide IsLowest, Mask;
    if b & 15 != 0 {
      LowHalf(b);
      assert Row(FIRST[b as nat / 16])[b as nat % 16] == Row(0)[b as nat % 16];
    } else {
      HighHalf(b);
    }
  }

  lemma {:induction false} ShiftMask(t: nat, s: nat)
    requires t < 8 && (s == 8 || s == 16 || s == 24)
    ensures Mask(t + s) == Mask(t) << s
  {
    assert t in {0, 1, 2, 3, 4, 5, 6, 7};
  }

  lemma {:induction false} ByteLowest(v: bv32, m: bv32)
    ensures v & 0xff != 0 && IsLowest(v & 0xff, m) ==> IsLowest(v, m)
    ensures v & 0xff == 0 && v & 0xff00 != 0 && IsLowest((v & 0xff00) >> 8, m) ==> IsLowest(v, m << 8)
    ensures v & 0xffff == 0 && v & 0xff0000 != 0 && IsLowest((v & 0xff0000) >> 16, m) ==> IsLowest(v, m << 16)
    ensures v & 0xffffff == 0 && v != 0 && IsLowest((v & 0xff000000) >> 24, m) ==> IsLowest(v, m << 24)
  {
  }

  lemma {:induction false} LowerMask(k: nat, t: nat)
    requires k < t < 32
    ensures Mask(k) & (2 * Mask(t) - 1) == Mask(k) && Mask(k) & Mask(t) == 0
  {
  }

  lemma {:induction false} NothingBelow(v: bv32, m: bv32, n: bv32)
    requires IsLowest(v, m) && n & (2 * m - 1) == n && n & m == 0
    ensures v & n == 0
  {
  }

  /** __rt_ffs counts bits from one and finds the lowest one, zero if there is none. */
  lemma {:induction false} FfsIsLowest(v: bv32)
    ensures Ffs(v) == 0 <==> v == 0
    ensures v != 0 ==> Ffs(v) <= 32 && Bit(v, Ffs(v) - 1) && forall k :: 0 <= k < Ffs(v) - 1 ==> !Bit(v, k)
  {
    if v != 0 {
      FfsMask(v);
      var t := Ffs(v) - 1;
      MaskNonZero(t);
      LowestIsSet(v, Mask(t));
      forall k | 0 <= k < t ensures !Bit(v, k) {
        LowerMask(k, t);
        NothingBelow(v, Mask(t), Mask(k));
      }
    }
  }

  lemma {:induction false} LowestIsSet(v: bv32, m: bv32)
    requires IsLowest(v, m) && m != 0
    ensures v & m != 0
  {
  }

  /** The byte that is looked up, its shift, and its lowest bit. */
  lemma {:induction false} PickLowest(v: bv32) returns (b: bv32, s: nat, t: nat)
    requires v != 0
    ensures t < 8 && Ffs(v) == t + 1 + s && IsLowest(b, Mask(t))
    ensures
      || (s == 0 && b == v & 0xff && v & 0xff != 0)
      || (s == 8 && b == (v & 0xff00) >> 8 && v & 0xff == 0 && v & 0xff00 != 0)
      || (s == 16 && b == (v & 0xff0000) >> 16 && v & 0xffff == 0 && v & 0xff0000 != 0)
      || (s == 24 && b == (v & 0xff000000) >> 24 && v & 0xffffff == 0)
  {
    hide IsLowest, Mask, Lowest, Ffs;
    b, s := PickByte(v);
    LowestRight(b);
    t := Lowest(b as nat);
  }

  lemma {:induction false} FfsMask(v: bv32)
    requires v != 0
    ensures 0 < Ffs(v) <= 32 && IsLowest(v, Mask(Ffs(v) - 1))
  {
    hide IsLowest, Mask, Ffs;
    var b, s, t := PickLowest(v);
    ByteLowest(v, Mask(t));
    if s != 0 { ShiftMask(t, s); }
  }

  /** The byte that __rt_ffs looks up. */
  lemma {:induction false} PickByte(v: bv32) returns (b: bv32, s: nat)
    requires v != 0
    ensures 0 < b < 256 && Ffs(v) == Lowest(b as nat) + 1 + s
    ensures
      || (s == 0 && b == v & 0xff && v & 0xff != 0)
      || (s == 8 && b == (v & 0xff00) >> 8 && v & 0xff == 0 && v & 0xff00 != 0)
      || (s == 16 && b == (v & 0xff0000) >> 16 && v & 0xffff == 0 && v & 0xff0000 != 0)
      || (s == 24 && b == (v & 0xff000000) >> 24 && v & 0xffffff == 0)
  {
    hide Lowest;
    if v & 0xff != 0 {
      b, s := v & 0xff, 0;
    } else if v & 0xff00 != 0 {
      b, s := (v & 0xff00) >> 8, 8;
    } else if v & 0xff0000 != 0 {
      b, s := (v & 0xff0000) >> 16, 16;
    } else {
      b, s := (v & 0xff000000) >> 24, 24;
    }
  }
}
