/** The page-frame bitmap: one bit per frame, set when the frame is used. */
module FrameBitmap {
  const NONE := 0xFFFF_FFFF       // FB_NONE

  /** 1 << k, for a bit of a byte. */
  function BitMask(k: nat): bv8
    requires k < 8
  {
    if k == 0 then 1 else if k == 1 then 2 else if k == 2 then 4 else if k == 3 then 8
    else if k == 4 then 16 else if k == 5 then 32 else if k == 6 then 64 else 128
  }

  predicate Bit(a: bv8, k: nat)
    requires k < 8
  {
    a & BitMask(k) != 0
  }

  predicate Used(bm: seq<bv8>, f: nat)
    requires f / 8 < |bm|
  {
    Bit(bm[f / 8], f % 8)
  }

  lemma BitSet(a: bv8, i: nat, k: nat)
    requires i < 8 && k < 8
    ensures Bit(a | BitMask(i), k) == (k == i || Bit(a, k))
  {
  }

  lemma BitClear(a: bv8, i: nat, k: nat)
    requires i < 8 && k < 8
    ensures Bit(a & !BitMask(i), k) == (k != i && Bit(a, k))
  {
  }

  lemma FullByte(a: bv8)
    ensures a == 0xFF <==> forall k: nat :: k < 8 ==> Bit(a, k)
  {
    if forall k: nat :: k < 8 ==> Bit(a, k) {
      assert Bit(a, 0) && Bit(a, 1) && Bit(a, 2) && Bit(a, 3) && Bit(a, 4) && Bit(a, 5) && Bit(a, 6) && Bit(a, 7);
    }
  }

  /** Two bitmaps that agree except on one frame. */
  ghost predicate SameBut(bm: seq<bv8>, bm': seq<bv8>, f: nat) {
    |bm'| == |bm| && forall g: nat :: g / 8 < |bm| && g != f ==> Used(bm', g) == Used(bm, g)
  }

  ghost predicate AllUsed(bm: seq<bv8>, from: nat, to: nat)
    requires to <= 8 * |bm|
  {
    forall f: nat :: from <= f < to ==> Used(bm, f)
  }

  /** Frames below `total` that are free. */
  function FreeCount(bm: seq<bv8>, total: nat): nat
    requires total <= 8 * |bm|
  {
    if total == 0 then 0 else FreeCount(bm, total - 1) + if Used(bm, total - 1) then 0 else 1
  }

  /** The lowest free frame from `f` on, or `total`. */
  function FirstFree(bm: seq<bv8>, f: nat, total: nat): (r: nat)
    requires f <= total <= 8 * |bm|
    ensures f <= r <= total && AllUsed(bm, f, r)
    ensures r < total ==> !Used(bm, r)
    decreases total - f
  {
    if f == total || !Used(bm, f) then f else FirstFree(bm, f + 1, total)
  }

  lemma {:induction false} FreeCountSame(bm: seq<bv8>, bm': seq<bv8>, total: nat, f: nat)
    requires SameBut(bm, bm', f) && total <= f && total <= 8 * |bm|
    ensures FreeCount(bm', total) == FreeCount(bm, total)
    decreases total
  {
    if total > 0 { FreeCountSame(bm, bm', total - 1, f); }
  }

  /** Changing one frame below `total` changes the count by exactly that frame. */
  lemma {:induction false} FreeCountFlip(bm: seq<bv8>, bm': seq<bv8>, total: nat, f: nat)
    requires SameBut(bm, bm', f) && f < total <= 8 * |bm|
    ensures FreeCount(bm', total) ==
            FreeCount(bm, total) + (if Used(bm, f) then 1 else 0) - (if Used(bm', f) then 1 else 0)
    decreases total
  {
    if f == total - 1 {
      FreeCountSame(bm, bm', total - 1, f);
    } else {
      FreeCountFlip(bm, bm', total - 1, f);
    }
  }

  /** No frame is free exactly when the count is zero. */
  lemma {:induction false} NoneFreeIffZero(bm: seq<bv8>, total: nat)
    requires total <= 8 * |bm|
    ensures FreeCount(bm, total) == 0 <==> AllUsed(bm, 0, total)
    decreases total
  {
    if total > 0 { NoneFreeIffZero(bm, total - 1); }
  }

  // ----- the operations -----

  /** fb_init: everything used. */
  method Init(bm: array<bv8>, total: nat)
    requires (total + 7) / 8 <= bm.Length
    modifies bm
    ensures AllUsed(bm[..], 0, total)
    ensures forall b :: (total + 7) / 8 <= b < bm.Length ==> bm[b] == old(bm[b])
  {
    var bytes := (total + 7) / 8;
    for i := 0 to bytes
      invariant forall b :: 0 <= b < i ==> bm[b] == 0xFF
      invariant forall b :: bytes <= b < bm.Length ==> bm[b] == old(bm[b])
    {
      bm[i] := 0xFF;
    }
    forall f: nat | f < total ensures Used(bm[..], f) { FullByte(bm[f / 8]); }
  }

  method MarkUsed(bm: array<bv8>, f: nat)
    requires f / 8 < bm.Length
    modifies bm
    ensures SameBut(old(bm[..]), bm[..], f) && Used(bm[..], f)
  {
    ghost var before := bm[..];
    bm[f / 8] := bm[f / 8] | BitMask(f % 8);
    forall g: nat | g / 8 < bm.Length ensures Used(bm[..], g) == (g == f || Used(before, g)) {
      BitSet(before[f / 8], f % 8, g % 8);
    }
  }

  method MarkFree(bm: array<bv8>, f: nat)
    requires f / 8 < bm.Length
    modifies bm
    ensures SameBut(old(bm[..]), bm[..], f) && !Used(bm[..], f)
  {
    ghost var before := bm[..];
    bm[f / 8] := bm[f / 8] & !BitMask(f % 8);
    forall g: nat | g / 8 < bm.Length ensures Used(bm[..], g) == (g != f && Used(before, g)) {
      BitClear(before[f / 8], f % 8, g % 8);
    }
  }

  method Test(bm: array<bv8>, f: nat) returns (used: bool)
    requires f / 8 < bm.Length
    ensures used == Used(bm[..], f)
  {
    used := bm[f / 8] & BitMask(f % 8) != 0;
  }

  /** fb_mark_region_used, clipped at `total`. */
  method MarkRegionUsed(bm: array<bv8>, total: nat, first: nat, count: nat)
    requires total <= 8 * bm.Length
    modifies bm
    ensures forall g: nat :: g / 8 < bm.Length ==>
              Used(bm[..], g) == ((first <= g < first + count && g < total) || Used(old(bm[..]), g))
  {
    var i := 0;
    while i < count && first + i < total
      invariant 0 <= i <= count && (i > 0 ==> first + i <= total)
      invariant forall g: nat :: g / 8 < bm.Length ==>
                  Used(bm[..], g) == ((first <= g < first + i) || Used(old(bm[..]), g))
    {
      MarkUsed(bm, first + i);
      i := i + 1;
    }
  }

  /** fb_mark_region_free, clipped at `total`. */
  method MarkRegionFree(bm: array<bv8>, total: nat, first: nat, count: nat)
    requires total <= 8 * bm.Length
    modifies bm
    ensures forall g: nat :: g / 8 < bm.Length ==>
              Used(bm[..], g) == (!(first <= g < first + count && g < total) && Used(old(bm[..]), g))
  {
    var i := 0;
    while i < count && first + i < total
      invariant 0 <= i <= count && (i > 0 ==> first + i <= total)
      invariant forall g: nat :: g / 8 < bm.Length ==>
                  Used(bm[..], g) == (!(first <= g < first + i) && Used(old(bm[..]), g))
    {
      MarkFree(bm, first + i);
      i := i + 1;
    }
  }

  /** fb_alloc: the lowest free frame below `total`, now used, or NONE exactly when there is none. */
  method Alloc(bm: array<bv8>, total: nat) returns (r: nat)
    requires total <= 8 * bm.Length && total <= NONE
    modifies bm
    ensures r == NONE <==> AllUsed(old(bm[..]), 0, total)
    ensures r == NONE ==> bm[..] == old(bm[..])
    ensures r != NONE ==>
              && r < total && r == FirstFree(old(bm[..]), 0, total)
              && SameBut(old(bm[..]), bm[..], r) && Used(bm[..], r)
  {
    var bytes := (total + 7) / 8;
    for b := 0 to bytes
      invariant bm[..] == old(bm[..])
      invariant forall f: nat :: f < total && f < 8 * b ==> Used(bm[..], f)
    {
      FullByte(bm[b]);
      if bm[b] != 0xFF {
        r := TakeInByte(bm, b, total);
        return;
      }
      forall f: nat | f < total && f < 8 * (b + 1) ensures Used(bm[..], f) {}
    }
    r := NONE;
  }

  /** The inner loop of fb_alloc, over a byte with a clear bit. */
  method TakeInByte(bm: array<bv8>, b: nat, total: nat) returns (r: nat)
    requires total <= 8 * bm.Length && total <= NONE && 8 * b < total && bm[b] != 0xFF
    requires AllUsed(bm[..], 0, 8 * b)
    modifies bm
    ensures r == NONE <==> AllUsed(old(bm[..]), 0, total)
    ensures r == NONE ==> bm[..] == old(bm[..])
    ensures r != NONE ==>
              && r < total && r == FirstFree(old(bm[..]), 0, total)
              && SameBut(old(bm[..]), bm[..], r) && Used(bm[..], r)
  {
    var bit := 0;
    while bit < 8
      invariant bit <= 8 && bm[..] == old(bm[..])
      invariant 8 * b + bit <= total && AllUsed(bm[..], 0, 8 * b + bit)
    {
      var frame := 8 * b + bit;
      if frame >= total {
        return NONE;
      }
      assert frame / 8 == b && frame % 8 == bit;
      if bm[b] & BitMask(bit) == 0 {
        LowestFree(bm[..], frame, total);
        MarkUsed(bm, frame);
        return frame;
      }
      bit := bit + 1;
    }
    ByteNotFull(bm[..], b);
    assert false;
  }

  lemma ByteNotFull(bm: seq<bv8>, b: nat)
    requires b < |bm| && bm[b] != 0xFF
    ensures !AllUsed(bm, 0, 8 * b + 8)
  {
    FullByte(bm[b]);
    var k: nat :| k < 8 && !Bit(bm[b], k);
    assert (8 * b + k) / 8 == b && (8 * b + k) % 8 == k;
    assert !Used(bm, 8 * b + k);
  }

  lemma LowestFree(bm: seq<bv8>, f: nat, total: nat)
    requires f < total <= 8 * |bm| && AllUsed(bm, 0, f) && !Used(bm, f)
    ensures FirstFree(bm, 0, total) == f
  {
    var r := FirstFree(bm, 0, total);
    assert r >= f;
  }

  /** fb_count_free. */
  method CountFree(bm: array<bv8>, total: nat) returns (count: nat)
    requires total <= 8 * bm.Length
    ensures count == FreeCount(bm[..], total)
  {
    count := 0;
    for f := 0 to total
      invariant count == FreeCount(bm[..], f)
    {
      var used := Test(bm, f);
      if !used { count := count + 1; }
    }
  }
}
