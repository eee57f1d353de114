/** What memory is free after pmm_init, in terms of the bytes of the boot information: every page
    of available memory that nothing occupies, and none that something does. */
module BootMemory {
  import opened Common
  import opened FrameBitmap
  import opened PhysicalMemory

  /** The frame shares a byte with the `len` bytes at `start`. */
  predicate Overlaps(start: nat, len: nat, f: nat) {
    len > 0 && start < (f + 1) * 4096 && f * 4096 < start + len
  }

  /** It shares one with low memory, the kernel, the boot information or the memory map. */
  predicate Occupied(mbi: Info, kernel: Range, info: nat, f: nat) {
    || Overlaps(0, 0x10_0000, f)
    || (kernel.start < kernel.end && Overlaps(kernel.start, kernel.end - kernel.start, f))
    || Overlaps(info, 116, f)
    || (mbi.hasMap && Overlaps(mbi.mapAddr, mbi.mapLen, f))
  }

  function Ranges(mbi: Info, kernel: Range, info: nat): seq<Range> {
    BootRanges(kernel, info, mbi.mapAddr, if mbi.hasMap then mbi.mapLen else 0)
  }

  lemma ReservesOverlap(r: Range, len: nat, f: nat)
    requires Reserves(r, f) && r.end <= r.start + len
    ensures Overlaps(r.start, len, f)
  {
    WrapLess(r.end + PAGE - 1);
  }

  lemma WrapLess(n: nat)
    ensures n % U32 <= n
  {
  }

  /** Only occupied frames are reserved. */
  lemma ReservedIsOccupied(mbi: Info, kernel: Range, info: nat, f: nat)
    requires AnyReserves(Ranges(mbi, kernel, info), f)
    ensures Occupied(mbi, kernel, info, f)
  {
    var rs := Ranges(mbi, kernel, info);
    var i :| 0 <= i < |rs| && Reserves(rs[i], f);
    if i == 0 {
      ReservesOverlap(rs[0], 0x10_0000, f);
    } else if i == 1 {
      ReservesOverlap(kernel, kernel.end - kernel.start, f);
    } else if i == 2 {
      WrapLess(info + 116);
      ReservesOverlap(rs[2], 116, f);
    } else {
      WrapLess(mbi.mapAddr + mbi.mapLen);
      ReservesOverlap(rs[3], mbi.mapLen, f);
    }
  }

  lemma {:induction false} RegionsBelow(entries: seq<Entry>, i: nat)
    requires forall k :: 0 <= k < |entries| && entries[k].kind == AVAILABLE ==> RegionEnd(entries[k]) < U32
    requires i < |entries| && entries[i].kind == AVAILABLE
    ensures RegionEnd(entries[i]) <= Highest(entries)
  {
    HighestCoversExactly(entries);
  }

  /** With a memory map none of whose available regions reaches 4 GiB: every frame that lies in one
      of them and is not occupied is managed and free. */
  lemma AvailableIsFree(p: Phys, mbi: Info, kernel: Range, info: nat, i: nat, f: nat)
    requires Booted(p, mbi, kernel, info)
    requires mbi.hasMap && i < |mbi.entries| && mbi.entries[i].kind == 1
    requires forall k :: 0 <= k < |mbi.entries| && mbi.entries[k].kind == 1 ==>
               mbi.entries[k].addr + mbi.entries[k].len < U32
    requires FrameInside(mbi.entries[i], f) && !Occupied(mbi, kernel, info, f)
    ensures f < p.total && !Used(p.bm, f)
  {
    var e := mbi.entries[i];
    WholeFramesOffered(e, f);
    RegionsBelow(mbi.entries, i);
    assert RegionEnd(e) == e.addr + e.len;
    if AnyReserves(Ranges(mbi, kernel, info), f) { ReservedIsOccupied(mbi, kernel, info, f); }
    assert Offered(mbi.entries, f);
  }

  /** Without a map: every frame from 1 MiB up to the end of upper memory that is not occupied. */
  lemma UpperIsFree(p: Phys, mbi: Info, kernel: Range, info: nat, f: nat)
    requires Booted(p, mbi, kernel, info)
    requires !mbi.hasMap && mbi.hasMem && 0x10_0000 + mbi.memUpper * 1024 < U32
    requires (f + 1) * 4096 <= 0x10_0000 + mbi.memUpper * 1024 && !Occupied(mbi, kernel, info, f)
    ensures f < p.total && !Used(p.bm, f)
  {
    if AnyReserves(Ranges(mbi, kernel, info), f) { ReservedIsOccupied(mbi, kernel, info, f); }
    assert (LOW_MEMORY + mbi.memUpper * 1024) % U32 == LOW_MEMORY + mbi.memUpper * 1024;
    assert BootHighest(mbi) == 0x10_0000 + mbi.memUpper * 1024;
  }

  lemma OverlapReserves(r: Range, start: nat, len: nat, f: nat)
    requires start + len <= 0xFFFF_F000 && Overlaps(start, len, f) && r == Range(start, start + len)
    ensures Reserves(r, f)
  {
    assert (start + len + PAGE - 1) % U32 == start + len + PAGE - 1;
  }

  /** A frame that one of the boot ranges reserves is used. */
  lemma RangeIsUsed(p: Phys, mbi: Info, kernel: Range, info: nat, i: nat, f: nat)
    requires Booted(p, mbi, kernel, info) && f < p.total
    requires i < |Ranges(mbi, kernel, info)| && Reserves(Ranges(mbi, kernel, info)[i], f)
    ensures Used(p.bm, f)
  {
    assert AnyReserves(Ranges(mbi, kernel, info), f);
  }

  lemma NoWrap(n: nat)
    requires n < U32
    ensures n % U32 == n
  {
  }

  /** No frame that is occupied is free, as long as what occupies it ends below the last page. */
  lemma OccupiedIsUsed(p: Phys, mbi: Info, kernel: Range, info: nat, f: nat)
    requires Booted(p, mbi, kernel, info) && f < p.total && Occupied(mbi, kernel, info, f)
    requires kernel.end <= 0xFFFF_F000 && info + 116 <= 0xFFFF_F000 && mbi.mapAddr + mbi.mapLen <= 0xFFFF_F000
    ensures Used(p.bm, f)
  {
    var rs := Ranges(mbi, kernel, info);
    if Overlaps(0, 0x10_0000, f) {
      OverlapReserves(rs[0], 0, 0x10_0000, f);
      RangeIsUsed(p, mbi, kernel, info, 0, f);
    } else if kernel.start < kernel.end && Overlaps(kernel.start, kernel.end - kernel.start, f) {
      OverlapReserves(rs[1], kernel.start, kernel.end - kernel.start, f);
      RangeIsUsed(p, mbi, kernel, info, 1, f);
    } else if Overlaps(info, 116, f) {
      NoWrap(info + 116);
      OverlapReserves(rs[2], info, 116, f);
      RangeIsUsed(p, mbi, kernel, info, 2, f);
    } else {
      NoWrap(mbi.mapAddr + mbi.mapLen);
      OverlapReserves(rs[3], mbi.mapAddr, mbi.mapLen, f);
      RangeIsUsed(p, mbi, kernel, info, 3, f);
    }
  }

  lemma {:induction false} RecordedHas(rs: seq<Range>, i: nat)
    requires i < |rs| && rs[i].start < rs[i].end
    ensures rs[i] in Recorded(rs)
    decreases |rs|
  {
    if i < |rs| - 1 { RecordedHas(rs[..|rs| - 1], i); }
  }

  lemma RangeProtects(p: Phys, rs: seq<Range>, i: nat, a: nat)
    requires p.prot == Recorded(rs) && i < |rs| && rs[i].start <= a < rs[i].end
    ensures Protected(p.prot, a)
  {
    RecordedHas(rs, i);
    var j :| 0 <= j < |p.prot| && p.prot[j] == rs[i];
    assert Covers(p.prot[j], a);
  }

  /** Every byte of low memory, the kernel, the boot information and the memory map is protected. */
  lemma OccupiedIsProtected(p: Phys, mbi: Info, kernel: Range, info: nat, a: nat)
    requires Booted(p, mbi, kernel, info) && info + 116 < U32 && mbi.mapAddr + mbi.mapLen < U32
    requires a < 0x10_0000 || kernel.start <= a < kernel.end || info <= a < info + 116
             || (mbi.hasMap && mbi.mapAddr <= a < mbi.mapAddr + mbi.mapLen)
    ensures Protected(p.prot, a)
  {
    var rs := Ranges(mbi, kernel, info);
    if a < 0x10_0000 {
      RangeProtects(p, rs, 0, a);
    } else if kernel.start <= a < kernel.end {
      RangeProtects(p, rs, 1, a);
    } else if info <= a < info + 116 {
      RangeProtects(p, rs, 2, a);
    } else {
      RangeProtects(p, rs, 3, a);
    }
  }
}
