/** The physical memory manager: which frames a boot leaves free, and what any run of
    allocations and frees keeps. */
module PhysicalMemory {
  import opened Common
  import opened FrameBitmap

  const U64 := 0x1_0000_0000_0000_0000
  const MAX_FRAMES := 0x10_0000
  const LOW_MEMORY := 0x10_0000
  const MAX_PROT := 6
  const BOOT_MAGIC := 0x2BAD_B002
  const INFO_SIZE := 116          // sizeof(multiboot_info_t)
  const AVAILABLE := 1

  // ----- ranges -----

  /** A recorded protected range [start, end). */
  datatype Range = Range(start: nat, end: nat)

  predicate Covers(r: Range, a: nat) {
    r.start <= a < r.end
  }

  predicate Protected(prot: seq<Range>, a: nat) {
    exists i :: 0 <= i < |prot| && Covers(prot[i], a)
  }

  /** The frame's base is protected, which is all pmm_free_frame looks at. */
  predicate Guarded(prot: seq<Range>, f: nat) {
    Protected(prot, f * PAGE)
  }

  /** The frames reserve_range visits: rounded outwards, the end in 32-bit arithmetic. */
  predicate Reserves(r: Range, f: nat) {
    r.start < r.end && r.start / PAGE <= f < (r.end + PAGE - 1) % U32 / PAGE
  }

  /** Does the 32-bit rounding of the end work for this range? */
  predicate Sane(r: Range) {
    r.start >= r.end || r.end <= 0xFFFF_F000 || r.start > 0xFFFF_E000
  }

  /** Every frame below the highest possible total whose base the range protects is reserved,
      exactly when the range is sane: ending above 0xFFFFF000 makes the rounding wrap to zero. */
  lemma ReservesCoveredExactly(r: Range)
    requires r.end < U32
    ensures Sane(r) <==> forall f: nat :: f < 0xF_FFFF && Covers(r, f * PAGE) ==> Reserves(r, f)
  {
    if !Sane(r) {
      var f := (r.start + PAGE - 1) / PAGE;
      assert (r.end + PAGE - 1) % U32 / PAGE == 0;
      assert f < 0xF_FFFF && Covers(r, f * PAGE) && !Reserves(r, f);
    }
  }

  /** Every reserved frame is also protected from being freed exactly when the range starts on a
      page boundary. */
  lemma ReservedIsProtectedExactly(r: Range)
    requires r.start < r.end <= 0xFFFF_F000
    ensures r.start % PAGE == 0 <==> forall f: nat :: Reserves(r, f) ==> Covers(r, f * PAGE)
  {
    var f := r.start / PAGE;
    assert Reserves(r, f);
    if r.start % PAGE != 0 { assert !Covers(r, f * PAGE); }
  }

  // ----- what boot leaves -----

  datatype Entry = Entry(addr: nat, len: nat, kind: nat)

  /** End of a region, in 64-bit arithmetic, capped at 4 GiB. */
  function RegionEnd(e: Entry): nat {
    var rend := (e.addr + e.len) % U64;
    if rend > U32 then U32 else rend
  }

  /** The frames pmm_init frees for a region: both ends rounded down, the first frame in 32-bit
      arithmetic. */
  predicate InRegion(e: Entry, f: nat) {
    e.kind == AVAILABLE && e.addr / PAGE % U32 <= f < RegionEnd(e) / PAGE
  }

  /** The frame lies in the region. */
  predicate FrameInside(e: Entry, f: nat) {
    e.addr <= f * PAGE && (f + 1) * PAGE <= e.addr + e.len
  }

  /** Either nothing is freed, or the region starts on a page boundary below 2^44. */
  predicate StartsWhole(e: Entry) {
    e.addr / PAGE % U32 >= RegionEnd(e) / PAGE || (e.addr % PAGE == 0 && e.addr / PAGE < U32)
  }

  /** Every frame freed lies in the region exactly then: a start inside a page is rounded down,
      one at or above 2^44 is truncated. */
  lemma WholeFramesExactly(e: Entry)
    requires e.kind == AVAILABLE && e.addr < U64 && e.len < U64
    ensures (forall f: nat :: InRegion(e, f) ==> FrameInside(e, f)) <==> StartsWhole(e)
  {
    if StartsWhole(e) {
      forall f: nat | InRegion(e, f) ensures FrameInside(e, f) { InsideIfWhole(e, f); }
    } else {
      var f := e.addr / PAGE % U32;
      assert InRegion(e, f) && !FrameInside(e, f);
    }
  }

  lemma InsideIfWhole(e: Entry, f: nat)
    requires e.kind == AVAILABLE && e.addr % PAGE == 0 && e.addr / PAGE < U32 && InRegion(e, f)
    ensures FrameInside(e, f)
  {
    assert e.addr / PAGE % U32 == e.addr / PAGE;
    assert RegionEnd(e) <= e.addr + e.len;
  }

  /** And every frame that lies in a region below 4 GiB is freed. */
  lemma WholeFramesOffered(e: Entry, f: nat)
    requires e.kind == AVAILABLE && e.addr + e.len <= U32 && FrameInside(e, f)
    ensures InRegion(e, f)
  {
    assert RegionEnd(e) == e.addr + e.len;
    assert e.addr / PAGE % U32 == e.addr / PAGE;
  }

  /** A region from the middle of one page to the end of another: its first frame is freed though
      the first half of it lies outside. */
  lemma PartialFrameOffered()
    ensures var e := Entry(0x10_0800, 0x10_0800, AVAILABLE);
            InRegion(e, 0x100) && !FrameInside(e, 0x100) && !StartsWhole(e)
  {
  }

  predicate Offered(entries: seq<Entry>, f: nat) {
    exists i :: 0 <= i < |entries| && InRegion(entries[i], f)
  }

  /** The running `highest`, truncated to 32 bits as it is stored. */
  function Highest(entries: seq<Entry>): (h: nat)
    ensures h < U32
  {
    if entries == [] then 0
    else
      var h, e := Highest(entries[..|entries| - 1]), entries[|entries| - 1];
      if e.kind == AVAILABLE && RegionEnd(e) > h then RegionEnd(e) % U32 else h
  }

  /** `highest` is at least the end of every available region exactly when none of them reaches
      4 GiB: one that does is capped to 2^32, which is stored as zero. */
  lemma {:induction false} HighestCoversExactly(entries: seq<Entry>)
    ensures (forall i :: 0 <= i < |entries| && entries[i].kind == AVAILABLE ==> RegionEnd(entries[i]) < U32) <==>
            (forall i :: 0 <= i < |entries| && entries[i].kind == AVAILABLE ==>
               RegionEnd(entries[i]) <= Highest(entries))
    decreases |entries|
  {
    if entries != [] && forall i :: 0 <= i < |entries| && entries[i].kind == AVAILABLE ==> RegionEnd(entries[i]) < U32 {
      var init := entries[..|entries| - 1];
      HighestCoversExactly(init);
      forall i | 0 <= i < |entries| && entries[i].kind == AVAILABLE
        ensures RegionEnd(entries[i]) <= Highest(entries)
      {
        if i < |entries| - 1 { assert init[i] == entries[i]; }
      }
    }
  }

  /** In particular a map whose last available region lies at or above 4 GiB leaves the manager
      with no frames at all. */
  lemma TopRegionLosesMemory(entries: seq<Entry>, e: Entry)
    requires e.kind == AVAILABLE && RegionEnd(e) == U32
    ensures Highest(entries + [e]) == 0
  {
    assert (entries + [e])[..|entries|] == entries;
  }

  /** The ranges pmm_init records, in order. */
  function BootRanges(kernel: Range, info: nat, mmapAddr: nat, mmapLen: nat): seq<Range> {
    [Range(0, LOW_MEMORY), kernel, Range(info, (info + INFO_SIZE) % U32)]
    + if mmapLen != 0 then [Range(mmapAddr, (mmapAddr + mmapLen) % U32)] else []
  }

  // ----- runs -----

  /** The manager's state after boot. */
  datatype Phys = Phys(bm: seq<bv8>, total: nat, prot: seq<Range>)

  ghost predicate Ready(p: Phys) {
    p.total <= 8 * |p.bm| && p.total <= MAX_FRAMES
  }

  /** Every frame whose base is protected is used. */
  ghost predicate Safe(p: Phys)
    requires Ready(p)
  {
    forall f: nat :: f < p.total && Guarded(p.prot, f) ==> Used(p.bm, f)
  }

  /** pmm_alloc_frame as a step: the address handed out, 0 for none. */
  ghost predicate AllocStep(p: Phys, p': Phys, a: nat)
    requires Ready(p)
  {
    var f := FirstFree(p.bm, 0, p.total);
    if f == p.total then p' == p && a == 0
    else
      && a == f * PAGE && p'.total == p.total && p'.prot == p.prot
      && SameBut(p.bm, p'.bm, f) && Used(p'.bm, f)
  }

  /** pmm_free_frame's answer. */
  function FreeAnswer(p: Phys, a: nat): int
    requires p.total <= 8 * |p.bm|
  {
    if a % PAGE != 0 || a / PAGE >= p.total then -1
    else if Protected(p.prot, a) then -2
    else if !Used(p.bm, a / PAGE) then -3
    else 0
  }

  ghost predicate FreeStep(p: Phys, p': Phys, a: nat, answer: int)
    requires Ready(p)
  {
    && answer == FreeAnswer(p, a)
    && if answer != 0 then p' == p
       else
         && p'.total == p.total && p'.prot == p.prot
         && SameBut(p.bm, p'.bm, a / PAGE) && !Used(p'.bm, a / PAGE)
  }

  datatype Op = Alloc | Free(a: nat)

  ghost predicate Step(p: Phys, op: Op, p': Phys, answer: int)
    requires Ready(p)
  {
    match op
    case Alloc => answer >= 0 && AllocStep(p, p', answer)
    case Free(a) => FreeStep(p, p', a, answer)
  }

  lemma StepKeepsSafe(p: Phys, op: Op, p': Phys, answer: int)
    requires Ready(p) && Safe(p) && Step(p, op, p', answer)
    ensures Ready(p') && Safe(p') && p'.prot == p.prot && p'.total == p.total
    ensures op.Alloc? && answer > 0 ==> !Protected(p.prot, answer)
  {
    forall f: nat | f < p'.total && Guarded(p'.prot, f) ensures Used(p'.bm, f) {
      assert Used(p.bm, f);
    }
  }

  datatype Run = Run(states: seq<Phys>, ops: seq<Op>, answers: seq<int>)

  ghost predicate IsRun(run: Run) {
    && |run.states| == |run.ops| + 1 && |run.answers| == |run.ops|
    && forall i: nat :: i < |run.ops| ==> RunStep(run, i)
  }

  ghost predicate RunStep(run: Run, i: nat)
    requires |run.states| == |run.ops| + 1 && |run.answers| == |run.ops| && i < |run.ops|
  {
    Ready(run.states[i]) && Step(run.states[i], run.ops[i], run.states[i + 1], run.answers[i])
  }

  lemma {:induction false} RunsStaySafe(run: Run, i: nat)
    requires IsRun(run) && Ready(run.states[0]) && Safe(run.states[0]) && i < |run.states|
    ensures Ready(run.states[i]) && Safe(run.states[i]) && run.states[i].prot == run.states[0].prot
    ensures run.states[i].total == run.states[0].total
  {
    if i > 0 {
      RunsStaySafe(run, i - 1);
      assert RunStep(run, i - 1);
      StepKeepsSafe(run.states[i - 1], run.ops[i - 1], run.states[i], run.answers[i - 1]);
    }
  }

  /** In any run, with any arguments to free, no protected frame is ever handed out. So with low
      memory protected the answer 0 always means that nothing was free. */
  lemma ProtectedNeverHandedOut(run: Run, i: nat)
    requires IsRun(run) && Ready(run.states[0]) && Safe(run.states[0]) && i < |run.ops| && run.ops[i].Alloc?
    ensures run.answers[i] >= 0
    ensures run.answers[i] > 0 ==> !Protected(run.states[0].prot, run.answers[i])
    ensures Protected(run.states[0].prot, 0) ==>
              var p := run.states[i]; Ready(p) && (run.answers[i] == 0 <==> AllUsed(p.bm, 0, p.total))
  {
    RunsStaySafe(run, i);
    assert RunStep(run, i);
    StepKeepsSafe(run.states[i], run.ops[i], run.states[i + 1], run.answers[i]);
  }

  // ----- what free answers -----

  lemma {:induction false} RunsKeepRanges(run: Run, i: nat)
    requires IsRun(run) && Ready(run.states[0]) && i < |run.states|
    ensures Ready(run.states[i])
    ensures run.states[i].prot == run.states[0].prot && run.states[i].total == run.states[0].total
  {
    if i > 0 {
      RunsKeepRanges(run, i - 1);
      assert RunStep(run, i - 1);
    }
  }

  /** At any point of any run: -1 exactly for an address that is not a frame of the manager's, and
      else -2 exactly for a protected one. */
  lemma BadFreesRefused(run: Run, j: nat)
    requires IsRun(run) && Ready(run.states[0]) && j < |run.ops| && run.ops[j].Free?
    ensures var a, p := run.ops[j].a, run.states[0];
            && (run.answers[j] == -1 <==> a % 4096 != 0 || a / 4096 >= p.total)
            && (run.answers[j] == -2 <==> a % 4096 == 0 && a / 4096 < p.total && Protected(p.prot, a))
  {
    RunsKeepRanges(run, j);
    assert RunStep(run, j);
  }

  /** The call hands out the frame at `a`. */
  predicate HandsOut(run: Run, k: nat, a: nat) {
    k < |run.ops| && k < |run.answers| && run.ops[k].Alloc? && run.answers[k] == a
  }

  lemma {:induction false} FreedStaysFree(run: Run, i: nat, j: nat)
    requires IsRun(run) && Ready(run.states[0]) && i < j < |run.states|
    requires run.ops[i].Free? && run.answers[i] == 0
    requires forall k: nat :: i < k < j ==> !HandsOut(run, k, run.ops[i].a)
    ensures var a, p := run.ops[i].a, run.states[j];
            && Ready(p) && a % PAGE == 0 && a / PAGE < p.total && !Protected(p.prot, a) && !Used(p.bm, a / PAGE)
    decreases j
  {
    RunsKeepRanges(run, j - 1);
    assert RunStep(run, j - 1);
    if j == i + 1 { return; }
    FreedStaysFree(run, i, j - 1);
    assert !HandsOut(run, j - 1, run.ops[i].a);
  }

  /** Freeing a frame again before it was handed out again answers -3, whatever happened between. */
  lemma DoubleFreeRefused(run: Run, i: nat, j: nat)
    requires IsRun(run) && Ready(run.states[0]) && i < j < |run.ops|
    requires run.ops[i].Free? && run.answers[i] == 0 && run.ops[j] == run.ops[i]
    requires forall k: nat :: i < k < j ==> !HandsOut(run, k, run.ops[i].a)
    ensures run.answers[j] == -3
  {
    FreedStaysFree(run, i, j);
    assert RunStep(run, j);
  }

  // ----- accounting -----

  /** The frames handed out and not freed yet, when only held frames are freed. */
  function HeldAfter(run: Run, i: nat): set<nat>
    requires i <= |run.ops| && |run.answers| == |run.ops|
  {
    if i == 0 then {} else HeldNext(HeldAfter(run, i - 1), run.ops[i - 1], run.answers[i - 1])
  }

  function HeldNext(held: set<nat>, op: Op, answer: int): set<nat> {
    match op
    case Alloc => if answer > 0 then held + {answer / PAGE} else held
    case Free(a) => held - {a / PAGE}
  }

  /** Held frames are in range, used and unprotected. */
  ghost predicate HeldOk(p: Phys, held: set<nat>)
    requires Ready(p)
  {
    forall f: nat :: f in held ==> f < p.total && Used(p.bm, f) && !Guarded(p.prot, f)
  }

  /** The held frames are as they should be, and with the free ones they number `sum`. */
  ghost predicate Accounted(p: Phys, held: set<nat>, sum: nat) {
    Ready(p) && HeldOk(p, held) && FreeCount(p.bm, p.total) + |held| == sum
  }

  lemma AllocAccounts(p: Phys, p': Phys, a: nat, held: set<nat>)
    requires Ready(p) && Safe(p) && Protected(p.prot, 0) && AllocStep(p, p', a) && HeldOk(p, held)
    ensures var held' := if a > 0 then held + {a / PAGE} else held;
            && Ready(p') && HeldOk(p', held') && (a > 0 ==> a / PAGE !in held)
            && FreeCount(p'.bm, p'.total) + |held'| == FreeCount(p.bm, p.total) + |held|
  {
    var f := FirstFree(p.bm, 0, p.total);
    assert Guarded(p.prot, 0);
    if f < p.total {
      assert a / PAGE == f && !Guarded(p.prot, f);
      FreeCountFlip(p.bm, p'.bm, p.total, f);
    }
  }

  lemma FreeAccounts(p: Phys, p': Phys, a: nat, answer: int, held: set<nat>)
    requires Ready(p) && FreeStep(p, p', a, answer) && HeldOk(p, held) && a % PAGE == 0 && a / PAGE in held
    ensures answer == 0 && Ready(p') && HeldOk(p', held - {a / PAGE})
    ensures FreeCount(p'.bm, p'.total) + |held - {a / PAGE}| == FreeCount(p.bm, p.total) + |held|
  {
    assert a / PAGE * PAGE == a;
    FreeCountFlip(p.bm, p'.bm, p.total, a / PAGE);
  }

  /** Freed frames are held ones. */
  predicate HeldOnly(op: Op, held: set<nat>) {
    op.Free? ==> op.a % PAGE == 0 && op.a / PAGE in held
  }

  /** Frees succeed; allocations never return a frame that is held. */
  predicate AnswerOk(op: Op, answer: int, held: set<nat>) {
    match op
    case Alloc => answer > 0 ==> answer / PAGE !in held
    case Free(_) => answer == 0
  }

  lemma StepAccounts(p: Phys, op: Op, p': Phys, answer: int, held: set<nat>, sum: nat)
    requires Ready(p) && Safe(p) && Protected(p.prot, 0) && Step(p, op, p', answer) && HeldOnly(op, held)
    requires Accounted(p, held, sum)
    ensures Accounted(p', HeldNext(held, op, answer), sum) && AnswerOk(op, answer, held)
  {
    match op
    case Alloc => AllocAccounts(p, p', answer, held);
    case Free(a) => FreeAccounts(p, p', a, answer, held);
  }

  ghost predicate FreesOnlyHeld(run: Run)
    requires |run.answers| == |run.ops|
  {
    forall i: nat :: i < |run.ops| ==> HeldOnlyAt(run, i)
  }

  predicate HeldOnlyAt(run: Run, i: nat)
    requires i < |run.ops| && |run.answers| == |run.ops|
  {
    HeldOnly(run.ops[i], HeldAfter(run, i))
  }

  /** Everything the accounting needs of state i. */
  ghost predicate InOrder(run: Run, i: nat, sum: nat)
    requires i <= |run.ops| && |run.answers| == |run.ops| && |run.states| == |run.ops| + 1
  {
    var p := run.states[i];
    Ready(p) && Safe(p) && Protected(p.prot, 0) && Accounted(p, HeldAfter(run, i), sum)
  }

  lemma StepInOrder(run: Run, i: nat, sum: nat)
    requires i < |run.ops| && |run.answers| == |run.ops| && |run.states| == |run.ops| + 1
    requires RunStep(run, i) && HeldOnlyAt(run, i) && InOrder(run, i, sum)
    ensures InOrder(run, i + 1, sum) && AnswerOk(run.ops[i], run.answers[i], HeldAfter(run, i))
  {
    StepKeepsSafe(run.states[i], run.ops[i], run.states[i + 1], run.answers[i]);
    StepAccounts(run.states[i], run.ops[i], run.states[i + 1], run.answers[i], HeldAfter(run, i), sum);
  }

  lemma {:induction false} RunsStayInOrder(run: Run, i: nat, sum: nat)
    requires IsRun(run) && FreesOnlyHeld(run) && i < |run.states| && InOrder(run, 0, sum)
    ensures InOrder(run, i, sum)
    ensures i > 0 ==> AnswerOk(run.ops[i - 1], run.answers[i - 1], HeldAfter(run, i - 1))
  {
    if i > 0 {
      RunsStayInOrder(run, i - 1, sum);
      assert RunStep(run, i - 1) && HeldOnlyAt(run, i - 1);
      StepInOrder(run, i - 1, sum);
    }
  }

  /** In runs that free only what they hold: such frees always succeed, no frame is handed out
      while it is held, and free + held stays what was free at the start. */
  lemma RunsAccount(run: Run, i: nat)
    requires IsRun(run) && Ready(run.states[0]) && Safe(run.states[0]) && Protected(run.states[0].prot, 0)
    requires FreesOnlyHeld(run) && i < |run.states|
    ensures Ready(run.states[i]) && HeldOk(run.states[i], HeldAfter(run, i))
    ensures FreeCount(run.states[i].bm, run.states[i].total) + |HeldAfter(run, i)|
         == FreeCount(run.states[0].bm, run.states[0].total)
    ensures i > 0 ==> AnswerOk(run.ops[i - 1], run.answers[i - 1], HeldAfter(run, i - 1))
  {
    RunsStayInOrder(run, i, FreeCount(run.states[0].bm, run.states[0].total));
  }

  /** With the counters pmm_init leaves, usable = free + reserved + held at every point. */
  lemma FramesBalance(run: Run, i: nat, usable: nat, reserved: nat)
    requires IsRun(run) && Ready(run.states[0]) && Safe(run.states[0]) && Protected(run.states[0].prot, 0)
    requires FreesOnlyHeld(run) && i < |run.states|
    requires usable == FreeCount(run.states[0].bm, run.states[0].total) + reserved
    ensures Ready(run.states[i])
    ensures usable == FreeCount(run.states[i].bm, run.states[i].total) + reserved + |HeldAfter(run, i)|
  {
    RunsAccount(run, i);
  }

  // ----- the manager itself -----

  function Min(a: nat, b: nat): nat { if a < b then a else b }

  /** What pmm_init reads from the boot loader's information. */
  datatype Info = Info(hasMem: bool, memUpper: nat, hasMap: bool, mapAddr: nat, mapLen: nat, entries: seq<Entry>)

  /** A map of no length has no entries; nothing else ties the two. */
  predicate MapRead(mbi: Info) {
    mbi.mapLen == 0 ==> mbi.entries == []
  }

  function BootHighest(mbi: Info): (h: nat)
    ensures h < U32
  {
    if mbi.hasMap then Highest(mbi.entries)
    else if mbi.hasMem then (LOW_MEMORY + mbi.memUpper * 1024) % U32
    else 0
  }

  /** The frames the boot information offers: the map's, or memory from 1 MiB up. */
  predicate BootOffers(mbi: Info, f: nat) {
    if mbi.hasMap then Offered(mbi.entries, f)
    else mbi.hasMem && LOW_MEMORY / PAGE <= f < BootHighest(mbi) / PAGE
  }

  /** How many frames below n the boot information offers. */
  function OfferedBelow(mbi: Info, n: nat): nat {
    if n == 0 then 0 else OfferedBelow(mbi, n - 1) + if BootOffers(mbi, n - 1) then 1 else 0
  }

  lemma {:induction false} OfferedAreCounted(mbi: Info, bm: seq<bv8>, n: nat)
    requires n <= 8 * |bm| && forall f: nat :: f < n ==> Used(bm, f) == !BootOffers(mbi, f)
    ensures FreeCount(bm, n) == OfferedBelow(mbi, n)
  {
    if n > 0 { OfferedAreCounted(mbi, bm, n - 1); }
  }

  predicate AnyReserves(rs: seq<Range>, f: nat) {
    exists i :: 0 <= i < |rs| && Reserves(rs[i], f)
  }

  /** reserve_range skips empty ranges. */
  function Recorded(rs: seq<Range>): seq<Range> {
    if rs == [] then []
    else
      var init, r := Recorded(rs[..|rs| - 1]), rs[|rs| - 1];
      if r.start < r.end then init + [r] else init
  }

  lemma {:induction false} RecordedReserve(rs: seq<Range>, f: nat)
    ensures AnyReserves(rs, f) <==> AnyReserves(Recorded(rs), f)
    ensures |Recorded(rs)| <= |rs|
    decreases |rs|
  {
    if rs != [] {
      var init, r := rs[..|rs| - 1], rs[|rs| - 1];
      RecordedReserve(init, f);
      ReserveSplit(init, r, f);
      assert rs == init + [r];
      if r.start < r.end { ReserveSplit(Recorded(init), r, f); }
    }
  }

  lemma ReserveSplit(rs: seq<Range>, r: Range, f: nat)
    ensures AnyReserves(rs + [r], f) <==> AnyReserves(rs, f) || Reserves(r, f)
  {
    var all := rs + [r];
    if AnyReserves(rs, f) {
      var i :| 0 <= i < |rs| && Reserves(rs[i], f);
      assert all[i] == rs[i];
    }
    assert all[|rs|] == r;
  }

  lemma OfferSplit(es: seq<Entry>, e: Entry, f: nat)
    ensures Offered(es + [e], f) <==> Offered(es, f) || InRegion(e, f)
  {
    var all := es + [e];
    if Offered(es, f) {
      var i :| 0 <= i < |es| && InRegion(es[i], f);
      assert all[i] == es[i];
    }
    assert all[|es|] == e;
  }

  /** With sane ranges, reserving makes every protected frame used. */
  lemma ReservedIsSafe(p: Phys)
    requires Ready(p) && p.total <= 0xF_FFFF
    requires forall i :: 0 <= i < |p.prot| ==> p.prot[i].end < U32 && Sane(p.prot[i])
    requires forall f: nat :: f < p.total && AnyReserves(p.prot, f) ==> Used(p.bm, f)
    ensures Safe(p)
  {
    forall f: nat | f < p.total && Guarded(p.prot, f) ensures Used(p.bm, f) {
      var i :| 0 <= i < |p.prot| && Covers(p.prot[i], f * PAGE);
      ReservesCoveredExactly(p.prot[i]);
    }
  }

  /** Between the two bitmaps exactly the frames below `total` that some range reserves became used. */
  ghost predicate ReservedBy(rs: seq<Range>, bm: seq<bv8>, bm': seq<bv8>, total: nat) {
    |bm'| == |bm| && forall g: nat :: g / 8 < |bm| ==> ReservedAt(rs, bm, bm', total, g)
  }

  ghost predicate ReservedAt(rs: seq<Range>, bm: seq<bv8>, bm': seq<bv8>, total: nat, g: nat)
    requires |bm'| == |bm| && g / 8 < |bm|
  {
    Used(bm', g) == ((AnyReserves(rs, g) && g < total) || Used(bm, g))
  }

  /** What pmm_init leaves: a frame below the total is free exactly when the boot information
      offers it and no range reserves it. */
  ghost predicate Booted(p: Phys, mbi: Info, kernel: Range, info: nat) {
    var ranges := BootRanges(kernel, info, mbi.mapAddr, if mbi.hasMap then mbi.mapLen else 0);
    && MapRead(mbi) && Ready(p) && p.total == BootHighest(mbi) / PAGE && p.prot == Recorded(ranges)
    && forall f: nat :: f < p.total ==> (!Used(p.bm, f) <==> BootOffers(mbi, f) && !AnyReserves(ranges, f))
  }

  class Manager {
    const bm: array<bv8>
    var total: nat
    var usable: nat
    var reserved: nat
    var prot: seq<Range>

    constructor (bm: array<bv8>)
      ensures this.bm == bm && total == 0 && prot == []
    {
      this.bm := bm;
      total, usable, reserved, prot := 0, 0, 0, [];
    }

    ghost function View(): Phys
      reads this, bm
    {
      Phys(bm[..], total, prot)
    }

    /** reserve_range. */
    method ReserveRange(r: Range)
      requires r.end < U32 && Ready(View()) && |prot| <= MAX_PROT
      modifies `reserved, `prot, bm
      ensures forall g: nat :: g / 8 < bm.Length ==>
                Used(bm[..], g) == ((Reserves(r, g) && g < total) || Used(old(bm[..]), g))
      ensures reserved + FreeCount(bm[..], total) == old(reserved) + FreeCount(old(bm[..]), total)
      ensures prot == if r.start < r.end && |old(prot)| < MAX_PROT then old(prot) + [r] else old(prot)
    {
      if r.end <= r.start {
        return;
      }
      MarkReserved(r.start / PAGE, (r.end + PAGE - 1) % U32 / PAGE);
      if |prot| < MAX_PROT {
        prot := prot + [r];
      }
    }

    /** The loop of reserve_range: flip the free frames in [f0, f1) below the total. */
    method MarkReserved(f0: nat, f1: nat)
      requires Ready(View())
      modifies `reserved, bm
      ensures forall g: nat :: g / 8 < bm.Length ==>
                Used(bm[..], g) == ((f0 <= g < f1 && g < total) || Used(old(bm[..]), g))
      ensures reserved + FreeCount(bm[..], total) == old(reserved) + FreeCount(old(bm[..]), total)
    {
      var f := f0;
      while f < f1 && f < total
        invariant f0 <= f && (f <= total || f == f0) && (f <= f1 || f == f0)
        invariant forall g: nat :: g / 8 < bm.Length ==> Used(bm[..], g) == (f0 <= g < f || Used(old(bm[..]), g))
        invariant reserved + FreeCount(bm[..], total) == old(reserved) + FreeCount(old(bm[..]), total)
      {
        var used := Test(bm, f);
        if !used {
          ghost var before := bm[..];
          MarkUsed(bm, f);
          FreeCountFlip(before, bm[..], total, f);
          reserved := reserved + 1;
        }
        f := f + 1;
      }
    }

    /** The inner loop of pmm_init over one region's frames. */
    method FreeFrom(f0: nat, f1: nat)
      requires bm.Length == MAX_FRAMES / 8
      modifies bm
      ensures forall g: nat :: g / 8 < bm.Length ==> Used(bm[..], g) == (!(f0 <= g < f1) && Used(old(bm[..]), g))
    {
      var f := f0;
      while f < f1 && f < MAX_FRAMES
        invariant f0 <= f && (f <= f1 || f == f0) && (f <= MAX_FRAMES || f == f0)
        invariant forall g: nat :: g / 8 < bm.Length ==> Used(bm[..], g) == (!(f0 <= g < f) && Used(old(bm[..]), g))
      {
        MarkFree(bm, f);
        f := f + 1;
      }
    }

    /** The walk over the memory map. */
    method FreeOffered(entries: seq<Entry>) returns (highest: nat)
      requires bm.Length == MAX_FRAMES / 8 && AllUsed(bm[..], 0, MAX_FRAMES)
      modifies bm
      ensures highest == Highest(entries)
      ensures forall f: nat :: f < MAX_FRAMES ==> Used(bm[..], f) == !Offered(entries, f)
    {
      highest := 0;
      var i := 0;
      while i < |entries|
        invariant 0 <= i <= |entries| && highest == Highest(entries[..i])
        invariant forall f: nat :: f < MAX_FRAMES ==> Used(bm[..], f) == !Offered(entries[..i], f)
      {
        var e := entries[i];
        ghost var before := bm[..];
        assert entries[..i + 1] == entries[..i] + [e] && entries[..i + 1][..i] == entries[..i];
        if e.kind == AVAILABLE {
          var rend := (e.addr + e.len) % U64;
          if rend > U32 { rend := U32; }
          if rend > highest { highest := rend % U32; }
          FreeFrom(e.addr / PAGE % U32, rend / PAGE);
        }
        forall f: nat | f < MAX_FRAMES ensures Used(bm[..], f) == !Offered(entries[..i + 1], f) {
          OfferSplit(entries[..i], e, f);
        }
        i := i + 1;
      }
      assert entries[..i] == entries;
    }

    /** pmm_init. Without boot information nothing is managed. Otherwise a frame below the total
        is free exactly when the boot information offers it and no range reserves it; usable
        counts the offered frames, so usable = free + reserved even where ranges overlap. */
    method Init(magic: nat, info: nat, mbi: Info, kernel: Range)
      requires bm.Length == MAX_FRAMES / 8 && kernel.end < U32 && MapRead(mbi)
      modifies this, bm
      ensures Ready(View()) && total <= 0xF_FFFF
      ensures magic != BOOT_MAGIC || info == 0 ==> total == 0 && prot == []
      ensures magic == BOOT_MAGIC && info != 0 ==>
                && Booted(View(), mbi, kernel, info) && Protected(prot, 0)
                && ((forall i :: 0 <= i < |prot| ==> Sane(prot[i])) ==> Safe(View()))
      ensures usable == FreeCount(bm[..], total) + reserved
      ensures magic == BOOT_MAGIC && info != 0 ==> usable == OfferedBelow(mbi, total)
    {
      total, usable, reserved, prot := 0, 0, 0, [];
      FrameBitmap.Init(bm, MAX_FRAMES);
      if magic != BOOT_MAGIC || info == 0 {
        return;
      }
      var highest := 0;
      var mapLen := 0;
      if mbi.hasMap {
        mapLen := mbi.mapLen;
        highest := FreeOffered(mbi.entries);
      } else if mbi.hasMem {
        highest := (LOW_MEMORY + mbi.memUpper * 1024) % U32;
        FreeFrom(LOW_MEMORY / PAGE, highest / PAGE);
      }
      assert forall f: nat :: f < MAX_FRAMES ==> Used(bm[..], f) == !BootOffers(mbi, f);
      total := Min(highest / PAGE, MAX_FRAMES);
      usable := CountFree(bm, total);
      OfferedAreCounted(mbi, bm[..], total);
      ghost var ranges := BootRanges(kernel, info, mbi.mapAddr, mapLen);
      ghost var offered := bm[..];
      ReserveAll(kernel, info, mbi.mapAddr, mapLen);
      forall f: nat | f < total ensures !Used(bm[..], f) <==> BootOffers(mbi, f) && !AnyReserves(ranges, f) {
        assert ReservedAt(ranges, offered, bm[..], total, f);
      }
      BootSafe(View(), ranges);
    }

    /** The reservations at the end of pmm_init. */
    method ReserveAll(kernel: Range, info: nat, mapAddr: nat, mapLen: nat)
      requires kernel.end < U32 && Ready(View()) && prot == []
      modifies `reserved, `prot, bm
      ensures prot == Recorded(BootRanges(kernel, info, mapAddr, mapLen))
      ensures ReservedBy(BootRanges(kernel, info, mapAddr, mapLen), old(bm[..]), bm[..], total)
      ensures reserved + FreeCount(bm[..], total) == old(reserved) + FreeCount(old(bm[..]), total)
    {
      ghost var bm0 := bm[..];
      ghost var rs: seq<Range> := [];
      assert forall g: nat :: g / 8 < |bm0| ==> ReservedAt(rs, bm0, bm0, total, g);
      rs := ReserveNext(Range(0, LOW_MEMORY), rs, bm0);
      rs := ReserveNext(kernel, rs, bm0);
      rs := ReserveNext(Range(info, (info + INFO_SIZE) % U32), rs, bm0);
      assert rs == BootRanges(kernel, info, mapAddr, 0);
      if mapLen != 0 {
        rs := ReserveNext(Range(mapAddr, (mapAddr + mapLen) % U32), rs, bm0);
      }
      assert rs == BootRanges(kernel, info, mapAddr, mapLen);
    }

    method ReserveNext(r: Range, ghost rs: seq<Range>, ghost bm0: seq<bv8>) returns (ghost rs': seq<Range>)
      requires r.end < U32 && Ready(View()) && prot == Recorded(rs) && |rs| < MAX_PROT
      requires ReservedBy(rs, bm0, bm[..], total)
      modifies `reserved, `prot, bm
      ensures rs' == rs + [r] && prot == Recorded(rs') && ReservedBy(rs', bm0, bm[..], total)
      ensures reserved + FreeCount(bm[..], total) == old(reserved) + FreeCount(old(bm[..]), total)
    {
      RecordedReserve(rs, 0);
      ReserveRange(r);
      rs' := rs + [r];
      assert rs'[..|rs|] == rs;
      forall g: nat | g / 8 < |bm0| ensures ReservedAt(rs', bm0, bm[..], total, g) {
        assert ReservedAt(rs, bm0, old(bm[..]), total, g);
        ReserveSplit(rs, r, g);
      }
    }

    /** pmm_is_protected. */
    method IsProtected(a: nat) returns (yes: bool)
      ensures yes == Protected(prot, a)
    {
      for i := 0 to |prot|
        invariant forall j :: 0 <= j < i ==> !Covers(prot[j], a)
      {
        if prot[i].start <= a < prot[i].end {
          return true;
        }
      }
      yes := false;
    }

    /** pmm_alloc_frame. */
    method AllocFrame() returns (a: nat)
      requires Ready(View())
      modifies bm
      ensures AllocStep(old(View()), View(), a)
    {
      if total == 0 {
        return 0;
      }
      var f := FrameBitmap.Alloc(bm, total);
      if f == NONE {
        return 0;
      }
      a := f * PAGE;
    }

    /** pmm_free_frame. */
    method FreeFrame(a: nat) returns (answer: int)
      requires Ready(View())
      modifies bm
      ensures FreeStep(old(View()), View(), a, answer)
    {
      if a % PAGE != 0 {
        return -1;
      }
      var f := a / PAGE;
      if f >= total {
        return -1;
      }
      var p := IsProtected(a);
      if p {
        return -2;
      }
      var used := Test(bm, f);
      if !used {
        return -3;
      }
      MarkFree(bm, f);
      answer := 0;
    }
  }

  lemma BootSafe(p: Phys, ranges: seq<Range>)
    requires Ready(p) && p.total <= 0xF_FFFF && p.prot == Recorded(ranges)
    requires |ranges| > 0 && ranges[0] == Range(0, LOW_MEMORY) && forall i :: 0 <= i < |ranges| ==> ranges[i].end < U32
    requires forall f: nat :: f < p.total && AnyReserves(ranges, f) ==> Used(p.bm, f)
    ensures Protected(p.prot, 0)
    ensures (forall i :: 0 <= i < |p.prot| ==> Sane(p.prot[i])) ==> Safe(p)
  {
    RecordedFirst(ranges);
    assert Covers(p.prot[0], 0);
    if forall i :: 0 <= i < |p.prot| ==> Sane(p.prot[i]) {
      forall f: nat | f < p.total && AnyReserves(p.prot, f) ensures Used(p.bm, f) { RecordedReserve(ranges, f); }
      ReservedIsSafe(p);
    }
  }

  lemma {:induction false} RecordedFirst(rs: seq<Range>)
    requires |rs| > 0 && rs[0].start < rs[0].end && forall i :: 0 <= i < |rs| ==> rs[i].end < U32
    ensures |Recorded(rs)| > 0 && Recorded(rs)[0] == rs[0]
    ensures forall i :: 0 <= i < |Recorded(rs)| ==> Recorded(rs)[i].end < U32
    decreases |rs|
  {
    if |rs| > 1 {
      RecordedFirst(rs[..|rs| - 1]);
    } else {
      assert rs[..0] == [];
    }
  }
}
