/** Frames that pmm_init reserved: exactly when they stay out of circulation. pmm_free_frame tests
    only the frame's base, so a range that starts inside a page reserves a frame that it does not
    protect. */
module ReservedFrames {
  import opened Common
  import opened FrameBitmap
  import opened PhysicalMemory

  /** Every frame that a recorded range reserves is used, and frame 0 is protected. */
  ghost predicate Reserving(p: Phys) {
    && Ready(p) && Protected(p.prot, 0)
    && forall f: nat :: f < p.total && AnyReserves(p.prot, f) ==> Used(p.bm, f)
  }

  lemma BootedReserves(p: Phys, mbi: Info, kernel: Range, info: nat)
    requires Booted(p, mbi, kernel, info) && kernel.end < U32
    ensures Reserving(p)
  {
    var ranges := BootRanges(kernel, info, mbi.mapAddr, if mbi.hasMap then mbi.mapLen else 0);
    RecordedFirst(ranges);
    assert Covers(p.prot[0], 0);
    forall f: nat | f < p.total && AnyReserves(p.prot, f) ensures Used(p.bm, f) {
      RecordedReserve(ranges, f);
    }
  }

  /** The first frame of every range, if the manager has it, is protected by some range. */
  predicate StartsProtected(p: Phys) {
    forall j :: 0 <= j < |p.prot| ==> StartProtected(p, p.prot[j])
  }

  predicate StartProtected(p: Phys, r: Range) {
    var f := r.start / PAGE;
    Reserves(r, f) && f < p.total ==> Guarded(p.prot, f)
  }

  /** Later frames of a range are protected by the range itself. */
  lemma ReservedIsProtected(p: Phys, f: nat)
    requires StartsProtected(p) && f < p.total && AnyReserves(p.prot, f)
    ensures Guarded(p.prot, f)
  {
    var j :| 0 <= j < |p.prot| && Reserves(p.prot[j], f);
    var r := p.prot[j];
    assert StartProtected(p, r);
    if f > r.start / PAGE {
      LaterFrameCovered(r, f);
    }
  }

  lemma LaterFrameCovered(r: Range, f: nat)
    requires Reserves(r, f) && f > r.start / PAGE
    ensures Covers(r, f * PAGE)
  {
    assert (r.end + PAGE - 1) % U32 <= r.end + PAGE - 1;
  }

  // ----- kept out of circulation -----

  lemma StepKeepsReserved(p: Phys, op: Op, p': Phys, answer: int)
    requires Reserving(p) && StartsProtected(p) && Step(p, op, p', answer)
    ensures Reserving(p') && StartsProtected(p') && p'.prot == p.prot && p'.total == p.total
    ensures op.Alloc? && answer > 0 ==> !AnyReserves(p.prot, answer / PAGE)
  {
    forall f: nat | f < p'.total && AnyReserves(p'.prot, f) ensures Used(p'.bm, f) {
      ReservedIsProtected(p, f);
      assert Used(p.bm, f);
    }
    forall j | 0 <= j < |p'.prot| ensures StartProtected(p', p'.prot[j]) {
      assert StartProtected(p, p.prot[j]);
    }
  }

  lemma {:induction false} RunsKeepReserved(run: Run, i: nat)
    requires IsRun(run) && Reserving(run.states[0]) && StartsProtected(run.states[0]) && i < |run.states|
    ensures Reserving(run.states[i]) && StartsProtected(run.states[i]) && run.states[i].prot == run.states[0].prot
  {
    if i > 0 {
      RunsKeepReserved(run, i - 1);
      assert RunStep(run, i - 1);
      StepKeepsReserved(run.states[i - 1], run.ops[i - 1], run.states[i], run.answers[i - 1]);
    }
  }

  /** The i-th call of the run hands out a frame that a range reserves. */
  ghost predicate HandsOutReserved(run: Run, i: nat) {
    && i < |run.ops| && |run.answers| == |run.ops| && |run.states| > 0
    && run.ops[i].Alloc? && run.answers[i] > 0 && AnyReserves(run.states[0].prot, run.answers[i] / PAGE)
  }

  // ----- the leak -----

  /** Changing one bit of a byte changes one frame. */
  lemma OneByte(bm: seq<bv8>, f: nat, v: bv8)
    requires f / 8 < |bm| && forall k: nat :: k < 8 && k != f % 8 ==> Bit(v, k) == Bit(bm[f / 8], k)
    ensures SameBut(bm, bm[f / 8 := v], f) && Used(bm[f / 8 := v], f) == Bit(v, f % 8)
  {
  }

  /** The bitmap with frame f used. */
  function WithUsed(bm: seq<bv8>, f: nat): (bm': seq<bv8>)
    requires f / 8 < |bm|
    ensures SameBut(bm, bm', f) && Used(bm', f)
  {
    assert forall k: nat :: k < 8 ==> Bit(bm[f / 8] | BitMask(f % 8), k) == (k == f % 8 || Bit(bm[f / 8], k)) by {
      forall k: nat | k < 8 ensures Bit(bm[f / 8] | BitMask(f % 8), k) == (k == f % 8 || Bit(bm[f / 8], k)) {
        BitSet(bm[f / 8], f % 8, k);
      }
    }
    OneByte(bm, f, bm[f / 8] | BitMask(f % 8));
    bm[f / 8 := bm[f / 8] | BitMask(f % 8)]
  }

  /** The bitmap with frame f free. */
  function WithFree(bm: seq<bv8>, f: nat): (bm': seq<bv8>)
    requires f / 8 < |bm|
    ensures SameBut(bm, bm', f) && !Used(bm', f)
  {
    assert forall k: nat :: k < 8 ==> Bit(bm[f / 8] & !BitMask(f % 8), k) == (k != f % 8 && Bit(bm[f / 8], k)) by {
      forall k: nat | k < 8 ensures Bit(bm[f / 8] & !BitMask(f % 8), k) == (k != f % 8 && Bit(bm[f / 8], k)) {
        BitClear(bm[f / 8], f % 8, k);
      }
    }
    OneByte(bm, f, bm[f / 8] & !BitMask(f % 8));
    bm[f / 8 := bm[f / 8] & !BitMask(f % 8)]
  }

  /** A run with one more call in front. */
  lemma Prepend(p: Phys, op: Op, answer: int, run: Run) returns (run': Run)
    requires IsRun(run) && Ready(p) && Step(p, op, run.states[0], answer)
    ensures IsRun(run') && run'.states == [p] + run.states
    ensures run'.ops == [op] + run.ops && run'.answers == [answer] + run.answers
  {
    run' := Run([p] + run.states, [op] + run.ops, [answer] + run.answers);
    forall i: nat | i < |run'.ops| ensures RunStep(run', i) {
      if i > 0 { assert RunStep(run, i - 1); }
    }
  }

  /** Allocating often enough hands out any frame that is free. */
  lemma {:induction false} AllocateUntil(p: Phys, f: nat) returns (run: Run)
    requires Ready(p) && f < p.total && !Used(p.bm, f)
    ensures IsRun(run) && run.states[0] == p && run.ops != []
    ensures run.ops[|run.ops| - 1] == Alloc && run.answers[|run.ops| - 1] == f * PAGE
    decreases FreeCount(p.bm, f)
  {
    var g := FirstFree(p.bm, 0, p.total);
    var p' := p.(bm := WithUsed(p.bm, g));
    var rest;
    if g == f {
      rest := Run([p'], [], []);
    } else {
      FreeCountFlip(p.bm, p'.bm, f, g);
      rest := AllocateUntil(p', f);
    }
    run := Prepend(p, Alloc, g * PAGE, rest);
  }

  /** A reserved frame that no range protects: freeing it succeeds, and some later allocation
      hands it out. */
  lemma UnprotectedLeaks(p: Phys, f: nat) returns (run: Run, i: nat)
    requires Reserving(p) && f < p.total && AnyReserves(p.prot, f) && !Guarded(p.prot, f)
    ensures IsRun(run) && run.states[0] == p && HandsOutReserved(run, i)
    ensures run.ops[0] == Free(f * PAGE) && run.answers[0] == 0 && run.answers[i] == f * PAGE
  {
    assert f * PAGE / PAGE == f && f * PAGE % PAGE == 0;
    var p' := p.(bm := WithFree(p.bm, f));
    var rest := AllocateUntil(p', f);
    run := Prepend(p, Free(f * PAGE), 0, rest);
    i := |run.ops| - 1;
  }

  /** Over all runs from a booted state, with arbitrary arguments to free: no reserved frame is
      ever handed out if and only if every range's first frame is protected. */
  lemma ReservedKeptExactly(p: Phys)
    requires Reserving(p)
    ensures (forall run: Run, i: nat :: IsRun(run) && run.states[0] == p ==> !HandsOutReserved(run, i)) <==>
            StartsProtected(p)
  {
    if StartsProtected(p) {
      forall run: Run, i: nat | IsRun(run) && run.states[0] == p ensures !HandsOutReserved(run, i) {
        if i < |run.ops| {
          RunsKeepReserved(run, i);
          assert RunStep(run, i);
          StepKeepsReserved(run.states[i], run.ops[i], run.states[i + 1], run.answers[i]);
        }
      }
    } else {
      var j :| 0 <= j < |p.prot| && !StartProtected(p, p.prot[j]);
      var run, i := UnprotectedLeaks(p, p.prot[j].start / PAGE);
      assert HandsOutReserved(run, i);
    }
  }

  /** It does happen: no memory map, 1028 KiB above 1 MiB, a kernel from 1 MiB to 2 MiB and the boot
      information right after it, at an address inside a page. */
  lemma BootInfoLeaks() returns (p: Phys, mbi: Info, kernel: Range, info: nat)
    ensures Booted(p, mbi, kernel, info) && Reserving(p) && !StartsProtected(p)
  {
    mbi := Info(true, 1028, false, 0, 0, []);
    kernel, info := Range(0x10_0000, 0x20_0000), 0x20_0010;
    p := Phys(seq(0x41, _ => 0xFF), 0x201, [Range(0, LOW_MEMORY), kernel, Range(info, info + INFO_SIZE)]);
    BootInfoRanges(kernel, info);
    BootInfoUsed(p, mbi, kernel, info);
    BootedReserves(p, mbi, kernel, info);
    assert !StartProtected(p, p.prot[2]);
  }

  lemma BootInfoRanges(kernel: Range, info: nat)
    requires kernel.start < kernel.end && info + INFO_SIZE < U32
    ensures Recorded(BootRanges(kernel, info, 0, 0)) == [Range(0, LOW_MEMORY), kernel, Range(info, info + INFO_SIZE)]
  {
    var rs := BootRanges(kernel, info, 0, 0);
    assert rs[..2] == [Range(0, LOW_MEMORY), kernel] && rs[..2][..1] == [Range(0, LOW_MEMORY)] && rs[..1][..0] == [];
    assert Recorded(rs[..1]) == rs[..1] by { assert rs[..1] == [Range(0, LOW_MEMORY)]; }
    assert Recorded(rs[..2]) == rs[..2];
  }

  lemma BootInfoUsed(p: Phys, mbi: Info, kernel: Range, info: nat)
    requires mbi == Info(true, 1028, false, 0, 0, [])
    requires kernel == Range(0x10_0000, 0x20_0000) && info == 0x20_0010
    requires p.bm == seq(0x41, _ => 0xFF) && p.total == 0x201 && p.prot == Recorded(BootRanges(kernel, info, 0, 0))
    ensures Booted(p, mbi, kernel, info)
  {
    var rs := BootRanges(kernel, info, 0, 0);
    assert BootHighest(mbi) == 0x20_1000;
    forall f: nat | f < p.total ensures !Used(p.bm, f) <==> BootOffers(mbi, f) && !AnyReserves(rs, f) {
      FullByte(0xFF);
      assert Used(p.bm, f);
      if BootOffers(mbi, f) {
        assert Reserves(rs[1], f) || Reserves(rs[2], f);
      }
    }
  }
}
