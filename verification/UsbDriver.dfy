/** usb_poll as it runs: the event ring and the interrupt rings changed in place, and why that is
    a run of single steps of the whole system. */
module UsbDriver {
  import H = HidHandoff
  import R = CommandRing
  import E = EventRing
  import O = RingOverrun
  import opened UsbSystem
  import opened Traces

  // ----- where runs start -----

  /** What enumeration leaves: each ready device armed once, nothing consumed, no event waiting. */
  function Start(devs: seq<H.Device>, rings: seq<R.State>, bufs: seq<H.Report>, ev: E.Events): System {
    System(devs, rings, seq(|devs|, _ => []), bufs, ev, Idle, seq(|devs|, _ => []), seq(|devs|, _ => []))
  }

  ghost predicate ArmedOnce(d: H.Device, r: R.State) {
    && R.Inv(r) && |r.ring| >= 3 && r.driver.Idle? && r.consumed == []
    && r.pushed == if d.Ready() then [ArmTrb(d)] else []
  }

  /** ring_link and, for a ready device, one arm_interrupt leave such a ring. */
  lemma FirstArm(d: H.Device, n: nat, base: nat) returns (r: R.State)
    requires n >= 3
    ensures ArmedOnce(d, r) && |r.ring| == n
    ensures r == if d.Ready() then R.PushNow(R.Initial(n, base), ArmTrb(d)) else R.Initial(n, base)
  {
    r := R.Initial(n, base);
    if d.Ready() {
      O.PushNowInv(r, ArmTrb(d));
      r := R.PushNow(r, ArmTrb(d));
    }
  }

  lemma StartInv(devs: seq<H.Device>, rings: seq<R.State>, bufs: seq<H.Report>, ev: E.Events)
    requires |rings| == |devs| == |bufs| && H.Distinct(devs) && BuffersOk(devs, bufs) && E.Inv(ev) && Waiting(ev) == []
    requires forall i :: 0 <= i < |devs| ==> ArmedOnce(devs[i], rings[i])
    ensures Inv(Start(devs, rings, bufs, ev))
  {
    var s := Start(devs, rings, bufs, ev);
    forall i: nat | i < |devs| ensures RingOk(s, i) && H.TokenAt(Hub(s), i) {
      assert ArmedOnce(devs[i], rings[i]);
    }
  }

  // ----- one iteration -----

  /** What the calls need of the cursors. */
  ghost predicate Pollable(s: System) {
    && Sized(s) && s.phase.Idle? && s.ev.reader.Polling? && s.ev.deq < |s.ev.ring| && s.ev.cyc <= 1
    && forall i :: 0 <= i < |s.rings| ==> CursorsOk(s.rings[i])
  }

  predicate CursorsOk(r: R.State) {
    r.enq < |r.ring| - 1 && r.cyc <= 1
  }

  predicate EventReady(s: System) {
    s.ev.deq < |s.ev.ring| && R.Cycle(s.ev.ring[s.ev.deq].control) == s.ev.cyc
  }

  /** The iteration of usb_poll's loop for the event at the cursor. */
  ghost function Iterated(s: System): (s': System)
    requires Pollable(s)
    ensures Sized(s') && s'.phase.Idle? && |s'.rings| == |s.rings|
  {
    var x := E.Decode(s.ev.ring[s.ev.deq]);
    var i := H.Find(s.devs, x.slot);
    var s1 := s.(ev := E.Took(s.ev));
    if x.kind == H.TRANSFER && i < |s.devs| then
      assert CursorsOk(s.rings[i]);
      s1.(handled := s.handled[i := s.handled[i] + [s.bufs[i]]],
          rings := s.rings[i := R.PushNow(s.rings[i], ArmTrb(s.devs[i]))])
    else s1
  }

  lemma PushKeepsCursors(r: R.State, t: R.Trb)
    requires CursorsOk(r)
    ensures CursorsOk(R.PushNow(r, t)) && |R.PushNow(r, t).ring| == |r.ring|
  {
  }

  /** One iteration, possible while the cycle bit shows an event. */
  ghost predicate Iterates(s: System, s': System) {
    Pollable(s) && EventReady(s) && s' == Iterated(s)
  }

  // ----- an iteration is a run of single steps -----

  /** One step of the driver. */
  ghost predicate Drives(s: System, s': System) {
    exists step: Step :: step.Drive? && Inv(s) && Inv(s') && s' == Next(s, step)
  }

  /** A run of driver steps goes on. */
  lemma ThenDrive(s: System, s1: System)
    requires Reaches(s, s1, Drives) && Inv(s1)
    ensures Reaches(s, DriveStep(s1), Drives) && Inv(DriveStep(s1))
  {
    DriveKeeps(s1);
    assert Drive.Drive? && DriveStep(s1) == Next(s1, Drive);
    ReachesStep(s1, DriveStep(s1), Drives);
    ReachesTrans(s, s1, DriveStep(s1), Drives);
  }

  /** While the event is being read, a step is a read of the event ring. */
  lemma ThenRead(s: System, s1: System)
    requires Reaches(s, s1, Drives) && Inv(s1) && s1.phase.Idle? && !s1.ev.reader.Advanced?
    ensures var s2 := s1.(ev := E.PollWord(s1.ev)); Reaches(s, s2, Drives) && Inv(s2)
  {
    PollTakes(s1.ev);
    ThenDrive(s, s1);
  }

  /** The stages of reading an event. */
  lemma FiveReads(ev: E.Events)
    requires ev.deq < |ev.ring| && ev.cyc <= 1 && ev.reader.Polling? && R.Cycle(ev.ring[ev.deq].control) == ev.cyc
    ensures var e1 := E.PollWord(ev); var e2 := E.PollWord(e1); var e3 := E.PollWord(e2);
            var e4 := E.PollWord(e3); var e5 := E.PollWord(e4);
            && e1.reader.SawCycle? && e2.reader.ReadKind? && e3.reader.ReadCode?
            && e4.reader.ReadSlot? && e5.reader.Advanced?
            && E.PollWord(e5) == E.Took(ev)
  {
    E.TookIsSixSteps(ev);
  }

  /** Six steps take the event and decide what to do with it. */
  lemma TakeReaches(s: System)
    requires Inv(s) && Pollable(s) && EventReady(s)
    ensures Reaches(s, Decided(s), Drives) && Inv(Decided(s))
  {
    FiveReads(s.ev);
    ReachesSelf(s, Drives);
    ThenRead(s, s);
    var s1 := s.(ev := E.PollWord(s.ev));
    ThenRead(s, s1);
    var s2 := s.(ev := E.PollWord(s1.ev));
    ThenRead(s, s2);
    var s3 := s.(ev := E.PollWord(s2.ev));
    ThenRead(s, s3);
    var s4 := s.(ev := E.PollWord(s3.ev));
    ThenRead(s, s4);
    ThenDecide(s, s.(ev := E.PollWord(s4.ev)));
  }

  lemma ThenDecide(s: System, s5: System)
    requires Reaches(s, s5, Drives) && Inv(s5) && Pollable(s) && s5.ev.reader.Advanced?
    requires s5 == s.(ev := s5.ev) && E.PollWord(s5.ev) == E.Took(s.ev)
    ensures Reaches(s, Decided(s), Drives) && Inv(Decided(s))
  {
    PollTakes(s5.ev);
    ThenDrive(s, s5);
  }

  ghost function Decided(s: System): System
    requires Pollable(s)
  {
    var x := E.Decode(s.ev.ring[s.ev.deq]);
    var i := H.Find(s.devs, x.slot);
    s.(ev := E.Took(s.ev), phase := if x.kind == H.TRANSFER && i < |s.devs| then Handle(i) else Idle)
  }

  /** The stores a push still has to make. */
  function Rest(r: R.State): R.State
    requires r.driver.Pushing? && CursorsOk(r)
    decreases if r.driver.words < 4 then 4 - r.driver.words else 0
  {
    var r' := R.Store(r);
    if r'.driver.Idle? then r' else Rest(r')
  }

  lemma RestIsPushNow(r: R.State, t: R.Trb)
    requires CursorsOk(r) && r.driver.Idle?
    ensures Rest(r.(driver := R.Pushing(t, 0))) == R.PushNow(r, t)
  {
    var r1 := R.Store(r.(driver := R.Pushing(t, 0)));
    var r2 := R.Store(r1);
    var r3 := R.Store(r2);
    var r4 := R.Store(r3);
    assert r1.driver == R.Pushing(t, 1) && r2.driver == R.Pushing(t, 2) && r3.driver == R.Pushing(t, 3);
    assert Rest(r3) == if r4.driver.Idle? then r4 else Rest(r4);
    assert r4.driver.Pushing? ==> Rest(r4) == R.Store(r4);
    assert Rest(r2) == Rest(r3);
    assert Rest(r1) == Rest(r2);
  }

  /** One store. */
  lemma ThenStore(s: System, s1: System, i: nat)
    requires Reaches(s, s1, Drives) && Inv(s1) && s1.phase == Push(i)
    ensures i < |s1.rings| && CursorsOk(s1.rings[i]) && s1.rings[i].driver.Pushing? && s1.rings[i].driver.words <= 4
    ensures var r := R.Store(s1.rings[i]);
            var s2 := s1.(rings := s1.rings[i := r], phase := if r.driver.Idle? then Idle else Push(i));
            Reaches(s, s2, Drives) && Inv(s2)
  {
    assert RingOk(s1, i);
    ThenDrive(s, s1);
  }

  lemma {:induction false} ThenPush(s: System, s1: System, i: nat)
    requires Reaches(s, s1, Drives) && Inv(s1) && s1.phase == Push(i) && i < |s1.rings|
    requires s1.rings[i].driver.Pushing? && CursorsOk(s1.rings[i])
    ensures var s2 := s1.(rings := s1.rings[i := Rest(s1.rings[i])], phase := Idle);
            Reaches(s, s2, Drives) && Inv(s2)
    decreases if s1.rings[i].driver.words < 4 then 4 - s1.rings[i].driver.words else 0
  {
    var r := R.Store(s1.rings[i]);
    ThenStore(s, s1, i);
    if !r.driver.Idle? {
      ThenPush(s, s1.(rings := s1.rings[i := r]), i);
    }
  }

  /** Reading the report and beginning the push. */
  lemma ThenHandle(s: System, s1: System, i: nat)
    requires Reaches(s, s1, Drives) && Inv(s1) && s1.phase == Handle(i)
    ensures i < |s1.devs| && i < |s1.rings| && i < |s1.handled| && i < |s1.bufs|
    ensures s1.rings[i].driver.Idle? && CursorsOk(s1.rings[i])
    ensures var s2 := s1.(handled := s1.handled[i := s1.handled[i] + [s1.bufs[i]]], phase := Push(i),
                          rings := s1.rings[i := s1.rings[i].(driver := R.Pushing(ArmTrb(s1.devs[i]), 0))]);
            Reaches(s, s2, Drives) && Inv(s2)
  {
    assert RingOk(s1, i);
    ThenDrive(s, s1);
    ThenDrive(s, DriveStep(s1));
  }

  /** An undisturbed iteration is a run of single steps of the system, so it keeps the invariant and
      with it the guarantees of every run. */
  lemma IterationReaches(s: System)
    requires Inv(s) && Pollable(s) && EventReady(s)
    ensures Reaches(s, Iterated(s), Drives) && Inv(Iterated(s))
  {
    TakeReaches(s);
    var s1 := Decided(s);
    if s1.phase.Handle? {
      var i := s1.phase.i;
      ThenHandle(s, s1, i);
      RestIsPushNow(s.rings[i], ArmTrb(s.devs[i]));
      ThenPush(s, s1.(handled := s1.handled[i := s1.handled[i] + [s1.bufs[i]]], phase := Push(i),
                      rings := s1.rings[i := s1.rings[i].(driver := R.Pushing(ArmTrb(s1.devs[i]), 0))]), i);
    }
  }

  /** An iteration that handles a device leaves it armed exactly once, with every report that was
      delivered read. */
  lemma IterationRearms(s: System, i: nat)
    requires Inv(s) && Pollable(s) && EventReady(s)
    requires var x := E.Decode(s.ev.ring[s.ev.deq]); x.kind == H.TRANSFER && i == H.Find(s.devs, x.slot) < |s.devs|
    ensures var s' := Iterated(s);
            && R.Outstanding(s'.rings[i]) == 1 && s'.held[i] == []
            && s'.handled[i] == s.handled[i] + [s.bufs[i]] && s'.handled[i] == s'.completed[i]
  {
    IterationReaches(s);
    var s' := Iterated(s);
    assert RingOk(s, i) && RingOk(s', i) && H.TokenAt(Hub(s), i) && H.TokenAt(Hub(s'), i);
    PushAdds(s.rings[i], ArmTrb(s.devs[i]));
  }

  lemma PushAdds(r: R.State, t: R.Trb)
    requires CursorsOk(r)
    ensures R.PushNow(r, t).pushed == r.pushed + [t] && R.PushNow(r, t).consumed == r.consumed
  {
  }

  /** The invariant holds, so that a driver step is possible. */
  ghost predicate CanDrive(s: System) {
    exists step: Step :: step.Drive? && Inv(s) && Enabled(s, step)
  }

  lemma IterateOn(s: System, s': System)
    requires CanDrive(s) && Iterates(s, s')
    ensures CanDrive(s') && Reaches(s, s', Drives)
  {
    IterationReaches(s);
    assert Drive.Drive? && Enabled(s', Drive);
  }

  /** So a whole call of usb_poll, any number of iterations, is a run of single steps too, and keeps
      the invariant. */
  lemma PollReaches(t: seq<System>, k: nat)
    requires IsTrace(t, Iterates) && k < |t| && Inv(t[0])
    ensures Reaches(t[0], t[k], Drives) && CanDrive(t[k])
  {
    assert Drive.Drive? && Enabled(t[0], Drive);
    forall a: System, b: System | CanDrive(a) && Iterates(a, b) ensures CanDrive(b) && Reaches(a, b, Drives) {
      IterateOn(a, b);
    }
    CoarseIsFine(t, Iterates, Drives, CanDrive, k);
  }

  lemma NextIteration(t: seq<System>) returns (t': seq<System>)
    requires IsTrace(t, Iterates) && Pollable(t[|t| - 1]) && EventReady(t[|t| - 1])
    ensures t' == t + [Iterated(t[|t| - 1])] && IsTrace(t', Iterates)
  {
    t' := t + [Iterated(t[|t| - 1])];
    forall k: nat | k + 1 < |t'| ensures StepAt(t', Iterates, k) {
      if k + 1 < |t| { assert StepAt(t, Iterates, k); }
    }
  }

  // ----- usb_poll itself -----

  class Usb {
    const devs: seq<H.Device>
    const ev: E.Ring
    const rings: seq<R.Ring>              // epi_ring with its cursors
    var bufs: seq<H.Report>
    var handled: seq<seq<H.Report>>       // what hid_handle was given

    constructor (devs: seq<H.Device>, ev: E.Ring, rings: seq<R.Ring>, bufs: seq<H.Report>)
      requires |rings| == |devs| == |bufs|
      ensures this.devs == devs && this.ev == ev && this.rings == rings && this.bufs == bufs
      ensures handled == seq(|devs|, _ => [])
    {
      this.devs, this.ev, this.rings, this.bufs := devs, ev, rings, bufs;
      handled := seq(|devs|, _ => []);
    }

    /** No two rings share memory. */
    ghost predicate Separate() {
      && (forall i, j :: 0 <= i < j < |rings| ==> rings[i] != rings[j] && rings[i].trbs != rings[j].trbs)
      && forall i :: 0 <= i < |rings| ==> rings[i].trbs != ev.trbs
    }

    ghost predicate RingShows(i: nat, r: R.State)
      requires i < |rings|
      reads rings[i], rings[i].trbs
    {
      r.ring == rings[i].trbs[..] && r.enq == rings[i].enq && r.cyc == rings[i].cyc
    }

    /** The driver's part of a system state. */
    ghost predicate Shows(s: System)
      reads this, ev, ev.trbs, rings, set r | r in rings :: r.trbs
    {
      && Pollable(s) && s.devs == devs && s.bufs == bufs && s.handled == handled && |rings| == |devs|
      && ev.Shows(s.ev) && forall i: nat :: i < |rings| ==> RingShows(i, s.rings[i])
    }

    /** usb_poll: up to `limit` events (64 in the driver), each taken off the event ring, its report
        read and its device's ring given a new TRB. */
    method Poll(limit: nat, ghost s: System) returns (ghost t: seq<System>)
      requires Separate() && Shows(s)
      modifies this, ev, rings, set r | r in rings :: r.trbs
      ensures IsTrace(t, Iterates) && t[0] == s && Shows(t[|t| - 1])
      ensures |t| <= limit + 1 && (|t| == limit + 1 || !EventReady(t[|t| - 1]))
    {
      var guard := 0;
      t := [s];
      while guard < limit
        invariant 0 <= guard <= limit && |t| == guard + 1
        invariant IsTrace(t, Iterates) && t[0] == s && Shows(t[guard])
      {
        var found := HandleNext(t[guard]);
        if !found {
          break;
        }
        t := NextIteration(t);
        guard := guard + 1;
      }
    }

    /** The body of the poll's loop. */
    method HandleNext(ghost s: System) returns (found: bool)
      requires Separate() && Shows(s)
      modifies this, ev, rings, set r | r in rings :: r.trbs
      ensures found <==> EventReady(s)
      ensures Shows(if found then Iterated(s) else s)
    {
      var x;
      found, x := ev.Take(s.ev);
      forall i: nat | i < |rings| ensures RingShows(i, s.rings[i]) { assert old(RingShows(i, s.rings[i])); }
      if found {
        ghost var s1 := s.(ev := E.Took(s.ev));
        assert Shows(s1);
        if x.kind == H.TRANSFER {
          var i := Lookup(x.slot);
          if i < |devs| {
            Rearm(i, s1);
          }
        }
      }
    }

    /** hid_handle and arm_interrupt. */
    method Rearm(i: nat, ghost s: System)
      requires Separate() && Shows(s) && i < |devs|
      modifies `handled, rings[i], rings[i].trbs
      ensures CursorsOk(s.rings[i])
      ensures Shows(s.(handled := s.handled[i := s.handled[i] + [s.bufs[i]]],
                       rings := s.rings[i := R.PushNow(s.rings[i], ArmTrb(s.devs[i]))]))
    {
      assert CursorsOk(s.rings[i]) && RingShows(i, s.rings[i]);
      handled := handled[i := handled[i] + [bufs[i]]];
      rings[i].Push(ArmTrb(devs[i]));
      PushKeepsCursors(s.rings[i], ArmTrb(devs[i]));
      forall j: nat | j < |rings| && j != i ensures RingShows(j, s.rings[j]) { assert old(RingShows(j, s.rings[j])); }
    }

    /** The device an event belongs to, or |devs|. */
    method Lookup(slot: nat) returns (i: nat)
      ensures i == H.Find(devs, slot)
    {
      i := 0;
      while i < |devs| && !(devs[i].used && devs[i].slot == slot && devs[i].dci != 0)
        invariant i <= H.Find(devs, slot)
      {
        i := i + 1;
      }
    }
  }
}
