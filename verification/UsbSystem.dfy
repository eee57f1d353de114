/** USB HID reports after enumeration, word by word: each device's interrupt ring, the shared event
    ring, the controller's DMA and the driver's poll, interleaved freely. Every step is a step of
    HidHandoff's abstract machine or leaves it where it is, so what holds there holds here; and the
    pushes of arm_interrupt, which check nothing, always find room. */
module UsbSystem {
  import H = HidHandoff
  import R = CommandRing
  import E = EventRing

  const NORMAL := 1

  /** What arm_interrupt pushes: a Normal TRB for the whole report buffer, interrupt on completion. */
  function ArmTrb(d: H.Device): (t: R.Trb)
    ensures R.Pushable(t) && AsksForReport(t, d)
  {
    R.Trb(d.buf, 0, d.len, NORMAL * 0x400 + 0x20)
  }

  /** A TRB that makes the controller transfer (type 1) the device's report, its whole length, into
      the device's own buffer, and post an event when done (bit 5). */
  predicate AsksForReport(t: R.Trb, d: H.Device) {
    && t.lo == d.buf && t.hi == 0 && t.status == d.len
    && t.control / 0x400 % 0x40 == 1 && t.control / 0x20 % 2 == 1
  }

  /** Where usb_poll is: at the event ring, about to read a buffer, about to call ring_push, or in it. */
  datatype Phase = Idle | Handle(i: nat) | Arm(i: nat) | Push(i: nat)

  datatype System = System(
    devs: seq<H.Device>,
    rings: seq<R.State>,                  // the interrupt endpoint's ring, per device
    held: seq<seq<R.Trb>>,                // TRBs the controller has fetched and is executing
    bufs: seq<H.Report>,                  // hid_buf
    ev: E.Events,
    phase: Phase,
    completed: seq<seq<H.Report>>,        // reports the controller delivered, per device
    handled: seq<seq<H.Report>>)          // reports hid_handle has read, per device

  // ----- the abstract view -----

  function Note(t: R.Trb): H.Event {
    H.Event(E.Decode(t).kind, E.Decode(t).slot)
  }

  function Notes(ts: seq<R.Trb>): seq<H.Event> {
    if ts == [] then [] else [Note(ts[0])] + Notes(ts[1..])
  }

  /** Events posted and not taken, and the one being posted. */
  function Waiting(ev: E.Events): seq<H.Event> {
    (if |ev.taken| <= |ev.produced| then Notes(ev.produced[|ev.taken|..]) else [])
    + if ev.poster.Posting? then [Note(ev.poster.t)] else []
  }

  /** TRBs the controller may act on: published or in execution. */
  function Armed(s: System, i: nat): nat {
    if i < |s.rings| && i < |s.held| && R.Outstanding(s.rings[i]) >= 0
    then R.Outstanding(s.rings[i]) + |s.held[i]| else 0
  }

  /** A push is abstractly over once its control word is written. */
  function PhaseOf(s: System): H.Phase {
    match s.phase
    case Idle => H.Between
    case Handle(i) => H.Handling(i)
    case Arm(i) => H.Arming(i)
    case Push(i) =>
      if i < |s.rings| && s.rings[i].driver.Pushing? && s.rings[i].driver.words < 4 then H.Arming(i) else H.Between
  }

  function Hub(s: System): H.Hub {
    H.Hub(s.devs, seq(|s.devs|, i => if i >= 0 then Armed(s, i) else 0), s.bufs, Waiting(s.ev), PhaseOf(s),
          s.completed, s.handled)
  }

  // ----- the invariant -----

  predicate Sized(s: System) {
    && |s.rings| == |s.devs| && |s.held| == |s.devs| && |s.bufs| == |s.devs|
    && |s.completed| == |s.devs| && |s.handled| == |s.devs|
    && (!s.phase.Idle? ==> s.phase.i < |s.devs|)
  }

  /** Report buffers lie at different addresses, and each has room for a report. */
  predicate BuffersOk(devs: seq<H.Device>, bufs: seq<H.Report>)
    requires |bufs| == |devs|
  {
    && (forall i, j :: 0 <= i < j < |devs| ==> devs[i].buf != devs[j].buf)
    && forall i :: 0 <= i < |devs| ==> devs[i].len <= |bufs[i]|
  }

  /** The ring of device i: every TRB pushed is the one for its buffer, one was consumed for each
      report delivered or in execution, and it is being written only in phase Push(i). */
  ghost predicate RingOk(s: System, i: nat)
    requires Sized(s) && i < |s.devs|
  {
    var r := s.rings[i];
    && R.Inv(r) && |r.ring| >= 3
    && (r.driver.Pushing? <==> s.phase == Push(i))
    && (r.driver.Pushing? ==> r.driver.t == ArmTrb(s.devs[i]))
    && (forall k :: 0 <= k < |r.pushed| ==> r.pushed[k] == ArmTrb(s.devs[i]))
    && |r.consumed| == |s.completed[i]| + |s.held[i]|
    && (forall k :: 0 <= k < |s.held[i]| ==> s.held[i][k] == ArmTrb(s.devs[i]))
  }

  ghost predicate Inv(s: System) {
    && Sized(s) && BuffersOk(s.devs, s.bufs) && E.Inv(s.ev) && (!s.phase.Idle? ==> s.ev.reader.Polling?)
    && (forall i: nat :: i < |s.devs| ==> RingOk(s, i))
    && H.Inv(Hub(s))
  }

  // ----- the steps -----

  datatype Step =
    | Fetch(i: nat)                       // the controller reads a word of device i's ring
    | Dma(i: nat, j: nat, r: H.Report)    // and, executing it, writes the buffer j it names
    | Finish(i: nat, t: R.Trb)            // completes it, raising the transfer event it asks for
    | Notify(t: R.Trb)                    // raises some other event
    | Post                                // writes a word of the raised event
    | Drive                               // one read or write of usb_poll

  /** The controller posts an event for a Normal TRB with interrupt on completion. */
  predicate Interrupts(t: R.Trb) {
    t.control / 0x400 % 0x40 == 1 && t.control / 0x20 % 2 == 1
  }

  /** A Transfer Event (type 32) for that slot. */
  predicate TransferFor(t: R.Trb, slot: nat) {
    t.control / 0x400 % 0x40 == 32 && t.control / 0x100_0000 % 0x100 == slot
  }

  /** The buffer after the controller has written r to its start; bytes beyond it go elsewhere. */
  function Written(buf: H.Report, r: H.Report): H.Report {
    if |r| <= |buf| then r + buf[|r|..] else r[..|buf|]
  }

  predicate Enabled(s: System, step: Step)
    requires Sized(s)
  {
    match step
    case Fetch(i) => i < |s.devs| && R.Enabled(s.rings[i], R.Control)
    case Dma(i, j, r) =>
      && i < |s.devs| && j < |s.devs| && s.held[i] != []
      && s.held[i][0].lo == s.devs[j].buf && |r| <= s.held[i][0].status
    case Finish(i, t) =>
      && i < |s.devs| && s.held[i] != [] && Interrupts(s.held[i][0])
      && E.Enabled(s.ev, E.Raise(t)) && TransferFor(t, s.devs[i].slot)
    case Notify(t) => E.Enabled(s.ev, E.Raise(t)) && t.control / 0x400 % 0x40 != 32
    case Post => E.Enabled(s.ev, E.Post)
    case Drive => true
  }

  /** The TRB a read by the controller completed, if it did. */
  function Taken(r: R.State, r': R.State): seq<R.Trb> {
    if |r'.consumed| > |r.consumed| then [r'.consumed[|r'.consumed| - 1]] else []
  }

  function FetchStep(s: System, i: nat): System
    requires Inv(s) && i < |s.devs| && R.Enabled(s.rings[i], R.Control)
  {
    assert RingOk(s, i);
    var r := R.Next(s.rings[i], R.Control);
    s.(rings := s.rings[i := r],
       held := s.held[i := s.held[i] + Taken(s.rings[i], r)])
  }

  /** usb_poll does not look before it pushes. */
  function DriveStep(s: System): System
    requires Inv(s)
  {
    match s.phase
    case Idle =>
      var ev := E.PollWord(s.ev);
      if |ev.taken| == |s.ev.taken| then s.(ev := ev)
      else
        var x := ev.taken[|ev.taken| - 1];
        var i := H.Find(s.devs, x.slot);
        s.(ev := ev, phase := if x.kind == H.TRANSFER && i < |s.devs| then Handle(i) else Idle)
    case Handle(i) => s.(handled := s.handled[i := s.handled[i] + [s.bufs[i]]], phase := Arm(i))
    case Arm(i) => s.(rings := s.rings[i := s.rings[i].(driver := R.Pushing(ArmTrb(s.devs[i]), 0))], phase := Push(i))
    case Push(i) =>
      assert RingOk(s, i);
      var r := R.Store(s.rings[i]);
      s.(rings := s.rings[i := r], phase := if r.driver.Idle? then Idle else Push(i))
  }

  function Next(s: System, step: Step): System
    requires Inv(s) && Enabled(s, step)
  {
    match step
    case Fetch(i) => FetchStep(s, i)
    case Dma(i, j, r) => s.(bufs := s.bufs[j := Written(s.bufs[j], r)])
    case Finish(i, t) =>
      s.(held := s.held[i := s.held[i][1..]], ev := E.Next(s.ev, E.Raise(t)),
         completed := s.completed[i := s.completed[i] + [s.bufs[i]]])
    case Notify(t) => s.(ev := E.Next(s.ev, E.Raise(t)))
    case Post => s.(ev := E.Next(s.ev, E.Post))
    case Drive => DriveStep(s)
  }

  // ----- every step refines -----

  lemma {:induction false} NotesAppend(ts: seq<R.Trb>, t: R.Trb)
    ensures Notes(ts + [t]) == Notes(ts) + [Note(t)]
    decreases |ts|
  {
    if ts == [] {
      assert (ts + [t])[1..] == [];
    } else {
      NotesAppend(ts[1..], t);
      assert (ts + [t])[1..] == ts[1..] + [t];
    }
  }

  lemma RaiseAppends(ev: E.Events, t: R.Trb)
    requires E.Inv(ev) && E.Enabled(ev, E.Raise(t))
    ensures E.Inv(E.Next(ev, E.Raise(t))) && Waiting(E.Next(ev, E.Raise(t))) == Waiting(ev) + [Note(t)]
    ensures E.Next(ev, E.Raise(t)).reader == ev.reader
  {
    E.MoveKeeps(ev, E.Raise(t));
  }

  lemma PostMoves(ev: E.Events)
    requires E.Inv(ev) && ev.poster.Posting?
    ensures E.Inv(E.Next(ev, E.Post)) && Waiting(E.Next(ev, E.Post)) == Waiting(ev)
    ensures E.Next(ev, E.Post).reader == ev.reader
  {
    E.MoveKeeps(ev, E.Post);
    var ev' := E.Next(ev, E.Post);
    if ev'.poster.Quiet? {
      var k := |ev.taken|;
      assert ev'.produced[k..] == ev.produced[k..] + [ev.poster.t];
      NotesAppend(ev.produced[k..], ev.poster.t);
    }
  }

  /** A poll step leaves the events waiting, or takes the first of them. */
  lemma PollTakes(ev: E.Events)
    requires E.Inv(ev)
    ensures var ev' := E.PollWord(ev);
            && E.Inv(ev')
            && (!ev.reader.Advanced? ==> ev'.taken == ev.taken && Waiting(ev') == Waiting(ev))
            && (ev.reader.Advanced? ==>
                  && |ev'.taken| == |ev.taken| + 1 && ev'.reader.Polling? && Waiting(ev) != []
                  && var x := ev'.taken[|ev.taken|];
                     Waiting(ev)[0] == H.Event(x.kind, x.slot) && Waiting(ev') == Waiting(ev)[1..])
  {
    E.MoveKeeps(ev, E.Poll);
    if ev.reader.Advanced? {
      E.AckKeeps(ev);
      assert ev.produced[|ev.taken|..][1..] == ev.produced[|ev.taken| + 1..];
    }
  }

  /** Fetching moves a TRB from the ring into execution, or changes nothing countable. */
  lemma FetchMoves(r: R.State)
    requires R.Inv(r) && R.Enabled(r, R.Control)
    ensures var r' := R.Next(r, R.Control);
            && R.Inv(r') && r'.pushed == r.pushed && r'.driver == r.driver && |r'.ring| == |r.ring|
            && |r'.consumed| == |r.consumed| + |Taken(r, r')|
            && (Taken(r, r') != [] ==> Taken(r, r')[0] in r.pushed)
  {
    R.StepInv(r, R.Control);
    var r' := R.Next(r, R.Control);
    if Taken(r, r') != [] { assert r'.consumed[|r.consumed|] == r.pushed[|r.consumed|]; }
  }

  /** Changing one ring changes one count. */
  lemma OneRing(s: System, s': System, i: nat)
    requires Sized(s) && Sized(s') && |s'.devs| == |s.devs| && i < |s.devs|
    requires forall j :: 0 <= j < |s.devs| && j != i ==> s'.rings[j] == s.rings[j] && s'.held[j] == s.held[j]
    ensures Hub(s').armed == Hub(s).armed[i := Armed(s', i)]
    ensures Armed(s', i) == Armed(s, i) ==> Hub(s').armed == Hub(s).armed
  {
  }

  lemma FetchKeeps(s: System, i: nat)
    requires Inv(s) && Enabled(s, Fetch(i))
    ensures Inv(FetchStep(s, i)) && Hub(FetchStep(s, i)) == Hub(s)
  {
    var s' := FetchStep(s, i);
    FetchedRing(s, i);
    forall j: nat | j < |s'.devs| && j != i ensures RingOk(s', j) { assert RingOk(s, j); }
    OneRing(s, s', i);
  }

  lemma FetchedRing(s: System, i: nat)
    requires Inv(s) && Enabled(s, Fetch(i))
    ensures var s' := FetchStep(s, i); Sized(s') && RingOk(s', i) && Armed(s', i) == Armed(s, i)
  {
    assert RingOk(s, i);
    FetchMoves(s.rings[i]);
  }

  lemma OwnedIsArmed(s: System, i: nat)
    requires Inv(s) && i < |s.devs| && s.held[i] != []
    ensures H.Owns(Hub(s), i) && s.held[i][0] == ArmTrb(s.devs[i])
  {
    assert RingOk(s, i);
  }

  /** The TRB in execution names its own device's buffer, and its length keeps the write inside. */
  lemma DmaStaysHome(s: System, i: nat, j: nat, r: H.Report)
    requires Inv(s) && Enabled(s, Dma(i, j, r))
    ensures j == i && |r| <= |s.bufs[i]|
  {
    OwnedIsArmed(s, i);
    assert i < j || j < i || i == j;
  }

  lemma DmaKeeps(s: System, i: nat, j: nat, r: H.Report)
    requires Inv(s) && Enabled(s, Dma(i, j, r))
    ensures Inv(Next(s, Dma(i, j, r))) && H.Enabled(Hub(s), H.Fill(j, Written(s.bufs[j], r)))
    ensures Hub(Next(s, Dma(i, j, r))) == H.Next(Hub(s), H.Fill(j, Written(s.bufs[j], r)))
  {
    var s' := Next(s, Dma(i, j, r));
    DmaStaysHome(s, i, j, r);
    OwnedIsArmed(s, i);
    H.FillKeeps(Hub(s), i, Written(s.bufs[i], r));
    forall k: nat | k < |s'.devs| ensures RingOk(s', k) { assert RingOk(s, k); }
    assert Hub(s').armed == Hub(s).armed;
  }

  lemma FinishKeeps(s: System, i: nat, t: R.Trb)
    requires Inv(s) && Enabled(s, Finish(i, t))
    ensures Inv(Next(s, Finish(i, t))) && H.Enabled(Hub(s), H.Complete(i))
    ensures Hub(Next(s, Finish(i, t))) == H.Next(Hub(s), H.Complete(i))
  {
    var s' := Next(s, Finish(i, t));
    OwnedIsArmed(s, i);
    H.CompleteKeeps(Hub(s), i);
    RaiseAppends(s.ev, t);
    forall j: nat | j < |s'.devs| ensures RingOk(s', j) { assert RingOk(s, j); }
    assert Hub(s').armed == H.Next(Hub(s), H.Complete(i)).armed;
  }

  lemma NotifyKeeps(s: System, t: R.Trb)
    requires Inv(s) && Enabled(s, Notify(t))
    ensures Inv(Next(s, Notify(t))) && Hub(Next(s, Notify(t))) == H.Next(Hub(s), H.Post(Note(t)))
  {
    var s' := Next(s, Notify(t));
    H.PostKeeps(Hub(s), Note(t));
    RaiseAppends(s.ev, t);
    forall j: nat | j < |s'.devs| ensures RingOk(s', j) { assert RingOk(s, j); }
    assert Hub(s').armed == Hub(s).armed;
  }

  lemma PostKeeps(s: System)
    requires Inv(s) && Enabled(s, Post)
    ensures Inv(Next(s, Post)) && Hub(Next(s, Post)) == Hub(s)
  {
    var s' := Next(s, Post);
    PostMoves(s.ev);
    forall j: nat | j < |s'.devs| ensures RingOk(s', j) { assert RingOk(s, j); }
    assert Hub(s').armed == Hub(s).armed;
  }

  lemma PollKeeps(s: System)
    requires Inv(s) && s.phase.Idle?
    ensures var s' := DriveStep(s);
            Inv(s') && Hub(s') == if s.ev.reader.Advanced? then H.PollStep(Hub(s)) else Hub(s)
  {
    var s' := DriveStep(s);
    PollTakes(s.ev);
    H.PollKeeps(Hub(s));
    forall j: nat | j < |s'.devs| ensures RingOk(s', j) { assert RingOk(s, j); }
    assert Hub(s').armed == Hub(s).armed;
  }

  lemma HandleKeeps(s: System)
    requires Inv(s) && s.phase.Handle?
    ensures Inv(DriveStep(s)) && Hub(DriveStep(s)) == H.PollStep(Hub(s))
  {
    var s' := DriveStep(s);
    H.PollKeeps(Hub(s));
    forall j: nat | j < |s'.devs| ensures RingOk(s', j) { assert RingOk(s, j); }
    assert Hub(s').armed == Hub(s).armed;
  }

  /** arm_interrupt is called with nothing outstanding, so its unchecked push is always allowed. */
  lemma ArmMayPush(s: System, i: nat)
    requires Inv(s) && s.phase == Arm(i)
    ensures i < |s.devs| && R.Outstanding(s.rings[i]) == 0 && s.held[i] == []
    ensures R.Enabled(s.rings[i], R.Begin(ArmTrb(s.devs[i])))
  {
    assert RingOk(s, i) && H.TokenAt(Hub(s), i);
    R.CountedBoundSuffices(s.rings[i]);
  }

  lemma ArmKeeps(s: System)
    requires Inv(s) && s.phase.Arm?
    ensures Inv(DriveStep(s)) && Hub(DriveStep(s)) == Hub(s)
  {
    var s', i := DriveStep(s), s.phase.i;
    ArmMayPush(s, i);
    assert RingOk(s, i);
    R.BeginInv(s.rings[i], ArmTrb(s.devs[i]));
    forall j: nat | j < |s'.devs| ensures RingOk(s', j) { assert RingOk(s, j); }
    assert Hub(s').armed == Hub(s).armed;
  }

  /** What a store of ring_push does to the counts. */
  lemma StoreCounts(r: R.State)
    requires R.Inv(r) && r.driver.Pushing?
    ensures var r' := R.Store(r);
            && R.Inv(r') && r'.consumed == r.consumed && |r'.ring| == |r.ring|
            && (if r.driver.words == 3 then r'.pushed == r.pushed + [r.driver.t] else r'.pushed == r.pushed)
            && (r'.driver.Pushing? ==> r'.driver.t == r.driver.t && r'.driver.words == r.driver.words + 1)
            && (r.driver.words < 3 ==> r'.driver.Pushing?) && (r.driver.words == 4 ==> r'.driver.Idle?)
  {
    R.StepInv(r, R.Write);
  }

  /** The next store of the push writes the control word. */
  predicate Publishes(s: System) {
    && s.phase.Push? && s.phase.i < |s.rings|
    && s.rings[s.phase.i].driver.Pushing? && s.rings[s.phase.i].driver.words == 3
  }

  lemma PushKeeps(s: System)
    requires Inv(s) && s.phase.Push?
    ensures Inv(DriveStep(s)) && Hub(DriveStep(s)) == if Publishes(s) then H.PollStep(Hub(s)) else Hub(s)
  {
    var s', i := DriveStep(s), s.phase.i;
    assert RingOk(s, i);
    StoreCounts(s.rings[i]);
    OneRing(s, s', i);
    PushedHub(s);
    H.PollKeeps(Hub(s));
    forall j: nat | j < |s'.devs| ensures RingOk(s', j) { assert RingOk(s, j); }
  }

  lemma PushedHub(s: System)
    requires Inv(s) && s.phase.Push?
    ensures Hub(DriveStep(s)) == if Publishes(s) then H.PollStep(Hub(s)) else Hub(s)
  {
    var s', i := DriveStep(s), s.phase.i;
    assert RingOk(s, i);
    StoreCounts(s.rings[i]);
    OneRing(s, s', i);
    assert Armed(s', i) == Armed(s, i) + if Publishes(s) then 1 else 0;
  }

  lemma DriveKeeps(s: System)
    requires Inv(s)
    ensures Inv(DriveStep(s)) && DriveStep(s).devs == s.devs
  {
    match s.phase
    case Idle => PollKeeps(s);
    case Handle(_) => HandleKeeps(s);
    case Arm(_) => ArmKeeps(s);
    case Push(_) => PushKeeps(s);
  }

  lemma StepKeeps(s: System, step: Step)
    requires Inv(s) && Enabled(s, step)
    ensures Inv(Next(s, step)) && Next(s, step).devs == s.devs
  {
    match step
    case Fetch(i) => FetchKeeps(s, i);
    case Dma(i, j, r) => DmaKeeps(s, i, j, r);
    case Finish(i, t) => FinishKeeps(s, i, t);
    case Notify(t) => NotifyKeeps(s, t);
    case Post => PostKeeps(s);
    case Drive => DriveKeeps(s);
  }

  /** The abstract steps a step amounts to: one or none. */
  function Abstracts(s: System, step: Step): seq<H.Step> {
    match step
    case Dma(i, j, r) => [H.Fill(j, if j < |s.bufs| then Written(s.bufs[j], r) else r)]
    case Finish(i, _) => [H.Complete(i)]
    case Notify(t) => [H.Post(Note(t))]
    case Drive => if (s.phase.Idle? && s.ev.reader.Advanced?) || s.phase.Handle? || Publishes(s) then [H.Poll] else []
    case _ => []
  }

  /** Single words refine the hand-off: each step is the abstract step it amounts to. */
  lemma StepRefines(s: System, step: Step)
    requires Inv(s) && Enabled(s, step)
    ensures H.Legal(Hub(s), Abstracts(s, step)) && Hub(Next(s, step)) == H.Run(Hub(s), Abstracts(s, step))
  {
    var hs := Abstracts(s, step);
    assert hs != [] ==> hs[1..] == [];
    match step
    case Fetch(i) => FetchKeeps(s, i);
    case Dma(i, j, r) => DmaKeeps(s, i, j, r);
    case Finish(i, t) => FinishKeeps(s, i, t);
    case Notify(t) => NotifyKeeps(s, t);
    case Post => PostKeeps(s);
    case Drive => DriveRefines(s);
  }

  lemma DriveRefines(s: System)
    requires Inv(s)
    ensures Hub(DriveStep(s)) == if Abstracts(s, Drive) == [] then Hub(s) else H.PollStep(Hub(s))
  {
    match s.phase
    case Idle => PollKeeps(s);
    case Handle(_) => HandleKeeps(s);
    case Arm(_) => ArmKeeps(s);
    case Push(_) => PushKeeps(s);
  }

  // ----- whole runs -----

  ghost predicate Legal(s: System, steps: seq<Step>)
    requires Inv(s)
    decreases |steps|
  {
    steps == [] || (Enabled(s, steps[0]) && (StepKeeps(s, steps[0]); Legal(Next(s, steps[0]), steps[1..])))
  }

  ghost function Run(s: System, steps: seq<Step>): (s': System)
    requires Inv(s) && Legal(s, steps)
    ensures Inv(s') && s'.devs == s.devs
    decreases |steps|
  {
    if steps == [] then s else StepKeeps(s, steps[0]); Run(Next(s, steps[0]), steps[1..])
  }

  /** In every interleaving of single words: a buffer about to be read belongs to no TRB the
      controller could act on; a push is only ever made onto a drained ring; every TRB consumed asks
      for the device's report in the device's own buffer, one for each report delivered or in
      execution; and the reports read are those delivered, in order, at most one behind. */
  lemma ReportsDelivered(s: System, steps: seq<Step>, i: nat)
    requires Inv(s) && Legal(s, steps) && i < |s.devs| && s.devs[i].Ready()
    ensures var s' := Run(s, steps); var r := s'.rings[i];
            && (s'.phase == Handle(i) ==> R.Outstanding(r) == 0 && s'.held[i] == [])
            && (s'.phase == Arm(i) ==> R.Enabled(r, R.Begin(ArmTrb(s.devs[i]))))
            && 0 <= R.Outstanding(r) && R.Outstanding(r) + |s'.held[i]| <= 1
            && r.consumed <= r.pushed && |r.consumed| == |s'.completed[i]| + |s'.held[i]|
            && (forall k :: 0 <= k < |r.consumed| ==> AsksForReport(r.consumed[k], s.devs[i]))
            && s'.handled[i] <= s'.completed[i] && |s'.completed[i]| <= |s'.handled[i]| + 1
            && (s'.phase == Handle(i) ==> s'.completed[i] == s'.handled[i] + [s'.bufs[i]])
  {
    var s' := Run(s, steps);
    assert RingOk(s', i) && H.TokenAt(Hub(s'), i);
    if s'.phase == Arm(i) { ArmMayPush(s', i); }
  }

  /** A published TRB is not stuck: once the driver has left the ring the controller can fetch it. */
  lemma ArmedCanBeFetched(s: System, i: nat)
    requires Inv(s) && i < |s.devs| && s.phase != Push(i) && R.Outstanding(s.rings[i]) > 0
    ensures Enabled(s, Fetch(i))
  {
    assert RingOk(s, i);
    R.ControllerReady(s.rings[i]);
  }

  /** And a TRB in execution can be completed whenever the event ring takes another event. */
  lemma HeldCanFinish(s: System, i: nat, t: R.Trb)
    requires Inv(s) && i < |s.devs| && s.held[i] != []
    requires E.Enabled(s.ev, E.Raise(t)) && TransferFor(t, s.devs[i].slot)
    ensures Enabled(s, Finish(i, t))
  {
    OwnedIsArmed(s, i);
  }
}
