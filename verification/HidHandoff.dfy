/** USB HID reports after enumeration: one interrupt TRB per device circulates between the
    controller, which fills the device's report buffer and posts a transfer event, and usb_poll,
    which reads the buffer and arms the endpoint again. Controller steps may fall between any
    two steps of the poll. */
module HidHandoff {
  const TRANSFER := 32

  type Report = seq<int>

  /** A device, its report buffer's address and the length of its reports. */
  datatype Device = Device(used: bool, slot: nat, dci: nat, buf: nat, len: nat) {
    predicate Ready() { used && dci != 0 }
  }

  datatype Event = Event(kind: nat, slot: nat)

  /** Where usb_poll is: between events, about to read the buffer of a device, or about to arm it. */
  datatype Phase = Between | Handling(i: nat) | Arming(i: nat)

  datatype Hub = Hub(
    devs: seq<Device>,
    armed: seq<nat>,                      // interrupt TRBs the controller holds, per device
    bufs: seq<Report>,                    // hid_buf
    events: seq<Event>,                   // posted and not yet taken
    phase: Phase,
    completed: seq<seq<Report>>,          // reports the controller delivered, per device
    handled: seq<seq<Report>>)            // reports hid_handle has read, per device

  /** The first ready device with that slot, or |devs|. */
  function Find(devs: seq<Device>, slot: nat): (i: nat)
    ensures i <= |devs|
    ensures i < |devs| ==> devs[i].Ready() && devs[i].slot == slot
    ensures forall j :: 0 <= j < i ==> !(devs[j].Ready() && devs[j].slot == slot)
  {
    if devs == [] then 0
    else if devs[0].Ready() && devs[0].slot == slot then 0
    else 1 + Find(devs[1..], slot)
  }

  /** The controller writes a buffer it owns, completes a TRB, or posts another event; usb_poll moves on. */
  datatype Step = Fill(i: nat, r: Report) | Complete(i: nat) | Post(e: Event) | Poll

  /** The controller owns a report buffer exactly while it holds a TRB for it. */
  predicate Owns(s: Hub, i: nat) {
    i < |s.armed| && s.armed[i] > 0
  }

  predicate Shape(s: Hub) {
    |s.armed| == |s.devs| && |s.bufs| == |s.devs| && |s.completed| == |s.devs| && |s.handled| == |s.devs|
    && (!s.phase.Between? ==> s.phase.i < |s.devs|)
  }

  predicate Enabled(s: Hub, step: Step) {
    match step
    case Fill(i, _) => Owns(s, i)
    case Complete(i) => Owns(s, i)
    case Post(e) => e.kind != TRANSFER       // port changes and the like; no control transfer is pending
    case Poll => true
  }

  function PollStep(s: Hub): Hub
    requires Shape(s)
  {
    match s.phase
    case Between =>
      if s.events == [] then s
      else
        var e := s.events[0];
        var i := Find(s.devs, e.slot);
        s.(events := s.events[1..], phase := if e.kind == TRANSFER && i < |s.devs| then Handling(i) else Between)
    case Handling(i) => s.(handled := s.handled[i := s.handled[i] + [s.bufs[i]]], phase := Arming(i))
    case Arming(i) => s.(armed := s.armed[i := s.armed[i] + 1], phase := Between)
  }

  function Next(s: Hub, step: Step): (s': Hub)
    requires Shape(s) && Enabled(s, step)
    ensures Shape(s')
  {
    match step
    case Fill(i, r) => s.(bufs := s.bufs[i := r])
    case Complete(i) =>
      s.(armed := s.armed[i := s.armed[i] - 1],
         events := s.events + [Event(TRANSFER, s.devs[i].slot)],
         completed := s.completed[i := s.completed[i] + [s.bufs[i]]])
    case Post(e) => s.(events := s.events + [e])
    case Poll => PollStep(s)
  }

  // ----- one token per device -----

  /** Transfer events for a slot still in the queue. */
  function Pending(events: seq<Event>, slot: nat): nat {
    if events == [] then 0
    else (if events[0] == Event(TRANSFER, slot) then 1 else 0) + Pending(events[1..], slot)
  }

  lemma {:induction false} PendingAppend(a: seq<Event>, e: Event, slot: nat)
    ensures Pending(a + [e], slot) == Pending(a, slot) + if e == Event(TRANSFER, slot) then 1 else 0
    decreases |a|
  {
    if a == [] {
      assert (a + [e])[1..] == [];
    } else {
      PendingAppend(a[1..], e, slot);
      assert (a + [e])[1..] == a[1..] + [e];
    }
  }

  predicate Distinct(devs: seq<Device>) {
    forall i, j :: 0 <= i < j < |devs| && devs[i].Ready() && devs[j].Ready() ==> devs[i].slot != devs[j].slot
  }

  function Busy(s: Hub, i: nat): nat {
    if !s.phase.Between? && s.phase.i == i then 1 else 0
  }

  /** Exactly one of: armed, event pending, being handled; and the buffer holds the one report
      that is delivered and not yet read. */
  predicate TokenAt(s: Hub, i: nat)
    requires Shape(s) && i < |s.devs|
  {
    if s.devs[i].Ready() then
      && s.armed[i] + Pending(s.events, s.devs[i].slot) + Busy(s, i) == 1
      && s.completed[i] == s.handled[i] +
           (if Pending(s.events, s.devs[i].slot) == 1 || s.phase == Handling(i) then [s.bufs[i]] else [])
    else s.armed[i] == 0 && Busy(s, i) == 0
  }

  ghost predicate Inv(s: Hub) {
    Shape(s) && Distinct(s.devs) && forall i: nat :: i < |s.devs| ==> TokenAt(s, i)
  }

  lemma FindIs(devs: seq<Device>, i: nat)
    requires Distinct(devs) && i < |devs| && devs[i].Ready()
    ensures Find(devs, devs[i].slot) == i
  {
    var f := Find(devs, devs[i].slot);
    assert f <= i;
  }

  lemma FillKeeps(s: Hub, i: nat, r: Report)
    requires Inv(s) && Owns(s, i)
    ensures Inv(Next(s, Fill(i, r)))
  {
    var s' := Next(s, Fill(i, r));
    forall j: nat | j < |s'.devs| ensures TokenAt(s', j) { assert TokenAt(s, j); }
  }

  lemma CompleteKeeps(s: Hub, i: nat)
    requires Inv(s) && Owns(s, i)
    ensures Inv(Next(s, Complete(i)))
  {
    var s' := Next(s, Complete(i));
    assert TokenAt(s, i);
    forall j: nat | j < |s'.devs| ensures TokenAt(s', j) {
      assert TokenAt(s, j);
      PendingAppend(s.events, Event(TRANSFER, s.devs[i].slot), s.devs[j].slot);
      assert i < j || j < i || i == j;
    }
  }

  lemma PostKeeps(s: Hub, e: Event)
    requires Inv(s) && e.kind != TRANSFER
    ensures Inv(Next(s, Post(e)))
  {
    var s' := Next(s, Post(e));
    forall j: nat | j < |s'.devs| ensures TokenAt(s', j) {
      assert TokenAt(s, j);
      PendingAppend(s.events, e, s.devs[j].slot);
    }
  }

  lemma PollKeeps(s: Hub)
    requires Inv(s)
    ensures Inv(PollStep(s))
  {
    var s' := PollStep(s);
    forall j: nat | j < |s'.devs| ensures TokenAt(s', j) {
      assert TokenAt(s, j);
      if s.phase.Between? && s.events != [] && s.devs[j].Ready() { FindIs(s.devs, j); }
    }
  }

  lemma StepKeeps(s: Hub, step: Step)
    requires Inv(s) && Enabled(s, step)
    ensures Inv(Next(s, step)) && Next(s, step).devs == s.devs
  {
    match step
    case Fill(i, r) => FillKeeps(s, i, r);
    case Complete(i) => CompleteKeeps(s, i);
    case Post(e) => PostKeeps(s, e);
    case Poll => PollKeeps(s);
  }

  // ----- whole runs -----

  ghost predicate Legal(s: Hub, steps: seq<Step>)
    requires Shape(s)
    decreases |steps|
  {
    steps == [] || (Enabled(s, steps[0]) && Legal(Next(s, steps[0]), steps[1..]))
  }

  ghost function Run(s: Hub, steps: seq<Step>): Hub
    requires Shape(s) && Legal(s, steps)
    decreases |steps|
  {
    if steps == [] then s else Run(Next(s, steps[0]), steps[1..])
  }

  lemma {:induction false} RunKeeps(s: Hub, steps: seq<Step>)
    requires Inv(s) && Legal(s, steps)
    ensures Inv(Run(s, steps)) && Run(s, steps).devs == s.devs
    decreases |steps|
  {
    if steps != [] {
      StepKeeps(s, steps[0]);
      RunKeeps(Next(s, steps[0]), steps[1..]);
    }
  }

  /** In every interleaving: each ready device has exactly one TRB in circulation, the
      controller never owns a buffer that hid_handle is about to read, and the reports read are,
      in order and without loss, those delivered. */
  lemma BufferNeverShared(s: Hub, steps: seq<Step>, i: nat)
    requires Inv(s) && Legal(s, steps) && i < |s.devs| && s.devs[i].Ready()
    ensures var s' := Run(s, steps);
            && Shape(s') && i < |s'.devs|
            && s'.armed[i] + Pending(s'.events, s'.devs[i].slot) + Busy(s', i) == 1
            && (s'.phase == Handling(i) ==> !Owns(s', i))
            && s'.handled[i] <= s'.completed[i] && |s'.completed[i]| <= |s'.handled[i]| + 1
            && (s'.phase == Handling(i) ==> s'.completed[i] == s'.handled[i] + [s'.bufs[i]])
  {
    RunKeeps(s, steps);
    assert TokenAt(Run(s, steps), i);
  }

  // ----- a lost event -----

  /** A ready device with no TRB, no event and not being handled: what is left when its transfer
      event was dropped. */
  predicate Silent(s: Hub, i: nat) {
    && Shape(s) && i < |s.devs| && s.devs[i].Ready()
    && s.armed[i] == 0 && Pending(s.events, s.devs[i].slot) == 0 && Busy(s, i) == 0
  }

  /** Only ready devices are armed or handled. */
  predicate ReadyOnly(s: Hub)
    requires Shape(s)
  {
    forall j: nat :: j < |s.devs| && !s.devs[j].Ready() ==> s.armed[j] == 0 && Busy(s, j) == 0
  }

  lemma StaysSilent(s: Hub, step: Step, i: nat)
    requires Silent(s, i) && Distinct(s.devs) && ReadyOnly(s) && Enabled(s, step)
    ensures var s' := Next(s, step);
            Silent(s', i) && ReadyOnly(s') && s'.devs == s.devs && s'.handled[i] == s.handled[i]
  {
    match step
    case Fill(_, _) =>
    case Complete(j) =>
      assert s.devs[j].Ready() && (i < j || j < i);
      PendingAppend(s.events, Event(TRANSFER, s.devs[j].slot), s.devs[i].slot);
    case Post(e) => PendingAppend(s.events, e, s.devs[i].slot);
    case Poll => if s.phase.Between? && s.events != [] { FindIs(s.devs, i); }
  }

  /** A dropped event silences its device for good: in every run from there on nothing of it is
      ever read again. */
  lemma {:induction false} SilentForGood(s: Hub, steps: seq<Step>, i: nat)
    requires Silent(s, i) && Distinct(s.devs) && ReadyOnly(s) && Legal(s, steps)
    ensures Silent(Run(s, steps), i) && Run(s, steps).handled[i] == s.handled[i]
    decreases |steps|
  {
    if steps != [] {
      StaysSilent(s, steps[0], i);
      SilentForGood(Next(s, steps[0]), steps[1..], i);
    }
  }
}
