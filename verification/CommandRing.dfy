/** The xHCI producer rings (command, control and interrupt endpoints): the driver fills TRBs
    and publishes them by cycle bit while the controller consumes, following the link TRB.
    Every word the driver writes and every word the controller reads is a step of its own, and
    the steps interleave freely (sections 4.9.2 and 4.9.3 of the xHCI specification). */
module CommandRing {
  datatype Trb = Trb(lo: nat, hi: nat, status: nat, control: nat)

  function Cycle(control: nat): nat { control % 2 }

  /** TRB type, bits 10 to 15 of the control word. */
  function TrbType(control: nat): nat { control / 0x400 % 0x40 }

  const TRB_LINK := 6

  /** Link control word: type Link, Toggle Cycle, and the producer's cycle bit. */
  function LinkControl(cyc: nat): (control: nat)
    ensures cyc <= 1 ==> IsLink(control) && Toggles(control) && Cycle(control) == cyc
  {
    TRB_LINK * 0x400 + 2 + cyc
  }

  /** Type 6 in bits 10 to 15. */
  predicate IsLink(control: nat) { control / 0x400 % 0x40 == 6 }

  /** Bit 1 of a link's control word: the controller toggles its cycle state. */
  predicate Toggles(control: nat) { control / 2 % 2 == 1 }

  /** ctl | cyc, for a cycle bit. */
  function WithCycle(ctl: nat, cyc: nat): nat {
    if Cycle(ctl) == 0 then ctl + cyc else ctl
  }

  /** What a caller may push: a control word without the cycle bit that is not itself a link. */
  predicate Pushable(t: Trb) {
    Cycle(t.control) == 0 && !IsLink(t.control)
  }

  // ----- the steps -----

  /** What the driver is doing: nothing, or part way through ring_push with `words` written;
      five words mean that only the link refresh is left. */
  datatype Driver = Idle | Pushing(t: Trb, words: nat)

  datatype State = State(
    ring: seq<Trb>, base: nat,                   // the TRBs and the ring's physical address
    enq: nat, cyc: nat, driver: Driver,          // the driver's cursor and progress
    pos: nat, ccs: nat, fetched: seq<nat>,       // the controller's cursor and the words it has read
    pushed: seq<Trb>, consumed: seq<Trb>)        // published and consumed so far, cycle bits removed

  /** ring_link followed by handing the ring to the controller with cycle state 1. */
  function Initial(n: nat, base: nat): (s: State)
    requires n >= 2
    ensures Inv(s) && |s.ring| == n
  {
    var s := State(LinkedRing(n, 1, base), base, 0, 1, Idle, 0, 1, [], [], []);
    assert forall j: nat :: j < n - 1 ==> BitAt(s, j);
    s
  }

  /** What ring_link leaves: cleared TRBs and a link back to the start. */
  function LinkedRing(n: nat, cyc: nat, base: nat): seq<Trb>
    requires n >= 2
  {
    seq(n - 1, _ => Trb(0, 0, 0, 0)) + [Trb(base, 0, 0, LinkControl(cyc))]
  }

  /** The slot a link's address names, or |ring| when it names none. */
  function LinkTarget(s: State, lo: nat): nat {
    if s.base <= lo < s.base + 16 * |s.ring| && (lo - s.base) % 16 == 0 then (lo - s.base) / 16 else |s.ring|
  }

  /** TRBs published and not yet consumed. */
  function Outstanding(s: State): int {
    |s.pushed| - |s.consumed|
  }

  datatype Step = Begin(t: Trb) | Write | Control

  /** May a push begin? Not into a full ring, and not onto the last slot while the controller
      still sits on the link TRB that this push would rewrite. */
  predicate CanPush(s: State) {
    Outstanding(s) < |s.ring| - 1 && !(s.enq == |s.ring| - 2 && s.pos == |s.ring| - 1)
  }

  predicate Enabled(s: State, step: Step) {
    match step
    case Begin(t) => s.driver.Idle? && Pushable(t) && CanPush(s)
    case Write => s.driver.Pushing?
    case Control => s.fetched != [] || (s.pos < |s.ring| && Cycle(s.ring[s.pos].control) == s.ccs)
  }

  /** One volatile store of ring_push; the last also moves the cursor. */
  function Store(s: State): State
    requires s.driver.Pushing? && s.enq < |s.ring| - 1 && s.cyc <= 1
  {
    var t, e, n := s.driver.t, s.enq, |s.ring|;
    match s.driver.words
    case 0 => s.(ring := s.ring[e := s.ring[e].(lo := t.lo)], driver := Pushing(t, 1))
    case 1 => s.(ring := s.ring[e := s.ring[e].(hi := t.hi)], driver := Pushing(t, 2))
    case 2 => s.(ring := s.ring[e := s.ring[e].(status := t.status)], driver := Pushing(t, 3))
    case 3 =>
      var r := s.ring[e := s.ring[e].(control := WithCycle(t.control, s.cyc))];
      if e + 1 == n - 1 then s.(ring := r, driver := Pushing(t, 4), pushed := s.pushed + [t])
      else s.(ring := r, driver := Idle, enq := e + 1, pushed := s.pushed + [t])
    case _ =>
      s.(ring := s.ring[n - 1 := s.ring[n - 1].(control := LinkControl(s.cyc))],
         driver := Idle, enq := 0, cyc := 1 - s.cyc)
  }

  /** One read by the controller: it tests the cycle bit, follows a link and toggles its cycle
      state if the link says so, or reads the other words of a TRB it owns and then consumes it. */
  function Consume(s: State): State
    requires Enabled(s, Control) && s.pos < |s.ring| && s.ccs <= 1 && |s.fetched| <= 3
  {
    var t := s.ring[s.pos];
    match |s.fetched|
    case 0 =>
      if IsLink(t.control) then
        s.(pos := LinkTarget(s, t.lo), ccs := if Toggles(t.control) then 1 - s.ccs else s.ccs)
      else s.(fetched := [t.control])
    case 1 => s.(fetched := s.fetched + [t.lo])
    case 2 => s.(fetched := s.fetched + [t.hi])
    case _ =>
      var c := s.fetched[0];
      s.(fetched := [], pos := s.pos + 1,
         consumed := s.consumed + [Trb(s.fetched[1], s.fetched[2], t.status, c - Cycle(c))])
  }

  function Next(s: State, step: Step): State
    requires Enabled(s, step) && Inv(s)
  {
    match step
    case Begin(t) => s.(driver := Pushing(t, 0))
    case Write => Store(s)
    case Control => Consume(s)
  }

  // ----- the invariant -----

  /** Once the TRB before the link is published, the producer is as good as wrapped. */
  function Enq(s: State): nat {
    if s.driver.Pushing? && s.driver.words == 4 then 0 else s.enq
  }

  function Cyc(s: State): int {
    if s.driver.Pushing? && s.driver.words == 4 then 1 - s.cyc else s.cyc
  }

  /** Is the controller in the producer's current lap, or still one behind? */
  predicate SameLap(s: State) {
    s.ccs == Cyc(s) && s.pos <= Enq(s) && Outstanding(s) == Enq(s) - s.pos
  }

  predicate LapBehind(s: State) {
    s.ccs == 1 - Cyc(s) && Enq(s) <= s.pos <= |s.ring| - 1
    && Outstanding(s) == |s.ring| - 1 - s.pos + Enq(s)
  }

  /** The slot `i` places after the controller's, skipping the link. */
  function SlotAt(s: State, i: nat): nat {
    if s.pos + i < |s.ring| - 1 then s.pos + i else s.pos + i - (|s.ring| - 1)
  }

  predicate Shape(s: State) {
    && |s.ring| >= 2 && s.cyc <= 1 && s.ccs <= 1 && s.enq < |s.ring| - 1 && s.pos < |s.ring|
    && (s.driver.Pushing? ==> Pushable(s.driver.t) && s.driver.words <= 4
                              && (s.driver.words == 4 ==> s.enq == |s.ring| - 2))
    && |s.consumed| <= |s.pushed| && s.consumed == s.pushed[..|s.consumed|]
    && (SameLap(s) || LapBehind(s))
  }

  /** While a push is under way its slot is not the controller's, and it is not about to lap it. */
  predicate WriterClear(s: State)
    requires s.enq < |s.ring|
  {
    s.driver.Pushing? && s.driver.words < 4 ==>
      && Outstanding(s) < |s.ring| - 1 && (s.enq == |s.ring| - 2 ==> SameLap(s))
      && (s.driver.words >= 1 ==> s.ring[s.enq].lo == s.driver.t.lo)
      && (s.driver.words >= 2 ==> s.ring[s.enq].hi == s.driver.t.hi)
      && (s.driver.words >= 3 ==> s.ring[s.enq].status == s.driver.t.status)
  }

  /** The cycle bits before the cursor say "this lap", those after it "the lap before". */
  predicate BitAt(s: State, j: nat)
    requires j < |s.ring|
  {
    !IsLink(s.ring[j].control) && Cycle(s.ring[j].control) == if j < Enq(s) then Cyc(s) else 1 - Cyc(s)
  }

  predicate LinkOk(s: State)
    requires |s.ring| >= 2
  {
    var c := s.ring[|s.ring| - 1].control;
    && s.ring[|s.ring| - 1].lo == s.base && IsLink(c) && Toggles(c)
    && (LapBehind(s) && !(s.driver.Pushing? && s.driver.words == 4) ==> Cycle(c) == s.ccs)
  }

  /** Outstanding TRB number i lies whole in its slot. */
  predicate HoldsAt(s: State, i: nat)
    requires i < Outstanding(s) && SlotAt(s, i) < |s.ring| && |s.consumed| + i < |s.pushed|
  {
    var t := s.ring[SlotAt(s, i)];
    s.pushed[|s.consumed| + i] == t.(control := t.control - Cycle(t.control))
  }

  predicate FetchOk(s: State)
    requires s.pos < |s.ring|
  {
    s.fetched != [] ==>
      && |s.fetched| <= 3 && Outstanding(s) > 0 && s.pos < |s.ring| - 1
      && s.fetched[0] == s.ring[s.pos].control
      && (|s.fetched| >= 2 ==> s.fetched[1] == s.ring[s.pos].lo)
      && (|s.fetched| >= 3 ==> s.fetched[2] == s.ring[s.pos].hi)
  }

  ghost predicate Inv(s: State) {
    && Shape(s) && WriterClear(s) && LinkOk(s) && FetchOk(s)
    && (forall j: nat :: j < |s.ring| - 1 ==> BitAt(s, j))
    && (forall i: nat :: i < Outstanding(s) ==> SlotAt(s, i) < |s.ring| - 1 && HoldsAt(s, i))
  }

  // ----- every step keeps it -----

  lemma BeginInv(s: State, t: Trb)
    requires Inv(s) && Enabled(s, Begin(t))
    ensures Inv(Next(s, Begin(t)))
  {
    var s' := Next(s, Begin(t));
    forall j: nat | j < |s'.ring| - 1 ensures BitAt(s', j) { assert BitAt(s, j); }
    forall i: nat | i < Outstanding(s') ensures SlotAt(s', i) < |s'.ring| - 1 && HoldsAt(s', i) {
      assert HoldsAt(s, i);
    }
  }

  /** The slot being filled holds no outstanding TRB. */
  lemma WriterSlotFree(s: State, i: nat)
    requires Inv(s) && s.driver.Pushing? && s.driver.words < 4 && i < Outstanding(s)
    ensures SlotAt(s, i) != s.enq
  {
  }

  lemma PayloadInv(s: State)
    requires Inv(s) && s.driver.Pushing? && s.driver.words < 3
    ensures Inv(Next(s, Write))
  {
    var s' := Next(s, Write);
    forall j: nat | j < |s'.ring| - 1 ensures BitAt(s', j) { assert BitAt(s, j); }
    forall i: nat | i < Outstanding(s') ensures SlotAt(s', i) < |s'.ring| - 1 && HoldsAt(s', i) {
      assert HoldsAt(s, i);
      WriterSlotFree(s, i);
    }
    if s.fetched != [] { WriterSlotFree(s, 0); }
  }

  lemma PublishInv(s: State)
    requires Inv(s) && s.driver.Pushing? && s.driver.words == 3
    ensures Inv(Next(s, Write))
  {
    var s' := Next(s, Write);
    PublishedControl(s.driver.t.control, s.cyc);
    forall j: nat | j < |s'.ring| - 1 ensures BitAt(s', j) { assert BitAt(s, j); }
    if s.fetched != [] { WriterSlotFree(s, 0); }
    forall i: nat | i < Outstanding(s') ensures SlotAt(s', i) < |s'.ring| - 1 && HoldsAt(s', i) {
      if i < Outstanding(s) {
        assert HoldsAt(s, i);
        WriterSlotFree(s, i);
      } else {
        assert SlotAt(s', i) == s.enq;
      }
    }
  }

  lemma PublishedControl(ctl: nat, cyc: nat)
    requires Cycle(ctl) == 0 && !IsLink(ctl) && cyc <= 1
    ensures Cycle(ctl + cyc) == cyc && !IsLink(ctl + cyc) && ctl + cyc - Cycle(ctl + cyc) == ctl
  {
    assert ctl % 0x400 + cyc < 0x400;
    assert (ctl + cyc) / 0x400 == ctl / 0x400;
  }

  lemma RefreshInv(s: State)
    requires Inv(s) && s.driver.Pushing? && s.driver.words == 4
    ensures Inv(Next(s, Write))
  {
    var s' := Next(s, Write);
    forall j: nat | j < |s'.ring| - 1 ensures BitAt(s', j) { assert BitAt(s, j); }
    forall i: nat | i < Outstanding(s') ensures SlotAt(s', i) < |s'.ring| - 1 && HoldsAt(s', i) {
      assert HoldsAt(s, i);
    }
  }

  /** What the controller finds published is outstanding TRB number 0, or the link. */
  lemma FoundIsNext(s: State)
    requires Inv(s) && s.fetched == [] && Enabled(s, Control) && s.pos < |s.ring| - 1
    ensures Outstanding(s) > 0 && SlotAt(s, 0) == s.pos && !IsLink(s.ring[s.pos].control)
  {
    assert BitAt(s, s.pos);
  }

  lemma FetchInv(s: State)
    requires Inv(s) && Enabled(s, Control) && |s.fetched| < 3 && s.pos < |s.ring| - 1
    ensures Inv(Next(s, Control)) && Outstanding(s) > 0
  {
    if s.fetched == [] { FoundIsNext(s); }
    var s' := Next(s, Control);
    forall j: nat | j < |s'.ring| - 1 ensures BitAt(s', j) { assert BitAt(s, j); }
    forall i: nat | i < Outstanding(s') ensures SlotAt(s', i) < |s'.ring| - 1 && HoldsAt(s', i) {
      assert HoldsAt(s, i);
    }
  }

  lemma FinishInv(s: State)
    requires Inv(s) && |s.fetched| == 3
    ensures Inv(Next(s, Control)) && Next(s, Control).consumed == s.consumed + [s.pushed[|s.consumed|]]
  {
    var s' := Next(s, Control);
    assert SlotAt(s, 0) == s.pos && HoldsAt(s, 0);
    assert s'.consumed == s.consumed + [s.pushed[|s.consumed|]];
    forall j: nat | j < |s'.ring| - 1 ensures BitAt(s', j) { assert BitAt(s, j); }
    forall i: nat | i < Outstanding(s') ensures SlotAt(s', i) < |s'.ring| - 1 && HoldsAt(s', i) {
      assert HoldsAt(s, i + 1) && SlotAt(s', i) == SlotAt(s, i + 1);
    }
  }

  lemma LinkInv(s: State)
    requires Inv(s) && Enabled(s, Control) && s.pos == |s.ring| - 1
    ensures Inv(Next(s, Control)) && Next(s, Control) == s.(pos := 0, ccs := 1 - s.ccs)
  {
    var s' := Next(s, Control);
    forall j: nat | j < |s'.ring| - 1 ensures BitAt(s', j) { assert BitAt(s, j); }
    forall i: nat | i < Outstanding(s') ensures SlotAt(s', i) < |s'.ring| - 1 && HoldsAt(s', i) {
      assert HoldsAt(s, i) && SlotAt(s', i) == SlotAt(s, i);
    }
  }

  lemma StepInv(s: State, step: Step)
    requires Inv(s) && Enabled(s, step)
    ensures Inv(Next(s, step)) && |Next(s, step).ring| == |s.ring|
  {
    match step
    case Begin(t) => BeginInv(s, t);
    case Write =>
      if s.driver.words < 3 { PayloadInv(s); } else if s.driver.words == 3 { PublishInv(s); } else { RefreshInv(s); }
    case Control =>
      if s.pos == |s.ring| - 1 { LinkInv(s); } else if |s.fetched| == 3 { FinishInv(s); } else { FetchInv(s); }
  }

  // ----- whole runs -----

  /** A run: each step allowed where it is taken. */
  ghost predicate Legal(s: State, steps: seq<Step>)
    requires Inv(s)
    decreases |steps|
  {
    steps == [] || (Enabled(s, steps[0]) && (StepInv(s, steps[0]); Legal(Next(s, steps[0]), steps[1..])))
  }

  ghost function Run(s: State, steps: seq<Step>): (s': State)
    requires Inv(s) && Legal(s, steps)
    ensures Inv(s') && |s'.ring| == |s.ring|
    decreases |steps|
  {
    if steps == [] then s else StepInv(s, steps[0]); Run(Next(s, steps[0]), steps[1..])
  }

  /** In every interleaving, across any number of wraps, the controller has consumed exactly a
      prefix of what was pushed: whole TRBs, once each, in order, and never more than the ring
      holds are outstanding. */
  lemma RingDelivers(n: nat, base: nat, steps: seq<Step>)
    requires n >= 2 && Legal(Initial(n, base), steps)
    ensures var s := Run(Initial(n, base), steps); s.consumed <= s.pushed && |s.pushed| - |s.consumed| <= n - 1
  {
    assert Inv(Run(Initial(n, base), steps));
  }

  /** Whatever is outstanding when the driver is idle, the controller can go on. */
  lemma ControllerReady(s: State)
    requires Inv(s) && s.driver.Idle? && Outstanding(s) > 0
    ensures Enabled(s, Control)
  {
    if s.pos < |s.ring| - 1 { assert BitAt(s, s.pos); }
  }

  /** So with the driver idle the controller, left alone, consumes everything that was pushed. */
  lemma {:induction false} Drain(s: State) returns (steps: seq<Step>)
    requires Inv(s) && s.driver.Idle?
    ensures (forall i :: 0 <= i < |steps| ==> steps[i] == Control)
    ensures Legal(s, steps) && Run(s, steps).consumed == s.pushed == Run(s, steps).pushed
    decreases Outstanding(s), if s.ccs == s.cyc then 0 else 1, 3 - |s.fetched|
  {
    if Outstanding(s) == 0 {
      steps := [];
    } else {
      ControllerReady(s);
      StepInv(s, Control);
      if s.pos == |s.ring| - 1 { LinkInv(s); } else if s.fetched == [] { FoundIsNext(s); }
      var s1 := Next(s, Control);
      var rest := Drain(s1);
      steps := [Control] + rest;
      assert steps[1..] == rest;
    }
  }

  // ----- the bound the callers keep -----

  /** A caller that knows only how many TRBs are outstanding is safe below n - 2, or below
      n - 1 away from the last slot. */
  lemma CountedBoundSuffices(s: State)
    requires Inv(s) && s.driver.Idle?
    requires Outstanding(s) < |s.ring| - 2 || (Outstanding(s) < |s.ring| - 1 && s.enq < |s.ring| - 2)
    ensures CanPush(s)
  {
  }

  /** Pushes begun in a run. */
  function Begins(steps: seq<Step>): nat {
    if steps == [] then 0 else (if steps[0].Begin? then 1 else 0) + Begins(steps[1..])
  }

  /** A push under way that has not published its TRB yet. */
  function Unpublished(s: State): nat {
    if s.driver.Pushing? && s.driver.words < 4 then 1 else 0
  }

  lemma PushedNext(s: State, step: Step)
    requires Inv(s) && Enabled(s, step)
    ensures var s' := Next(s, step);
            && |s'.pushed| + Unpublished(s') == |s.pushed| + Unpublished(s) + (if step.Begin? then 1 else 0)
            && |s'.consumed| >= |s.consumed|
  {
  }

  /** Only pushes that were begun get published, and consumption never goes back. */
  lemma {:induction false} PushedAtMost(s: State, steps: seq<Step>)
    requires Inv(s) && Legal(s, steps)
    ensures var s' := Run(s, steps);
            && |s'.pushed| + Unpublished(s') <= |s.pushed| + Unpublished(s) + Begins(steps)
            && |s'.consumed| >= |s.consumed|
    decreases |steps|
  {
    if steps != [] {
      StepInv(s, steps[0]);
      PushedNext(s, steps[0]);
      PushedAtMost(Next(s, steps[0]), steps[1..]);
    }
  }

  /** A request of cmd_submit or arm_interrupt is one push onto a drained ring, one of control_xfer
      up to three, on rings of 16 or more: whatever the controller does between and during the
      pushes, each of them is allowed. */
  lemma RequestsMayPush(s: State, steps: seq<Step>)
    requires Inv(s) && s.driver.Idle? && Outstanding(s) == 0 && |s.ring| >= 16
    requires Legal(s, steps) && Begins(steps) <= 2 && Run(s, steps).driver.Idle?
    ensures CanPush(Run(s, steps))
  {
    PushedAtMost(s, steps);
    CountedBoundSuffices(Run(s, steps));
  }

  // ----- a whole push -----

  /** All the stores of a push, with nothing in between and no check first. */
  function PushNow(s: State, t: Trb): State
    requires s.enq < |s.ring| - 1 && s.cyc <= 1
  {
    var s4 := Store(Store(Store(Store(s.(driver := Pushing(t, 0))))));
    if s4.driver.Idle? then s4 else Store(s4)
  }

  // ----- ring_link and ring_push -----

  class Ring {
    const trbs: array<Trb>
    const base: nat                    // physical address
    var enq: nat
    var cyc: nat

    constructor (trbs: array<Trb>, base: nat)
      requires trbs.Length >= 2
      modifies trbs
      ensures this.trbs == trbs && this.base == base && enq == 0 && cyc == 1
      ensures trbs[..] == Initial(trbs.Length, base).ring
    {
      this.trbs, this.base := trbs, base;
      enq, cyc := 0, 1;
      new;
      Link(1);
    }

    /** ring_link: clear every TRB and close the ring with a link that toggles the cycle. */
    method Link(c: nat)
      requires trbs.Length >= 2
      modifies trbs
      ensures trbs[..] == LinkedRing(trbs.Length, c, base)
    {
      for i := 0 to trbs.Length
        invariant forall j :: 0 <= j < i ==> trbs[j] == Trb(0, 0, 0, 0)
      {
        trbs[i] := Trb(0, 0, 0, 0);
      }
      trbs[trbs.Length - 1] := trbs[trbs.Length - 1].(lo := base);
      trbs[trbs.Length - 1] := trbs[trbs.Length - 1].(control := LinkControl(c));
    }

    /** ring_push, uninterrupted: exactly the stores of the step machine. */
    method Push(t: Trb)
      requires trbs.Length >= 2 && enq < trbs.Length - 1 && cyc <= 1
      modifies this, trbs
      ensures enq < trbs.Length - 1 && cyc <= 1
      ensures forall s: State :: s.ring == old(trbs[..]) && s.enq == old(enq) && s.cyc == old(cyc) ==>
                var s' := PushNow(s, t); trbs[..] == s'.ring && enq == s'.enq && cyc == s'.cyc
    {
      trbs[enq] := trbs[enq].(lo := t.lo);
      trbs[enq] := trbs[enq].(hi := t.hi);
      trbs[enq] := trbs[enq].(status := t.status);
      trbs[enq] := trbs[enq].(control := WithCycle(t.control, cyc));
      enq := enq + 1;
      if enq == trbs.Length - 1 {
        trbs[trbs.Length - 1] := trbs[trbs.Length - 1].(control := LinkControl(cyc));
        enq := 0;
        cyc := 1 - cyc;
      }
    }
  }
}
