/** ring_push has no full check: exactly when that is harmless, and why counting outstanding TRBs
    up to n - 1 is not the right bound. */
module RingOverrun {
  import opened CommandRing
  import opened Traces

  lemma PushNowInv(s: State, t: Trb)
    requires Inv(s) && Enabled(s, Begin(t))
    ensures var s' := PushNow(s, t);
            && Inv(s') && s'.driver.Idle? && |s'.ring| == |s.ring|
            && s'.pushed == s.pushed + [t] && s'.consumed == s.consumed
  {
    BeginInv(s, t);
    var s0 := Next(s, Begin(t));
    PayloadInv(s0);
    var s1 := Store(s0);
    PayloadInv(s1);
    var s2 := Store(s1);
    PayloadInv(s2);
    var s3 := Store(s2);
    PublishInv(s3);
    var s4 := Store(s3);
    if s4.driver.Pushing? { RefreshInv(s4); }
  }

  /** A push without the two conditions of CanPush flips a cycle bit under a controller that is
      between TRBs: the ring holds unconsumed TRBs and the controller cannot move until the driver
      pushes again. */
  lemma OverrunStalls(s: State, t: Trb)
    requires Inv(s) && s.driver.Idle? && s.fetched == [] && Pushable(t) && !CanPush(s)
    ensures var s' := PushNow(s, t); s'.driver.Idle? && Outstanding(s') > 0 && !Enabled(s', Control)
  {
    PublishedControl(t.control, s.cyc);
  }

  /** A later push may set it going again: in the smallest ring the next one does. */
  lemma StallMayEnd(s: State)
    requires Inv(s) && s.driver.Idle? && |s.ring| == 2 && s.pos == 1 && Outstanding(s) == 0
    ensures var s1 := PushNow(s, BLANK);
            && s1.enq < |s1.ring| - 1 && s1.cyc <= 1
            && !Enabled(s1, Control) && Enabled(PushNow(s1, BLANK), Control)
  {
  }

  /** The rest of the reads of a TRB the controller has begun. */
  function ReadOn(s: State): State
    requires 0 < |s.fetched| <= 3 && s.pos < |s.ring| && s.ccs <= 1
    decreases 3 - |s.fetched|
  {
    var s' := Consume(s);
    if s'.fetched == [] then s' else ReadOn(s')
  }

  /** TRB u with the words after the first k replaced by those of t, in the order they are read. */
  function Torn(u: Trb, t: Trb, k: nat): Trb {
    Trb(if k < 2 then t.lo else u.lo, if k < 3 then t.hi else u.hi, t.status, u.control)
  }

  lemma {:induction false} ReadOnConsumes(s: State)
    requires 0 < |s.fetched| <= 3 && s.pos < |s.ring| && s.ccs <= 1
    ensures var r := s.ring[s.pos]; var c := s.fetched[0];
            ReadOn(s).consumed == s.consumed +
              [Trb(if |s.fetched| < 2 then r.lo else s.fetched[1], if |s.fetched| < 3 then r.hi else s.fetched[2],
                   r.status, c - Cycle(c))]
    decreases 3 - |s.fetched|
  {
    if |s.fetched| < 3 { ReadOnConsumes(Consume(s)); }
  }

  /** The slot a push fills, and the ones it leaves alone. */
  lemma PushWrites(s: State, t: Trb)
    requires s.enq < |s.ring| - 1 && s.cyc <= 1
    ensures var s' := PushNow(s, t);
            && |s'.ring| == |s.ring| && s'.fetched == s.fetched && s'.pos == s.pos && s'.ccs == s.ccs
            && s'.consumed == s.consumed
            && s'.ring[s.enq] == Trb(t.lo, t.hi, t.status, WithCycle(t.control, s.cyc))
            && forall k :: 0 <= k < |s.ring| - 1 && k != s.enq ==> s'.ring[k] == s.ring[k]
  {
  }

  /** A controller in the middle of a TRB: after a push it consumes that TRB whole if the push was
      allowed, and otherwise one torn between it and the new one. */
  lemma MidReadExactly(s: State, t: Trb)
    requires Inv(s) && s.driver.Idle? && s.fetched != [] && Pushable(t)
    ensures var u := s.pushed[|s.consumed|]; var s' := PushNow(s, t);
            && 0 < |s'.fetched| <= 3 && s'.pos < |s'.ring| && s'.ccs <= 1
            && ReadOn(s').consumed == s.consumed + [if CanPush(s) then u else Torn(u, t, |s.fetched|)]
  {
    assert SlotAt(s, 0) == s.pos && HoldsAt(s, 0);
    PushWrites(s, t);
    ReadOnConsumes(PushNow(s, t));
    assert CanPush(s) <==> s.pos != s.enq;
  }

  /** The conditions of CanPush are exact. A push keeps the ring invariant if and only if they held
      before it; a controller between TRBs can go on if and only if they did; and one in the middle
      of a TRB consumes it as it was pushed if they did, or if the words still to be read agree. */
  lemma PushSafeExactly(s: State, t: Trb)
    requires Inv(s) && s.driver.Idle? && Pushable(t)
    ensures Inv(PushNow(s, t)) <==> CanPush(s)
    ensures s.fetched == [] ==> (Enabled(PushNow(s, t), Control) <==> CanPush(s))
    ensures s.fetched != [] ==>
              var u := s.pushed[|s.consumed|]; var s' := PushNow(s, t);
              && 0 < |s'.fetched| <= 3 && s'.pos < |s'.ring| && s'.ccs <= 1
              && (ReadOn(s').consumed == s.consumed + [u] <==> CanPush(s) || Torn(u, t, |s.fetched|) == u)
  {
    if s.fetched != [] {
      MidReadExactly(s, t);
      AppendSame(s.consumed, s.pushed[|s.consumed|], Torn(s.pushed[|s.consumed|], t, |s.fetched|));
    }
    if CanPush(s) {
      PushNowInv(s, t);
      ControllerReady(PushNow(s, t));
    } else {
      OverrunBreaks(s, t);
      if s.fetched == [] { OverrunStalls(s, t); }
    }
  }

  lemma AppendSame(a: seq<Trb>, x: Trb, y: Trb)
    ensures a + [y] == a + [x] <==> y == x
  {
    assert (a + [x])[|a|] == x && (a + [y])[|a|] == y;
  }

  lemma OverrunBreaks(s: State, t: Trb)
    requires Inv(s) && s.driver.Idle? && Pushable(t) && !CanPush(s)
    ensures !Inv(PushNow(s, t))
  {
  }

  ghost predicate Leads(s: State, s': State) {
    Inv(s) && exists step :: Enabled(s, step) && s' == Next(s, step)
  }

  /** Some interleaving leads from s to s'. */
  ghost predicate Connects(s: State, s': State) {
    Reaches(s, s', Leads)
  }

  lemma ConnectsNext(s: State, step: Step)
    requires Inv(s) && Enabled(s, step)
    ensures Inv(Next(s, step)) && Connects(s, Next(s, step))
  {
    StepInv(s, step);
    ReachesStep(s, Next(s, step), Leads);
  }

  lemma ConnectsTrans(s: State, s1: State, s2: State)
    requires Connects(s, s1) && Connects(s1, s2)
    ensures Connects(s, s2)
  {
    ReachesTrans(s, s1, s2, Leads);
  }

  /** What one store leaves alone, and where it leads. */
  lemma StoreMoves(s: State)
    requires Inv(s) && s.driver.Pushing?
    ensures var s' := Next(s, Write);
            && Inv(s') && Connects(s, s') && |s'.ring| == |s.ring|
            && s'.pos == s.pos && s'.ccs == s.ccs && s'.fetched == s.fetched && s'.consumed == s.consumed
            && |s'.pushed| == |s.pushed| + (if s.driver.words == 3 then 1 else 0)
            && if s'.driver.Pushing? then
                 s.driver.words < 4 && s'.driver.words == s.driver.words + 1 && s'.enq == s.enq && s'.cyc == s.cyc
               else
                 s.driver.words >= 3 && (if s.enq + 1 < |s.ring| - 1 then s'.enq == s.enq + 1 && s'.cyc == s.cyc
                                         else s'.enq == 0 && s'.cyc == 1 - s.cyc)
  {
    ConnectsNext(s, Write);
  }

  lemma {:induction false} FinishPush(s: State) returns (s': State)
    requires Inv(s) && s.driver.Pushing?
    ensures Inv(s') && Connects(s, s') && s'.driver.Idle? && |s'.ring| == |s.ring|
    ensures s'.pos == s.pos && s'.ccs == s.ccs && s'.fetched == s.fetched && s'.consumed == s.consumed
    ensures |s'.pushed| == |s.pushed| + (if s.driver.words < 4 then 1 else 0)
    ensures if s.enq + 1 < |s.ring| - 1 then s'.enq == s.enq + 1 && s'.cyc == s.cyc
            else s'.enq == 0 && s'.cyc == 1 - s.cyc
    decreases 4 - s.driver.words
  {
    StoreMoves(s);
    var s1 := Next(s, Write);
    if s1.driver.Idle? {
      s' := s1;
    } else {
      s' := FinishPush(s1);
      ConnectsTrans(s, s1, s');
    }
  }

  lemma PushOne(s: State, t: Trb) returns (s': State)
    requires Inv(s) && Enabled(s, Begin(t))
    ensures Inv(s') && Connects(s, s') && s'.driver.Idle? && |s'.ring| == |s.ring|
    ensures s'.pos == s.pos && s'.ccs == s.ccs && s'.fetched == s.fetched && s'.consumed == s.consumed
    ensures |s'.pushed| == |s.pushed| + 1
    ensures if s.enq + 1 < |s.ring| - 1 then s'.enq == s.enq + 1 && s'.cyc == s.cyc
            else s'.enq == 0 && s'.cyc == 1 - s.cyc
  {
    ConnectsNext(s, Begin(t));
    s' := FinishPush(Next(s, Begin(t)));
    ConnectsTrans(s, Next(s, Begin(t)), s');
  }

  lemma {:induction false} ConsumeOne(s: State) returns (s': State)
    requires Inv(s) && s.driver.Idle? && Outstanding(s) > 0 && s.pos < |s.ring| - 1
    ensures Inv(s') && Connects(s, s') && s'.driver.Idle? && |s'.ring| == |s.ring|
    ensures s'.pos == s.pos + 1 && s'.ccs == s.ccs && s'.fetched == [] && s'.enq == s.enq && s'.cyc == s.cyc
    ensures |s'.pushed| == |s.pushed| && |s'.consumed| == |s.consumed| + 1
    decreases 3 - |s.fetched|
  {
    ControllerReady(s);
    ConnectsNext(s, Control);
    var s1 := Next(s, Control);
    if |s.fetched| == 3 {
      s' := s1;
    } else {
      FetchInv(s);
      if s.fetched == [] { FoundIsNext(s); }
      s' := ConsumeOne(s1);
      ConnectsTrans(s, s1, s');
    }
  }

  const BLANK := Trb(0, 0, 0, 0)

  /** Push and consume j TRBs one at a time. */
  lemma {:induction false} WalkOneLap(n: nat, base: nat, j: nat) returns (s: State)
    requires n >= 2 && j <= n - 1
    ensures Inv(s) && Connects(Initial(n, base), s) && s.driver.Idle? && |s.ring| == n
    ensures s.pos == j && s.ccs == 1 && s.fetched == [] && Outstanding(s) == 0
    ensures if j < n - 1 then s.enq == j && s.cyc == 1 else s.enq == 0 && s.cyc == 0
    decreases j
  {
    if j == 0 {
      s := Initial(n, base);
      ReachesSelf(s, Leads);
    } else {
      var s0 := WalkOneLap(n, base, j - 1);
      var s1 := PushOne(s0, BLANK);
      s := ConsumeOne(s1);
      ConnectsTrans(s0, s1, s);
      ConnectsTrans(Initial(n, base), s0, s);
    }
  }

  /** Then push j more while the controller has not followed the link yet. */
  lemma {:induction false} FillBehindLink(n: nat, base: nat, j: nat) returns (s: State)
    requires n >= 2 && j <= n - 2
    ensures Inv(s) && Connects(Initial(n, base), s) && s.driver.Idle? && |s.ring| == n
    ensures s.pos == n - 1 && s.fetched == [] && s.enq == j && Outstanding(s) == j
    decreases j
  {
    if j == 0 {
      s := WalkOneLap(n, base, n - 1);
    } else {
      var s0 := FillBehindLink(n, base, j - 1);
      s := PushOne(s0, BLANK);
      ConnectsTrans(Initial(n, base), s0, s);
    }
  }

  /** For every ring size there is a reachable state with fewer than n - 1 TRBs outstanding in
      which the next push, whatever it is, stops the controller until there is another. */
  lemma CountAloneIsNotEnough(n: nat, base: nat) returns (s: State)
    requires n >= 2
    ensures Inv(s) && Connects(Initial(n, base), s) && s.driver.Idle? && |s.ring| == n && s.enq < n - 1
    ensures Outstanding(s) == n - 2 && !CanPush(s)
    ensures forall t :: Pushable(t) ==> Outstanding(PushNow(s, t)) == n - 1 && !Enabled(PushNow(s, t), Control)
  {
    s := FillBehindLink(n, base, n - 2);
    forall t | Pushable(t) ensures Outstanding(PushNow(s, t)) == n - 1 && !Enabled(PushNow(s, t), Control) {
      OverrunStalls(s, t);
    }
  }
}
