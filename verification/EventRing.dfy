/** The xHCI event ring: the controller posts events by cycle bit without overrunning the
    dequeue pointer it was last told (section 4.9.4 of the xHCI specification); the driver polls,
    reads an event word by word, advances its cursor and writes the dequeue pointer back.
    wait_event and usb_poll take events by the same steps and share one cursor. */
module EventRing {
  import opened CommandRing

  /** What the driver extracts from an event. */
  datatype Notice = Notice(kind: nat, code: nat, slot: nat)

  function Decode(t: Trb): Notice {
    Notice(TrbType(t.control), t.status / 0x100_0000 % 0x100, t.control / 0x100_0000 % 0x100)
  }

  /** An event of type `kind` for slot `slot` with completion code `code`, as the controller lays it
      out: type in bits 10 to 15 and slot in bits 24 to 31 of the control word, code in bits 24 to
      31 of the status word, around whatever the other bits are. */
  function EventTrb(kind: nat, code: nat, slot: nat, lo: nat, hi: nat, length: nat, middle: nat, low: nat): Trb {
    Trb(lo, hi, code * 0x100_0000 + length, slot * 0x100_0000 + (middle * 0x40 + kind) * 0x400 + low)
  }

  /** The driver extracts exactly what such an event carries. */
  lemma DecodesEvent(kind: nat, code: nat, slot: nat, lo: nat, hi: nat, length: nat, middle: nat, low: nat)
    requires kind < 0x40 && code < 0x100 && slot < 0x100 && length < 0x100_0000 && middle < 0x100 && low < 0x400
    ensures Decode(EventTrb(kind, code, slot, lo, hi, length, middle, low)) == Notice(kind, code, slot)
  {
    FieldsOf(slot, middle, kind, low);
    assert (code * 0x100_0000 + length) / 0x100_0000 == code;
  }

  lemma FieldsOf(slot: nat, high: nat, kind: nat, low: nat)
    requires slot < 0x100 && high < 0x100 && kind < 0x40 && low < 0x400
    ensures var c := slot * 0x100_0000 + (high * 0x40 + kind) * 0x400 + low;
            c / 0x400 % 0x40 == kind && c / 0x100_0000 % 0x100 == slot
  {
    var c := slot * 0x100_0000 + (high * 0x40 + kind) * 0x400 + low;
    assert c / 0x400 == slot * 0x4000 + high * 0x40 + kind;
    assert c / 0x100_0000 == slot;
  }

  /** How far the driver is with the event at its cursor. */
  datatype Reader =
    | Polling
    | SawCycle
    | ReadKind(kind: nat)
    | ReadCode(kind: nat, code: nat)
    | ReadSlot(notice: Notice)
    | Advanced(notice: Notice)      // cursor moved, dequeue pointer not written yet

  /** What the controller is doing: nothing, or posting an event with `words` written. */
  datatype Poster = Quiet | Posting(t: Trb, words: nat)

  datatype Events = Events(
    ring: seq<Trb>,
    enq: nat, pcs: nat, poster: Poster,        // the controller's cursor, cycle state, progress
    erdp: nat,                                 // dequeue pointer register, as a slot
    deq: nat, cyc: nat, reader: Reader,        // evt_deq, evt_cyc and the driver's progress
    produced: seq<Trb>, taken: seq<Notice>)    // posted (cycle bits removed) and taken so far

  function NextSlot(i: nat, n: nat): nat
    requires i < n
  {
    if i + 1 == n then 0 else i + 1
  }

  datatype Move = Raise(t: Trb) | Post | Poll

  predicate Enabled(s: Events, move: Move) {
    match move
    case Raise(t) => s.poster.Quiet? && Cycle(t.control) == 0 && s.enq < |s.ring| && NextSlot(s.enq, |s.ring|) != s.erdp
    case Post => s.poster.Posting?
    case Poll => true
  }

  /** One word of an event; the control word publishes it and moves the controller's cursor. */
  function PostWord(s: Events): Events
    requires s.poster.Posting? && s.enq < |s.ring| && s.pcs <= 1
  {
    var t, e := s.poster.t, s.enq;
    match s.poster.words
    case 0 => s.(ring := s.ring[e := s.ring[e].(lo := t.lo)], poster := Posting(t, 1))
    case 1 => s.(ring := s.ring[e := s.ring[e].(hi := t.hi)], poster := Posting(t, 2))
    case 2 => s.(ring := s.ring[e := s.ring[e].(status := t.status)], poster := Posting(t, 3))
    case _ =>
      s.(ring := s.ring[e := s.ring[e].(control := t.control + s.pcs)], poster := Quiet,
         enq := NextSlot(e, |s.ring|), pcs := if e + 1 == |s.ring| then 1 - s.pcs else s.pcs,
         produced := s.produced + [t])
  }

  /** One volatile read or write of the driver. */
  function PollWord(s: Events): Events
    requires s.deq < |s.ring| && s.cyc <= 1
  {
    var e := s.ring[s.deq];
    match s.reader
    case Polling => if Cycle(e.control) == s.cyc then s.(reader := SawCycle) else s
    case SawCycle => s.(reader := ReadKind(TrbType(e.control)))
    case ReadKind(k) => s.(reader := ReadCode(k, e.status / 0x100_0000 % 0x100))
    case ReadCode(k, c) => s.(reader := ReadSlot(Notice(k, c, e.control / 0x100_0000 % 0x100)))
    case ReadSlot(x) =>
      s.(reader := Advanced(x), deq := NextSlot(s.deq, |s.ring|),
         cyc := if s.deq + 1 == |s.ring| then 1 - s.cyc else s.cyc)
    case Advanced(x) => s.(reader := Polling, erdp := s.deq, taken := s.taken + [x])
  }

  function Next(s: Events, move: Move): Events
    requires Enabled(s, move) && Inv(s)
  {
    match move
    case Raise(t) => s.(poster := Posting(t, 0))
    case Post => PostWord(s)
    case Poll => PollWord(s)
  }

  // ----- the invariant -----

  function Waiting(s: Events): int {
    |s.produced| - |s.taken|
  }

  /** The cycle state that belongs to the written dequeue pointer. */
  function Tail(s: Events): int {
    if s.reader.Advanced? && s.deq == 0 then 1 - s.cyc else s.cyc
  }

  function SlotOf(s: Events, i: nat): nat {
    if s.erdp + i < |s.ring| then s.erdp + i else s.erdp + i - |s.ring|
  }

  predicate CursorOk(s: Events) {
    && |s.ring| >= 2 && s.enq < |s.ring| && s.erdp < |s.ring| && s.pcs <= 1 && s.cyc <= 1
    && s.deq == (if s.reader.Advanced? then NextSlot(s.erdp, |s.ring|) else s.erdp)
    && (if s.pcs == Tail(s) then s.erdp <= s.enq && Waiting(s) == s.enq - s.erdp
        else s.enq < s.erdp && Waiting(s) == |s.ring| - s.erdp + s.enq)
    && |s.taken| <= |s.produced|
  }

  predicate PosterOk(s: Events)
    requires s.enq < |s.ring|
  {
    s.poster.Posting? ==>
      && s.poster.words <= 3 && Cycle(s.poster.t.control) == 0 && Waiting(s) < |s.ring| - 1
      && (s.poster.words >= 1 ==> s.ring[s.enq].lo == s.poster.t.lo)
      && (s.poster.words >= 2 ==> s.ring[s.enq].hi == s.poster.t.hi)
      && (s.poster.words >= 3 ==> s.ring[s.enq].status == s.poster.t.status)
  }

  predicate ReaderOk(s: Events)
    requires s.erdp < |s.ring|
  {
    var x := Decode(s.ring[s.erdp]);
    && (!s.reader.Polling? ==> Waiting(s) > 0)
    && match s.reader
       case Polling => true
       case SawCycle => true
       case ReadKind(k) => k == x.kind
       case ReadCode(k, c) => k == x.kind && c == x.code
       case ReadSlot(y) => y == x
       case Advanced(y) => y == x
  }

  predicate BitOk(s: Events, j: nat)
    requires j < |s.ring|
  {
    Cycle(s.ring[j].control) == if j < s.enq then s.pcs else 1 - s.pcs
  }

  predicate HeldAt(s: Events, i: nat)
    requires i < Waiting(s) && SlotOf(s, i) < |s.ring| && |s.taken| + i < |s.produced|
  {
    var t := s.ring[SlotOf(s, i)];
    s.produced[|s.taken| + i] == t.(control := t.control - Cycle(t.control))
  }

  ghost predicate TakenOk(s: Events) {
    forall i: nat :: i < |s.taken| && i < |s.produced| ==> s.taken[i] == Decode(s.produced[i])
  }

  ghost predicate Inv(s: Events) {
    && CursorOk(s) && PosterOk(s) && ReaderOk(s) && TakenOk(s)
    && (forall j: nat :: j < |s.ring| ==> BitOk(s, j))
    && (forall i: nat :: i < Waiting(s) ==> SlotOf(s, i) < |s.ring| && HeldAt(s, i))
  }

  /** The ring cleared, both cursors at its start, both cycle states 1. */
  function Fresh(n: nat): (s: Events)
    requires n >= 2
    ensures Inv(s) && |s.ring| == n
  {
    var s := Events(seq(n, _ => Trb(0, 0, 0, 0)), 0, 1, Quiet, 0, 0, 1, Polling, [], []);
    assert forall j: nat :: j < n ==> BitOk(s, j);
    s
  }

  // ----- every step keeps it -----

  /** Removing the cycle bit changes nothing the driver extracts. */
  lemma DecodeIgnoresCycle(t: Trb)
    ensures Decode(t.(control := t.control - Cycle(t.control))) == Decode(t)
  {
    var c := t.control;
    assert (c - c % 2) / 0x400 == c / 0x400;
    assert (c - c % 2) / 0x100_0000 == c / 0x100_0000;
  }

  lemma PublishedCycle(ctl: nat, c: nat)
    requires Cycle(ctl) == 0 && c <= 1
    ensures Cycle(ctl + c) == c && ctl + c - Cycle(ctl + c) == ctl
  {
  }

  lemma RaiseKeeps(s: Events, t: Trb)
    requires Inv(s) && Enabled(s, Raise(t))
    ensures Inv(Next(s, Raise(t)))
  {
    var s' := Next(s, Raise(t));
    forall j: nat | j < |s'.ring| ensures BitOk(s', j) { assert BitOk(s, j); }
    forall i: nat | i < Waiting(s') ensures SlotOf(s', i) < |s'.ring| && HeldAt(s', i) { assert HeldAt(s, i); }
  }

  lemma PosterSlotFree(s: Events, i: nat)
    requires Inv(s) && s.poster.Posting? && i < Waiting(s)
    ensures SlotOf(s, i) != s.enq
  {
  }

  lemma PayloadKeeps(s: Events)
    requires Inv(s) && s.poster.Posting? && s.poster.words < 3
    ensures Inv(Next(s, Post))
  {
    var s' := Next(s, Post);
    FillingKeeps(s, s'.ring[s.enq], s'.poster);
  }

  /** Filling in the slot being posted, short of its control word, disturbs nothing. */
  lemma FillingKeeps(s: Events, t: Trb, p: Poster)
    requires Inv(s) && s.poster.Posting? && t.control == s.ring[s.enq].control
    requires PosterOk(s.(ring := s.ring[s.enq := t], poster := p))
    ensures Inv(s.(ring := s.ring[s.enq := t], poster := p))
  {
    var s' := s.(ring := s.ring[s.enq := t], poster := p);
    assert s.reader.Polling? || s'.ring[s.erdp] == s.ring[s.erdp] by {
      if !s.reader.Polling? { PosterSlotFree(s, 0); }
    }
    forall j: nat | j < |s'.ring| ensures BitOk(s', j) { assert BitOk(s, j); }
    forall i: nat | i < Waiting(s') ensures SlotOf(s', i) < |s'.ring| && HeldAt(s', i) {
      assert HeldAt(s, i);
      PosterSlotFree(s, i);
    }
  }

  lemma PublishKeeps(s: Events)
    requires Inv(s) && s.poster.Posting? && s.poster.words == 3
    ensures Inv(Next(s, Post))
  {
    var s' := Next(s, Post);
    PublishedCycle(s.poster.t.control, s.pcs);
    assert s.reader.Polling? || s'.ring[s.erdp] == s.ring[s.erdp] by {
      if !s.reader.Polling? { PosterSlotFree(s, 0); }
    }
    forall j: nat | j < |s'.ring| ensures BitOk(s', j) { assert BitOk(s, j); }
    forall i: nat | i < Waiting(s') ensures SlotOf(s', i) < |s'.ring| && HeldAt(s', i) {
      if i < Waiting(s) {
        assert HeldAt(s, i);
        PosterSlotFree(s, i);
      } else {
        assert SlotOf(s', i) == s.enq;
      }
    }
    forall i: nat | i < |s'.taken| && i < |s'.produced| ensures s'.taken[i] == Decode(s'.produced[i]) {
      assert s.taken[i] == Decode(s.produced[i]);
    }
  }

  lemma ReadKeeps(s: Events)
    requires Inv(s) && !s.reader.Advanced?
    ensures Inv(Next(s, Poll))
  {
    var s' := Next(s, Poll);
    assert BitOk(s, s.deq);
    forall j: nat | j < |s'.ring| ensures BitOk(s', j) { assert BitOk(s, j); }
    forall i: nat | i < Waiting(s') ensures SlotOf(s', i) < |s'.ring| && HeldAt(s', i) { assert HeldAt(s, i); }
  }

  lemma AckKeeps(s: Events)
    requires Inv(s) && s.reader.Advanced?
    ensures Inv(Next(s, Poll)) && Next(s, Poll).taken == s.taken + [Decode(s.produced[|s.taken|])]
  {
    var s' := Next(s, Poll);
    assert SlotOf(s, 0) == s.erdp && HeldAt(s, 0);
    DecodeIgnoresCycle(s.ring[s.erdp]);
    forall j: nat | j < |s'.ring| ensures BitOk(s', j) { assert BitOk(s, j); }
    forall i: nat | i < Waiting(s') ensures SlotOf(s', i) < |s'.ring| && HeldAt(s', i) {
      assert HeldAt(s, i + 1) && SlotOf(s', i) == SlotOf(s, i + 1);
    }
  }

  lemma MoveKeeps(s: Events, move: Move)
    requires Inv(s) && Enabled(s, move)
    ensures Inv(Next(s, move)) && |Next(s, move).ring| == |s.ring|
  {
    match move
    case Raise(t) => RaiseKeeps(s, t);
    case Post => if s.poster.words < 3 { PayloadKeeps(s); } else { PublishKeeps(s); }
    case Poll => if s.reader.Advanced? { AckKeeps(s); } else { ReadKeeps(s); }
  }

  // ----- whole runs -----

  ghost predicate Legal(s: Events, moves: seq<Move>)
    requires Inv(s)
    decreases |moves|
  {
    moves == [] || (Enabled(s, moves[0]) && (MoveKeeps(s, moves[0]); Legal(Next(s, moves[0]), moves[1..])))
  }

  ghost function Run(s: Events, moves: seq<Move>): (s': Events)
    requires Inv(s) && Legal(s, moves)
    ensures Inv(s') && |s'.ring| == |s.ring|
    decreases |moves|
  {
    if moves == [] then s else MoveKeeps(s, moves[0]); Run(Next(s, moves[0]), moves[1..])
  }

  /** In every interleaving and across wraps the driver takes the posted events in order and
      once each; between events its cursor and the written dequeue pointer both name the slot
      that holds the next event not yet taken. */
  lemma EventsInOrder(n: nat, moves: seq<Move>)
    requires n >= 2 && Legal(Fresh(n), moves)
    ensures var s := Run(Fresh(n), moves);
            && |s.taken| <= |s.produced| <= |s.taken| + n - 1
            && (forall i: nat :: i < |s.taken| ==> s.taken[i] == Decode(s.produced[i]))
            && (s.reader.Polling? ==> s.erdp == s.deq)
            && (|s.taken| < |s.produced| ==> s.erdp < n && Decode(s.ring[s.erdp]) == Decode(s.produced[|s.taken|]))
  {
    var s := Run(Fresh(n), moves);
    if |s.taken| < |s.produced| {
      assert SlotOf(s, 0) == s.erdp && HeldAt(s, 0);
      DecodeIgnoresCycle(s.ring[s.erdp]);
    }
  }

  /** A poll finds an event exactly when one has been posted and not taken. */
  lemma PollFindsExactlyPosted(s: Events)
    requires Inv(s) && s.reader.Polling?
    ensures Next(s, Poll).reader.SawCycle? <==> |s.taken| < |s.produced|
  {
    assert BitOk(s, s.deq);
  }

  /** The effect of taking the event at the cursor: its fields, the cursor past it with the
      cycle state toggled at the end of the ring, and the dequeue pointer written. */
  function Took(s: Events): (s': Events)
    requires s.deq < |s.ring| && s.cyc <= 1
    ensures s'.ring == s.ring && s'.deq < |s'.ring| && s'.cyc <= 1
  {
    var next := NextSlot(s.deq, |s.ring|);
    s.(deq := next, cyc := if s.deq + 1 == |s.ring| then 1 - s.cyc else s.cyc, erdp := next, reader := Polling,
       taken := s.taken + [Decode(s.ring[s.deq])])
  }

  /** It is what six undisturbed steps of the driver do. */
  lemma TookIsSixSteps(s: Events)
    requires s.deq < |s.ring| && s.cyc <= 1 && s.reader.Polling? && Cycle(s.ring[s.deq].control) == s.cyc
    ensures PollWord(PollWord(PollWord(PollWord(PollWord(PollWord(s)))))) == Took(s)
  {
    var e := s.ring[s.deq];
    var x := Decode(e);
    var s1 := PollWord(s);
    assert s1 == s.(reader := SawCycle);
    var s2 := PollWord(s1);
    assert s2 == s.(reader := ReadKind(x.kind));
    var s3 := PollWord(s2);
    assert s3 == s.(reader := ReadCode(x.kind, x.code));
    var s4 := PollWord(s3);
    assert s4 == s.(reader := ReadSlot(x));
    var s5 := PollWord(s4);
    assert PollWord(s5) == Took(s);
  }

  /** Taking `k` events in a row. */
  function TookTimes(s: Events, k: nat): (s': Events)
    requires s.deq < |s.ring| && s.cyc <= 1
    ensures s'.ring == s.ring && s'.deq < |s'.ring| && s'.cyc <= 1
  {
    if k == 0 then s else Took(TookTimes(s, k - 1))
  }

  class Ring {
    const trbs: array<Trb>
    var deq: nat
    var cyc: nat
    var erdp: nat

    constructor (trbs: array<Trb>)
      ensures this.trbs == trbs && deq == 0 && cyc == 1 && erdp == 0
    {
      this.trbs := trbs;
      deq, cyc, erdp := 0, 1, 0;
    }

    /** The driver's side of an event ring state, between events. */
    ghost predicate Shows(s: Events)
      reads this, trbs
    {
      && s.ring == trbs[..] && s.deq == deq < trbs.Length && s.cyc == cyc <= 1
      && s.erdp == erdp && s.reader.Polling?
    }

    /** The part wait_event and usb_poll share: look at the cursor; if the cycle bit matches,
        take the event and acknowledge it. */
    method Take(ghost s: Events) returns (found: bool, notice: Notice)
      requires Shows(s)
      modifies this
      ensures found <==> Cycle(trbs[old(deq)].control) == old(cyc)
      ensures Shows(if found then Took(s) else s)
      ensures found ==> notice == Decode(s.ring[s.deq]) && Took(s).taken == s.taken + [notice]
    {
      var e := trbs[deq];
      notice := Notice(0, 0, 0);
      found := Cycle(e.control) == cyc;
      if found {
        notice := Notice(TrbType(e.control), e.status / 0x100_0000 % 0x100, e.control / 0x100_0000 % 0x100);
        deq := deq + 1;
        if deq == trbs.Length {
          deq := 0;
          cyc := 1 - cyc;
        }
        erdp := deq;
      }
    }

    /** wait_event over a ring the controller leaves alone meanwhile: it takes events until one
        of the wanted kind turns up or the polls run out, and drops the others it took. */
    method Wait(want: nat, polls: nat, ghost s: Events) returns (ok: bool, notice: Notice, ghost dropped: seq<Notice>)
      requires Shows(s)
      modifies this
      ensures ok ==> notice.kind == want
      ensures forall i :: 0 <= i < |dropped| ==> dropped[i].kind != want
      ensures var s' := TookTimes(s, |dropped| + if ok then 1 else 0);
              Shows(s') && s'.taken == s.taken + dropped + if ok then [notice] else []
      ensures !ok ==> |dropped| == polls || Cycle(trbs[deq].control) != cyc
    {
      ok, notice, dropped := false, Notice(0, 0, 0), [];
      ghost var now := s;
      for i := 0 to polls
        invariant !ok && Shows(now) && now == TookTimes(s, |dropped|) && now.taken == s.taken + dropped
        invariant forall j :: 0 <= j < |dropped| ==> dropped[j].kind != want
        invariant |dropped| == i || Cycle(trbs[deq].control) != cyc
      {
        var found, x := Take(now);
        if found {
          now := Took(now);
          if x.kind == want {
            ok, notice := true, x;
            return;
          }
          dropped := dropped + [x];
        }
      }
    }
  }
}
