/** Round-robin scheduling policy: the task table, what each call does to it, and the
    fairness bound that holds under any interleaving of calls. */
module Scheduler {
  import opened Common

  datatype TaskState = Unused | Ready | Running | Blocked | Zombie

  datatype Task = Task(id: int, state: TaskState, quantum: nat, reload: nat, ran: nat)

  /** `current` is a slot or -1; `cursor` is where the next scan starts. */
  datatype Sched = Sched(tasks: seq<Task>, current: int, cursor: nat)


  ghost predicate WellFormed(s: Sched) {
    && -1 <= s.current < |s.tasks|
    && (s.cursor < |s.tasks| || (s.tasks == [] && s.cursor == 0))
    && forall i :: 0 <= i < |s.tasks| ==> (s.tasks[i].state == Running ==> i == s.current)
  }

  // ----- what each call does -----

  function FindId(ts: seq<Task>, id: int): (i: nat)
    ensures i <= |ts|
    ensures i < |ts| ==> ts[i].state != Unused && ts[i].id == id
    ensures forall j :: 0 <= j < i ==> ts[j].state == Unused || ts[j].id != id
  {
    if ts == [] then 0
    else if ts[0].state != Unused && ts[0].id == id then 0
    else 1 + FindId(ts[1..], id)
  }

  function FirstUnused(ts: seq<Task>): (i: nat)
    ensures i <= |ts|
    ensures i < |ts| ==> ts[i].state == Unused
    ensures forall j :: 0 <= j < i ==> ts[j].state != Unused
  {
    if ts == [] || ts[0].state == Unused then 0 else 1 + FirstUnused(ts[1..])
  }

  function Added(s: Sched, id: int, quantum: nat): Sched {
    var q := if quantum == 0 then 1 else quantum;
    var i := FirstUnused(s.tasks);
    if i == |s.tasks| then s else s.(tasks := s.tasks[i := Task(id, Ready, q, q, 0)])
  }

  /** The running task goes back to the ready pool. */
  function Demoted(s: Sched): seq<Task>
    requires s.current < |s.tasks|
  {
    if s.current >= 0 && s.tasks[s.current].state == Running
    then s.tasks[s.current := s.tasks[s.current].(state := Ready)]
    else s.tasks
  }

  /** The slot `n` places after `from`, going round. */
  function Slot(from: nat, n: nat, cap: nat): nat
    requires from < cap && n <= cap
  {
    if from + n < cap then from + n else from + n - cap
  }

  /** How many places after `from` the slot `k` lies, going round. */
  function Distance(from: nat, k: nat, cap: nat): nat
    requires from < cap && k < cap
  {
    if from <= k then k - from else k + cap - from
  }

  /** The least n' >= n such that the slot n' places after the cursor is ready, or |ts|. */
  function Scan(ts: seq<Task>, cursor: nat, n: nat): (r: nat)
    requires n <= |ts| && (n < |ts| ==> cursor < |ts|)
    ensures n <= r <= |ts|
    ensures r < |ts| ==> ts[Slot(cursor, r, |ts|)].state == Ready
    ensures forall j :: n <= j < r ==> ts[Slot(cursor, j, |ts|)].state != Ready
    decreases |ts| - n
  {
    if n == |ts| || ts[Slot(cursor, n, |ts|)].state == Ready then n else Scan(ts, cursor, n + 1)
  }

  function Picked(s: Sched): Sched
    requires WellFormed(s)
  {
    var ts := Demoted(s);
    var n := Scan(ts, s.cursor, 0);
    if n == |ts| then Sched(ts, -1, s.cursor)
    else
      var i := Slot(s.cursor, n, |ts|);
      Sched(ts[i := ts[i].(state := Running, quantum := ts[i].reload)], i, Slot(i, 1, |ts|))
  }

  function Ticked(s: Sched): Sched
    requires WellFormed(s)
  {
    if s.current < 0 || s.tasks[s.current].state != Running then s
    else
      var t := s.tasks[s.current];
      var t' := t.(ran := (t.ran + 1) % U32, quantum := if t.quantum > 0 then t.quantum - 1 else 0);
      s.(tasks := s.tasks[s.current := t'])
  }

  /** sched_block and sched_exit: put the task in `st`, dropping it as current. */
  function Stopped(s: Sched, id: int, st: TaskState): Sched {
    var i := FindId(s.tasks, id);
    if i == |s.tasks| then s
    else Sched(s.tasks[i := s.tasks[i].(state := st)], if s.current == i then -1 else s.current, s.cursor)
  }

  function Unblocked(s: Sched, id: int): Sched {
    var i := FindId(s.tasks, id);
    if i == |s.tasks| || s.tasks[i].state != Blocked then s
    else s.(tasks := s.tasks[i := s.tasks[i].(state := Ready)])
  }

  // ----- runs -----

  datatype Op = Add(id: int, quantum: nat) | Pick | Tick | Block(id: int) | Unblock(id: int) | Exit(id: int)

  function Apply(s: Sched, op: Op): (s': Sched)
    requires WellFormed(s)
    ensures WellFormed(s') && |s'.tasks| == |s.tasks|
  {
    match op
    case Add(id, q) => Added(s, id, q)
    case Pick => Picked(s)
    case Tick => Ticked(s)
    case Block(id) => Stopped(s, id, Blocked)
    case Unblock(id) => Unblocked(s, id)
    case Exit(id) => Stopped(s, id, Zombie)
  }

  function Run(s: Sched, ops: seq<Op>): (s': Sched)
    requires WellFormed(s)
    ensures WellFormed(s') && |s'.tasks| == |s.tasks|
    decreases |ops|
  {
    if ops == [] then s else Run(Apply(s, ops[0]), ops[1..])
  }

  function Picks(ops: seq<Op>): nat {
    if ops == [] then 0 else (if ops[0].Pick? then 1 else 0) + Picks(ops[1..])
  }

  /** Does some Pick of the run choose slot `k`? */
  predicate EverPicked(s: Sched, ops: seq<Op>, k: nat)
    requires WellFormed(s)
    decreases |ops|
  {
    ops != [] && ((ops[0].Pick? && Apply(s, ops[0]).current == k) || EverPicked(Apply(s, ops[0]), ops[1..], k))
  }

  /** No call of the run blocks or exits the task called `id`. */
  predicate LeavesAlone(ops: seq<Op>, id: int) {
    forall i :: 0 <= i < |ops| ==> !((ops[i].Block? || ops[i].Exit?) && ops[i].id == id)
  }

  predicate IsReady(s: Sched, k: nat) {
    k < |s.tasks| && s.tasks[k].state == Ready
  }

  /** A call that is not a Pick, and does not stop the task, keeps it ready where it is. */
  lemma OthersKeepReady(s: Sched, op: Op, k: nat)
    requires WellFormed(s) && IsReady(s, k) && !op.Pick? && LeavesAlone([op], s.tasks[k].id)
    ensures IsReady(Apply(s, op), k) && Apply(s, op).tasks[k].id == s.tasks[k].id
    ensures Apply(s, op).cursor == s.cursor
  {
    assert [op][0] == op;
  }

  /** A Pick takes a slot no further from the cursor than a ready one, and moves the cursor past it. */
  lemma PickGoesNoFurther(s: Sched, k: nat)
    requires WellFormed(s) && IsReady(s, k)
    ensures var cap := |s.tasks|; var s' := Picked(s);
            && 0 <= s'.current < cap && s'.tasks[k].id == s.tasks[k].id
            && s'.tasks[s'.current].state == Running
            && Distance(s.cursor, s'.current, cap) <= Distance(s.cursor, k, cap)
            && s'.cursor == Slot(s'.current, 1, cap)
            && (s'.current != k ==> IsReady(s', k))
  {
    var cap := |s.tasks|;
    var ts := Demoted(s);
    var d := Distance(s.cursor, k, cap);
    assert Slot(s.cursor, d, cap) == k && ts[k].state == Ready;
    var n := Scan(ts, s.cursor, 0);
    assert n <= d;
    assert Distance(s.cursor, Slot(s.cursor, n, cap), cap) == n;
  }

  /** Bounded waiting: a ready task that nobody blocks or exits is chosen once there have been
      ((slot - cursor) mod cap) + 1 picks, whatever else is called in between. */
  lemma {:induction false} BoundedWaiting(s: Sched, ops: seq<Op>, k: nat)
    requires WellFormed(s) && IsReady(s, k) && LeavesAlone(ops, s.tasks[k].id)
    requires Picks(ops) > Distance(s.cursor, k, |s.tasks|)
    ensures EverPicked(s, ops, k)
    decreases |ops|
  {
    var op, rest := ops[0], ops[1..];
    var s' := Apply(s, op);
    if op.Pick? {
      PickGoesNoFurther(s, k);
      if s'.current != k {
        BoundedWaiting(s', rest, k);
      }
    } else {
      OthersKeepReady(s, op, k);
      BoundedWaiting(s', rest, k);
    }
  }

  /** As long as `k` lies before `a` in scan order and stays ready, `a` cannot be chosen first. */
  lemma {:induction false} NoOvertaking(s: Sched, ops: seq<Op>, a: nat, k: nat)
    requires WellFormed(s) && IsReady(s, k) && LeavesAlone(ops, s.tasks[k].id) && a < |s.tasks|
    requires Distance(s.cursor, k, |s.tasks|) < Distance(s.cursor, a, |s.tasks|)
    requires EverPicked(s, ops, a)
    ensures exists n :: 0 <= n <= |ops| && EverPicked(s, ops[..n], k) && !EverPicked(s, ops[..n], a)
    decreases |ops|
  {
    var op, rest := ops[0], ops[1..];
    var s' := Apply(s, op);
    if op.Pick? {
      PickGoesNoFurther(s, k);
      if s'.current == k {
        assert ops[..1][0] == op && ops[..1][1..] == [];
        assert EverPicked(s, ops[..1], k) && !EverPicked(s, ops[..1], a);
        return;
      }
    } else {
      OthersKeepReady(s, op, k);
    }
    NoOvertaking(s', rest, a, k);
    var n :| 0 <= n <= |rest| && EverPicked(s', rest[..n], k) && !EverPicked(s', rest[..n], a);
    assert ops[..n + 1][1..] == rest[..n] && ops[..n + 1][0] == op;
    assert EverPicked(s, ops[..n + 1], k) && !EverPicked(s, ops[..n + 1], a);
  }

  /** Between two picks of one task every task that stays ready is picked. */
  lemma FairRotation(s: Sched, ops: seq<Op>, a: nat, k: nat)
    requires WellFormed(s) && Picked(s).current == a && k != a
    requires IsReady(Picked(s), k) && LeavesAlone(ops, Picked(s).tasks[k].id)
    requires EverPicked(Picked(s), ops, a)
    ensures exists n :: 0 <= n <= |ops| && EverPicked(Picked(s), ops[..n], k) && !EverPicked(Picked(s), ops[..n], a)
  {
    NoOvertaking(Picked(s), ops, a, k);
  }

  /** A pick neither stops nor starts a task: whoever was runnable stays so. */
  lemma PickKeepsRunnable(s: Sched, j: nat)
    requires WellFormed(s) && j < |s.tasks|
    ensures (s.tasks[j].state == Ready || s.tasks[j].state == Running) <==>
            (Picked(s).tasks[j].state == Ready || Picked(s).tasks[j].state == Running)
  {
  }

  lemma OthersKeepRunning(s: Sched, op: Op, k: nat)
    requires WellFormed(s) && k < |s.tasks| && s.tasks[k].state == Running
    requires !op.Pick? && LeavesAlone([op], s.tasks[k].id)
    ensures var s' := Apply(s, op); s'.tasks[k].state == Running && s'.tasks[k].id == s.tasks[k].id
  {
    assert [op][0] == op;
  }

  /** The running task, preempted by a pick, is chosen again within a full turn of the table. */
  lemma {:induction false} RunnerComesBack(s: Sched, ops: seq<Op>, k: nat)
    requires WellFormed(s) && k < |s.tasks| && s.tasks[k].state == Running && LeavesAlone(ops, s.tasks[k].id)
    requires Picks(ops) > |s.tasks|
    ensures EverPicked(s, ops, k)
    decreases |ops|
  {
    var op, rest := ops[0], ops[1..];
    var s' := Apply(s, op);
    if op.Pick? {
      PickKeepsRunnable(s, k);
      if s'.current != k { BoundedWaiting(s', rest, k); }
    } else {
      OthersKeepRunning(s, op, k);
      RunnerComesBack(s', rest, k);
    }
  }

  // ----- slices -----

  /** What sched_on_tick answers. */
  predicate Expires(s: Sched)
    requires s.current < |s.tasks|
  {
    s.current >= 0 && s.tasks[s.current].state == Running && s.tasks[s.current].quantum <= 1
  }

  function TickTimes(s: Sched, n: nat): (s': Sched)
    requires WellFormed(s)
    ensures WellFormed(s') && |s'.tasks| == |s.tasks|
  {
    if n == 0 then s else Apply(TickTimes(s, n - 1), Tick)
  }

  /** After n ticks of a slice that began with quantum q. */
  lemma {:induction false} TicksCount(s: Sched, n: nat)
    requires WellFormed(s) && s.current >= 0 && s.tasks[s.current].state == Running && s.tasks[s.current].ran < U32
    ensures var t, t' := s.tasks[s.current], TickTimes(s, n).tasks[s.current];
            && TickTimes(s, n).current == s.current && t'.state == Running
            && t'.quantum == (if n < t.quantum then t.quantum - n else 0)
            && t'.ran == (t.ran + n) % 0x1_0000_0000
  {
    if n > 0 {
      TicksCount(s, n - 1);
      var ran := s.tasks[s.current].ran;
      assert ((ran + (n - 1)) % U32 + 1) % U32 == (ran + n) % U32;
    }
  }

  /** A task keeps its quantum through any run, and counts its ticks in 32 bits. */
  lemma {:induction false} ReloadKept(s: Sched, ops: seq<Op>, k: nat)
    requires WellFormed(s) && k < |s.tasks| && s.tasks[k].state != Unused && s.tasks[k].ran < U32
    ensures var t := Run(s, ops).tasks[k]; t.state != Unused && t.reload == s.tasks[k].reload && t.ran < U32
    decreases |ops|
  {
    if ops != [] {
      ReloadStep(s, ops[0], k);
      ReloadKept(Apply(s, ops[0]), ops[1..], k);
    }
  }

  lemma ReloadStep(s: Sched, op: Op, k: nat)
    requires WellFormed(s) && k < |s.tasks| && s.tasks[k].state != Unused && s.tasks[k].ran < U32
    ensures var t := Apply(s, op).tasks[k]; t.state != Unused && t.reload == s.tasks[k].reload && t.ran < U32
  {
  }

  /** Slices: a task added with quantum q, whatever happened since, runs for max(q, 1) ticks every
      time it is picked: tick number n + 1 of the slice reports expiry if and only if n + 1 is at
      least that, and each tick adds one to its count. */
  lemma SliceLasts(s: Sched, id: int, q: nat, ops: seq<Op>, n: nat)
    requires WellFormed(s) && FirstUnused(s.tasks) < |s.tasks|
    requires Picked(Run(Apply(s, Add(id, q)), ops)).current == FirstUnused(s.tasks)
    ensures var k, picked := FirstUnused(s.tasks), Picked(Run(Apply(s, Add(id, q)), ops));
            && WellFormed(picked)
            && (Expires(TickTimes(picked, n)) <==> n + 1 >= if q == 0 then 1 else q)
            && TickTimes(picked, n).tasks[k].ran == (picked.tasks[k].ran + n) % 0x1_0000_0000
  {
    SliceStarts(s, id, q, ops);
    TicksCount(Picked(Run(Apply(s, Add(id, q)), ops)), n);
  }

  lemma SliceStarts(s: Sched, id: int, q: nat, ops: seq<Op>)
    requires WellFormed(s) && FirstUnused(s.tasks) < |s.tasks|
    requires Picked(Run(Apply(s, Add(id, q)), ops)).current == FirstUnused(s.tasks)
    ensures var picked := Picked(Run(Apply(s, Add(id, q)), ops)); var t := picked.tasks[picked.current];
            WellFormed(picked) && t.state == Running && t.quantum == (if q == 0 then 1 else q) && t.ran < U32
  {
    var k, s1 := FirstUnused(s.tasks), Apply(s, Add(id, q));
    assert s1.tasks[k] == Task(id, Ready, s1.tasks[k].reload, if q == 0 then 1 else q, 0);
    ReloadKept(s1, ops, k);
    PickedSlice(Run(s1, ops), k);
  }

  /** A pick starts a full slice. */
  lemma PickedSlice(s: Sched, k: nat)
    requires WellFormed(s) && Picked(s).current == k && k < |s.tasks|
    ensures WellFormed(Picked(s)) && Picked(s) == Apply(s, Pick)
    ensures var t := Picked(s).tasks[k]; t.state == Running && t.quantum == s.tasks[k].reload && t.ran == s.tasks[k].ran
  {
  }

  /** Blocking or exiting the current task leaves nobody current; another one leaves it current. */
  lemma StopReleasesCpu(s: Sched, id: int, st: TaskState)
    requires WellFormed(s) && FindId(s.tasks, id) < |s.tasks|
    ensures Stopped(s, id, st).current == if s.current == FindId(s.tasks, id) then -1 else s.current
    ensures Stopped(s, id, st).tasks[FindId(s.tasks, id)].state == st
  {
  }

  // ----- blocked tasks -----

  /** A blocked task stays blocked and is never chosen until somebody unblocks or exits it. */
  lemma {:induction false} BlockedWaits(s: Sched, ops: seq<Op>, k: nat)
    requires WellFormed(s) && k < |s.tasks| && s.tasks[k].state == Blocked
    requires forall i :: 0 <= i < |ops| ==> !((ops[i].Unblock? || ops[i].Exit?) && ops[i].id == s.tasks[k].id)
    ensures Run(s, ops).tasks[k].state == Blocked && !EverPicked(s, ops, k)
    decreases |ops|
  {
    if ops != [] {
      BlockedStep(s, ops[0], k);
      BlockedWaits(Apply(s, ops[0]), ops[1..], k);
    }
  }

  lemma BlockedStep(s: Sched, op: Op, k: nat)
    requires WellFormed(s) && k < |s.tasks| && s.tasks[k].state == Blocked
    requires !((op.Unblock? || op.Exit?) && op.id == s.tasks[k].id)
    ensures var s' := Apply(s, op);
            s'.tasks[k].state == Blocked && s'.tasks[k].id == s.tasks[k].id && !(op.Pick? && s'.current == k)
  {
  }

  // ----- exited tasks -----

  /** An exited task stays exited and is never chosen, as long as nobody blocks it. */
  lemma {:induction false} ExitedStaysExited(s: Sched, ops: seq<Op>, k: nat)
    requires WellFormed(s) && k < |s.tasks| && s.tasks[k].state == Zombie
    requires forall i :: 0 <= i < |ops| ==> !(ops[i].Block? && ops[i].id == s.tasks[k].id)
    ensures Run(s, ops).tasks[k].state == Zombie && !EverPicked(s, ops, k)
    decreases |ops|
  {
    if ops != [] {
      ExitedStaysExited(Apply(s, ops[0]), ops[1..], k);
    }
  }

  /** Does a call of the run block the task in slot `k`? */
  predicate EverBlocked(s: Sched, ops: seq<Op>, k: nat)
    requires WellFormed(s)
    decreases |ops|
  {
    ops != [] && ((ops[0].Block? && FindId(s.tasks, ops[0].id) == k) || EverBlocked(Apply(s, ops[0]), ops[1..], k))
  }

  /** Slot `k` is exited before, during and after the run. */
  predicate ExitedThroughout(s: Sched, ops: seq<Op>, k: nat)
    requires WellFormed(s) && k < |s.tasks|
    decreases |ops|
  {
    s.tasks[k].state == Zombie && (ops == [] || ExitedThroughout(Apply(s, ops[0]), ops[1..], k))
  }

  /** Exactly the runs that block it bring an exited task out of that state. */
  lemma {:induction false} ExitedUnlessBlocked(s: Sched, ops: seq<Op>, k: nat)
    requires WellFormed(s) && k < |s.tasks| && s.tasks[k].state == Zombie
    ensures ExitedThroughout(s, ops, k) <==> !EverBlocked(s, ops, k)
    decreases |ops|
  {
    if ops != [] {
      ExitedStep(s, ops[0], k);
      if !(ops[0].Block? && FindId(s.tasks, ops[0].id) == k) {
        ExitedUnlessBlocked(Apply(s, ops[0]), ops[1..], k);
      }
    }
  }

  lemma ExitedStep(s: Sched, op: Op, k: nat)
    requires WellFormed(s) && k < |s.tasks| && s.tasks[k].state == Zombie
    ensures Apply(s, op).tasks[k].state == Zombie <==> !(op.Block? && FindId(s.tasks, op.id) == k)
  {
  }

  /** sched_block does not look at the state, so blocking and unblocking an exited task makes
      it runnable again. */
  lemma BlockRevivesExited(s: Sched, id: int)
    requires WellFormed(s) && FindId(s.tasks, id) < |s.tasks|
    requires s.tasks[FindId(s.tasks, id)].state == Zombie
    ensures IsReady(Run(s, [Block(id), Unblock(id)]), FindId(s.tasks, id))
  {
    var k := FindId(s.tasks, id);
    var s1 := Apply(s, Block(id));
    var k1 := FindId(s1.tasks, id);
    assert s1.tasks[k].state == Blocked && s1.tasks[k].id == id;
    assert k1 == k;
    var ops := [Block(id), Unblock(id)];
    assert ops[1..] == [Unblock(id)] && ops[1..][1..] == [];
    assert Run(s, ops) == Run(s1, ops[1..]) == Run(Apply(s1, Unblock(id)), []);
  }

  /** A table of that capacity with nothing in it. */
  function Fresh(cap: nat): Sched {
    Sched(seq(cap, _ => Task(0, Unused, 0, 0, 0)), -1, 0)
  }

  // ----- the calls themselves -----

  /** sched_t: a table of fixed capacity, changed in place. */
  class Table {
    const tasks: array<Task>
    var current: int
    var cursor: nat

    ghost function View(): Sched
      reads this, tasks
    {
      Sched(tasks[..], current, cursor)
    }

    constructor (storage: array<Task>)
      modifies storage
      ensures tasks == storage && WellFormed(View())
      ensures View() == Fresh(storage.Length)
    {
      tasks := storage;
      new;
      Init();
    }

    /** sched_init over the table's own storage. */
    method Init()
      modifies this, tasks
      ensures View() == Fresh(tasks.Length) && WellFormed(View())
    {
      current, cursor := -1, 0;
      for i := 0 to tasks.Length
        invariant current == -1 && cursor == 0
        invariant forall j :: 0 <= j < i ==> tasks[j] == Task(0, Unused, 0, 0, 0)
      {
        tasks[i] := Task(0, Unused, 0, 0, 0);
      }
      assert tasks[..] == Fresh(tasks.Length).tasks;
    }

    /** find_id: a slot, or -1. */
    method Find(id: int) returns (i: int)
      ensures i == if FindId(tasks[..], id) < tasks.Length then FindId(tasks[..], id) else -1
    {
      i := 0;
      while i < tasks.Length
        invariant 0 <= i <= FindId(tasks[..], id)
      {
        if tasks[i].state != Unused && tasks[i].id == id {
          return;
        }
        assert tasks[..][i] == tasks[i];
        i := i + 1;
      }
      i := -1;
    }

    method Add(id: int, quantum: nat) returns (slot: int)
      requires WellFormed(View())
      modifies tasks
      ensures View() == Apply(old(View()), Op.Add(id, quantum)) && WellFormed(View())
      ensures slot == if FirstUnused(old(tasks[..])) < tasks.Length then FirstUnused(old(tasks[..])) else -1
    {
      var q := if quantum == 0 then 1 else quantum;
      slot := 0;
      while slot < tasks.Length
        invariant 0 <= slot <= FirstUnused(old(tasks[..]))
        invariant tasks[..] == old(tasks[..])
      {
        assert tasks[..][slot] == tasks[slot];
        if tasks[slot].state == Unused {
          tasks[slot] := Task(id, Ready, q, q, 0);
          return;
        }
        slot := slot + 1;
      }
      slot := -1;
    }

    /** sched_pick_next: the id to run, or -1. */
    method PickNext() returns (id: int)
      requires WellFormed(View())
      modifies this, tasks
      ensures View() == Apply(old(View()), Pick) && WellFormed(View())
      ensures id == if current < 0 then -1 else tasks[current].id
    {
      if current >= 0 && tasks[current].state == Running {
        tasks[current] := tasks[current].(state := Ready);
      }
      ghost var ts := tasks[..];
      assert ts == Demoted(old(View()));
      var n := 0;
      while n < tasks.Length
        invariant tasks[..] == ts && current == old(current) && cursor == old(cursor)
        invariant 0 <= n <= Scan(ts, cursor, 0)
      {
        var i := (cursor + n) % tasks.Length;
        WrapIsMod(cursor, n, tasks.Length);
        assert ts[i] == tasks[i];
        if tasks[i].state == Ready {
          tasks[i] := tasks[i].(state := Running, quantum := tasks[i].reload);
          current := i;
          cursor := (i + 1) % tasks.Length;
          WrapIsMod(i, 1, tasks.Length);
          return tasks[i].id;
        }
        n := n + 1;
      }
      current := -1;
      id := -1;
    }

    /** sched_on_tick: true when the running task's slice has just run out. */
    method OnTick() returns (expired: bool)
      requires WellFormed(View())
      modifies tasks
      ensures View() == Apply(old(View()), Tick) && WellFormed(View())
      ensures expired == Expires(old(View()))
    {
      if current < 0 || tasks[current].state != Running {
        return false;
      }
      var t := tasks[current];
      t := t.(ran := (t.ran + 1) % U32);
      if t.quantum > 0 {
        t := t.(quantum := t.quantum - 1);
      }
      tasks[current] := t;
      expired := t.quantum == 0;
    }

    method Block(id: int)
      requires WellFormed(View())
      modifies this, tasks
      ensures View() == Apply(old(View()), Op.Block(id)) && WellFormed(View())
    {
      var i := Find(id);
      if i >= 0 {
        tasks[i] := tasks[i].(state := Blocked);
        if current == i { current := -1; }
      }
    }

    method Unblock(id: int)
      requires WellFormed(View())
      modifies tasks
      ensures View() == Apply(old(View()), Op.Unblock(id)) && WellFormed(View())
    {
      var i := Find(id);
      if i >= 0 && tasks[i].state == Blocked {
        tasks[i] := tasks[i].(state := Ready);
      }
    }

    method Exit(id: int)
      requires WellFormed(View())
      modifies this, tasks
      ensures View() == Apply(old(View()), Op.Exit(id)) && WellFormed(View())
    {
      var i := Find(id);
      if i >= 0 {
        tasks[i] := tasks[i].(state := Zombie);
        if current == i { current := -1; }
      }
    }
  }

  lemma WrapIsMod(from: nat, n: nat, cap: nat)
    requires from < cap && n <= cap
    ensures (from + n) % cap == Slot(from, n, cap)
  {
    var x := from + n;
    var d := x / cap;
    assert x == d * cap + x % cap;
    if d >= 2 { TimesAtLeast(d, 2, cap); }
    if d <= -1 { TimesAtLeast(-d, 1, cap); }
    assert d == 0 || d == 1;
  }

}
