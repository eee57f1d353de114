/** Cooperative multitasking: any number of workers on their own stacks, handing the CPU round
    by the scheduler and the context switch. A worker's locals `me` and `i` live in the
    callee-saved registers ebx and esi. */
module CoopTasks {
  import S = Scheduler
  import opened ContextSwitch

  // Code addresses: where a worker starts, where it resumes in its loop, where it would resume
  // after its last yield, and where main resumes.
  const ENTRY := 1
  const LOOP := 2
  const AFTER_EXIT := 3
  const MAIN := 4

  datatype Event = Tick(task: int, n: int) | Done(task: int)

  /** The machine and the scheduler when some context is about to run. `current` is the running
      task, or -1 for main. */
  datatype Coop = Coop(sched: S.Sched, current: int, m: Mem, regs: Context, log: seq<Event>)

  /** Tasks 0..n-1 have areas 0..n-1; main has area n. */
  function AreaOf(task: int, n: nat): nat {
    if task < 0 then n else task
  }

  function MachineOf(s: Coop, n: nat): Machine {
    Machine(s.m, AreaOf(s.current, n), s.regs)
  }

  /** The task coop_yield hands over to: the scheduler's choice, or main. */
  function NextTask(sched: S.Sched): int
    requires S.WellFormed(sched)
  {
    if sched.current < 0 || sched.tasks[sched.current].id < 0 then -1 else sched.tasks[sched.current].id
  }

  /** coop_yield, called with `me` and `i` in their registers and to be resumed at `ret`. Until
      the hand-over, at machine state `c`, the running context may use its own stack and registers
      as it likes. */
  ghost predicate Yields(areas: seq<Area>, n: nat, s: Coop, c: Machine, ret: int, me: int, i: int, s': Coop) {
    && S.WellFormed(s.sched)
    && s'.sched == S.Picked(s.sched) && s'.log == s.log && s'.current == NextTask(s'.sched)
    && if s'.current == s.current then
         && Computes(areas, MachineOf(s, n), MachineOf(s', n))
         && s'.regs.ebx == me && s'.regs.esi == i && s'.regs.eip == ret
       else
         HandsOver(areas, n, s, c, ret, me, i, s')
  }

  ghost predicate HandsOver(areas: seq<Area>, n: nat, s: Coop, c: Machine, ret: int, me: int, i: int, s': Coop) {
    && Computes(areas, MachineOf(s, n), c)
    && c.regs.ebx == me && c.regs.esi == i
    && 0 <= c.regs.esp < |c.m| && c.m[c.regs.esp] == ret
    && Switches(areas, c, AreaOf(s'.current, n), MachineOf(s', n))
  }

  /** coop_worker from the point it is resumed at to its next yield. */
  ghost predicate WorkerTurn(areas: seq<Area>, n: nat, iters: nat, s: Coop, c: Machine, s': Coop) {
    && (s.regs.eip == ENTRY || s.regs.eip == LOOP)
    && var me := if s.regs.eip == ENTRY then s.current else s.regs.ebx;
       var i := if s.regs.eip == ENTRY then 0 else s.regs.esi + 1;
       if i < iters then
         Yields(areas, n, s.(log := s.log + [Tick(me, i + 1)]), c, LOOP, me, i, s')
       else
         Yields(areas, n, s.(log := s.log + [Done(me)], sched := S.Stopped(s.sched, me, S.Zombie)),
                c, AFTER_EXIT, me, i, s')
  }

  // ----- what should happen -----

  /** Round r: every task ticks for the (r+1)-st time, in order; after the last, all finish. */
  function Round(n: nat, iters: nat, r: nat): seq<Event> {
    seq(n, j => if r < iters then Tick(j, r + 1) else Done(j))
  }

  function Rounds(n: nat, iters: nat, r: nat): seq<Event> {
    if r == 0 then [] else Rounds(n, iters, r - 1) + Round(n, iters, r - 1)
  }

  ghost predicate TableIs(sched: S.Sched, n: nat, k: nat, exiting: bool) {
    && |sched.tasks| == n + 1 && k < n && sched.current == k && sched.cursor == k + 1
    && sched.tasks[n].state == S.Unused
    && forall j :: 0 <= j < n ==>
         && sched.tasks[j].id == j
         && sched.tasks[j].state == if j == k then S.Running else if exiting && j < k then S.Zombie else S.Ready
  }

  /** The context of task j after it has had `c` turns. */
  predicate AfterTurns(x: Context, j: int, c: nat, iters: nat) {
    if c == 0 then x.eip == ENTRY
    else if c <= iters then x.eip == LOOP && x.ebx == j && x.esi == c - 1
    else x.eip == AFTER_EXIT
  }

  function TurnsOf(j: nat, r: nat, k: nat): nat {
    if j < k then r + 1 else r
  }

  /** Task k runs after r turns of its own; every other task, and main, is parked where its
      last turn left it. */
  ghost predicate Contexts(areas: seq<Area>, n: nat, iters: nat, m: Mem, regs: Context, r: nat, k: nat) {
    && |areas| == n + 1 && LaidOut(areas) && k < n
    && AfterTurns(regs, k, r, iters)
    && (forall j: nat :: j < n && j != k ==> TaskParked(m, areas, iters, r, k, j))
    && Parked(m, areas[n]) && Saved(m, areas[n]).eip == MAIN
  }

  ghost predicate ParkedAfter(m: Mem, x: Area, j: nat, c: nat, iters: nat) {
    Parked(m, x) && AfterTurns(Saved(m, x), j, c, iters)
  }

  ghost predicate TaskParked(m: Mem, areas: seq<Area>, iters: nat, r: nat, k: nat, j: nat)
    requires j < |areas|
  {
    ParkedAfter(m, areas[j], j, TurnsOf(j, r, k), iters)
  }

  /** Task k is about to take its turn in round r. */
  ghost predicate Before(areas: seq<Area>, n: nat, iters: nat, s: Coop, r: nat, k: nat) {
    && r <= iters && k < n && s.current == k
    && TableIs(s.sched, n, k, r == iters)
    && Contexts(areas, n, iters, s.m, s.regs, r, k)
    && s.log == LogBefore(n, iters, r, k)
  }

  function LogBefore(n: nat, iters: nat, r: nat, k: nat): seq<Event>
    requires k <= n
  {
    Rounds(n, iters, r) + Round(n, iters, r)[..k]
  }

  /** Main runs again, every task has exited, and the log is complete. */
  ghost predicate Finished(n: nat, iters: nat, s: Coop) {
    && s.current == -1 && s.regs.eip == MAIN
    && |s.sched.tasks| == n + 1 && (forall j :: 0 <= j < n ==> s.sched.tasks[j].state == S.Zombie)
    && s.log == Rounds(n, iters, iters + 1)
  }

  // ----- the scheduler's choices -----

  lemma PickAfterYield(sched: S.Sched, n: nat, k: nat)
    requires TableIs(sched, n, k, false)
    ensures S.WellFormed(sched) && TableIs(S.Picked(sched), n, if k + 1 < n then k + 1 else 0, false)
  {
    var ts := S.Demoted(sched);
    if k + 1 < n {
      assert S.Slot(k + 1, 0, n + 1) == k + 1 && ts[k + 1].state == S.Ready;
      assert S.Scan(ts, k + 1, 0) == 0;
    } else {
      assert S.Slot(n, 0, n + 1) == n && ts[n].state == S.Unused;
      assert S.Slot(n, 1, n + 1) == 0 && ts[0].state == S.Ready;
      assert S.Scan(ts, n, 0) == 1;
    }
  }

  lemma PickAfterExit(sched: S.Sched, n: nat, k: nat)
    requires TableIs(sched, n, k, true)
    ensures var s1 := S.Stopped(sched, k, S.Zombie);
            && S.WellFormed(s1)
            && (k + 1 < n ==> TableIs(S.Picked(s1), n, k + 1, true))
            && (k + 1 == n ==>
                  && S.Picked(s1).current == -1 && |S.Picked(s1).tasks| == n + 1
                  && forall j :: 0 <= j < n ==> S.Picked(s1).tasks[j].state == S.Zombie)
  {
    var f := S.FindId(sched.tasks, k);
    assert sched.tasks[k].state != S.Unused && sched.tasks[k].id == k;
    assert f <= k && sched.tasks[f].id == f;
    var s1 := S.Stopped(sched, k, S.Zombie);
    if k + 1 < n {
      assert S.Slot(k + 1, 0, n + 1) == k + 1 && s1.tasks[k + 1].state == S.Ready;
      assert S.Scan(s1.tasks, k + 1, 0) == 0;
    } else {
      assert S.Scan(s1.tasks, n, 0) == n + 1;
    }
  }

  // ----- one turn -----

  lemma LogGrows(n: nat, iters: nat, r: nat, k: nat)
    requires k < n
    ensures LogBefore(n, iters, r, k) + [if r < iters then Tick(k, r + 1) else Done(k)]
         == if k + 1 < n then LogBefore(n, iters, r, k + 1) else Rounds(n, iters, r + 1)
    ensures LogBefore(n, iters, r, 0) == Rounds(n, iters, r)
  {
    var round := Round(n, iters, r);
    assert round[..k + 1] == round[..k] + [round[k]];
    if k + 1 == n { assert round[..n] == round; }
  }

  /** After a yield the other contexts are as they were and the yielder, if it lost the CPU, is
      parked at its return point. */
  lemma YieldEffect(areas: seq<Area>, n: nat, s: Coop, c: Machine, ret: int, me: int, i: int, s': Coop)
    requires |areas| == n + 1 && LaidOut(areas) && -1 <= s.current < n
    requires Yields(areas, n, s, c, ret, me, i, s') && -1 <= s'.current < n
    requires forall j: nat :: j <= n && j != AreaOf(s.current, n) ==> Parked(s.m, areas[j])
    ensures forall j: nat :: j <= n && j != AreaOf(s.current, n) ==>
              Parked(s'.m, areas[j]) && Saved(s'.m, areas[j]) == Saved(s.m, areas[j])
    ensures s'.current == s.current ==> s'.regs.ebx == me && s'.regs.esi == i && s'.regs.eip == ret
    ensures s'.current != s.current ==>
              && s'.regs == Saved(s.m, areas[AreaOf(s'.current, n)])
              && Parked(s'.m, areas[AreaOf(s.current, n)])
              && var x := Saved(s'.m, areas[AreaOf(s.current, n)]); x.ebx == me && x.esi == i && x.eip == ret
  {
    var me' := AreaOf(s.current, n);
    if s'.current == s.current {
      forall j: nat | j <= n && j != me'
        ensures Parked(s'.m, areas[j]) && Saved(s'.m, areas[j]) == Saved(s.m, areas[j])
      {
        SparedStaysParked(s.m, s'.m, areas[j]);
      }
    } else {
      var to := AreaOf(s'.current, n);
      SwitchEffect(areas, c, to, MachineOf(s', n));
      forall j: nat | j <= n && j != me'
        ensures Parked(s'.m, areas[j]) && Saved(s'.m, areas[j]) == Saved(s.m, areas[j])
        ensures j == to ==> Saved(c.m, areas[j]) == Saved(s.m, areas[j])
      {
        SparedStaysParked(s.m, c.m, areas[j]);
        SparedStaysParked(c.m, s'.m, areas[j]);
      }
    }
  }

  /** A worker's turn as the yield it ends in. */
  ghost function Yielding(s: Coop, r: nat, k: nat, iters: nat): Coop {
    if r < iters then s.(log := s.log + [Tick(k, r + 1)])
    else s.(log := s.log + [Done(k)], sched := S.Stopped(s.sched, k, S.Zombie))
  }

  lemma TurnYields(areas: seq<Area>, n: nat, iters: nat, s: Coop, c: Machine, r: nat, k: nat, s': Coop)
    requires AfterTurns(s.regs, k, r, iters) && r <= iters && s.current == k
    requires WorkerTurn(areas, n, iters, s, c, s')
    ensures Yields(areas, n, Yielding(s, r, k, iters), c, if r < iters then LOOP else AFTER_EXIT, k, r, s')
  {
  }

  lemma TurnFacts(areas: seq<Area>, n: nat, iters: nat, s: Coop, c: Machine, r: nat, k: nat, s': Coop)
    requires AfterTurns(s.regs, k, r, iters) && r <= iters && s.current == k
    requires WorkerTurn(areas, n, iters, s, c, s')
    ensures s'.log == s.log + [if r < iters then Tick(k, r + 1) else Done(k)]
    ensures var s1 := if r < iters then s.sched else S.Stopped(s.sched, k, S.Zombie);
            S.WellFormed(s1) && s'.sched == S.Picked(s1) && S.WellFormed(s'.sched) && s'.current == NextTask(s'.sched)
  {
    TurnYields(areas, n, iters, s, c, r, k, s');
    PickKeeps(Yielding(s, r, k, iters).sched);
  }

  lemma PickKeeps(sched: S.Sched)
    requires S.WellFormed(sched)
    ensures S.WellFormed(S.Picked(sched))
  {
    assert S.WellFormed(S.Apply(sched, S.Pick));
  }

  lemma TurnEffect(areas: seq<Area>, n: nat, iters: nat, s0: Coop, c: Machine, r: nat, k: nat, s': Coop)
    requires Contexts(areas, n, iters, s0.m, s0.regs, r, k) && r <= iters && s0.current == k
    requires WorkerTurn(areas, n, iters, s0, c, s') && -1 <= s'.current < n
    ensures forall j: nat :: j <= n && j != k ==>
              Parked(s0.m, areas[j]) && Parked(s'.m, areas[j]) && Saved(s'.m, areas[j]) == Saved(s0.m, areas[j])
    ensures s'.current == k ==> AfterTurns(s'.regs, k, r + 1, iters)
    ensures s'.current != k ==>
              s'.regs == Saved(s0.m, areas[AreaOf(s'.current, n)]) && ParkedAfter(s'.m, areas[k], k, r + 1, iters)
  {
    TurnYields(areas, n, iters, s0, c, r, k, s');
    var s := Yielding(s0, r, k, iters);
    forall j: nat | j <= n && j != k ensures Parked(s.m, areas[j]) {
      if j < n { assert TaskParked(s.m, areas, iters, r, k, j); }
    }
    YieldEffect(areas, n, s, c, if r < iters then LOOP else AFTER_EXIT, k, r, s');
  }

  lemma ContextsAdvance(areas: seq<Area>, n: nat, iters: nat, s: Coop, c: Machine, r: nat, k: nat, s': Coop,
                        r': nat, k': nat)
    requires Contexts(areas, n, iters, s.m, s.regs, r, k) && r <= iters && s.current == k
    requires WorkerTurn(areas, n, iters, s, c, s') && s'.current == k'
    requires (k' == k + 1 < n && r' == r) || (k' == 0 && k + 1 == n && r' == r + 1 <= iters)
    ensures Contexts(areas, n, iters, s'.m, s'.regs, r', k')
  {
    TurnEffect(areas, n, iters, s, c, r, k, s');
    forall j: nat | j < n && j != k' ensures TaskParked(s'.m, areas, iters, r', k', j) {
      if j != k { assert TaskParked(s.m, areas, iters, r, k, j); }
    }
    if k' != k { assert TaskParked(s.m, areas, iters, r, k, k'); }
  }

  /** Whose turn it is after task k's in round r. */
  function RoundAfter(n: nat, r: nat, k: nat): nat { if k + 1 < n then r else r + 1 }
  function TaskAfter(n: nat, k: nat): nat { if k + 1 < n then k + 1 else 0 }

  /** A turn takes the run to the next task's turn, to the next round, or to its end. */
  lemma TurnAdvances(areas: seq<Area>, n: nat, iters: nat, s: Coop, c: Machine, r: nat, k: nat, s': Coop)
    requires Before(areas, n, iters, s, r, k) && WorkerTurn(areas, n, iters, s, c, s')
    ensures if RoundAfter(n, r, k) <= iters then Before(areas, n, iters, s', RoundAfter(n, r, k), TaskAfter(n, k))
            else Finished(n, iters, s')
  {
    if r < iters {
      TickAdvances(areas, n, iters, s, c, r, k, s');
    } else {
      ExitAdvances(areas, n, iters, s, c, k, s');
    }
  }

  lemma TickLogged(n: nat, iters: nat, r: nat, k: nat)
    requires k < n && r < iters
    ensures LogBefore(n, iters, r, k) + [Tick(k, r + 1)] == LogBefore(n, iters, RoundAfter(n, r, k), TaskAfter(n, k))
  {
    LogGrows(n, iters, r, k);
    LogGrows(n, iters, r + 1, 0);
  }

  lemma TickPicks(sched: S.Sched, n: nat, iters: nat, r: nat, k: nat)
    requires TableIs(sched, n, k, false) && r < iters
    ensures S.WellFormed(sched)
    ensures TableIs(S.Picked(sched), n, TaskAfter(n, k), RoundAfter(n, r, k) == iters)
  {
    PickAfterYield(sched, n, k);
  }

  lemma TickAdvances(areas: seq<Area>, n: nat, iters: nat, s: Coop, c: Machine, r: nat, k: nat, s': Coop)
    requires Before(areas, n, iters, s, r, k) && WorkerTurn(areas, n, iters, s, c, s') && r < iters
    ensures Before(areas, n, iters, s', RoundAfter(n, r, k), TaskAfter(n, k))
  {
    var r', k' := RoundAfter(n, r, k), TaskAfter(n, k);
    assert TableIs(s'.sched, n, k', r' == iters) && s'.current == k' && s'.log == LogBefore(n, iters, r', k') by {
      TickPicks(s.sched, n, iters, r, k);
      TurnFacts(areas, n, iters, s, c, r, k, s');
      TickLogged(n, iters, r, k);
    }
    assert Contexts(areas, n, iters, s'.m, s'.regs, r', k') by {
      ContextsAdvance(areas, n, iters, s, c, r, k, s', r', k');
    }
  }

  lemma ExitAdvances(areas: seq<Area>, n: nat, iters: nat, s: Coop, c: Machine, k: nat, s': Coop)
    requires Before(areas, n, iters, s, iters, k) && WorkerTurn(areas, n, iters, s, c, s')
    ensures k + 1 < n ==> Before(areas, n, iters, s', iters, k + 1)
    ensures k + 1 == n ==> Finished(n, iters, s')
  {
    var s1 := S.Stopped(s.sched, k, S.Zombie);
    PickAfterExit(s.sched, n, k);
    TurnFacts(areas, n, iters, s, c, iters, k, s');
    LogGrows(n, iters, iters, k);
    if k + 1 < n {
      ContextsAdvance(areas, n, iters, s, c, iters, k, s', iters, k + 1);
    } else {
      BackInMain(areas, n, iters, s, c, k, s');
    }
  }

  lemma BackInMain(areas: seq<Area>, n: nat, iters: nat, s: Coop, c: Machine, k: nat, s': Coop)
    requires k + 1 == n && Contexts(areas, n, iters, s.m, s.regs, iters, k) && s.current == k
    requires WorkerTurn(areas, n, iters, s, c, s') && s'.current == -1
    ensures s'.regs.eip == MAIN
  {
    TurnEffect(areas, n, iters, s, c, iters, k, s');
  }

  // ----- the whole run -----

  /** States at the turns of a run, and the machine at each hand-over between them. */
  datatype Run = Run(t: seq<Coop>, calls: seq<Machine>)

  ghost predicate IsRun(areas: seq<Area>, n: nat, iters: nat, run: Run) {
    |run.t| == |run.calls| + 1 && forall x: nat :: x < |run.calls| ==> TurnAt(areas, n, iters, run, x)
  }

  ghost predicate TurnAt(areas: seq<Area>, n: nat, iters: nat, run: Run, x: nat)
    requires x < |run.calls| && |run.t| == |run.calls| + 1
  {
    WorkerTurn(areas, n, iters, run.t[x], run.calls[x], run.t[x + 1])
  }

  lemma AdvanceAt(areas: seq<Area>, n: nat, iters: nat, run: Run, x: nat, r: nat, k: nat)
    requires IsRun(areas, n, iters, run) && x + 1 < |run.t| && Before(areas, n, iters, run.t[x], r, k)
    ensures if RoundAfter(n, r, k) <= iters
            then Before(areas, n, iters, run.t[x + 1], RoundAfter(n, r, k), TaskAfter(n, k))
            else Finished(n, iters, run.t[x + 1])
  {
    assert TurnAt(areas, n, iters, run, x);
    TurnAdvances(areas, n, iters, run.t[x], run.calls[x], r, k, run.t[x + 1]);
  }

  /** Turn number x = r * n + k of any run is task k's turn of round r. */
  lemma {:induction false} TurnOrder(areas: seq<Area>, n: nat, iters: nat, run: Run, x: nat, r: nat, k: nat)
    requires IsRun(areas, n, iters, run) && Before(areas, n, iters, run.t[0], 0, 0)
    requires r <= iters && k < n && x == r * n + k && x < |run.t|
    ensures Before(areas, n, iters, run.t[x], r, k)
    decreases r, k
  {
    if k > 0 {
      TurnOrder(areas, n, iters, run, x - 1, r, k - 1);
      AdvanceAt(areas, n, iters, run, x - 1, r, k - 1);
    } else if r > 0 {
      RoundStart(n, r);
      TurnOrder(areas, n, iters, run, x - 1, r - 1, n - 1);
      AdvanceAt(areas, n, iters, run, x - 1, r - 1, n - 1);
    }
  }

  lemma RoundStart(n: nat, r: nat)
    requires n > 0 && r > 0
    ensures r * n - 1 == (r - 1) * n + (n - 1) && r * n >= 1
  {
  }

  /** For any number of tasks and iterations: after exactly n * (iters + 1) turns, and not
      before, control is back in main; every task has exited and the log is strict round robin. */
  lemma DemoTerminates(areas: seq<Area>, n: nat, iters: nat, run: Run)
    requires n > 0 && IsRun(areas, n, iters, run) && Before(areas, n, iters, run.t[0], 0, 0)
    requires |run.t| == n * (iters + 1) + 1
    ensures Finished(n, iters, run.t[|run.t| - 1])
    ensures forall x :: 0 <= x < |run.t| - 1 ==> run.t[x].current >= 0
  {
    var last := |run.t| - 2;
    assert last == iters * n + (n - 1);
    TurnOrder(areas, n, iters, run, last, iters, n - 1);
    AdvanceAt(areas, n, iters, run, last, iters, n - 1);
    forall x: nat | x < |run.t| - 1 ensures run.t[x].current >= 0 {
      var r, k := Position(n, iters, x);
      TurnOrder(areas, n, iters, run, x, r, k);
    }
  }

  lemma {:induction false} Position(n: nat, iters: nat, x: nat) returns (r: nat, k: nat)
    requires n > 0 && x < n * (iters + 1)
    ensures r <= iters && k < n && x == r * n + k
    decreases iters
  {
    if x < n {
      r, k := 0, x;
    } else {
      assert n * (iters + 1) == n * iters + n;
      r, k := Position(n, iters - 1, x - n);
      assert (r + 1) * n == r * n + n;
      r := r + 1;
    }
  }

  // ----- it gets there -----

  /** Every stack has room for a call of the switch, and every cell is in memory. */
  predicate Roomy(areas: seq<Area>, m: Mem) {
    forall j :: 0 <= j < |areas| ==> RoomyAt(areas[j], m)
  }

  predicate RoomyAt(x: Area, m: Mem) {
    0 <= x.lo && x.lo + 7 <= x.hi <= |m| && 0 <= x.cell < |m|
  }

  /** The call of the switch and the switch itself, on a stack with room. */
  lemma SwitchPossible(areas: seq<Area>, s: Machine, to: nat, ret: int, me: int, i: int)
      returns (c: Machine, s': Machine)
    requires LaidOut(areas) && s.cur < |areas| && to < |areas| && to != s.cur
    requires RoomyAt(areas[s.cur], s.m) && Parked(s.m, areas[to])
    ensures Computes(areas, s, c) && c.regs.ebx == me && c.regs.esi == i
    ensures 0 <= c.regs.esp < |c.m| && c.m[c.regs.esp] == ret
    ensures Switches(areas, c, to, s') && |s'.m| == |s.m|
  {
    var x := areas[s.cur];
    var nsp := s.m[areas[to].cell];
    var m := s.m[x.hi - 1 := nsp][x.hi - 2 := x.cell][x.hi - 3 := ret];
    PushesSpare(areas, s.m, s.cur, x.hi, nsp, x.cell, ret);
    SparedStaysParked(s.m, m, areas[to]);
    assert SparedAt(s.m, m, areas[to], areas[to].cell);
    c := Machine(m, s.cur, Context(me, i, s.regs.edi, s.regs.ebp, x.hi - 3, s.regs.eip));
    var m' := SwitchMem(m, c.regs, x.cell);
    s' := Machine(m', to, Frame(m', nsp));
  }

  lemma YieldPossible(areas: seq<Area>, n: nat, s: Coop, ret: int, me: int, i: int) returns (c: Machine, s': Coop)
    requires |areas| == n + 1 && LaidOut(areas) && Roomy(areas, s.m) && -1 <= s.current < n
    requires S.WellFormed(s.sched) && S.WellFormed(S.Picked(s.sched)) && -1 <= NextTask(S.Picked(s.sched)) < n
    requires forall j: nat :: j <= n && j != AreaOf(s.current, n) ==> Parked(s.m, areas[j])
    ensures Yields(areas, n, s, c, ret, me, i, s') && |s'.m| == |s.m|
  {
    var sched := S.Picked(s.sched);
    var next := NextTask(sched);
    if next == s.current {
      c := MachineOf(s, n);
      s' := Coop(sched, next, s.m, s.regs.(ebx := me, esi := i, eip := ret), s.log);
      SparesItself(areas, s.m);
    } else {
      var t;
      assert RoomyAt(areas[AreaOf(s.current, n)], s.m);
      c, t := SwitchPossible(areas, MachineOf(s, n), AreaOf(next, n), ret, me, i);
      s' := Coop(sched, next, t.m, t.regs, s.log);
    }
  }

  /** Whoever's turn it is can take it. */
  lemma TurnPossible(areas: seq<Area>, n: nat, iters: nat, s: Coop, r: nat, k: nat) returns (c: Machine, s': Coop)
    requires Before(areas, n, iters, s, r, k) && Roomy(areas, s.m)
    ensures WorkerTurn(areas, n, iters, s, c, s') && |s'.m| == |s.m|
  {
    NextIsTask(s.sched, n, k, r == iters);
    var s1 := Yielding(s, r, k, iters);
    forall j: nat | j <= n && j != k ensures Parked(s.m, areas[j]) {
      if j < n { assert TaskParked(s.m, areas, iters, r, k, j); }
    }
    c, s' := YieldPossible(areas, n, s1, if r < iters then LOOP else AFTER_EXIT, k, r);
  }

  lemma NextIsTask(sched: S.Sched, n: nat, k: nat, exiting: bool)
    requires TableIs(sched, n, k, exiting)
    ensures var s1 := if exiting then S.Stopped(sched, k, S.Zombie) else sched;
            S.WellFormed(s1) && S.WellFormed(S.Picked(s1)) && -1 <= NextTask(S.Picked(s1)) < n
  {
    if exiting {
      PickAfterExit(sched, n, k);
      PickKeeps(S.Stopped(sched, k, S.Zombie));
    } else {
      PickAfterYield(sched, n, k);
      PickKeeps(sched);
    }
  }

  lemma TakeTurn(areas: seq<Area>, n: nat, iters: nat, s: Coop, r: nat, k: nat) returns (c: Machine, s': Coop)
    requires Before(areas, n, iters, s, r, k) && Roomy(areas, s.m)
    ensures WorkerTurn(areas, n, iters, s, c, s') && Roomy(areas, s'.m)
    ensures if RoundAfter(n, r, k) <= iters then Before(areas, n, iters, s', RoundAfter(n, r, k), TaskAfter(n, k))
            else Finished(n, iters, s')
  {
    c, s' := TurnPossible(areas, n, iters, s, r, k);
    TurnAdvances(areas, n, iters, s, c, r, k, s');
    RoomyKept(areas, s.m, s'.m);
  }

  /** A run from s to the finish. */
  ghost predicate Finishes(areas: seq<Area>, n: nat, iters: nat, s: Coop, run: Run) {
    IsRun(areas, n, iters, run) && run.t[0] == s && Finished(n, iters, run.t[|run.t| - 1])
  }

  /** One more turn in front. */
  lemma TurnThen(areas: seq<Area>, n: nat, iters: nat, s: Coop, c: Machine, s': Coop, rest: Run) returns (run: Run)
    requires Finishes(areas, n, iters, s', rest) && WorkerTurn(areas, n, iters, s, c, s')
    ensures Finishes(areas, n, iters, s, run)
  {
    run := Run([s] + rest.t, [c] + rest.calls);
    forall x: nat | x < |run.calls| ensures TurnAt(areas, n, iters, run, x) {
      if x > 0 {
        assert TurnAt(areas, n, iters, rest, x - 1) && run.t[x] == rest.t[x - 1] && run.t[x + 1] == rest.t[x];
      }
    }
  }

  /** From any turn on there is one. */
  lemma {:induction false} FinishFrom(areas: seq<Area>, n: nat, iters: nat, s: Coop, r: nat, k: nat) returns (run: Run)
    requires Before(areas, n, iters, s, r, k) && Roomy(areas, s.m)
    ensures Finishes(areas, n, iters, s, run)
    decreases iters - r, n - k
  {
    var c, s' := TakeTurn(areas, n, iters, s, r, k);
    var rest := Run([s'], []);
    if RoundAfter(n, r, k) <= iters {
      rest := FinishFrom(areas, n, iters, s', RoundAfter(n, r, k), TaskAfter(n, k));
    }
    run := TurnThen(areas, n, iters, s, c, s', rest);
  }

  lemma RoomyKept(areas: seq<Area>, m: Mem, m': Mem)
    requires Roomy(areas, m) && |m'| == |m|
    ensures Roomy(areas, m')
  {
    forall j | 0 <= j < |areas| ensures RoomyAt(areas[j], m') { assert RoomyAt(areas[j], m); }
  }

  lemma {:induction false} RunKeepsSize(areas: seq<Area>, n: nat, iters: nat, run: Run, x: nat)
    requires IsRun(areas, n, iters, run) && x < |run.t|
    ensures |run.t[x].m| == |run.t[0].m|
  {
    if x > 0 {
      RunKeepsSize(areas, n, iters, run, x - 1);
      assert TurnAt(areas, n, iters, run, x - 1);
    }
  }

  /** No run is longer: once main runs again there is no turn to take. */
  lemma DemoBounded(areas: seq<Area>, n: nat, iters: nat, run: Run)
    requires n > 0 && IsRun(areas, n, iters, run) && Before(areas, n, iters, run.t[0], 0, 0)
    ensures |run.t| <= n * (iters + 1) + 1
  {
    var last := n * (iters + 1);
    if |run.t| > last + 1 {
      var prefix := Run(run.t[..last + 1], run.calls[..last]);
      forall x: nat | x < |prefix.calls| ensures TurnAt(areas, n, iters, prefix, x) {
        assert TurnAt(areas, n, iters, run, x);
      }
      assert TurnAt(areas, n, iters, run, last);
      DemoTerminates(areas, n, iters, prefix);
    }
  }

  /** There is a turn to take. */
  ghost predicate CanTurn(areas: seq<Area>, n: nat, iters: nat, s: Coop) {
    exists c, s' :: WorkerTurn(areas, n, iters, s, c, s')
  }

  /** Termination: a run can go on exactly as long as it has had fewer than n * (iters + 1) turns,
      and when it cannot, control is back in main with every task exited and the log complete. */
  lemma DemoStopsExactly(areas: seq<Area>, n: nat, iters: nat, run: Run)
    requires n > 0 && IsRun(areas, n, iters, run) && Before(areas, n, iters, run.t[0], 0, 0)
    requires Roomy(areas, run.t[0].m)
    ensures |run.t| <= n * (iters + 1) + 1
    ensures CanTurn(areas, n, iters, run.t[|run.t| - 1]) <==> |run.t| < n * (iters + 1) + 1
    ensures |run.t| == n * (iters + 1) + 1 ==> Finished(n, iters, run.t[|run.t| - 1])
  {
    DemoBounded(areas, n, iters, run);
    var last := |run.t| - 1;
    if last < n * (iters + 1) {
      var r, k := Position(n, iters, last);
      TurnOrder(areas, n, iters, run, last, r, k);
      RunKeepsSize(areas, n, iters, run, last);
      RoomyKept(areas, run.t[0].m, run.t[last].m);
      var c, s' := TurnPossible(areas, n, iters, run.t[last], r, k);
    } else {
      DemoTerminates(areas, n, iters, run);
    }
  }

  /** And there is a run that gets there. */
  lemma DemoCompletes(areas: seq<Area>, n: nat, iters: nat, s: Coop) returns (run: Run)
    requires n > 0 && Before(areas, n, iters, s, 0, 0) && Roomy(areas, s.m)
    ensures IsRun(areas, n, iters, run) && run.t[0] == s
    ensures |run.t| == n * (iters + 1) + 1 && Finished(n, iters, run.t[|run.t| - 1])
  {
    run := FinishFrom(areas, n, iters, s, 0, 0);
    DemoBounded(areas, n, iters, run);
    var last := |run.t| - 1;
    if last < n * (iters + 1) {
      var r, k := Position(n, iters, last);
      TurnOrder(areas, n, iters, run, last, r, k);
      assert false;
    }
  }

  // ----- starting it -----

  /** The scheduler after sched_init and n calls of sched_add. */
  function Enrolled(n: nat, j: nat): (s: S.Sched)
    requires j <= n
    ensures S.WellFormed(s)
  {
    if j == 0 then S.Fresh(n + 1)
    else S.Apply(Enrolled(n, j - 1), S.Add(j - 1, 1))
  }

  lemma {:induction false} EnrolledTable(n: nat, j: nat)
    requires j <= n
    ensures var s := Enrolled(n, j);
            && |s.tasks| == n + 1 && s.current == -1 && s.cursor == 0
            && forall x :: 0 <= x <= n ==>
                 s.tasks[x] == if x < j then S.Task(x, S.Ready, 1, 1, 0) else S.Task(0, S.Unused, 0, 0, 0)
  {
    if j > 0 {
      EnrolledTable(n, j - 1);
      NextUnused(Enrolled(n, j - 1).tasks, j - 1);
    }
  }

  lemma NextUnused(ts: seq<S.Task>, i: nat)
    requires i < |ts| && ts[i].state == S.Unused && forall x :: 0 <= x < i ==> ts[x].state != S.Unused
    ensures S.FirstUnused(ts) == i
  {
  }

  /** The first pick after enrolling: task 0, if there is any. */
  lemma FirstPick(n: nat)
    ensures var s := Enrolled(n, n);
            if n > 0 then TableIs(S.Picked(s), n, 0, false) else S.Picked(s).current == -1
  {
    EnrolledTable(n, n);
    var s := Enrolled(n, n);
    var ts := S.Demoted(s);
    if n > 0 {
      assert S.Slot(0, 0, n + 1) == 0 && ts[0].state == S.Ready;
      assert S.Scan(ts, 0, 0) == 0;
    }
  }

  /** A task as task_init leaves it: its first switch starts the worker on an empty stack. */
  ghost predicate FreshTask(m: Mem, x: Area) {
    Parked(m, x) && Saved(m, x) == Context(0, 0, 0, 0, x.hi / 4 * 4, ENTRY)
  }

  /** Setting up one task leaves the others as they are. */
  lemma InitSpares(areas: seq<Area>, m: Mem, m': Mem, i: nat, sp: int)
    requires LaidOut(areas) && i < |areas| && |m'| == |m| && areas[i].lo <= sp
    requires forall a :: 0 <= a < |m| && !(sp <= a < areas[i].hi) && a != areas[i].cell ==> m'[a] == m[a]
    ensures forall j :: 0 <= j < |areas| && j != i ==> Spared(m, m', areas[j])
  {
    forall j | 0 <= j < |areas| && j != i ensures Spared(m, m', areas[j]) {
      assert PairOk(areas, i, j);
      forall a ensures SparedAt(m, m', areas[j], a) {
        if 0 <= a < |m| && (Within(areas[j], a) || a == areas[j].cell) { assert !Within(areas[i], a); }
      }
    }
  }

  lemma FreshKept(areas: seq<Area>, m: Mem, m': Mem, i: nat)
    requires i <= |areas| && forall j: nat :: j < i ==> FreshTask(m, areas[j])
    requires forall j :: 0 <= j < i ==> Spared(m, m', areas[j])
    ensures forall j: nat :: j < i ==> FreshTask(m', areas[j])
  {
    forall j: nat | j < i ensures FreshTask(m', areas[j]) {
      assert FreshTask(m, areas[j]);
      SparedStaysParked(m, m', areas[j]);
    }
  }

  /** coop_run_demo's hand-over: main yields with every task freshly set up. With no task at all,
      main simply keeps running. */
  lemma DemoStarts(areas: seq<Area>, n: nat, iters: nat, s: Coop, c: Machine, me: int, i: int, s': Coop)
    requires |areas| == n + 1 && LaidOut(areas)
    requires s.sched == Enrolled(n, n) && s.current == -1 && s.log == []
    requires forall j: nat :: j < n ==> FreshTask(s.m, areas[j])
    requires Yields(areas, n, s, c, MAIN, me, i, s')
    ensures n > 0 ==> Before(areas, n, iters, s', 0, 0)
    ensures n == 0 ==> s'.current == -1 && s'.regs.eip == MAIN && s'.log == []
  {
    FirstPick(n);
    if n > 0 {
      forall j: nat | j < n ensures Parked(s.m, areas[j]) {
        assert FreshTask(s.m, areas[j]);
      }
      YieldEffect(areas, n, s, c, MAIN, me, i, s');
      forall j: nat | j < n && j != 0 ensures TaskParked(s'.m, areas, iters, 0, 0, j) {
        assert FreshTask(s.m, areas[j]);
      }
      assert FreshTask(s.m, areas[0]);
      LogGrows(n, iters, 0, 0);
    }
  }

  // ----- coop_yield itself -----

  class Demo {
    const n: nat
    const areas: seq<Area>
    const sched: S.Table
    const cpu: Cpu
    var current: int
    ghost var log: seq<Event>

    constructor (n: nat, areas: seq<Area>, sched: S.Table, cpu: Cpu)
      ensures this.n == n && this.areas == areas && this.sched == sched && this.cpu == cpu && current == -1 && log == []
    {
      this.n, this.areas, this.sched, this.cpu, current, log := n, areas, sched, cpu, -1, [];
    }

    ghost function View(): Coop
      reads this, sched, sched.tasks, cpu, cpu.mem
    {
      Coop(sched.View(), current, cpu.mem[..], cpu.Regs(), log)
    }

    /** Stacks and cells apart, with room in each. */
    ghost predicate Ready()
      reads sched, cpu, cpu.mem
    {
      && |areas| == n + 1 && sched.tasks.Length == n + 1 && LaidOut(areas) && Roomy(areas, cpu.mem[..])
      && forall j :: 0 <= j < n ==> areas[j].lo + 8 <= areas[j].hi
    }

    /** The set-up loop of coop_run_demo: enrol every task and lay out its first frame. */
    method Prepare()
      requires Ready()
      modifies `current, sched, sched.tasks, cpu.mem
      ensures Ready() && sched.View() == Enrolled(n, n) && current == -1
      ensures forall j: nat :: j < n ==> FreshTask(cpu.mem[..], areas[j])
    {
      sched.Init();
      current := -1;
      for i := 0 to n
        invariant Ready() && sched.View() == Enrolled(n, i) && current == -1
        invariant forall j: nat :: j < i ==> FreshTask(cpu.mem[..], areas[j])
      {
        var slot := sched.Add(i, 1);
        SetUp(i);
      }
    }

    /** task_init for task i, after those before it. */
    method SetUp(i: nat)
      requires Ready() && i < n && forall j: nat :: j < i ==> FreshTask(cpu.mem[..], areas[j])
      modifies cpu.mem
      ensures Ready() && forall j: nat :: j < i + 1 ==> FreshTask(cpu.mem[..], areas[j])
      ensures forall j :: 0 <= j < |areas| && j != i ==> Spared(old(cpu.mem[..]), cpu.mem[..], areas[j])
    {
      ghost var m := cpu.mem[..];
      var x := areas[i];
      assert PairOk(areas, i, i) && RoomyAt(x, m);
      var sp := cpu.TaskInit(x.cell, 4 * x.lo, 4 * (x.hi - x.lo), ENTRY);
      InitSpares(areas, m, cpu.mem[..], i, sp);
      RoomyKept(areas, m, cpu.mem[..]);
      FreshKept(areas, m, cpu.mem[..], i);
    }

    /** coop_run_demo up to the moment the first task runs: whatever main did before, the run then
        starts with task 0 in round 0. */
    method Launch() returns (ghost c: Machine)
      requires Ready() && log == []
      requires areas[n].lo + 7 <= cpu.esp <= areas[n].hi
      modifies `current, sched, sched.tasks, cpu, cpu.mem
      ensures Roomy(areas, cpu.mem[..])
      ensures n > 0 ==> forall iters: nat :: Before(areas, n, iters, View(), 0, 0)
      ensures n == 0 ==> current == -1 && cpu.eip == MAIN
    {
      Prepare();
      EnrolledTable(n, n);
      assert RoomyAt(areas[n], cpu.mem[..]);
      ghost var s := View();
      forall j: nat | j < n ensures Parked(cpu.mem[..], areas[j]) { assert FreshTask(cpu.mem[..], areas[j]); }
      ghost var me, i := cpu.ebx, cpu.esi;
      c := Yield(MAIN);
      RoomyKept(areas, s.m, cpu.mem[..]);
      forall iters: nat ensures n > 0 ==> Before(areas, n, iters, View(), 0, 0) {
        DemoStarts(areas, n, iters, s, c, me, i, View());
      }
      if n == 0 { DemoStarts(areas, n, 0, s, c, me, i, View()); }
    }

    /** Hand off to whoever the scheduler picks, to be resumed at `ret`. The out-parameter is the
        machine at the entry of the context switch. */
    method Yield(ret: int) returns (ghost c: Machine)
      requires |areas| == n + 1 && LaidOut(areas) && -1 <= current < n && S.WellFormed(sched.View())
      requires forall j :: 0 <= j < |sched.tasks[..]| && sched.tasks[..][j].state != S.Unused ==>
                 sched.tasks[..][j].id < n
      requires forall j: nat :: j <= n && j != AreaOf(current, n) ==> Parked(cpu.mem[..], areas[j])
      requires var x := areas[AreaOf(current, n)];
               && 0 <= x.cell < cpu.mem.Length && 0 <= x.lo && x.lo + 7 <= cpu.esp <= x.hi <= cpu.mem.Length
      modifies `current, sched, sched.tasks, cpu, cpu.mem
      ensures Yields(areas, n, old(View()), c, ret, old(cpu.ebx), old(cpu.esi), View())
    {
      ghost var s := View();
      var prev := current;
      var nid := sched.PickNext();
      var next := if nid < 0 then -1 else nid;
      PickKeepsIds(s.sched);
      c := MachineOf(s, n);
      if next == prev {
        cpu.eip := ret;
        SparesItself(areas, c.m);
        return;
      }
      current := next;
      c := SwitchTo(AreaOf(prev, n), AreaOf(next, n), ret);
    }

    /** The call thuos_context_switch(&own.esp, target.esp), returning to `ret`. */
    method SwitchTo(own: nat, to: nat, ret: int) returns (ghost c: Machine)
      requires LaidOut(areas) && own < |areas| && to < |areas| && own != to && Parked(cpu.mem[..], areas[to])
      requires var x := areas[own];
               && 0 <= x.cell < cpu.mem.Length && 0 <= x.lo && x.lo + 7 <= cpu.esp <= x.hi <= cpu.mem.Length
      modifies cpu, cpu.mem
      ensures Computes(areas, Machine(old(cpu.mem[..]), own, old(cpu.Regs())), c)
      ensures c.regs.ebx == old(cpu.ebx) && c.regs.esi == old(cpu.esi)
      ensures 0 <= c.regs.esp < |c.m| && c.m[c.regs.esp] == ret
      ensures Switches(areas, c, to, Machine(cpu.mem[..], to, cpu.Regs()))
    {
      ghost var m, sp := cpu.mem[..], cpu.esp;
      var save := areas[own].cell;
      var nsp := cpu.mem[areas[to].cell];
      cpu.Push(nsp);
      cpu.Push(save);
      cpu.Push(ret);
      c := Machine(cpu.mem[..], own, cpu.Regs());
      PushesSpare(areas, m, own, sp, nsp, save, ret);
      SparedStaysParked(m, c.m, areas[to]);
      assert SparedAt(m, c.m, areas[to], areas[to].cell);
      cpu.ContextSwitch();
    }
  }

  lemma PickKeepsIds(sched: S.Sched)
    requires S.WellFormed(sched)
    ensures var s' := S.Picked(sched);
            && S.WellFormed(s') && |s'.tasks| == |sched.tasks|
            && (forall j :: 0 <= j < |sched.tasks| ==> s'.tasks[j].id == sched.tasks[j].id)
            && (s'.current >= 0 ==> sched.tasks[s'.current].state != S.Unused)
  {
    PickKeeps(sched);
  }

  lemma SparesItself(areas: seq<Area>, m: Mem)
    ensures forall j :: 0 <= j < |areas| ==> Spared(m, m, areas[j])
  {
    forall j | 0 <= j < |areas| ensures Spared(m, m, areas[j]) {
      assert forall a :: SparedAt(m, m, areas[j], a);
    }
  }

  /** The three words coop_yield pushes for the call lie in the caller's own stack. */
  lemma PushesSpare(areas: seq<Area>, m: Mem, i: nat, sp: int, u: int, v: int, w: int)
    requires LaidOut(areas) && i < |areas| && 0 <= areas[i].lo && areas[i].lo + 3 <= sp <= areas[i].hi <= |m|
    ensures forall j :: 0 <= j < |areas| && j != i ==> Spared(m, m[sp - 1 := u][sp - 2 := v][sp - 3 := w], areas[j])
    ensures 0 <= areas[i].cell < |m| ==> m[sp - 1 := u][sp - 2 := v][sp - 3 := w][areas[i].cell] == m[areas[i].cell]
  {
    var m' := m[sp - 1 := u][sp - 2 := v][sp - 3 := w];
    assert PairOk(areas, i, i);
    forall j | 0 <= j < |areas| && j != i ensures Spared(m, m', areas[j]) {
      assert PairOk(areas, i, j);
      forall a ensures SparedAt(m, m', areas[j], a) {
        if 0 <= a < |m| && (Within(areas[j], a) || a == areas[j].cell) { assert !Within(areas[i], a); }
      }
    }
  }
}
