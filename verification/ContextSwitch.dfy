/** The i386 context switch as a machine operation on registers and stack memory, the initial
    frame of a fresh task, and what a suspended context keeps while others run. */
module ContextSwitch {
  /** Memory as 32-bit words. Addresses, stack pointers included, count words: byte address / 4. */
  type Mem = seq<int>

  /** Where a thread of control is: callee-saved registers, stack pointer, next instruction. */
  datatype Context = Context(ebx: int, esi: int, edi: int, ebp: int, esp: int, eip: int)

  predicate FrameAt(m: Mem, sp: int) {
    0 <= sp && sp + 5 <= |m|
  }

  /** The context that `pop ebp; pop edi; pop esi; pop ebx; ret` resumes from stack pointer sp. */
  function Frame(m: Mem, sp: int): Context
    requires FrameAt(m, sp)
  {
    Context(m[sp + 3], m[sp + 2], m[sp + 1], m[sp], sp + 5, m[sp + 4])
  }

  /** Memory after the four pushes and the store through save_old_esp. */
  function SwitchMem(m: Mem, c: Context, save: int): (m': Mem)
    requires 4 <= c.esp < |m| && 0 <= save < |m|
    ensures |m'| == |m|
  {
    m[c.esp - 1 := c.ebx][c.esp - 2 := c.esi][c.esp - 3 := c.edi][c.esp - 4 := c.ebp][save := c.esp - 4]
  }

  class Cpu {
    const mem: array<int>
    var eax: int
    var edx: int
    var ebx: int
    var esi: int
    var edi: int
    var ebp: int
    var esp: int
    var eip: int

    constructor (mem: array<int>)
      ensures this.mem == mem
    {
      this.mem := mem;
    }

    ghost function Regs(): Context
      reads this
    {
      Context(ebx, esi, edi, ebp, esp, eip)
    }

    method Push(v: int)
      requires 0 < esp <= mem.Length
      modifies `esp, mem
      ensures esp == old(esp) - 1 && mem[..] == old(mem[..])[esp := v]
    {
      esp := esp - 1;
      mem[esp] := v;
    }

    method Pop() returns (v: int)
      requires 0 <= esp < mem.Length
      modifies `esp
      ensures esp == old(esp) + 1 && v == mem[old(esp)]
    {
      v := mem[esp];
      esp := esp + 1;
    }

    /** thuos_context_switch, entered with the return address at esp and both arguments above it. */
    method ContextSwitch()
      requires 4 <= esp && esp + 2 < mem.Length
      requires 0 <= mem[esp + 1] < mem.Length && FrameAt(mem[..], mem[esp + 2])
      modifies this, mem
      ensures mem[..] == SwitchMem(old(mem[..]), old(Regs()), old(mem[esp + 1]))
      ensures Regs() == Frame(mem[..], old(mem[esp + 2]))
    {
      eax := mem[esp + 1];
      edx := mem[esp + 2];
      SaveOld();
      esp := edx;
      RestoreNew();
    }

    /** The first half: push the callee-saved registers and store esp through eax. */
    method SaveOld()
      requires 4 <= esp < mem.Length && 0 <= eax < mem.Length
      modifies `esp, mem
      ensures mem[..] == SwitchMem(old(mem[..]), old(Regs()), eax)
    {
      Push(ebx);
      Push(esi);
      Push(edi);
      Push(ebp);
      mem[eax] := esp;
    }

    /** The second half: pop them from the new stack and return into it. */
    method RestoreNew()
      requires FrameAt(mem[..], esp)
      modifies `esp, `ebp, `edi, `esi, `ebx, `eip
      ensures Regs() == Frame(mem[..], old(esp))
    {
      ebp := Pop();
      edi := Pop();
      esi := Pop();
      ebx := Pop();
      eip := Pop();
    }

    /** task_init, for a stack given in bytes: five words below the 16-aligned top, and the stack
        pointer in the task's esp field, at word `cell`. The first switch enters `entry` with
        cleared registers and the stack pointer at that top. */
    method TaskInit(cell: nat, stack: nat, size: nat, entry: int) returns (sp: int)
      requires stack + 20 <= (stack + size) / 16 * 16 <= 4 * mem.Length && cell < mem.Length
      requires !(stack <= 4 * cell < stack + size)
      modifies mem
      ensures var top := (stack + size) / 16 * 16 / 4;
              && sp == top - 5 && 4 * top % 16 == 0 && FrameAt(mem[..], sp) && mem[cell] == sp
              && Frame(mem[..], sp) == Context(0, 0, 0, 0, top, entry)
              && forall a :: 0 <= a < mem.Length && !(sp <= a < top) && a != cell ==> mem[a] == old(mem[a])
    {
      sp := (stack + size) / 16 * 4;
      sp := sp - 1; mem[sp] := entry;
      sp := sp - 1; mem[sp] := 0;
      sp := sp - 1; mem[sp] := 0;
      sp := sp - 1; mem[sp] := 0;
      sp := sp - 1; mem[sp] := 0;
      mem[cell] := sp;
    }
  }

  // ----- several contexts -----

  /** A context's stack [lo, hi) and the cell where its stack pointer is saved. */
  datatype Area = Area(lo: int, hi: int, cell: int)

  predicate Within(x: Area, a: int) {
    x.lo <= a < x.hi
  }

  /** Two contexts share no stack byte, and neither cell lies in the other's stack. */
  predicate Apart(x: Area, y: Area) {
    x.cell != y.cell && !Within(x, y.cell) && !Within(y, x.cell) && (x.hi <= y.lo || y.hi <= x.lo)
  }

  /** Every cell lies outside its own stack, and all contexts are apart. */
  ghost predicate LaidOut(areas: seq<Area>) {
    forall i: nat, j: nat :: i < |areas| && j < |areas| ==> PairOk(areas, i, j)
  }

  predicate PairOk(areas: seq<Area>, i: nat, j: nat)
    requires i < |areas| && j < |areas|
  {
    !Within(areas[i], areas[i].cell) && (i != j ==> Apart(areas[i], areas[j]))
  }

  /** Context i is suspended: its cell names a frame inside its own stack. */
  ghost predicate Parked(m: Mem, x: Area) {
    0 <= x.cell < |m| && FrameAt(m, m[x.cell]) && x.lo <= m[x.cell] && m[x.cell] + 5 <= x.hi
  }

  ghost function Saved(m: Mem, x: Area): Context
    requires Parked(m, x)
  {
    Frame(m, m[x.cell])
  }

  /** Nothing in x's stack nor in its cell differs. */
  ghost predicate Spared(m: Mem, m': Mem, x: Area) {
    |m'| == |m| && forall a :: SparedAt(m, m', x, a)
  }

  ghost predicate SparedAt(m: Mem, m': Mem, x: Area, a: int)
    requires |m'| == |m|
  {
    0 <= a < |m| && (Within(x, a) || a == x.cell) ==> m'[a] == m[a]
  }

  /** A context that is spared stays parked with the same saved state. */
  lemma SparedStaysParked(m: Mem, m': Mem, x: Area)
    requires Parked(m, x) && Spared(m, m', x)
    ensures Parked(m', x) && Saved(m', x) == Saved(m, x)
  {
    var sp := m[x.cell];
    assert SparedAt(m, m', x, x.cell) && SparedAt(m, m', x, sp) && SparedAt(m, m', x, sp + 1);
    assert SparedAt(m, m', x, sp + 2) && SparedAt(m, m', x, sp + 3) && SparedAt(m, m', x, sp + 4);
  }

  datatype Machine = Machine(m: Mem, cur: nat, regs: Context)

  /** The running context computes: registers change freely, memory outside the other stacks
      and outside the cells changes freely. */
  ghost predicate Computes(areas: seq<Area>, s: Machine, s': Machine) {
    && s'.cur == s.cur && |s'.m| == |s.m|
    && (forall j :: 0 <= j < |areas| && j != s.cur ==> Spared(s.m, s'.m, areas[j]))
  }

  /** At the entry of the switch: return address at esp, own cell and the target's saved stack
      pointer as arguments, and room for four pushes in the own stack. */
  ghost predicate CallsSwitch(areas: seq<Area>, s: Machine, j: nat)
    requires s.cur < |areas| && j < |areas|
  {
    var x, sp := areas[s.cur], s.regs.esp;
    && 4 <= sp && sp + 2 < |s.m| && x.lo + 4 <= sp && sp + 3 <= x.hi
    && 0 <= x.cell < |s.m| && s.m[sp + 1] == x.cell
    && 0 <= areas[j].cell < |s.m| && s.m[sp + 2] == s.m[areas[j].cell]
  }

  /** The context a caller of the switch will be in when it is resumed. */
  ghost function ReturnPoint(s: Machine): Context
    requires 0 <= s.regs.esp < |s.m|
  {
    s.regs.(esp := s.regs.esp + 1, eip := s.m[s.regs.esp])
  }

  ghost predicate Switches(areas: seq<Area>, s: Machine, j: nat, s': Machine) {
    && s.cur < |areas| && j < |areas| && j != s.cur
    && LaidOut(areas) && CallsSwitch(areas, s, j) && Parked(s.m, areas[j])
    && s'.m == SwitchMem(s.m, s.regs, areas[s.cur].cell)
    && s'.cur == j
    && s'.regs == Frame(s'.m, s.m[areas[j].cell])
  }

  /** One switch: the caller is parked at its return point, the target runs from exactly the
      context it had saved, and everyone else is untouched. */
  lemma SwitchEffect(areas: seq<Area>, s: Machine, j: nat, s': Machine)
    requires Switches(areas, s, j, s')
    ensures s'.regs == Saved(s.m, areas[j])
    ensures Parked(s'.m, areas[s.cur]) && Saved(s'.m, areas[s.cur]) == ReturnPoint(s)
    ensures forall k :: 0 <= k < |areas| && k != s.cur ==> Spared(s.m, s'.m, areas[k])
  {
    forall k | 0 <= k < |areas| && k != s.cur ensures Spared(s.m, s'.m, areas[k]) {
      SwitchSpares(areas, s, k);
    }
    SparedStaysParked(s.m, s'.m, areas[j]);
    assert PairOk(areas, s.cur, s.cur);
  }

  lemma SwitchSpares(areas: seq<Area>, s: Machine, k: nat)
    requires s.cur < |areas| && k < |areas| && k != s.cur && LaidOut(areas)
    requires 4 <= s.regs.esp < |s.m| && areas[s.cur].lo + 4 <= s.regs.esp <= areas[s.cur].hi
    requires 0 <= areas[s.cur].cell < |s.m|
    ensures Spared(s.m, SwitchMem(s.m, s.regs, areas[s.cur].cell), areas[k])
  {
    assert PairOk(areas, s.cur, k) && PairOk(areas, k, k);
    var x := areas[s.cur];
    var m' := SwitchMem(s.m, s.regs, x.cell);
    forall a ensures SparedAt(s.m, m', areas[k], a) {
      if 0 <= a < |s.m| && (Within(areas[k], a) || a == areas[k].cell) {
        assert !Within(x, a) && a != x.cell;
      }
    }
  }

  ghost predicate Step(areas: seq<Area>, s: Machine, s': Machine) {
    Computes(areas, s, s') || exists j: nat :: Switches(areas, s, j, s')
  }

  ghost predicate IsRun(areas: seq<Area>, t: seq<Machine>) {
    t != [] && forall k: nat :: k + 1 < |t| ==> RunStep(areas, t, k)
  }

  ghost predicate RunStep(areas: seq<Area>, t: seq<Machine>, k: nat)
    requires k + 1 < |t|
  {
    Step(areas, t[k], t[k + 1])
  }

  lemma SparedTrans(m: Mem, m1: Mem, m2: Mem, x: Area)
    requires Spared(m, m1, x) && Spared(m1, m2, x)
    ensures Spared(m, m2, x)
  {
    forall a ensures SparedAt(m, m2, x, a) {
      assert SparedAt(m, m1, x, a) && SparedAt(m1, m2, x, a);
    }
  }

  /** While others run, whatever they do on their own stacks, a suspended context and its whole
      stack stay as they were, and the switch that resumes it restores exactly that context. */
  lemma {:induction false} SuspendedUntilResumed(areas: seq<Area>, t: seq<Machine>, a: nat, b: nat, i: nat)
    requires IsRun(areas, t) && a <= b < |t| && i < |areas|
    requires Parked(t[a].m, areas[i]) && forall k :: a <= k < b ==> t[k].cur != i
    ensures Spared(t[a].m, t[b].m, areas[i])
    ensures t[b].cur == i && a < b ==> t[b].regs == Saved(t[a].m, areas[i])
    decreases b
  {
    if a < b {
      SuspendedUntilResumed(areas, t, a, b - 1, i);
      SparedStaysParked(t[a].m, t[b - 1].m, areas[i]);
      assert RunStep(areas, t, b - 1);
      if !Computes(areas, t[b - 1], t[b]) {
        var j: nat :| Switches(areas, t[b - 1], j, t[b]);
        SwitchEffect(areas, t[b - 1], j, t[b]);
      }
      SparedTrans(t[a].m, t[b - 1].m, t[b].m, areas[i]);
    } else {
      assert forall x :: SparedAt(t[a].m, t[a].m, areas[i], x);
    }
  }

  /** Switching away and later back restores ebx, esi, edi, ebp, the stack pointer after the
      call and the return address. */
  lemma SwitchAwayAndBack(areas: seq<Area>, t: seq<Machine>, a: nat, b: nat, j: nat)
    requires IsRun(areas, t) && a + 1 < b < |t| && Switches(areas, t[a], j, t[a + 1])
    requires (forall k :: a < k < b ==> t[k].cur != t[a].cur) && t[b].cur == t[a].cur
    ensures t[b].regs == ReturnPoint(t[a])
  {
    SwitchEffect(areas, t[a], j, t[a + 1]);
    SuspendedUntilResumed(areas, t, a + 1, b, t[a].cur);
  }
}
