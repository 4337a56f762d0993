/** Whole runs of tasks that execute, spawn others and switch to one another. */
module TaskRuns {
  import opened X86
  import opened ContextSwitch

  /** `points[i]` is where task `i` is to go on, for every task but the current one. */
  datatype System = System(areas: seq<Area>, cpu: Cpu, current: nat, points: seq<Point>)

  /** `Work`: the current task executes anything, up to processor state `cpu`. */
  datatype Event =
    | Work(cpu: Cpu)
    | Spawn(area: Area, entry: int)
    | Switch(to: nat)

  /** The first context of a task: empty registers, interrupts enabled, and the entry
      function's address on top of its stack. */
  function FreshPoint(x: Area, entry: int): Point {
    Point(entry, x.hi, 0, 0, 0, 0, 0, 0, 0x202)
  }

  function SetupInitialCall(mem: Words, x: Area, entry: int): Words {
    mem[x.hi - 8 := entry]
       [x.ctx + 0x0 := 0][x.ctx + 0x8 := 0][x.ctx + 0x10 := 0][x.ctx + 0x18 := 0]
       [x.ctx + 0x20 := 0][x.ctx + 0x28 := 0][x.ctx + 0x30 := x.hi - 8][x.ctx + 0x38 := 0x202]
  }

  function Next(s: System, e: Event): System {
    match e
    case Work(c) => s.(cpu := c)
    case Spawn(x, entry) =>
      s.(areas := s.areas + [x], points := s.points + [FreshPoint(x, entry)],
         cpu := s.cpu.(mem := SetupInitialCall(s.cpu.mem, x, entry)))
    case Switch(to) =>
      if s.current < |s.points| then
        s.(cpu := SwitchInner(s.cpu), current := to, points := s.points[s.current := CallSite(s.cpu)])
      else s
  }

  /** Work writes no context and no other task's stack; new memory is disjoint from
      all other; a switch goes to another task, is called with the two contexts and
      has room on its own stack. */
  ghost predicate Enabled(s: System, e: Event) {
    match e
    case Work(c) =>
      forall i, a :: 0 <= i < |s.areas| && (InContext(s.areas[i], a) || (i != s.current && InStack(s.areas[i], a))) ==>
        ReadWord(c.mem, a) == ReadWord(s.cpu.mem, a)
    case Spawn(x, entry) => AreasOk(s.areas + [x]) && entry != LABEL2 && x.lo + 16 <= x.hi
    case Switch(to) =>
      && to < |s.areas| && to != s.current && s.current < |s.areas|
      && s.cpu.Get(Rdi) == s.areas[s.current].ctx && s.cpu.Get(Rsi) == s.areas[to].ctx
      && s.areas[s.current].lo + 16 <= s.cpu.Get(Rsp) && s.cpu.Get(Rsp) + 8 <= s.areas[s.current].hi
  }

  /** Every task that does not run waits at its point. */
  ghost predicate Inv(s: System) {
    && |s.points| == |s.areas| && s.current < |s.areas| && AreasOk(s.areas)
    && forall i :: 0 <= i < |s.areas| && i != s.current ==> Waiting(s.cpu.mem, s.areas[i], s.points[i])
  }

  lemma WorkKeepsInv(s: System, c: Cpu)
    requires Inv(s) && Enabled(s, Work(c))
    ensures Inv(Next(s, Work(c)))
  {
    hide Waiting, InContext, InStack;
    forall i | 0 <= i < |s.areas| && i != s.current
      ensures Waiting(c.mem, s.areas[i], s.points[i])
    {
      WaitingKept(s.cpu.mem, c.mem, s.areas[i], s.points[i]);
    }
  }

  lemma FreshWaits(mem: Words, x: Area, entry: int)
    requires entry != LABEL2 && x.lo + 16 <= x.hi && Apart(x.ctx, x.ctx + 64, x.lo, x.hi)
    ensures Waiting(SetupInitialCall(mem, x, entry), x, FreshPoint(x, entry))
  {
    var mem' := SetupInitialCall(mem, x, entry);
    assert ReadWord(mem', x.hi - 8) == entry;
    assert ReadWord(mem', x.ctx + 0x30) == x.hi - 8;
  }

  lemma SetupIsLocal(mem: Words, x: Area, entry: int, a: int)
    requires x.lo + 16 <= x.hi && !InContext(x, a) && !InStack(x, a)
    ensures ReadWord(SetupInitialCall(mem, x, entry), a) == ReadWord(mem, a)
  {
  }

  lemma SpawnKeepsInv(s: System, x: Area, entry: int)
    requires Inv(s) && Enabled(s, Spawn(x, entry))
    ensures Inv(Next(s, Spawn(x, entry)))
  {
    hide Waiting, SetupInitialCall;
    var areas := s.areas + [x];
    var n := |s.areas|;
    assert areas[n] == x;
    var mem' := SetupInitialCall(s.cpu.mem, x, entry);
    FreshWaits(s.cpu.mem, x, entry);
    forall i | 0 <= i < n && i != s.current
      ensures Waiting(mem', s.areas[i], s.points[i])
    {
      assert areas[i] == s.areas[i];
      forall a | InContext(s.areas[i], a) || InStack(s.areas[i], a)
        ensures ReadWord(mem', a) == ReadWord(s.cpu.mem, a)
      {
        SetupIsLocal(s.cpu.mem, x, entry, a);
      }
      WaitingKept(s.cpu.mem, mem', s.areas[i], s.points[i]);
    }
  }

  lemma PairOk(areas: seq<Area>, i: nat, j: nat)
    requires AreasOk(areas) && i < |areas| && j < |areas| && i != j
    ensures AreasOk([areas[i], areas[j]])
  {
  }

  /** Whoever is switched to is at its point again. */
  lemma SwitchKeepsInv(s: System, to: nat)
    requires Inv(s) && Enabled(s, Switch(to))
    ensures Inv(Next(s, Switch(to))) && PointOf(Next(s, Switch(to)).cpu) == s.points[to]
  {
    hide Waiting, SwitchInner, PointOf, CallSite;
    var from, k := s.current, s.areas[to];
    PairOk(s.areas, from, to);
    SwitchResumes(s.cpu, s.areas[from], s.areas[to], s.points[to]);
    var s' := Next(s, Switch(to));
    forall i | 0 <= i < |s.areas| && i != to
      ensures Waiting(s'.cpu.mem, s.areas[i], s'.points[i])
    {
      if i != from {
        OthersUntouched(s.areas, i, from, to, s.cpu.mem, s'.cpu.mem);
        WaitingKept(s.cpu.mem, s'.cpu.mem, s.areas[i], s.points[i]);
      }
    }
  }

  lemma OthersUntouched(areas: seq<Area>, i: nat, from: nat, to: nat, mem: Words, mem': Words)
    requires AreasOk(areas) && i < |areas| && from < |areas| && to < |areas| && i != from && i != to
    requires forall a :: !InContext(areas[from], a) && !InStack(areas[from], a) && !InStack(areas[to], a) ==>
      ReadWord(mem', a) == ReadWord(mem, a)
    ensures forall a :: InContext(areas[i], a) || InStack(areas[i], a) ==> ReadWord(mem', a) == ReadWord(mem, a)
  {
    PairOk(areas, i, from);
    PairOk(areas, i, to);
    TwoAreas(areas[i], areas[from]);
    TwoAreas(areas[i], areas[to]);
  }

  // ----- runs -----

  function Run(s: System, es: seq<Event>): System
    decreases |es|
  {
    if es == [] then s else Next(Run(s, es[..|es| - 1]), es[|es| - 1])
  }

  ghost predicate AllEnabled(s: System, es: seq<Event>) {
    forall k :: 0 <= k < |es| ==> Enabled(Run(s, es[..k]), es[k])
  }

  lemma RunNext(s: System, es: seq<Event>, k: nat)
    requires k < |es|
    ensures Run(s, es[..k + 1]) == Next(Run(s, es[..k]), es[k])
  {
    assert es[..k + 1][..k] == es[..k];
  }

  lemma {:induction false} RunKeepsInv(s: System, es: seq<Event>, k: nat)
    requires Inv(s) && AllEnabled(s, es) && k <= |es|
    ensures Inv(Run(s, es[..k]))
    decreases k
  {
    hide Next, Enabled, Inv;
    if k == 0 {
      assert es[..0] == [];
    } else {
      RunKeepsInv(s, es, k - 1);
      RunNext(s, es, k - 1);
      StepKeepsInv(Run(s, es[..k - 1]), es[k - 1]);
    }
  }

  lemma StepKeepsInv(s: System, e: Event)
    requires Inv(s) && Enabled(s, e)
    ensures Inv(Next(s, e))
  {
    hide Next, Enabled, Inv;
    match e
    case Work(c) => WorkKeepsInv(s, c);
    case Spawn(x, entry) => SpawnKeepsInv(s, x, entry);
    case Switch(to) => SwitchKeepsInv(s, to);
  }

  /** Task `j` makes no switch between events `h` and `k`. */
  ghost predicate Still(s: System, es: seq<Event>, j: nat, h: nat, k: nat)
    requires h <= k <= |es|
  {
    forall t :: h <= t < k ==> !(es[t].Switch? && Run(s, es[..t]).current == j)
  }

  lemma {:induction false} PointKept(s: System, es: seq<Event>, j: nat, h: nat, k: nat)
    requires Inv(s) && AllEnabled(s, es) && h <= k <= |es|
    requires j < |Run(s, es[..h]).points| && Still(s, es, j, h, k)
    ensures j < |Run(s, es[..k]).points| && Run(s, es[..k]).points[j] == Run(s, es[..h]).points[j]
    decreases k
  {
    hide Enabled, Inv, AllEnabled, Run, SwitchInner;
    if h < k {
      PointKept(s, es, j, h, k - 1);
      RunNext(s, es, k - 1);
    }
  }

  /** A task that is resumed goes on behind the call it was switched away at, with the
      stack pointer, the registers that calls preserve and the flags it had then,
      whatever the other tasks did in between. */
  lemma ResumedAtItsCall(s: System, es: seq<Event>, j: nat, h: nat, k: nat)
    requires Inv(s) && AllEnabled(s, es) && h < k < |es|
    requires es[h].Switch? && Run(s, es[..h]).current == j && es[k] == Switch(j)
    requires Still(s, es, j, h + 1, k)
    ensures PointOf(Run(s, es[..k + 1]).cpu) == CallSite(Run(s, es[..h]).cpu)
  {
    hide Run, SwitchInner, PointOf, CallSite, Waiting, AreasOk, Enabled;
    RunKeepsInv(s, es, h);
    RunKeepsInv(s, es, k);
    RunNext(s, es, h);
    PointKept(s, es, j, h + 1, k);
    RunNext(s, es, k);
    SwitchKeepsInv(Run(s, es[..k]), j);
  }

  const RESERVED_FLAG := 0x2       // always one
  const INTERRUPT_FLAG := 0x200

  /** A new task starts at its entry function, at the top of its area, with empty registers
      and interrupts enabled. */
  lemma StartsAtItsEntry(s: System, es: seq<Event>, j: nat, h: nat, k: nat)
    requires Inv(s) && AllEnabled(s, es) && h < k < |es|
    requires es[h].Spawn? && |Run(s, es[..h]).areas| == j && es[k] == Switch(j)
    requires Still(s, es, j, h + 1, k)
    ensures PointOf(Run(s, es[..k + 1]).cpu) == FreshPoint(es[h].area, es[h].entry)
    ensures var p := PointOf(Run(s, es[..k + 1]).cpu);
      && p.rip == es[h].entry && p.rsp == es[h].area.hi
      && p.rbx == p.rbp == p.r12 == p.r13 == p.r14 == p.r15 == 0
      && p.flags == INTERRUPT_FLAG + RESERVED_FLAG
  {
    hide Run, SwitchInner, PointOf, CallSite, Waiting, AreasOk, Enabled, SetupInitialCall;
    RunKeepsInv(s, es, h);
    RunKeepsInv(s, es, k);
    RunNext(s, es, h);
    PointKept(s, es, j, h + 1, k);
    RunNext(s, es, k);
    SwitchKeepsInv(Run(s, es[..k]), j);
  }

  // ----- where a new stack lies -----

  const KERNEL_STACK_SIZE: int := 4096 * 4

  /** The pointer that `words` steps over 8-byte words from `base` lead to. */
  function WordsAfter(base: int, words: nat): int {
    base + 8 * words
  }

  /** The memory that a new task uses as its stack, when it needs no more than its stack's
      size: `setup_initial_call` steps over as many words as the stack has bytes. */
  function UsedArea(ctx: int, base: int): Area {
    var top := WordsAfter(base, KERNEL_STACK_SIZE);
    Area(ctx, top - KERNEL_STACK_SIZE, top)
  }

  predicate InAllocation(base: int, a: int) {
    base <= a && a + 8 <= base + KERNEL_STACK_SIZE
  }

  /** The first word pushed lies in the stack that was allocated if and only if the step
      is by at most an eighth of the size.  For the step that the code makes it never
      does: it lies in the eighth block of that size, counted from the allocation. */
  lemma FirstWordInStackExactlyWhen(base: int, words: nat)
    requires 0 < words
    ensures InAllocation(base, WordsAfter(base, words) - 8) <==> words <= KERNEL_STACK_SIZE / 8
    ensures !InAllocation(base, UsedArea(0, base).hi - 8)
    ensures InAllocation(base + 7 * KERNEL_STACK_SIZE, UsedArea(0, base).hi - 8)
  {
  }

  /** Since all stacks are off by the same distance, they still do not overlap one
      another exactly when the allocations do not; runs are safe if and only if, besides
      that, no context lies in the memory that is used instead. */
  lemma UsedAreasOkExactlyWhen(ctxs: seq<int>, bases: seq<int>)
    requires |ctxs| == |bases|
    ensures var n := |ctxs|;
      var size := KERNEL_STACK_SIZE;
      AreasOk(seq(n, i requires 0 <= i < n => UsedArea(ctxs[i], bases[i]))) <==>
        && (forall i, j :: 0 <= i < j < n ==> Apart(ctxs[i], ctxs[i] + 64, ctxs[j], ctxs[j] + 64))
        && (forall i, j :: 0 <= i < j < n ==> Apart(bases[i], bases[i] + size, bases[j], bases[j] + size))
        && (forall i, j :: 0 <= i < n && 0 <= j < n ==>
              Apart(ctxs[i], ctxs[i] + 64, bases[j] + 7 * size, bases[j] + 8 * size))
  {
    var n := |ctxs|;
    var size := KERNEL_STACK_SIZE;
    var areas := seq(n, i requires 0 <= i < n => UsedArea(ctxs[i], bases[i]));
    forall i, j | 0 <= i < n && 0 <= j < n
      ensures Apart(areas[i].lo, areas[i].hi, areas[j].lo, areas[j].hi)
          <==> Apart(bases[i], bases[i] + size, bases[j], bases[j] + size)
      ensures Apart(areas[i].ctx, areas[i].ctx + 64, areas[j].lo, areas[j].hi)
          <==> Apart(ctxs[i], ctxs[i] + 64, bases[j] + 7 * size, bases[j] + 8 * size)
    {
    }
  }

  /** Spawning with the memory that the code uses keeps the invariant, under that
      condition on everything that exists already. */
  lemma CodeSpawnKeepsInv(s: System, ctx: int, base: int, entry: int)
    requires Inv(s) && AreasOk(s.areas + [UsedArea(ctx, base)]) && entry != LABEL2
    ensures Inv(Next(s, Spawn(UsedArea(ctx, base), entry)))
    ensures ReadWord(Next(s, Spawn(UsedArea(ctx, base), entry)).cpu.mem, ctx + 0x30)
         == WordsAfter(base, KERNEL_STACK_SIZE) - 8
  {
    hide Waiting, AreasOk;
    SpawnKeepsInv(s, UsedArea(ctx, base), entry);
  }
}
