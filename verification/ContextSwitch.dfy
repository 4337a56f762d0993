/** `switch_inner`: the words it saves and restores, and where one switch leaves the two
    tasks. */
module ContextSwitch {
  import opened X86

  /** The address behind the switching code, where a resumed task goes on. */
  const LABEL2 := 0x2222

  /** A register and the offset of its word in a task's context. */
  datatype Slot = Slot(off: int, r: Reg)

  /** The stores, in order; `rax` holds the flags. */
  const SAVES: seq<Slot> :=
    [Slot(0x38, Rax), Slot(0x0, Rbx), Slot(0x8, Rbp), Slot(0x10, R12),
     Slot(0x18, R13), Slot(0x20, R14), Slot(0x28, R15), Slot(0x30, Rsp)]

  /** The loads, in order. */
  const LOADS: seq<Slot> :=
    [Slot(0x0, Rbx), Slot(0x8, Rbp), Slot(0x10, R12), Slot(0x18, R13),
     Slot(0x20, R14), Slot(0x28, R15), Slot(0x30, Rsp), Slot(0x38, Rax)]

  function Stores(slots: seq<Slot>): seq<Instr> {
    seq(|slots|, i requires 0 <= i < |slots| => Store(Rdi, slots[i].off, slots[i].r))
  }

  function Loads(slots: seq<Slot>): seq<Instr> {
    seq(|slots|, i requires 0 <= i < |slots| => Load(slots[i].r, Rsi, slots[i].off))
  }

  function SaveCode(): seq<Instr> {
    [Lea(Rax, LABEL2), Push(Rax), Pushf, Pop(Rax)] + Stores(SAVES)
  }

  function LoadCode(): seq<Instr> {
    Loads(LOADS) + [Push(Rax), Popf, Ret]
  }

  /** The whole routine; a return to `LABEL2` meets one more `ret` there. */
  function SwitchInner(c: Cpu): Cpu {
    var c1 := Run(Run(c, SaveCode()), LoadCode());
    if c1.rip == LABEL2 then Exec(c1, Ret) else c1
  }

  /** What a task has when it runs on: where, with which stack pointer, registers that
      calls preserve, and flags. */
  datatype Point = Point(
    rip: int, rsp: int, rbx: int, rbp: int, r12: int, r13: int, r14: int, r15: int, flags: int)

  function PointOf(c: Cpu): Point {
    Point(c.rip, c.Get(Rsp), c.Get(Rbx), c.Get(Rbp), c.Get(R12), c.Get(R13), c.Get(R14), c.Get(R15), c.flags)
  }

  /** Where the caller of `switch_inner` expects to go on. */
  function CallSite(c: Cpu): Point {
    PointOf(c).(rip := c.Read(c.Get(Rsp)), rsp := c.Get(Rsp) + 8)
  }

  /** The eight words of a context at `base`. */
  function ContextAt(mem: Words, base: int): Point {
    Point(0, ReadWord(mem, base + 0x30), ReadWord(mem, base + 0x0), ReadWord(mem, base + 0x8),
          ReadWord(mem, base + 0x10), ReadWord(mem, base + 0x18), ReadWord(mem, base + 0x20),
          ReadWord(mem, base + 0x28), ReadWord(mem, base + 0x38))
  }

  // ----- one switch -----

  ghost predicate DistinctOffsets(slots: seq<Slot>) {
    forall j, k :: 0 <= j < k < |slots| ==> slots[j].off != slots[k].off
  }

  ghost predicate DistinctRegs(slots: seq<Slot>) {
    forall j, k :: 0 <= j < k < |slots| ==> slots[j].r != slots[k].r
  }

  lemma RunLast(c: Cpu, code: seq<Instr>, i: Instr)
    ensures Run(c, code + [i]) == Exec(Run(c, code), i)
  {
    hide Exec;
    RunAppend(c, code, [i]);
    assert [i][1..] == [];
  }

  /** Stores put every register into its word and change nothing outside the context. */
  lemma {:induction false} StoresStore(c: Cpu, slots: seq<Slot>)
    requires DistinctOffsets(slots) && forall k :: 0 <= k < |slots| ==> 0 <= slots[k].off < 64
    ensures var c' := Run(c, Stores(slots));
      var base := c.Get(Rdi);
      && c'.regs == c.regs && c'.flags == c.flags && c'.rip == c.rip
      && (forall k :: 0 <= k < |slots| ==> c'.Read(base + slots[k].off) == c.Get(slots[k].r))
      && (forall a :: !(base <= a < base + 64) ==> c'.Read(a) == c.Read(a))
    decreases |slots|
  {
    if slots != [] {
      hide Run;
      var n := |slots| - 1;
      StoresStore(c, slots[..n]);
      assert Stores(slots) == Stores(slots[..n]) + [Store(Rdi, slots[n].off, slots[n].r)];
      RunLast(c, Stores(slots[..n]), Store(Rdi, slots[n].off, slots[n].r));
    }
  }

  /** Loads put every word into its register and change nothing else. */
  lemma {:induction false} LoadsLoad(c: Cpu, slots: seq<Slot>)
    requires DistinctRegs(slots) && forall k :: 0 <= k < |slots| ==> slots[k].r != Rsi
    ensures var c' := Run(c, Loads(slots));
      var base := c.Get(Rsi);
      && c'.mem == c.mem && c'.flags == c.flags && c'.rip == c.rip && c'.Get(Rsi) == base
      && (forall k :: 0 <= k < |slots| ==> c'.Get(slots[k].r) == c.Read(base + slots[k].off))
    decreases |slots|
  {
    if slots != [] {
      hide Run;
      var n := |slots| - 1;
      LoadsLoad(c, slots[..n]);
      assert Loads(slots) == Loads(slots[..n]) + [Load(slots[n].r, Rsi, slots[n].off)];
      RunLast(c, Loads(slots[..n]), Load(slots[n].r, Rsi, slots[n].off));
    }
  }

  lemma SlotsDistinct()
    ensures DistinctOffsets(SAVES) && forall k :: 0 <= k < |SAVES| ==> 0 <= SAVES[k].off < 64
    ensures DistinctRegs(LOADS) && forall k :: 0 <= k < |LOADS| ==> LOADS[k].r != Rsi
  {
  }

  /** The stack after the address behind the switch has been pushed; `rax` has the
      flags. */
  lemma HeadPushes(c: Cpu)
    ensures var c' := Run(c, [Lea(Rax, LABEL2), Push(Rax), Pushf, Pop(Rax)]);
      var sp := c.Get(Rsp);
      && c'.Get(Rsp) == sp - 8 && c'.Get(Rax) == c.flags && c'.flags == c.flags
      && (forall r :: r != Rsp && r != Rax ==> c'.Get(r) == c.Get(r))
      && c'.Read(sp - 8) == LABEL2
      && (forall a :: !(sp - 16 <= a < sp) ==> c'.Read(a) == c.Read(a))
  {
    hide Run, Exec;
    HeadEffect(c);
    var code := [Lea(Rax, LABEL2), Push(Rax), Pushf];
    assert [Lea(Rax, LABEL2), Push(Rax)] == [Lea(Rax, LABEL2)] + [Push(Rax)];
    assert code == [Lea(Rax, LABEL2), Push(Rax)] + [Pushf];
    assert code + [Pop(Rax)] == [Lea(Rax, LABEL2), Push(Rax), Pushf, Pop(Rax)];
    RunNone(c);
    assert [Lea(Rax, LABEL2)] == [] + [Lea(Rax, LABEL2)];
    RunLast(c, [], Lea(Rax, LABEL2));
    RunLast(c, [Lea(Rax, LABEL2)], Push(Rax));
    RunLast(c, [Lea(Rax, LABEL2), Push(Rax)], Pushf);
    RunLast(c, code, Pop(Rax));
  }

  lemma HeadEffect(c: Cpu)
    ensures var c' := Exec(Exec(Exec(Exec(c, Lea(Rax, LABEL2)), Push(Rax)), Pushf), Pop(Rax));
      var sp := c.Get(Rsp);
      && c'.Get(Rsp) == sp - 8 && c'.Get(Rax) == c.flags && c'.flags == c.flags
      && (forall r :: r != Rsp && r != Rax ==> c'.Get(r) == c.Get(r))
      && c'.Read(sp - 8) == LABEL2
      && (forall a :: !(sp - 16 <= a < sp) ==> c'.Read(a) == c.Read(a))
  {
  }

  lemma RunNone(c: Cpu)
    ensures Run(c, []) == c
  {
  }

  /** Words that a switch away from `c` does not write. */
  predicate Untouched(c: Cpu, a: int) {
    !(c.Get(Rsp) - 16 <= a < c.Get(Rsp)) && !(c.Get(Rdi) <= a < c.Get(Rdi) + 64)
  }

  lemma StoresContext(c: Cpu)
    ensures var c' := Run(c, Stores(SAVES));
      var base := c.Get(Rdi);
      && c'.regs == c.regs
      && ContextAt(c'.mem, base)
           == Point(0, c.Get(Rsp), c.Get(Rbx), c.Get(Rbp), c.Get(R12), c.Get(R13), c.Get(R14), c.Get(R15), c.Get(Rax))
      && (forall a :: !(base <= a < base + 64) ==> c'.Read(a) == c.Read(a))
  {
    hide Run, Stores, ContextAt, DistinctOffsets, DistinctRegs;
    SlotsDistinct();
    StoresStore(c, SAVES);
    SavedWords(Run(c, Stores(SAVES)), c.Get(Rdi), c);
  }

  lemma SaveStores(c: Cpu)
    requires c.Get(Rdi) + 64 <= c.Get(Rsp) - 16 || c.Get(Rsp) <= c.Get(Rdi)
    ensures var c' := Run(c, SaveCode());
      && c'.Get(Rsi) == c.Get(Rsi)
      && ContextAt(c'.mem, c.Get(Rdi)) == PointOf(c).(rip := 0, rsp := c.Get(Rsp) - 8)
      && c'.Read(c.Get(Rsp) - 8) == LABEL2
      && (forall a :: Untouched(c, a) ==> c'.Read(a) == c.Read(a))
  {
    hide Run, Exec, Stores, ContextAt;
    var head := [Lea(Rax, LABEL2), Push(Rax), Pushf, Pop(Rax)];
    RunAppend(c, head, Stores(SAVES));
    HeadPushes(c);
    var c1 := Run(c, head);
    StoresContext(c1);
    assert Run(c, SaveCode()).Get(Rsi) == c1.Get(Rsi);
  }

  lemma SavedWords(c': Cpu, base: int, c1: Cpu)
    requires forall k :: 0 <= k < |SAVES| ==> c'.Read(base + SAVES[k].off) == c1.Get(SAVES[k].r)
    ensures ContextAt(c'.mem, base)
         == Point(0, c1.Get(Rsp), c1.Get(Rbx), c1.Get(Rbp), c1.Get(R12), c1.Get(R13), c1.Get(R14), c1.Get(R15), c1.Get(Rax))
  {
    assert SAVES[0] == Slot(0x38, Rax) && SAVES[1] == Slot(0x0, Rbx) && SAVES[2] == Slot(0x8, Rbp);
    assert SAVES[3] == Slot(0x10, R12) && SAVES[4] == Slot(0x18, R13) && SAVES[5] == Slot(0x20, R14);
    assert SAVES[6] == Slot(0x28, R15) && SAVES[7] == Slot(0x30, Rsp);
  }

  lemma LoadedRegs(c': Cpu, base: int, c: Cpu)
    requires forall k :: 0 <= k < |LOADS| ==> c'.Get(LOADS[k].r) == c.Read(base + LOADS[k].off)
    ensures ContextAt(c.mem, base)
         == Point(0, c'.Get(Rsp), c'.Get(Rbx), c'.Get(Rbp), c'.Get(R12), c'.Get(R13), c'.Get(R14), c'.Get(R15), c'.Get(Rax))
  {
    assert LOADS[0] == Slot(0x0, Rbx) && LOADS[1] == Slot(0x8, Rbp) && LOADS[2] == Slot(0x10, R12);
    assert LOADS[3] == Slot(0x18, R13) && LOADS[4] == Slot(0x20, R14) && LOADS[5] == Slot(0x28, R15);
    assert LOADS[6] == Slot(0x30, Rsp) && LOADS[7] == Slot(0x38, Rax);
  }

  /** The tail of the routine: flags through the stack, then return. */
  lemma TailReturns(c: Cpu)
    ensures var c' := Exec(Exec(Exec(c, Push(Rax)), Popf), Ret);
      var sp := c.Get(Rsp);
      && c'.Get(Rsp) == sp + 8 && c'.flags == c.Get(Rax) && c'.rip == c.Read(sp)
      && (forall r :: r != Rsp ==> c'.Get(r) == c.Get(r))
      && (forall a :: a != sp - 8 ==> c'.Read(a) == c.Read(a))
  {
  }

  /** The load half: the next task's registers, and a return on its stack. */
  lemma LoadReturns(c: Cpu)
    ensures var c' := Run(c, LoadCode());
      var p := ContextAt(c.mem, c.Get(Rsi));
      && PointOf(c') == p.(rip := c.Read(p.rsp), rsp := p.rsp + 8)
      && (forall a :: a != p.rsp - 8 ==> c'.Read(a) == c.Read(a))
  {
    hide Run, Exec, Loads, ContextAt, DistinctOffsets, DistinctRegs;
    SlotsDistinct();
    LoadsLoad(c, LOADS);
    var c1 := Run(c, Loads(LOADS));
    LoadedRegs(c1, c.Get(Rsi), c);
    TailReturns(c1);
    var l := Loads(LOADS);
    assert LoadCode() == ((l + [Push(Rax)]) + [Popf]) + [Ret];
    RunLast(c, l, Push(Rax));
    RunLast(c, l + [Push(Rax)], Popf);
    RunLast(c, (l + [Push(Rax)]) + [Popf], Ret);
  }

  // ----- tasks -----

  /** The memory of a task: its context of 64 bytes and its kernel stack. */
  datatype Area = Area(ctx: int, lo: int, hi: int)

  predicate InContext(x: Area, a: int) {
    x.ctx <= a < x.ctx + 64
  }

  predicate InStack(x: Area, a: int) {
    x.lo <= a < x.hi
  }

  predicate Apart(lo: int, hi: int, lo': int, hi': int) {
    hi <= lo' || hi' <= lo
  }

  /** No context and no stack overlaps another. */
  ghost predicate AreasOk(areas: seq<Area>) {
    && (forall i, j :: 0 <= i < |areas| && 0 <= j < |areas| ==>
          Apart(areas[i].ctx, areas[i].ctx + 64, areas[j].lo, areas[j].hi))
    && (forall i, j :: 0 <= i < j < |areas| ==>
          && Apart(areas[i].ctx, areas[i].ctx + 64, areas[j].ctx, areas[j].ctx + 64)
          && Apart(areas[i].lo, areas[i].hi, areas[j].lo, areas[j].hi))
  }

  /** A task that does not run and will go on at `p`: its context holds the registers,
      and its saved stack pointer points at `LABEL2` below the return address, or, if
      it never ran, at the address of its entry function. */
  predicate Waiting(mem: Words, x: Area, p: Point) {
    var n := ReadWord(mem, x.ctx + 0x30);
    && x.lo + 8 <= n
    && ContextAt(mem, x.ctx) == p.(rip := 0, rsp := n)
    && if ReadWord(mem, n) == LABEL2 then
         ReadWord(mem, n + 8) == p.rip && p.rsp == n + 16 && n + 16 <= x.hi
       else
         ReadWord(mem, n) == p.rip && p.rsp == n + 8 && n + 8 <= x.hi
  }

  lemma WaitingKept(mem: Words, mem': Words, x: Area, p: Point)
    requires Waiting(mem, x, p)
    requires forall a :: InContext(x, a) || InStack(x, a) ==> ReadWord(mem', a) == ReadWord(mem, a)
    ensures Waiting(mem', x, p)
  {
  }

  /** The half that saves: whoever is left waits behind its call. */
  lemma SaveWaits(c: Cpu, from: Area)
    requires c.Get(Rdi) == from.ctx && Apart(from.ctx, from.ctx + 64, from.lo, from.hi)
    requires from.lo + 16 <= c.Get(Rsp) && c.Get(Rsp) + 8 <= from.hi
    ensures var c' := Run(c, SaveCode());
      && c'.Get(Rsi) == c.Get(Rsi) && Waiting(c'.mem, from, CallSite(c))
      && (forall a :: !InContext(from, a) && !InStack(from, a) ==> ReadWord(c'.mem, a) == ReadWord(c.mem, a))
  {
    hide Run, SaveCode;
    SaveStores(c);
    var c' := Run(c, SaveCode());
    assert c'.Read(from.ctx + 0x30) == c.Get(Rsp) - 8;
    assert c'.Read(c.Get(Rsp)) == c.Read(c.Get(Rsp));
    forall a | !InContext(from, a) && !InStack(from, a)
      ensures ReadWord(c'.mem, a) == ReadWord(c.mem, a)
    {
      assert c'.Read(a) == c.Read(a);
    }
  }

  /** The half that loads: the next task goes on where it waits. */
  lemma LoadResumes(c: Cpu, to: Area, p: Point)
    requires c.Get(Rsi) == to.ctx && Waiting(c.mem, to, p)
    ensures var c1 := Run(c, LoadCode());
      var c' := if c1.rip == LABEL2 then Exec(c1, Ret) else c1;
      && PointOf(c') == p
      && (forall a :: !InStack(to, a) ==> ReadWord(c'.mem, a) == ReadWord(c.mem, a))
  {
    hide Run, LoadCode;
    LoadReturns(c);
    var c1 := Run(c, LoadCode());
    forall a | !InStack(to, a)
      ensures ReadWord(c1.mem, a) == ReadWord(c.mem, a)
    {
      assert c1.Read(a) == c.Read(a);
    }
  }

  /** One switch: the next task goes on exactly where it is to, and the one that is
      left waits to go on behind its call, with the registers it has now. */
  lemma SwitchResumes(c: Cpu, from: Area, to: Area, p: Point)
    requires c.Get(Rdi) == from.ctx && c.Get(Rsi) == to.ctx
    requires from.lo + 16 <= c.Get(Rsp) && c.Get(Rsp) + 8 <= from.hi
    requires AreasOk([from, to]) && Waiting(c.mem, to, p)
    ensures var c' := SwitchInner(c);
      && PointOf(c') == p
      && Waiting(c'.mem, from, CallSite(c))
      && (forall a :: !InContext(from, a) && !InStack(from, a) && !InStack(to, a) ==> ReadWord(c'.mem, a) == ReadWord(c.mem, a))
  {
    TwoAreas(from, to);
    hide Run, SaveCode, LoadCode, AreasOk, Waiting, Exec, PointOf, CallSite;
    SaveWaits(c, from);
    var c1 := Run(c, SaveCode());
    WaitingKept(c.mem, c1.mem, to, p);
    LoadResumes(c1, to, p);
    WaitingKept(c1.mem, SwitchInner(c).mem, from, CallSite(c));
  }

  lemma TwoAreas(x: Area, y: Area)
    requires AreasOk([x, y])
    ensures Apart(x.ctx, x.ctx + 64, x.lo, x.hi) && Apart(x.ctx, x.ctx + 64, y.lo, y.hi)
    ensures Apart(y.ctx, y.ctx + 64, x.lo, x.hi) && Apart(y.ctx, y.ctx + 64, y.lo, y.hi)
    ensures Apart(x.ctx, x.ctx + 64, y.ctx, y.ctx + 64) && Apart(x.lo, x.hi, y.lo, y.hi)
  {
    var s := [x, y];
    assert s[0] == x && s[1] == y;
  }
}
