/** The common interrupt entry: save all registers, call the handler on an aligned
    stack, restore all registers. */
module Interrupt {
  import opened X86
  import Bits

  /** The order of the pushes. */
  const SAVED: seq<Reg> :=
    [R15, R14, R13, R12, R11, R10, R9, R8, Rdi, Rsi, Rbp, Rsp, Rbx, Rdx, Rcx, Rax]

  function Pushes(rs: seq<Reg>): seq<Instr> {
    seq(|rs|, i requires 0 <= i < |rs| => Push(rs[i]))
  }

  /** The pops that answer these pushes, last first. */
  function Pops(rs: seq<Reg>): seq<Instr> {
    seq(|rs|, i requires 0 <= i < |rs| => Pop(rs[|rs| - 1 - i]))
  }

  /** From the pushes to the call of the handler. */
  function Entry(): seq<Instr> {
    Pushes(SAVED) + [Push(Rsp), Pop(Rdi), Push(Rsp), PushTop, AlignRsp]
  }

  /** From the handler's return to the call of the scheduler. */
  function Exit(): seq<Instr> {
    [Load(Rsp, Rsp, 8)] + Pops(SAVED) + [AddRsp(0x10)]
  }

  /** The value that pushing register `rs[k]` stores, when the stack pointer was `sp`
      before the first push. */
  function Pushed(c: Cpu, rs: seq<Reg>, k: nat): int
    requires k < |rs|
  {
    if rs[k] == Rsp then c.Get(Rsp) - 8 * k else c.Get(rs[k])
  }

  /** All the pushes: each register lies in its slot, nothing else has changed. */
  lemma {:induction false} PushesStore(c: Cpu, rs: seq<Reg>)
    ensures var c' := Run(c, Pushes(rs));
      var sp := c.Get(Rsp);
      && c'.Get(Rsp) == sp - 8 * |rs|
      && (forall r :: r != Rsp ==> c'.Get(r) == c.Get(r))
      && (forall k :: 0 <= k < |rs| ==> c'.Read(sp - 8 * (k + 1)) == Pushed(c, rs, k))
      && (forall a :: a >= sp ==> c'.Read(a) == c.Read(a))
    decreases |rs|
  {
    if rs != [] {
      var c1 := Exec(c, Push(rs[0]));
      assert Pushes(rs)[1..] == Pushes(rs[1..]);
      PushesStore(c1, rs[1..]);
      var c', sp := Run(c, Pushes(rs)), c.Get(Rsp);
      forall k | 0 <= k < |rs|
        ensures c'.Read(sp - 8 * (k + 1)) == Pushed(c, rs, k)
      {
        if k > 0 {
          assert c'.Read(sp - 8 - 8 * k) == Pushed(c1, rs[1..], k - 1);
        }
      }
    }
  }

  /** The pops find every register where the pushes put it; popping the stack pointer
      itself leaves it at the next slot. */
  lemma {:induction false} PopsRestore(c: Cpu, rs: seq<Reg>, orig: Cpu)
    requires c.Get(Rsp) == orig.Get(Rsp) - 8 * |rs|
    requires forall k :: 0 <= k < |rs| ==> c.Read(orig.Get(Rsp) - 8 * (k + 1)) == Pushed(orig, rs, k)
    ensures var c' := Run(c, Pops(rs));
      && c'.Get(Rsp) == orig.Get(Rsp) && c'.mem == c.mem
      && (forall r :: r != Rsp ==> c'.Get(r) == if r in rs then orig.Get(r) else c.Get(r))
    decreases |rs|
  {
    if rs != [] {
      var k := |rs| - 1;
      var c1 := Exec(c, Pop(rs[k]));
      assert Pops(rs)[1..] == Pops(rs[..k]);
      assert c.Read(orig.Get(Rsp) - 8 * (k + 1)) == Pushed(orig, rs, k);
      forall j | 0 <= j < k
        ensures c1.Read(orig.Get(Rsp) - 8 * (j + 1)) == Pushed(orig, rs[..k], j)
      {
        assert c.Read(orig.Get(Rsp) - 8 * (j + 1)) == Pushed(orig, rs, j);
      }
      PopsRestore(c1, rs[..k], orig);
      assert rs == rs[..k] + [rs[k]];
    }
  }

  /** The mask rounds the stack pointer down to a multiple of 16. */
  lemma MaskAligns(sp: int)
    ensures Masked(sp) == sp - sp % 16
  {
    hide Bits.And, Bits.Pow2;
    Bits.Pow2Values();
    if 0 <= sp < Bits.WORD {
      Bits.AndClears(sp, 4, 64);
    }
  }

  /** The frame that the handler gets a pointer to: the saved registers in its words,
      then what the entry stub and the hardware pushed. */
  ghost predicate FrameAt(mem: Words, frame: int, c: Cpu) {
    && (forall k :: 0 <= k < 16 ==> ReadWord(mem, frame + 8 * (15 - k)) == Pushed(c, SAVED, k))
    && (forall a :: a >= frame + 128 ==> ReadWord(mem, a) == c.Read(a))
  }

  /** `push rsp; pop rdi` copies the stack pointer. */
  lemma CopyRsp(c: Cpu)
    ensures var c' := Exec(Exec(c, Push(Rsp)), Pop(Rdi));
      && c'.Get(Rsp) == c.Get(Rsp) && c'.Get(Rdi) == c.Get(Rsp)
      && (forall r :: r != Rsp && r != Rdi ==> c'.Get(r) == c.Get(r))
      && (forall a :: a >= c.Get(Rsp) ==> c'.Read(a) == c.Read(a))
  {
  }

  /** `push rsp; push [rsp]` leaves the stack pointer twice below itself, so that one
      copy is 8 bytes above the aligned stack pointer in either case. */
  lemma PushTwice(c: Cpu)
    ensures var c' := Exec(Exec(c, Push(Rsp)), PushTop);
      var sp := c.Get(Rsp);
      && c'.Get(Rsp) == sp - 16 && c'.Read(sp - 8) == sp && c'.Read(sp - 16) == sp
      && (forall r :: r != Rsp ==> c'.Get(r) == c.Get(r))
      && (forall a :: a >= sp ==> c'.Read(a) == c.Read(a))
  {
  }

  lemma AlignTail(c: Cpu)
    requires c.Get(Rsp) % 8 == 0
    ensures var c' := Run(c, [Push(Rsp), Pop(Rdi), Push(Rsp), PushTop, AlignRsp]);
      var sp := c.Get(Rsp);
      && c'.Get(Rsp) % 16 == 0 && sp - 24 <= c'.Get(Rsp) <= sp - 16
      && c'.Get(Rdi) == sp && c'.Read(c'.Get(Rsp) + 8) == sp
      && (forall r :: r != Rsp && r != Rdi ==> c'.Get(r) == c.Get(r))
      && (forall a :: a >= sp ==> c'.Read(a) == c.Read(a))
  {
    hide Run, Exec;
    Run5(c, Push(Rsp), Pop(Rdi), Push(Rsp), PushTop, AlignRsp);
    CopyRsp(c);
    var c2 := Exec(Exec(c, Push(Rsp)), Pop(Rdi));
    PushTwice(c2);
    var c4 := Exec(Exec(c2, Push(Rsp)), PushTop);
    Aligns(c4);
  }

  lemma Aligns(c: Cpu)
    requires c.Get(Rsp) % 8 == 0
    ensures var c' := Exec(c, AlignRsp);
      && c'.Get(Rsp) % 16 == 0 && (c'.Get(Rsp) == c.Get(Rsp) || c'.Get(Rsp) == c.Get(Rsp) - 8)
      && c'.mem == c.mem && (forall r :: r != Rsp ==> c'.Get(r) == c.Get(r))
  {
    hide Masked;
    MaskAligns(c.Get(Rsp));
    AlignsDown(c.Get(Rsp));
  }

  lemma AlignsDown(sp: int)
    requires sp % 8 == 0
    ensures (sp - sp % 16) % 16 == 0 && (sp % 16 == 0 || sp % 16 == 8)
  {
    var j := sp / 8 / 2;
    if sp / 8 % 2 == 0 {
      RemainderOf16(sp, j, 0);
    } else {
      RemainderOf16(sp, j, 8);
      RemainderOf16(sp - 8, j, 0);
    }
  }

  lemma RemainderOf16(sp: int, j: int, r: int)
    requires sp == 16 * j + r && 0 <= r < 16
    ensures sp % 16 == r
  {
  }

  lemma RunStep(c: Cpu, i: Instr, rest: seq<Instr>)
    ensures Run(c, [i] + rest) == Run(Exec(c, i), rest)
  {
    hide Exec;
    assert ([i] + rest)[1..] == rest;
  }

  lemma Run5(c: Cpu, a: Instr, b: Instr, d: Instr, e: Instr, f: Instr)
    ensures Run(c, [a, b, d, e, f]) == Exec(Exec(Exec(Exec(Exec(c, a), b), d), e), f)
  {
    hide Exec, Run;
    assert [a, b, d, e, f] == [a] + [b, d, e, f];
    RunStep(c, a, [b, d, e, f]);
    assert [b, d, e, f] == [b] + [d, e, f];
    RunStep(Exec(c, a), b, [d, e, f]);
    var c2 := Exec(Exec(c, a), b);
    assert [d, e, f] == [d] + [e, f];
    RunStep(c2, d, [e, f]);
    assert [e, f] == [e] + [f];
    RunStep(Exec(c2, d), e, [f]);
    RunOne(Exec(Exec(c2, d), e), f);
  }

  /** The handler is called with a pointer to the complete frame, on a stack that is
      aligned to 16 bytes, whatever multiple of 8 the stack pointer was. */
  lemma HandlerCallIsAligned(c: Cpu)
    requires c.Get(Rsp) % 8 == 0
    ensures var c' := Run(c, Entry());
      && c'.Get(Rsp) % 16 == 0 && c'.Get(Rsp) < c'.Get(Rdi)
      && c'.Get(Rdi) == c.Get(Rsp) - 128 && FrameAt(c'.mem, c'.Get(Rdi), c)
      && c'.Read(c'.Get(Rsp) + 8) == c'.Get(Rdi)
  {
    hide Run, Exec;
    var tail := [Push(Rsp), Pop(Rdi), Push(Rsp), PushTop, AlignRsp];
    RunAppend(c, Pushes(SAVED), tail);
    PushesStore(c, SAVED);
    var c1 := Run(c, Pushes(SAVED));
    AlignTail(c1);
    var c' := Run(c, Entry());
    forall k | 0 <= k < 16
      ensures c'.Read(c'.Get(Rdi) + 8 * (15 - k)) == Pushed(c, SAVED, k)
    {
      assert c1.Read(c.Get(Rsp) - 8 * (k + 1)) == Pushed(c, SAVED, k);
    }
  }

  // ----- the frame as the handler's struct reads it -----

  /** The order of the fields of `InterruptRegisters`. */
  const FIELDS: seq<Reg> :=
    [Rax, Rbx, Rcx, Rdx, Rsi, Rdi, Rbp, Rsp, R8, R9, R10, R11, R12, R13, R14, R15]

  /** The value that the pushes store for register `r`. */
  function Saved(c: Cpu, r: Reg): int {
    if r == Rsp then c.Get(Rsp) - 88 else c.Get(r)
  }

  /** The struct and the pushes agree on the first field and on the last eight. */
  lemma SameOrderExactlyWhen(i: nat)
    requires i < 16
    ensures FIELDS[i] == SAVED[15 - i] <==> i == 0 || 8 <= i
  {
    if 8 <= i {
      assert FIELDS[8..] == [R8, R9, R10, R11, R12, R13, R14, R15];
      assert SAVED[..8] == [R15, R14, R13, R12, R11, R10, R9, R8];
      assert FIELDS[i] == FIELDS[8..][i - 8] && SAVED[15 - i] == SAVED[..8][15 - i];
    }
  }

  lemma PushedIsSaved(c: Cpu, k: nat)
    requires k < 16
    ensures Pushed(c, SAVED, k) == Saved(c, SAVED[k])
  {
  }

  /** Field `i` reads the register it is named after if and only if it is the first or
      one of the last eight, or the register pushed there holds the same value. */
  lemma FieldIsRightExactlyWhen(c: Cpu, i: nat)
    requires c.Get(Rsp) % 8 == 0 && i < 16
    ensures var c' := Run(c, Entry());
      c'.Read(c'.Get(Rdi) + 8 * i) == Saved(c, FIELDS[i]) <==>
      i == 0 || 8 <= i || Saved(c, FIELDS[i]) == Saved(c, SAVED[15 - i])
  {
    hide Run, Entry, Pushed, Saved;
    HandlerCallIsAligned(c);
    var c', k := Run(c, Entry()), 15 - i;
    assert c'.Read(c'.Get(Rdi) + 8 * (15 - k)) == Pushed(c, SAVED, k);
    PushedIsSaved(c, k);
    SameOrderExactlyWhen(i);
  }

  /** With 1 in `rbx` and 2 in `rcx`, the field `rbx` reads 2. */
  lemma RbxReadsRcx()
    ensures var c := Cpu(map[Rbx := 1, Rcx := 2, Rsp := 0x1000], 0, 0, map[]);
      var c' := Run(c, Entry());
      FIELDS[1] == Rbx && c.Get(Rbx) == 1 && c'.Read(c'.Get(Rdi) + 8 * 1) == 2
  {
    hide Run, Entry, Pushed;
    var c := Cpu(map[Rbx := 1, Rcx := 2, Rsp := 0x1000], 0, 0, map[]);
    HandlerCallIsAligned(c);
    var c', k := Run(c, Entry()), 14;
    assert c'.Read(c'.Get(Rdi) + 8 * (15 - k)) == Pushed(c, SAVED, k);
    PushedIsSaved(c, k);
  }

  /** The entry of one vector: a zero where the hardware pushes no error code, and the
      vector. */
  function Stub(vector: int, hasCode: bool): seq<Instr> {
    if hasCode then [PushImm(vector)] else [PushImm(0), PushImm(vector)]
  }

  lemma StubPushes(c: Cpu, vector: int, hasCode: bool)
    ensures var c' := Run(c, Stub(vector, hasCode));
      var sp := c'.Get(Rsp);
      && sp == c.Get(Rsp) - (if hasCode then 8 else 16)
      && c'.Read(sp) == vector && c'.Read(sp + 8) == (if hasCode then c.Read(c.Get(Rsp)) else 0)
      && (forall a :: a >= sp + 16 ==> c'.Read(a) == c.Read(a))
  {
    if !hasCode {
      RunStep(c, PushImm(0), [PushImm(vector)]);
      assert [PushImm(0)] + [PushImm(vector)] == Stub(vector, hasCode);
    }
    RunOne(if hasCode then c else Exec(c, PushImm(0)), PushImm(vector));
  }

  /** Whatever the order of the registers, the handler finds the vector, the error code
      and the five words of the hardware where the struct has them. */
  lemma HandlerSeesItsVector(c: Cpu, vector: int, hasCode: bool)
    requires c.Get(Rsp) % 8 == 0
    ensures var c' := Run(c, Stub(vector, hasCode) + Entry());
      var frame := c'.Get(Rdi);
      var context := c.Get(Rsp) + if hasCode then 8 else 0;
      && c'.Read(frame + 128) == vector
      && c'.Read(frame + 136) == (if hasCode then c.Read(c.Get(Rsp)) else 0)
      && (forall k :: 0 <= k < 5 ==> c'.Read(frame + 144 + 8 * k) == c.Read(context + 8 * k))
  {
    hide Run, Entry, Stub, Pushed;
    RunAppend(c, Stub(vector, hasCode), Entry());
    StubPushes(c, vector, hasCode);
    var c1 := Run(c, Stub(vector, hasCode));
    HandlerCallIsAligned(c1);
    var c' := Run(c1, Entry());
    forall a | a >= c1.Get(Rsp)
      ensures c'.Read(a) == c1.Read(a)
    {
      assert ReadWord(c'.mem, a) == c1.Read(a);
    }
  }

  // ----- back from the handler -----

  /** After any handler that comes back to the same stack pointer and leaves the stack
      above it alone, all registers are as they were before the interrupt, and the
      stack pointer is past the vector and the error code. */
  lemma InterruptRestoresRegisters(c: Cpu, h: Cpu)
    requires c.Get(Rsp) % 8 == 0
    requires var c' := Run(c, Entry());
      h.Get(Rsp) == c'.Get(Rsp) && forall a :: a >= c'.Get(Rsp) ==> h.Read(a) == c'.Read(a)
    ensures var c'' := Run(h, Exit());
      && (forall r :: r != Rsp ==> c''.Get(r) == c.Get(r))
      && c''.Get(Rsp) == c.Get(Rsp) + 0x10 && c''.mem == h.mem
  {
    hide Entry, Run, Exec, Pops, Exit, Pushed;
    HandlerCallIsAligned(c);
    var c' := Run(c, Entry());
    var h1 := Exec(h, Load(Rsp, Rsp, 8));
    LoadsRsp(h);
    forall k | 0 <= k < 16
      ensures h1.Read(c.Get(Rsp) - 8 * (k + 1)) == Pushed(c, SAVED, k)
    {
      assert c'.Read(c'.Get(Rdi) + 8 * (15 - k)) == Pushed(c, SAVED, k);
    }
    PopsRestore(h1, SAVED, c);
    forall r: Reg
      ensures r in SAVED
    {
      IsSaved(r);
    }
    ExitRuns(h);
    Drops(Run(h1, Pops(SAVED)));
  }

  lemma LoadsRsp(h: Cpu)
    ensures var h' := Exec(h, Load(Rsp, Rsp, 8)); h'.Get(Rsp) == h.Read(h.Get(Rsp) + 8) && h'.mem == h.mem
  {
  }

  lemma Drops(c: Cpu)
    ensures var c' := Exec(c, AddRsp(0x10));
      c'.Get(Rsp) == c.Get(Rsp) + 0x10 && c'.mem == c.mem && forall r :: r != Rsp ==> c'.Get(r) == c.Get(r)
  {
  }

  /** Every register is saved. */
  lemma IsSaved(r: Reg)
    ensures r in SAVED
  {
    match r
    case R15 => assert SAVED[0] == r;
    case R14 => assert SAVED[1] == r;
    case R13 => assert SAVED[2] == r;
    case R12 => assert SAVED[3] == r;
    case R11 => assert SAVED[4] == r;
    case R10 => assert SAVED[5] == r;
    case R9 => assert SAVED[6] == r;
    case R8 => assert SAVED[7] == r;
    case Rdi => assert SAVED[8] == r;
    case Rsi => assert SAVED[9] == r;
    case Rbp => assert SAVED[10] == r;
    case Rsp => assert SAVED[11] == r;
    case Rbx => assert SAVED[12] == r;
    case Rdx => assert SAVED[13] == r;
    case Rcx => assert SAVED[14] == r;
    case Rax => assert SAVED[15] == r;
  }

  lemma ExitRuns(h: Cpu)
    ensures Run(h, Exit()) == Exec(Run(Exec(h, Load(Rsp, Rsp, 8)), Pops(SAVED)), AddRsp(0x10))
  {
    hide Exec;
    RunAppend(h, [Load(Rsp, Rsp, 8)] + Pops(SAVED), [AddRsp(0x10)]);
    RunAppend(h, [Load(Rsp, Rsp, 8)], Pops(SAVED));
    RunOne(h, Load(Rsp, Rsp, 8));
    RunOne(Run(h, [Load(Rsp, Rsp, 8)] + Pops(SAVED)), AddRsp(0x10));
  }

  lemma RunOne(c: Cpu, i: Instr)
    ensures Run(c, [i]) == Exec(c, i)
  {
    hide Exec;
    assert [i][1..] == [];
  }
}
