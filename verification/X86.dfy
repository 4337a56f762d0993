/** The few instructions that the kernel's assembly routines are made of.  Memory is
    a map of 8-byte words; all addresses used are multiples of 8, so that words do
    not overlap. */
module X86 {
  import Bits

  datatype Reg =
    | Rax | Rbx | Rcx | Rdx | Rsi | Rdi | Rbp | Rsp
    | R8 | R9 | R10 | R11 | R12 | R13 | R14 | R15

  type Words = map<int, int>

  /** Registers and memory not mentioned hold 0. */
  datatype Cpu = Cpu(regs: map<Reg, int>, flags: int, rip: int, mem: Words) {
    function Get(r: Reg): int {
      if r in regs then regs[r] else 0
    }

    function Set(r: Reg, x: int): Cpu {
      this.(regs := regs[r := x])
    }

    function Read(a: int): int {
      ReadWord(mem, a)
    }

    function Write(a: int, x: int): Cpu {
      this.(mem := mem[a := x])
    }
  }

  function ReadWord(mem: Words, a: int): int {
    if a in mem then mem[a] else 0
  }

  datatype Instr =
    | Push(r: Reg)
    | PushImm(x: int)
    | PushTop                          // push [rsp]
    | Pop(r: Reg)
    | Pushf
    | Popf
    | Lea(r: Reg, label_: int)
    | Store(base: Reg, off: int, r: Reg)
    | Load(r: Reg, base: Reg, off: int)
    | AlignRsp                         // and rsp, -16
    | AddRsp(k: int)
    | Ret

  const MASK: nat := 0xFFFF_FFFF_FFFF_FFF0

  /** The mask of the code on the numbers that are words.  Addresses are not cut to
      words here, so the same rounding is used for the others. */
  function Masked(sp: int): int {
    if 0 <= sp < Bits.WORD then Bits.And(sp, MASK) else sp - sp % 16
  }

  function PushWord(c: Cpu, x: int): Cpu {
    var sp := c.Get(Rsp) - 8;
    c.Write(sp, x).Set(Rsp, sp)
  }

  function Exec(c: Cpu, i: Instr): Cpu {
    var sp := c.Get(Rsp);
    match i
    case Push(r) => PushWord(c, c.Get(r))
    case PushImm(x) => PushWord(c, x)
    case PushTop => PushWord(c, c.Read(sp))
    case Pop(r) => c.Set(Rsp, sp + 8).Set(r, c.Read(sp))
    case Pushf => PushWord(c, c.flags)
    case Popf => c.Set(Rsp, sp + 8).(flags := c.Read(sp))
    case Lea(r, l) => c.Set(r, l)
    case Store(b, off, r) => c.Write(c.Get(b) + off, c.Get(r))
    case Load(r, b, off) => c.Set(r, c.Read(c.Get(b) + off))
    case AlignRsp => c.Set(Rsp, Masked(sp))
    case AddRsp(k) => c.Set(Rsp, sp + k)
    case Ret => c.Set(Rsp, sp + 8).(rip := c.Read(sp))
  }

  function Run(c: Cpu, code: seq<Instr>): Cpu
    decreases |code|
  {
    if code == [] then c else Run(Exec(c, code[0]), code[1..])
  }

  lemma {:induction false} RunAppend(c: Cpu, a: seq<Instr>, b: seq<Instr>)
    ensures Run(c, a + b) == Run(Run(c, a), b)
    decreases |a|
  {
    if a == [] {
      assert a + b == b;
    } else {
      assert (a + b)[1..] == a[1..] + b;
      RunAppend(Exec(c, a[0]), a[1..], b);
    }
  }
}
