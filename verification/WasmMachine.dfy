/** The flat stack machine: call frames with labels over one shared operand
    stack.  `Step` is one turn of the interpreter loop, and `Steps` a run of it. */
module WasmMachine {
  import opened Wrappers
  import opened WasmCode

  /** The reasons the interpreter panics. */
  datatype Panic =
    | MissingValue
    | MissingLocal
    | MissingFunc
    | MissingArgs
    | MissingEnd
    | BadDrain
    | Overflow

  datatype Res<+T> = Ok(val: T) | Fail(why: Panic)

  datatype Func = Func(params: nat, results: nat, locals: nat, body: seq<Instr>)
  type Store = seq<Func>

  datatype Label = Label(pc: nat, sp: nat, arity: nat)

  /** `pc` is the address of the instruction executed last. */
  datatype Frame = Frame(
    pc: int, sp: nat, insts: seq<Instr>, arity: nat, labels: seq<Label>, locals: seq<i32>)

  datatype State = State(stack: seq<i32>, calls: seq<Frame>)

  datatype Machine = Running(st: State) | Halted(st: State) | Panicked(why: Panic)

  // Arithmetic panics on overflow: the images that are run are debug builds.
  function Checked(x: int): Res<i32> {
    if -0x8000_0000 <= x < 0x8000_0000 then Ok(x) else Fail(Overflow)
  }

  predicate IsArith(i: Instr) {
    i.I32Lts? || i.I32Add? || i.I32Sub? || i.I32Mul?
  }

  function Arith(i: Instr, lhs: i32, rhs: i32): Res<i32>
    requires IsArith(i)
  {
    match i
    case I32Lts => Ok(if lhs < rhs then 1 else 0)
    case I32Add => Checked(lhs + rhs)
    case I32Sub => Checked(lhs - rhs)
    case I32Mul => Checked(lhs * rhs)
  }

  predicate IsSimple(i: Instr) {
    IsArith(i) || i.Const? || i.LocalGet?
  }

  /** The new operand stack after an instruction that only touches operands. */
  function Simple(i: Instr, locals: seq<i32>, stack: seq<i32>): Res<seq<i32>>
    requires IsSimple(i)
  {
    match i
    case Const(v) => Ok(stack + [v])
    case LocalGet(x) => if x < |locals| then Ok(stack + [locals[x]]) else Fail(MissingLocal)
    case _ =>
      if |stack| < 2 then Fail(MissingValue)
      else
        match Arith(i, stack[|stack| - 2], stack[|stack| - 1])
        case Ok(v) => Ok(stack[..|stack| - 2] + [v])
        case Fail(w) => Fail(w)
  }

  /** Keeps the bottom `sp` operands, and the top one when there is a result. */
  function Unwind(stack: seq<i32>, sp: nat, arity: nat): Res<seq<i32>> {
    if arity == 0 then
      if sp <= |stack| then Ok(stack[..sp]) else Fail(BadDrain)
    else if stack == [] then Fail(MissingValue)
    else if sp <= |stack| - 1 then Ok(stack[..sp] + [stack[|stack| - 1]])
    else Fail(BadDrain)
  }

  function Zeros(n: nat): (z: seq<i32>)
    ensures |z| == n && forall i :: 0 <= i < n ==> z[i] == 0
  {
    seq(n, _ => 0)
  }

  /** The arguments leave the operand stack and become the first locals. */
  function NewFrame(f: Func, stack: seq<i32>): Frame
    requires f.params <= |stack|
  {
    var bottom := |stack| - f.params;
    Frame(-1, bottom, f.body, f.results, [], stack[bottom..] + Zeros(f.locals))
  }

  function Enter(f: Func, stack: seq<i32>, calls: seq<Frame>): Machine {
    if |stack| < f.params then Panicked(MissingArgs)
    else Running(State(stack[..|stack| - f.params], calls + [NewFrame(f, stack)]))
  }

  function Resume(r: Res<seq<i32>>, calls: seq<Frame>): Machine {
    match r
    case Ok(s) => Running(State(s, calls))
    case Fail(w) => Panicked(w)
  }

  /** One instruction of frame `fr`, whose `pc` already points at it. */
  function Perform(store: Store, i: Instr, stack: seq<i32>, calls: seq<Frame>, fr: Frame): Machine
    requires 0 <= fr.pc < |fr.insts|
  {
    match i
    case Call(f) =>
      if f < |store| then Enter(store[f], stack, calls + [fr]) else Panicked(MissingFunc)
    case If =>
      if stack == [] then Panicked(MissingValue)
      else
        var rest := stack[..|stack| - 1];
        (match MatchingEnd(fr.insts, fr.pc)
         case None => Panicked(MissingEnd)
         case Some(end) =>
           var pc := if stack[|stack| - 1] == 0 then end else fr.pc;
           Running(State(rest, calls + [fr.(pc := pc, labels := fr.labels + [Label(end, |rest|, 0)])])))
    case Return => Resume(Unwind(stack, fr.sp, fr.arity), calls)
    case End =>
      if fr.labels == [] then Resume(Unwind(stack, fr.sp, fr.arity), calls)
      else
        var k := |fr.labels| - 1;
        var l := fr.labels[k];
        Resume(Unwind(stack, l.sp, l.arity), calls + [fr.(pc := l.pc, labels := fr.labels[..k])])
    case _ => Resume(Simple(i, fr.locals, stack), calls + [fr])
  }

  /** One turn of the loop.  It stops on an empty call stack, and also when the
      top frame runs off the end of its instructions: that frame then stays. */
  function Step(store: Store, m: Machine): Machine {
    if !m.Running? then m
    else if m.st.calls == [] then Halted(m.st)
    else
      var k := |m.st.calls| - 1;
      var fr := m.st.calls[k].(pc := m.st.calls[k].pc + 1);
      var calls := m.st.calls[..k];
      if 0 <= fr.pc < |fr.insts| then Perform(store, fr.insts[fr.pc], m.st.stack, calls, fr)
      else Halted(State(m.st.stack, calls + [fr]))
  }

  function Steps(store: Store, n: nat, m: Machine): Machine {
    if n == 0 then m else Steps(store, n - 1, Step(store, m))
  }

  lemma {:induction false} StepsAdd(store: Store, a: nat, b: nat, m: Machine)
    ensures Steps(store, a + b, m) == Steps(store, b, Steps(store, a, m))
    decreases a
  {
    if a > 0 {
      StepsAdd(store, a - 1, b, Step(store, m));
    }
  }

  lemma StepsFirst(store: Store, n: nat, m: Machine)
    ensures Steps(store, 1 + n, m) == Steps(store, n, Step(store, m))
  {
    hide Step;
  }

  lemma StepsZero(store: Store, m: Machine)
    ensures Steps(store, 0, m) == m
  {
  }

  lemma StepsLast(store: Store, n: nat, m: Machine)
    ensures Steps(store, n + 1, m) == Step(store, Steps(store, n, m))
  {
    hide Step;
    StepsAdd(store, n, 1, m);
    StepsFirst(store, 0, Steps(store, n, m));
  }

  lemma {:induction false} StoppedStays(store: Store, n: nat, m: Machine)
    requires !m.Running?
    ensures Steps(store, n, m) == m
  {
    if n > 0 {
      StoppedStays(store, n - 1, m);
    }
  }

  /** A stopped run has one final state, whatever number of turns is counted. */
  lemma FinalStateUnique(store: Store, a: nat, b: nat, m: Machine)
    requires !Steps(store, a, m).Running? && !Steps(store, b, m).Running?
    ensures Steps(store, a, m) == Steps(store, b, m)
  {
    if a <= b {
      StepsAdd(store, a, b - a, m);
      StoppedStays(store, b - a, Steps(store, a, m));
    } else {
      StepsAdd(store, b, a - b, m);
      StoppedStays(store, a - b, Steps(store, b, m));
    }
  }

  /** The next turn executes the instruction after `fr.pc`. */
  lemma StepAt(store: Store, stack: seq<i32>, calls: seq<Frame>, fr: Frame)
    requires 0 <= fr.pc + 1 < |fr.insts|
    ensures Step(store, Running(State(stack, calls + [fr])))
         == Perform(store, fr.insts[fr.pc + 1], stack, calls, fr.(pc := fr.pc + 1))
  {
    assert (calls + [fr])[..|calls|] == calls;
  }

  lemma StepPastEnd(store: Store, stack: seq<i32>, calls: seq<Frame>, fr: Frame)
    requires fr.pc + 1 >= |fr.insts|
    ensures Step(store, Running(State(stack, calls + [fr])))
         == Halted(State(stack, calls + [fr.(pc := fr.pc + 1)]))
  {
    assert (calls + [fr])[..|calls|] == calls;
  }

  // ----- what single turns do, in mathematical terms -----

  /** Arithmetic gives the mathematical result if that is a 32-bit number, and otherwise
      the overflow panic; the upper operand is the right one. */
  lemma ArithmeticIs(locals: seq<i32>, below: seq<i32>, a: i32, b: i32)
    ensures var s := below + [a] + [b];
      && Simple(I32Add, locals, s)
           == (if -2147483648 <= a + b <= 2147483647 then Ok(below + [a + b]) else Fail(Overflow))
      && Simple(I32Sub, locals, s)
           == (if -2147483648 <= a - b <= 2147483647 then Ok(below + [a - b]) else Fail(Overflow))
      && Simple(I32Mul, locals, s)
           == (if -2147483648 <= a * b <= 2147483647 then Ok(below + [a * b]) else Fail(Overflow))
      && Simple(I32Lts, locals, s) == Ok(below + [if a < b then 1 else 0])
  {
    assert (below + [a] + [b])[..|below|] == below;
  }

  /** What is kept, and what comes back on top. */
  lemma UnwindIs(below: seq<i32>, above: seq<i32>, arity: nat)
    ensures Unwind(below + above, |below|, 0) == Ok(below)
    ensures 0 < arity && above != [] ==>
      Unwind(below + above, |below|, arity) == Ok(below + [above[|above| - 1]])
  {
    assert (below + above)[..|below|] == below;
  }

  /** The label or frame that `End` or `Return` unwinds to: its height and its results. */
  function Target(i: Instr, fr: Frame): (nat, nat) {
    if i == End && fr.labels != [] then
      var l := fr.labels[|fr.labels| - 1]; (l.sp, l.arity)
    else (fr.sp, fr.arity)
  }

  /** The mathematical result of an arithmetic instruction. */
  function Exact(i: Instr, a: int, b: int): int {
    if i == I32Add then a + b else if i == I32Sub then a - b else if i == I32Mul then a * b else if a < b then 1 else 0
  }

  /** Why the next turn of `fr` would panic. */
  predicate Reason(store: Store, stack: seq<i32>, fr: Frame, w: Panic)
    requires 0 <= fr.pc + 1 < |fr.insts|
  {
    var i, n := fr.insts[fr.pc + 1], |stack|;
    var (sp, arity) := Target(i, fr);
    var leaves := i == End || i == Return;
    var two := i == I32Add || i == I32Sub || i == I32Mul || i == I32Lts;
    match w
    case MissingFunc => i.Call? && i.func >= |store|
    case MissingArgs => i.Call? && i.func < |store| && n < store[i.func].params
    case MissingLocal => i.LocalGet? && i.idx >= |fr.locals|
    case MissingEnd => i == If && n > 0 && MatchingEnd(fr.insts, fr.pc + 1) == None
    case MissingValue => (i == If && n == 0) || (two && n < 2) || (leaves && arity > 0 && n == 0)
    case BadDrain => leaves && if arity == 0 then n < sp else 0 < n <= sp
    case Overflow => two && n >= 2 && !(-2147483648 <= Exact(i, stack[n - 2], stack[n - 1]) <= 2147483647)
  }

  /** A turn panics exactly for these reasons. */
  lemma PanicsExactlyWhen(store: Store, stack: seq<i32>, calls: seq<Frame>, fr: Frame, w: Panic)
    requires 0 <= fr.pc + 1 < |fr.insts|
    ensures Step(store, Running(State(stack, calls + [fr]))) == Panicked(w) <==> Reason(store, stack, fr, w)
  {
    hide MatchingEnd;
    StepAt(store, stack, calls, fr);
  }
}
