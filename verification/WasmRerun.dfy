/** What the flat machine computes, as a recursion on block structure.

    A skipped `If` leaves its label behind, and the next `End` pops it, jumps
    back behind the skipped block and runs the rest of the enclosing block a
    second time.  `Exec` says this directly: after a skipped block the rest
    runs, the stack is cut back to its height at the `If`, and the rest runs
    again.  `Simulates` shows that the machine does exactly this, for every
    store of every instruction sequence, nested or not. */
module WasmRerun {
  import opened Wrappers
  import opened WasmCode
  import opened WasmMachine

  /** `Fall`: reached the `End` that closes the code.  `Ret`: the frame is gone.
      `Halt`: ran off the end of the instructions, which stops the machine.
      `NoFuel`: more nested calls than the fuel allows. */
  datatype Outcome =
    | Fall(stack: seq<i32>)
    | Ret(stack: seq<i32>)
    | Halt(stack: seq<i32>)
    | Trap(why: Panic)
    | NoFuel

  datatype Ctx = Ctx(locals: seq<i32>, sp: nat, arity: nat)

  function Leave(r: Res<seq<i32>>): Outcome {
    match r
    case Ok(s) => Ret(s)
    case Fail(w) => Trap(w)
  }

  /** Fuel bounds the nesting of calls only. */
  function Exec(store: Store, fuel: nat, c: Code, closed: bool, ctx: Ctx, stack: seq<i32>): (o: Outcome)
    ensures o.Fall? ==> closed
    decreases fuel, 0, c
  {
    match c
    case Nil => if closed then Fall(stack) else Halt(stack)
    case Op(op, rest) =>
      if op.Return? then Leave(Unwind(stack, ctx.sp, ctx.arity))
      else if op.Call? then
        if fuel == 0 then NoFuel
        else
          var o := Invoke(store, fuel - 1, op.func, stack);
          if o.Ret? then Exec(store, fuel, rest, closed, ctx, o.stack) else o
      else if IsSimple(op) then
        (match Simple(op, ctx.locals, stack)
         case Ok(s) => Exec(store, fuel, rest, closed, ctx, s)
         case Fail(w) => Trap(w))
      else Trap(MissingEnd)  // `If` and `End` are never operations
    case Block(body, next) =>
      if stack == [] then Trap(MissingValue)
      else
        var s := stack[..|stack| - 1];
        var first := if stack[|stack| - 1] != 0 then Exec(store, fuel, body, true, ctx, s)
                     else Exec(store, fuel, next, closed, ctx, s);
        if !first.Fall? then first
        else if |s| <= |first.stack| then Exec(store, fuel, next, closed, ctx, first.stack[..|s|])
        else Trap(BadDrain)
    case OpenIf(_) => Trap(if stack == [] then MissingValue else MissingEnd)
  }

  function Invoke(store: Store, fuel: nat, f: nat, stack: seq<i32>): (o: Outcome)
    ensures !o.Fall?
    decreases fuel, 1
  {
    if f >= |store| then Trap(MissingFunc)
    else if |stack| < store[f].params then Trap(MissingArgs)
    else
      var fr := NewFrame(store[f], stack);
      var p := Parse(fr.insts, 0);
      var o := Exec(store, fuel, p.code, p.closed, CtxOf(fr), stack[..fr.sp]);
      if o.Fall? then Leave(Unwind(o.stack, fr.sp, fr.arity)) else o
  }

  function CtxOf(fr: Frame): Ctx {
    Ctx(fr.locals, fr.sp, fr.arity)
  }

  // The equations of `Exec`, so that proofs can use one without unfolding others.

  lemma {:induction false} ExecBlock(
    store: Store, fuel: nat, body: Code, next: Code, closed: bool, ctx: Ctx, stack: seq<i32>, first: Outcome)
    requires stack != []
    requires var s := stack[..|stack| - 1];
      first == if stack[|stack| - 1] != 0 then Exec(store, fuel, body, true, ctx, s)
               else Exec(store, fuel, next, closed, ctx, s)
    ensures Exec(store, fuel, Block(body, next), closed, ctx, stack) ==
      if !first.Fall? then first
      else if |stack| - 1 <= |first.stack| then
        Exec(store, fuel, next, closed, ctx, first.stack[..|stack| - 1])
      else Trap(BadDrain)
  {
  }

  lemma {:induction false} ExecBlockEmpty(store: Store, fuel: nat, body: Code, next: Code, closed: bool, ctx: Ctx)
    ensures Exec(store, fuel, Block(body, next), closed, ctx, []) == Trap(MissingValue)
  {
  }

  lemma {:induction false} ExecSimple(store: Store, fuel: nat, op: Instr, rest: Code, closed: bool, ctx: Ctx, stack: seq<i32>)
    requires IsSimple(op)
    ensures var r := Simple(op, ctx.locals, stack);
      Exec(store, fuel, Op(op, rest), closed, ctx, stack) ==
      if r.Ok? then Exec(store, fuel, rest, closed, ctx, r.val) else Trap(r.why)
  {
    hide Simple;
  }

  lemma {:induction false} ExecCall(store: Store, fuel: nat, op: Instr, rest: Code, closed: bool, ctx: Ctx, stack: seq<i32>)
    requires op.Call?
    ensures Exec(store, fuel, Op(op, rest), closed, ctx, stack) ==
      if fuel == 0 then NoFuel
      else
        var o := Invoke(store, fuel - 1, op.func, stack);
        if o.Ret? then Exec(store, fuel, rest, closed, ctx, o.stack) else o
  {
    hide Invoke;
  }

  // ----- how many turns that takes -----

  /** The most turns that code takes, when each call in it takes at most `call`.  The code
      behind a block counts twice, because it runs twice when the block is skipped. */
  function Turns(c: Code, call: nat): nat {
    match c
    case Nil => 1
    case Op(op, rest) => 1 + (if op.Call? then call else 0) + Turns(rest, call)
    case Block(body, next) => 2 + Turns(body, call) + 2 * Turns(next, call)
    case OpenIf(_) => 1
  }

  lemma TurnsParts(c: Code, call: nat)
    ensures c.Nil? ==> Turns(c, call) == 1
    ensures c.Op? ==> Turns(c, call) == 1 + (if c.op.Call? then call else 0) + Turns(c.rest, call)
    ensures c.Block? ==> Turns(c, call) == 2 + Turns(c.body, call) + 2 * Turns(c.next, call)
    ensures c.OpenIf? ==> Turns(c, call) == 1
  {
  }

  function MostTurns(store: Store, call: nat): (n: nat)
    ensures forall f :: 0 <= f < |store| ==> Turns(Parse(store[f].body, 0).code, call) <= n
    decreases |store|
  {
    if store == [] then 0
    else
      var k := |store| - 1;
      var a, b := MostTurns(store[..k], call), Turns(Parse(store[k].body, 0).code, call);
      assert forall f :: 0 <= f < k ==> store[..k][f] == store[f];
      if a < b then b else a
  }

  /** The most turns of a call with at most `fuel` calls nested in it. */
  function CallTurns(store: Store, fuel: nat): nat
    decreases fuel, 1
  {
    1 + MostTurns(store, InnerTurns(store, fuel))
  }

  /** The most turns of a call in code that is run with `fuel`. */
  function InnerTurns(store: Store, fuel: nat): nat
    decreases fuel, 0
  {
    if fuel == 0 then 0 else CallTurns(store, fuel - 1)
  }

  lemma CallTurnsCover(store: Store, fuel: nat, f: nat)
    requires f < |store|
    ensures Turns(Parse(store[f].body, 0).code, InnerTurns(store, fuel)) + 1 <= CallTurns(store, fuel)
  {
    hide Turns, Parse;
  }

  // ----- the machine follows this recursion -----

  /** The top frame has run off its instructions; it can do nothing more. */
  predicate Exhausted(fr: Frame) {
    fr.pc >= |fr.insts|
  }

  /** `m` is where the machine is, after at least `n` turns, when a frame on top
      of `calls` has come to outcome `o` without falling through. */
  ghost predicate CallReached(o: Outcome, m: Machine, n: nat, fuel: nat, calls: seq<Frame>) {
    match o
    case Fall(_) => false
    case Ret(s) => m == Running(State(s, calls))
    case Halt(s) =>
      && m.Halted? && m.st.stack == s
      && |calls| < |m.st.calls| && m.st.calls[..|calls|] == calls
      && Exhausted(m.st.calls[|m.st.calls| - 1])
    case Trap(w) => m == Panicked(w)
    case NoFuel => m.Running? && fuel <= n
  }

  /** The same for code of frame `fr` that ends before address `end`. */
  ghost predicate Reached(o: Outcome, m: Machine, n: nat, fuel: nat, calls: seq<Frame>, fr: Frame, end: nat) {
    if o.Fall? then m == Running(State(o.stack, calls + [fr.(pc := end - 1)]))
    else CallReached(o, m, n, fuel, calls)
  }

  lemma LaterReached(o: Outcome, m: Machine, n: nat, n': nat, fuel: nat, calls: seq<Frame>, fr: Frame, end: nat)
    requires Reached(o, m, n, fuel, calls, fr, end) && n <= n'
    ensures Reached(o, m, n', fuel, calls, fr, end)
  {
  }

  /** The `If` of a standing block finds its own `End`; an unclosed one finds none. */
  lemma {:induction false} IfFindsItsOwnEnd(insts: seq<Instr>, pc: nat, body: Code, closed: bool)
    requires pc < |insts| && StandsAt(insts, pc + 1, body, closed)
    ensures MatchingEnd(insts, pc) == if closed then Some(pc + 1 + Size(body)) else None
  {
    StandingParses(insts, pc + 1, body, closed);
  }

  lemma {:induction false} Simulates(
    store: Store, fuel: nat, c: Code, closed: bool, pc: nat, fr: Frame, calls: seq<Frame>, stack: seq<i32>)
    returns (n: nat)
    requires fr.pc == pc - 1 && StandsAt(fr.insts, pc, c, closed)
    ensures Reached(Exec(store, fuel, c, closed, CtxOf(fr), stack),
                    Steps(store, n, Running(State(stack, calls + [fr]))),
                    n, fuel, calls, fr, pc + Size(c))
    ensures n <= Turns(c, InnerTurns(store, fuel))
    decreases fuel, 0, c, 3
  {
    hide StandsAt, Size, Parse, MatchingEnd, Turns, InnerTurns;
    TurnsParts(c, InnerTurns(store, fuel));
    SizeParts(c);
    StandsParts(fr.insts, pc, c, closed);
    match c
    case Nil =>
      if closed {
        n := 0;
      } else {
        n := 1;
        StepPastEnd(store, stack, calls, fr);
      }
    case Op(op, rest) => n := SimulatesOp(store, fuel, op, rest, closed, pc, fr, calls, stack);
    case Block(body, next) =>
      n := SimulatesBlock(store, fuel, body, next, closed, pc, fr, calls, stack);
    case OpenIf(tail) =>
      IfFindsItsOwnEnd(fr.insts, pc, tail, false);
      StepAt(store, stack, calls, fr);
      n := 1;
  }

  lemma {:induction false} SimulatesOp(
    store: Store, fuel: nat, op: Instr, rest: Code, closed: bool, pc: nat, fr: Frame, calls: seq<Frame>, stack: seq<i32>)
    returns (n: nat)
    requires fr.pc == pc - 1 && StandsAt(fr.insts, pc, Op(op, rest), closed)
    ensures Reached(Exec(store, fuel, Op(op, rest), closed, CtxOf(fr), stack),
                    Steps(store, n, Running(State(stack, calls + [fr]))),
                    n, fuel, calls, fr, pc + Size(Op(op, rest)))
    ensures n <= Turns(Op(op, rest), InnerTurns(store, fuel))
    decreases fuel, 0, Op(op, rest), 1
  {
    hide StandsAt, Size, Exec, Step, Turns, InnerTurns;
    StandsParts(fr.insts, pc, Op(op, rest), closed);
    if op.Return? {
      n := SimulatesReturn(store, fuel, op, rest, closed, pc, fr, calls, stack);
    } else if op.Call? {
      n := SimulatesCallOp(store, fuel, op, rest, closed, pc, fr, calls, stack);
    } else {
      n := SimulatesSimple(store, fuel, op, rest, closed, pc, fr, calls, stack);
    }
  }

  lemma {:induction false} SimulatesReturn(
    store: Store, fuel: nat, op: Instr, rest: Code, closed: bool, pc: nat, fr: Frame, calls: seq<Frame>, stack: seq<i32>)
    returns (n: nat)
    requires fr.pc == pc - 1 && StandsAt(fr.insts, pc, Op(op, rest), closed) && op.Return?
    ensures Reached(Exec(store, fuel, Op(op, rest), closed, CtxOf(fr), stack),
                    Steps(store, n, Running(State(stack, calls + [fr]))),
                    n, fuel, calls, fr, pc + Size(Op(op, rest)))
    ensures n <= Turns(Op(op, rest), InnerTurns(store, fuel))
    decreases fuel, 0, Op(op, rest), 0
  {
    hide Lies, Closed, Wf, Turns, InnerTurns;
    TurnsParts(Op(op, rest), InnerTurns(store, fuel));
    StandsParts(fr.insts, pc, Op(op, rest), closed);
    StepAt(store, stack, calls, fr);
    n := 1;
  }

  lemma StepSimple(store: Store, stack: seq<i32>, calls: seq<Frame>, fr: Frame)
    requires 0 <= fr.pc + 1 < |fr.insts| && IsSimple(fr.insts[fr.pc + 1])
    ensures Step(store, Running(State(stack, calls + [fr])))
         == Resume(Simple(fr.insts[fr.pc + 1], fr.locals, stack), calls + [fr.(pc := fr.pc + 1)])
  {
    StepAt(store, stack, calls, fr);
  }

  lemma {:induction false} SimulatesSimple(
    store: Store, fuel: nat, op: Instr, rest: Code, closed: bool, pc: nat, fr: Frame, calls: seq<Frame>, stack: seq<i32>)
    returns (n: nat)
    requires fr.pc == pc - 1 && StandsAt(fr.insts, pc, Op(op, rest), closed) && IsSimple(op)
    ensures Reached(Exec(store, fuel, Op(op, rest), closed, CtxOf(fr), stack),
                    Steps(store, n, Running(State(stack, calls + [fr]))),
                    n, fuel, calls, fr, pc + Size(Op(op, rest)))
    ensures n <= Turns(Op(op, rest), InnerTurns(store, fuel))
    decreases fuel, 0, Op(op, rest), 0
  {
    hide StandsAt, Size, Step, Simple, Exec, Turns, InnerTurns;
    TurnsParts(Op(op, rest), InnerTurns(store, fuel));
    SizeParts(Op(op, rest));
    ExecSimple(store, fuel, op, rest, closed, CtxOf(fr), stack);
    StandsParts(fr.insts, pc, Op(op, rest), closed);
    StepSimple(store, stack, calls, fr);
    n := 1;
    var r := Simple(op, fr.locals, stack);
    if r.Ok? {
      var j := Simulates(store, fuel, rest, closed, pc + 1, fr.(pc := pc), calls, r.val);
      n := 1 + j;
    }
  }

  function EnterIdx(store: Store, f: nat, stack: seq<i32>, calls: seq<Frame>): Machine {
    if f < |store| then Enter(store[f], stack, calls) else Panicked(MissingFunc)
  }

  lemma StepCall(store: Store, stack: seq<i32>, calls: seq<Frame>, fr: Frame)
    requires 0 <= fr.pc + 1 < |fr.insts| && fr.insts[fr.pc + 1].Call?
    ensures Step(store, Running(State(stack, calls + [fr])))
         == EnterIdx(store, fr.insts[fr.pc + 1].func, stack, calls + [fr.(pc := fr.pc + 1)])
  {
    StepAt(store, stack, calls, fr);
  }

  lemma {:induction false} SimulatesCallOp(
    store: Store, fuel: nat, op: Instr, rest: Code, closed: bool, pc: nat, fr: Frame, calls: seq<Frame>, stack: seq<i32>)
    returns (n: nat)
    requires fr.pc == pc - 1 && StandsAt(fr.insts, pc, Op(op, rest), closed) && op.Call?
    ensures Reached(Exec(store, fuel, Op(op, rest), closed, CtxOf(fr), stack),
                    Steps(store, n, Running(State(stack, calls + [fr]))),
                    n, fuel, calls, fr, pc + Size(Op(op, rest)))
    ensures n <= Turns(Op(op, rest), InnerTurns(store, fuel))
    decreases fuel, 0, Op(op, rest), 0
  {
    hide StandsAt, Size, Step, EnterIdx, Invoke, Exec, Turns, CallTurns;
    TurnsParts(Op(op, rest), InnerTurns(store, fuel));
    SizeParts(Op(op, rest));
    ExecCall(store, fuel, op, rest, closed, CtxOf(fr), stack);
    StandsParts(fr.insts, pc, Op(op, rest), closed);
    StepCall(store, stack, calls, fr);
    var start := Running(State(stack, calls + [fr]));
    var fr' := fr.(pc := pc);
    n := 0;
    if fuel > 0 {
      var k := SimulatesCall(store, fuel - 1, op.func, calls + [fr'], stack);
      var o := Invoke(store, fuel - 1, op.func, stack);
      n := 1 + k;
      if o.Ret? {
        var j := Simulates(store, fuel, rest, closed, pc + 1, fr', calls, o.stack);
        n := 1 + k + j;
        StepsAdd(store, 1 + k, j, start);
      } else if o.Halt? {
        var m := Steps(store, n, start);
        assert m.st.calls[..|calls|] == m.st.calls[..|calls + [fr']|][..|calls|];
      }
    }
  }

  /** An `End` that finds a label cuts the stack and jumps behind the label's block. */
  lemma PopsLabel(store: Store, stack: seq<i32>, calls: seq<Frame>, fr: Frame, pc: nat, l: Label)
    requires pc < |fr.insts| && fr.insts[pc] == End
    ensures Step(store, Running(State(stack, calls + [fr.(pc := pc - 1, labels := fr.labels + [l])])))
         == Resume(Unwind(stack, l.sp, l.arity), calls + [fr.(pc := l.pc)])
  {
    var top := fr.(pc := pc - 1, labels := fr.labels + [l]);
    StepAt(store, stack, calls, top);
    assert top.labels[..|top.labels| - 1] == fr.labels;
    assert top.(pc := l.pc, labels := fr.labels) == fr.(pc := l.pc);
  }

  /** An `If` pushes its label whether or not its block is entered. */
  lemma StepIf(store: Store, stack: seq<i32>, calls: seq<Frame>, fr: Frame, end: nat)
    requires 0 <= fr.pc + 1 < |fr.insts| && fr.insts[fr.pc + 1] == If
    requires MatchingEnd(fr.insts, fr.pc + 1) == Some(end)
    ensures Step(store, Running(State(stack, calls + [fr]))) ==
      if stack == [] then Panicked(MissingValue)
      else
        var s := stack[..|stack| - 1];
        var pc := if stack[|stack| - 1] == 0 then end else fr.pc + 1;
        Running(State(s, calls + [fr.(pc := pc, labels := fr.labels + [Label(end, |s|, 0)])]))
  {
    hide Parse;
    StepAt(store, stack, calls, fr);
  }

  /** An `If` that enters its block, up to the end of the block. */
  lemma {:induction false} SimulatesTaken(
    store: Store, fuel: nat, body: Code, next: Code, closed: bool, pc: nat, fr: Frame, calls: seq<Frame>, stack: seq<i32>)
    returns (n: nat)
    requires fr.pc == pc - 1 && StandsAt(fr.insts, pc, Block(body, next), closed)
    requires stack != [] && stack[|stack| - 1] != 0
    ensures
      var s := stack[..|stack| - 1];
      var end := pc + 1 + Size(body);
      Reached(Exec(store, fuel, body, true, CtxOf(fr), s),
              Steps(store, n, Running(State(stack, calls + [fr]))), n, fuel, calls,
              fr.(labels := fr.labels + [Label(end, |s|, 0)]), end)
    ensures n <= 1 + Turns(body, InnerTurns(store, fuel))
    decreases fuel, 0, Block(body, next), 0
  {
    hide StandsAt, MatchingEnd, Step, Exec, Steps, CallReached, Size, Turns, InnerTurns;
    StandsParts(fr.insts, pc, Block(body, next), closed);
    IfFindsItsOwnEnd(fr.insts, pc, body, true);
    var end := pc + 1 + Size(body);
    StepIf(store, stack, calls, fr, end);
    var s := stack[..|stack| - 1];
    var start := Running(State(stack, calls + [fr]));
    var fr' := fr.(labels := fr.labels + [Label(end, |s|, 0)]);
    n := Simulates(store, fuel, body, true, pc + 1, fr'.(pc := pc), calls, s);
    LaterReached(Exec(store, fuel, body, true, CtxOf(fr), s), Steps(store, n, Step(store, start)),
                 n, n + 1, fuel, calls, fr', end);
    StepsFirst(store, n, start);
    n := 1 + n;
  }

  /** An `If` that skips its block, up to the end of the code behind it; its label is
      still there. */
  lemma {:induction false} SimulatesSkipped(
    store: Store, fuel: nat, body: Code, next: Code, closed: bool, pc: nat, fr: Frame, calls: seq<Frame>, stack: seq<i32>)
    returns (n: nat)
    requires fr.pc == pc - 1 && StandsAt(fr.insts, pc, Block(body, next), closed)
    requires stack != [] && stack[|stack| - 1] == 0
    ensures
      var s := stack[..|stack| - 1];
      var end := pc + 1 + Size(body);
      Reached(Exec(store, fuel, next, closed, CtxOf(fr), s),
              Steps(store, n, Running(State(stack, calls + [fr]))), n, fuel, calls,
              fr.(labels := fr.labels + [Label(end, |s|, 0)]), end + 1 + Size(next))
    ensures n <= 1 + Turns(next, InnerTurns(store, fuel))
    decreases fuel, 0, Block(body, next), 0
  {
    hide StandsAt, MatchingEnd, Step, Exec, Steps, CallReached, Size, Turns, InnerTurns;
    StandsParts(fr.insts, pc, Block(body, next), closed);
    IfFindsItsOwnEnd(fr.insts, pc, body, true);
    var end := pc + 1 + Size(body);
    StepIf(store, stack, calls, fr, end);
    var s := stack[..|stack| - 1];
    var start := Running(State(stack, calls + [fr]));
    var fr' := fr.(labels := fr.labels + [Label(end, |s|, 0)]);
    n := Simulates(store, fuel, next, closed, end + 1, fr'.(pc := end), calls, s);
    LaterReached(Exec(store, fuel, next, closed, CtxOf(fr), s), Steps(store, n, Step(store, start)),
                 n, n + 1, fuel, calls, fr', end + 1 + Size(next));
    StepsFirst(store, n, start);
    n := 1 + n;
  }

  /** A block and the code behind it: what runs first, the `End` it reaches, and
      the code behind the block. */
  lemma {:induction false} SimulatesBlock(
    store: Store, fuel: nat, body: Code, next: Code, closed: bool, pc: nat, fr: Frame, calls: seq<Frame>, stack: seq<i32>)
    returns (n: nat)
    requires fr.pc == pc - 1 && StandsAt(fr.insts, pc, Block(body, next), closed)
    ensures Reached(Exec(store, fuel, Block(body, next), closed, CtxOf(fr), stack),
                    Steps(store, n, Running(State(stack, calls + [fr]))),
                    n, fuel, calls, fr, pc + Size(Block(body, next)))
    ensures n <= Turns(Block(body, next), InnerTurns(store, fuel))
    decreases fuel, 0, Block(body, next), 2
  {
    hide Exec, Steps, StandsAt, Reached, Turns, InnerTurns;
    if stack == [] {
      n := SimulatesNoCondition(store, fuel, body, next, closed, pc, fr, calls);
    } else if stack[|stack| - 1] != 0 {
      n := SimulatesTakenThrough(store, fuel, body, next, closed, pc, fr, calls, stack);
    } else {
      n := SimulatesSkippedThrough(store, fuel, body, next, closed, pc, fr, calls, stack);
    }
  }

  lemma {:induction false} SimulatesNoCondition(
    store: Store, fuel: nat, body: Code, next: Code, closed: bool, pc: nat, fr: Frame, calls: seq<Frame>)
    returns (n: nat)
    requires fr.pc == pc - 1 && StandsAt(fr.insts, pc, Block(body, next), closed)
    ensures Reached(Exec(store, fuel, Block(body, next), closed, CtxOf(fr), []),
                    Steps(store, n, Running(State([], calls + [fr]))),
                    n, fuel, calls, fr, pc + Size(Block(body, next)))
    ensures n <= Turns(Block(body, next), InnerTurns(store, fuel))
  {
    hide StandsAt, MatchingEnd, Step, Exec, Steps, Size, Turns, InnerTurns;
    TurnsParts(Block(body, next), InnerTurns(store, fuel));
    StandsParts(fr.insts, pc, Block(body, next), closed);
    IfFindsItsOwnEnd(fr.insts, pc, body, true);
    StepIf(store, [], calls, fr, pc + 1 + Size(body));
    ExecBlockEmpty(store, fuel, body, next, closed, CtxOf(fr));
    StepsFirst(store, 0, Running(State([], calls + [fr])));
    StepsZero(store, Step(store, Running(State([], calls + [fr]))));
    n := 1;
  }

  /** A block that is entered, its `End`, and the code behind it. */
  lemma {:induction false} SimulatesTakenThrough(
    store: Store, fuel: nat, body: Code, next: Code, closed: bool, pc: nat, fr: Frame, calls: seq<Frame>, stack: seq<i32>)
    returns (n: nat)
    requires fr.pc == pc - 1 && StandsAt(fr.insts, pc, Block(body, next), closed)
    requires stack != [] && stack[|stack| - 1] != 0
    ensures Reached(Exec(store, fuel, Block(body, next), closed, CtxOf(fr), stack),
                    Steps(store, n, Running(State(stack, calls + [fr]))),
                    n, fuel, calls, fr, pc + Size(Block(body, next)))
    ensures n <= Turns(Block(body, next), InnerTurns(store, fuel))
    decreases fuel, 0, Block(body, next), 1
  {
    hide StandsAt, Exec, Steps, Size, CallReached, Turns, InnerTurns;
    TurnsParts(Block(body, next), InnerTurns(store, fuel));
    StandsParts(fr.insts, pc, Block(body, next), closed);
    SizeParts(Block(body, next));
    var s, end := stack[..|stack| - 1], pc + 1 + Size(body);
    EndOfStanding(fr.insts, pc + 1, body);
    n := SimulatesTaken(store, fuel, body, next, closed, pc, fr, calls, stack);
    var first := Exec(store, fuel, body, true, CtxOf(fr), s);
    ExecBlock(store, fuel, body, next, closed, CtxOf(fr), stack, first);
    if first.Fall? {
      n := SimulatesRest(store, fuel, next, closed, fr, calls, Running(State(stack, calls + [fr])), n,
                         first.stack, Label(end, |s|, 0), end);
    }
  }

  /** A block that is skipped, the code behind it, the `End` that finds the block's
      label, and that code again. */
  lemma {:induction false} SimulatesSkippedThrough(
    store: Store, fuel: nat, body: Code, next: Code, closed: bool, pc: nat, fr: Frame, calls: seq<Frame>, stack: seq<i32>)
    returns (n: nat)
    requires fr.pc == pc - 1 && StandsAt(fr.insts, pc, Block(body, next), closed)
    requires stack != [] && stack[|stack| - 1] == 0
    ensures Reached(Exec(store, fuel, Block(body, next), closed, CtxOf(fr), stack),
                    Steps(store, n, Running(State(stack, calls + [fr]))),
                    n, fuel, calls, fr, pc + Size(Block(body, next)))
    ensures n <= Turns(Block(body, next), InnerTurns(store, fuel))
    decreases fuel, 0, Block(body, next), 1
  {
    hide StandsAt, Exec, Steps, Size, CallReached, Turns, InnerTurns;
    TurnsParts(Block(body, next), InnerTurns(store, fuel));
    StandsParts(fr.insts, pc, Block(body, next), closed);
    SizeParts(Block(body, next));
    var s, end := stack[..|stack| - 1], pc + 1 + Size(body);
    n := SimulatesSkipped(store, fuel, body, next, closed, pc, fr, calls, stack);
    var first := Exec(store, fuel, next, closed, CtxOf(fr), s);
    ExecBlock(store, fuel, body, next, closed, CtxOf(fr), stack, first);
    if first.Fall? {
      EndOfStanding(fr.insts, end + 1, next);
      n := SimulatesRest(store, fuel, next, closed, fr, calls, Running(State(stack, calls + [fr])), n,
                         first.stack, Label(end, |s|, 0), end + 1 + Size(next));
    }
  }

  lemma EndOfStanding(insts: seq<Instr>, pc: nat, c: Code)
    requires StandsAt(insts, pc, c, true)
    ensures pc + Size(c) < |insts| && insts[pc + Size(c)] == End
  {
    hide Lies, Closed, Size;
  }

  /** From an `End` that pops label `l` through the code behind the label's block. */
  lemma {:induction false} SimulatesRest(
    store: Store, fuel: nat, next: Code, closed: bool, fr: Frame, calls: seq<Frame>,
    start: Machine, k: nat, stack: seq<i32>, l: Label, stop: nat)
    returns (n: nat)
    requires StandsAt(fr.insts, l.pc + 1, next, closed) && l.arity == 0
    requires stop < |fr.insts| && fr.insts[stop] == End
    requires Steps(store, k, start)
          == Running(State(stack, calls + [fr.(pc := stop - 1, labels := fr.labels + [l])]))
    ensures var o := if l.sp <= |stack| then Exec(store, fuel, next, closed, CtxOf(fr), stack[..l.sp])
                     else Trap(BadDrain);
            Reached(o, Steps(store, n, start), n, fuel, calls, fr, l.pc + 1 + Size(next))
    ensures n <= k + 1 + Turns(next, InnerTurns(store, fuel))
    decreases fuel, 0, next, 4
  {
    hide StandsAt, Size, Step, Exec, Turns, InnerTurns;
    PopsLabel(store, stack, calls, fr, stop, l);
    n := k + 1;
    StepsAdd(store, k, 1, start);
    assert Steps(store, 1, Steps(store, k, start)) == Step(store, Steps(store, k, start));
    if l.sp <= |stack| {
      var j := Simulates(store, fuel, next, closed, l.pc + 1, fr.(pc := l.pc), calls, stack[..l.sp]);
      n := k + 1 + j;
      StepsAdd(store, k + 1, j, start);
    }
  }

  /** An `End` that finds no label removes the frame and leaves its result. */
  lemma EndLeavesFrame(store: Store, stack: seq<i32>, calls: seq<Frame>, fr: Frame, pc: nat)
    requires fr.labels == [] && pc < |fr.insts| && fr.insts[pc] == End
    ensures Step(store, Running(State(stack, calls + [fr.(pc := pc - 1)])))
         == Resume(Unwind(stack, fr.sp, fr.arity), calls)
  {
    hide Unwind;
    StepAt(store, stack, calls, fr.(pc := pc - 1));
  }

  /** A call, from its new frame to the frame's removal; `calls` is untouched. */
  lemma {:induction false} SimulatesCall(
    store: Store, fuel: nat, f: nat, calls: seq<Frame>, stack: seq<i32>)
    returns (n: nat)
    ensures CallReached(Invoke(store, fuel, f, stack),
                        Steps(store, n, EnterIdx(store, f, stack, calls)), n, fuel, calls)
    ensures n <= CallTurns(store, fuel)
    decreases fuel, 1
  {
    hide Lies, Closed, Wf, Parse, Exec, Step, Steps, Unwind, Turns, InnerTurns, CallTurns;
    n := 0;
    if f < |store| && store[f].params <= |stack| {
      var fr := NewFrame(store[f], stack);
      var p := Parse(fr.insts, 0);
      ParseStands(fr.insts, 0);
      CallTurnsCover(store, fuel, f);
      n := Simulates(store, fuel, p.code, p.closed, 0, fr, calls, stack[..fr.sp]);
      var o := Exec(store, fuel, p.code, p.closed, CtxOf(fr), stack[..fr.sp]);
      if o.Fall? {
        var start := EnterIdx(store, f, stack, calls);
        EndLeavesFrame(store, o.stack, calls, fr, p.end);
        StepsLast(store, n, start);
        n := n + 1;
      }
    } else {
      StepsZero(store, EnterIdx(store, f, stack, calls));
    }
  }
}
