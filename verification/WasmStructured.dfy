/** The structured meaning of code, after sections 4.4.5 to 4.4.7 of the
    WebAssembly Core Specification 1.0, and the static check under which the flat
    machine has that meaning.

    `Eval` knows no labels, no jumps and no shared stack: each frame has its own
    operands, a skipped block does nothing, and a block that is entered just runs
    before the code behind it. */
module WasmStructured {
  import opened Wrappers
  import opened WasmCode
  import opened WasmMachine
  import opened WasmRerun
  import opened WasmRuntime

  /** `Stuck` is what validation excludes: a missing operand, local, function,
      argument or `End`, or a result of the wrong length. */
  datatype Result =
    | Through(ops: seq<i32>)
    | Returned(vals: seq<i32>)
    | Overflows
    | Stuck
    | OutOfFuel

  const MIN_I32: int := -2147483648
  const MAX_I32: int := 2147483647

  /** The operands with a new one on top, if it is a 32-bit number. */
  function Fit(below: seq<i32>, x: int): Result {
    if MIN_I32 <= x <= MAX_I32 then Through(below + [x]) else Overflows
  }

  /** What an operand instruction computes, in mathematical terms: the upper operand is
      the right one. */
  function Compute(op: Instr, locals: seq<i32>, ops: seq<i32>): Result {
    if op.Const? then Fit(ops, op.val)
    else if op.LocalGet? then if op.idx < |locals| then Fit(ops, locals[op.idx]) else Stuck
    else if |ops| < 2 then Stuck
    else
      var n := |ops| - 2;
      var below := ops[..n];
      var lhs: int := ops[n];
      var rhs: int := ops[n + 1];
      match op
      case I32Add => Fit(below, lhs + rhs)
      case I32Sub => Fit(below, lhs - rhs)
      case I32Mul => Fit(below, lhs * rhs)
      case I32Lts => Fit(below, if lhs < rhs then 1 else 0)
      case _ => Stuck
  }

  function Eval(store: Store, fuel: nat, c: Code, locals: seq<i32>, arity: nat, ops: seq<i32>): Result
    decreases fuel, 0, c
  {
    match c
    case Nil => Through(ops)
    case Op(op, rest) =>
      if op.Return? then
        if arity <= |ops| then Returned(ops[|ops| - arity..]) else Stuck
      else if op.Call? then
        if fuel == 0 then OutOfFuel
        else if op.func >= |store| || |ops| < store[op.func].params then Stuck
        else
          var k := |ops| - store[op.func].params;
          var r := EvalCall(store, fuel - 1, op.func, ops[k..]);
          if r.Returned? then Eval(store, fuel, rest, locals, arity, ops[..k] + r.vals) else r
      else if IsSimple(op) then
        var r := Compute(op, locals, ops);
        if r.Through? then Eval(store, fuel, rest, locals, arity, r.ops) else r
      else Stuck
    case Block(body, next) =>
      if ops == [] then Stuck
      else
        var below := ops[..|ops| - 1];
        if ops[|ops| - 1] == 0 then Eval(store, fuel, next, locals, arity, below)
        else
          var r := Eval(store, fuel, body, locals, arity, below);
          if r.Through? then Eval(store, fuel, next, locals, arity, r.ops) else r
    case OpenIf(_) => Stuck
  }

  function EvalCall(store: Store, fuel: nat, f: nat, args: seq<i32>): Result
    requires f < |store|
    decreases fuel, 1
  {
    var p := Parse(store[f].body, 0);
    var r := Eval(store, fuel, p.code, args + Zeros(store[f].locals), store[f].results, []);
    if !r.Through? then r
    else if |r.ops| == store[f].results then Returned(r.ops)
    else Stuck
  }

  lemma {:induction false} EvalBlock(
    store: Store, fuel: nat, body: Code, next: Code, locals: seq<i32>, arity: nat, ops: seq<i32>)
    requires ops != []
    ensures var below := ops[..|ops| - 1];
      Eval(store, fuel, Block(body, next), locals, arity, ops) ==
      if ops[|ops| - 1] == 0 then Eval(store, fuel, next, locals, arity, below)
      else
        var r := Eval(store, fuel, body, locals, arity, below);
        if r.Through? then Eval(store, fuel, next, locals, arity, r.ops) else r
  {
  }

  // ----- the static check -----

  /** Operand heights: `Dead` code never reaches its end, `At(n)` ends at height `n`. */
  datatype Height = Bad | Dead | At(n: nat)

  datatype Sig = Sig(locals: nat, arity: nat)

  /** The height after an operation that pops nothing below `floor`. */
  function OpHeight(store: Store, sig: Sig, op: Instr, floor: nat, h: nat): Height {
    match op
    case Return => if sig.arity <= h then Dead else Bad
    case Const(_) => At(h + 1)
    case LocalGet(x) => if x < sig.locals then At(h + 1) else Bad
    case Call(f) =>
      if f < |store| && floor + store[f].params <= h then At(h - store[f].params + store[f].results) else Bad
    case If => Bad
    case End => Bad
    case _ => if floor + 2 <= h then At(h - 1) else Bad
  }

  /** Validation of code from height `h` that keeps the operands below `floor`.
      A block keeps everything below it and ends at its starting height.  Beyond
      what WebAssembly validates, the code behind a block must never reach its
      end, or else keep everything that lies below the block too. */
  function Check(store: Store, sig: Sig, c: Code, floor: nat, h: nat): Height
    decreases c
  {
    match c
    case Nil => At(h)
    case Op(op, rest) =>
      var k := OpHeight(store, sig, op, floor, h);
      if k.At? then Check(store, sig, rest, floor, k.n) else k
    case Block(body, next) =>
      if h <= floor then Bad
      else
        var b := Check(store, sig, body, h - 1, h - 1);
        if b == Bad || (b.At? && b.n != h - 1) then Bad
        else if Check(store, sig, next, floor, h - 1) == Dead then Dead
        else Check(store, sig, next, h - 1, h - 1)
    case OpenIf(_) => Bad
  }

  lemma {:induction false} CheckBlock(store: Store, sig: Sig, body: Code, next: Code, floor: nat, h: nat)
    requires Check(store, sig, Block(body, next), floor, h) != Bad
    ensures floor < h
    ensures Check(store, sig, body, h - 1, h - 1) == Dead || Check(store, sig, body, h - 1, h - 1) == At(h - 1)
    ensures var floor' := if Check(store, sig, next, floor, h - 1) == Dead then floor else h - 1;
      Check(store, sig, next, floor', h - 1) == Check(store, sig, Block(body, next), floor, h)
  {
  }

  function SigOf(f: Func): Sig {
    Sig(f.params + f.locals, f.results)
  }

  predicate SafeFunc(store: Store, f: Func) {
    var p := Parse(f.body, 0);
    var h := Check(store, SigOf(f), p.code, 0, 0);
    f.results <= 1 && (h == Dead || (p.closed && h == At(f.results)))
  }

  predicate SafeStore(store: Store) {
    forall f :: 0 <= f < |store| ==> SafeFunc(store, store[f])
  }

  // ----- the two meanings agree on checked code -----

  /** Outcome `o` on the shared stack `base + ops` is result `r` on the operands
      `ops`: the operands of other frames are untouched. */
  ghost predicate Matches(
    r: Result, o: Outcome, h: Height, base: seq<i32>, ops: seq<i32>, floor: nat, arity: nat)
    requires floor <= |ops|
  {
    match r
    case Through(ops') =>
      o == Fall(base + ops') && h == At(|ops'|) && floor <= |ops'| && ops'[..floor] == ops[..floor]
    case Returned(vals) => o == Ret(base + vals) && |vals| == arity
    case Overflows => o == Trap(Overflow)
    case OutOfFuel => o == NoFuel
    case Stuck => false
  }

  lemma {:induction false} Agrees(
    store: Store, sig: Sig, fuel: nat, c: Code, closed: bool, ctx: Ctx, base: seq<i32>, ops: seq<i32>, floor: nat)
    requires SafeStore(store) && |base| == ctx.sp && sig == Sig(|ctx.locals|, ctx.arity) && ctx.arity <= 1
    requires floor <= |ops| && Check(store, sig, c, floor, |ops|) != Bad
    requires closed || Check(store, sig, c, floor, |ops|) == Dead
    ensures Matches(Eval(store, fuel, c, ctx.locals, ctx.arity, ops),
                    Exec(store, fuel, c, closed, ctx, base + ops),
                    Check(store, sig, c, floor, |ops|), base, ops, floor, ctx.arity)
    decreases fuel, 0, c, 2
  {
    match c
    case Nil =>
    case Op(op, rest) => AgreesOp(store, sig, fuel, op, rest, closed, ctx, base, ops, floor);
    case Block(body, next) => AgreesBlock(store, sig, fuel, body, next, closed, ctx, base, ops, floor);
  }

  lemma {:induction false} AgreesOp(
    store: Store, sig: Sig, fuel: nat, op: Instr, rest: Code, closed: bool, ctx: Ctx,
    base: seq<i32>, ops: seq<i32>, floor: nat)
    requires SafeStore(store) && |base| == ctx.sp && sig == Sig(|ctx.locals|, ctx.arity) && ctx.arity <= 1
    requires floor <= |ops| && Check(store, sig, Op(op, rest), floor, |ops|) != Bad
    requires closed || Check(store, sig, Op(op, rest), floor, |ops|) == Dead
    ensures Matches(Eval(store, fuel, Op(op, rest), ctx.locals, ctx.arity, ops),
                    Exec(store, fuel, Op(op, rest), closed, ctx, base + ops),
                    Check(store, sig, Op(op, rest), floor, |ops|), base, ops, floor, ctx.arity)
    decreases fuel, 0, Op(op, rest), 1
  {
    if op.Return? {
      assert (base + ops)[..|base|] == base;
    } else if op.Call? {
      AgreesCallOp(store, sig, fuel, op, rest, closed, ctx, base, ops, floor);
    } else {
      AgreesSimpleOp(store, sig, fuel, op, rest, closed, ctx, base, ops, floor);
    }
  }

  lemma {:induction false} AgreesCallOp(
    store: Store, sig: Sig, fuel: nat, op: Instr, rest: Code, closed: bool, ctx: Ctx,
    base: seq<i32>, ops: seq<i32>, floor: nat)
    requires SafeStore(store) && |base| == ctx.sp && sig == Sig(|ctx.locals|, ctx.arity) && ctx.arity <= 1
    requires floor <= |ops| && Check(store, sig, Op(op, rest), floor, |ops|) != Bad
    requires closed || Check(store, sig, Op(op, rest), floor, |ops|) == Dead
    requires op.Call?
    ensures Matches(Eval(store, fuel, Op(op, rest), ctx.locals, ctx.arity, ops),
                    Exec(store, fuel, Op(op, rest), closed, ctx, base + ops),
                    Check(store, sig, Op(op, rest), floor, |ops|), base, ops, floor, ctx.arity)
    decreases fuel, 0, Op(op, rest), 0
  {
    hide Exec, SafeStore, Invoke, EvalCall;
    var stack := base + ops;
    ExecCall(store, fuel, op, rest, closed, ctx, stack);
    if fuel > 0 {
      var k := |ops| - store[op.func].params;
      AgreesCall(store, fuel - 1, op.func, base + ops[..k], ops[k..]);
      assert base + ops[..k] + ops[k..] == stack;
      var r := EvalCall(store, fuel - 1, op.func, ops[k..]);
      if r.Returned? {
        var ops' := ops[..k] + r.vals;
        assert base + ops[..k] + r.vals == base + ops';
        Agrees(store, sig, fuel, rest, closed, ctx, base, ops', floor);
        assert ops'[..floor] == ops[..floor];
      }
    }
  }

  lemma {:induction false} AgreesSimpleOp(
    store: Store, sig: Sig, fuel: nat, op: Instr, rest: Code, closed: bool, ctx: Ctx,
    base: seq<i32>, ops: seq<i32>, floor: nat)
    requires SafeStore(store) && |base| == ctx.sp && sig == Sig(|ctx.locals|, ctx.arity) && ctx.arity <= 1
    requires floor <= |ops| && Check(store, sig, Op(op, rest), floor, |ops|) != Bad
    requires closed || Check(store, sig, Op(op, rest), floor, |ops|) == Dead
    requires IsSimple(op)
    ensures Matches(Eval(store, fuel, Op(op, rest), ctx.locals, ctx.arity, ops),
                    Exec(store, fuel, Op(op, rest), closed, ctx, base + ops),
                    Check(store, sig, Op(op, rest), floor, |ops|), base, ops, floor, ctx.arity)
    decreases fuel, 0, Op(op, rest), 0
  {
    hide Exec, SafeStore, Simple, Compute;
    ExecSimple(store, fuel, op, rest, closed, ctx, base + ops);
    AgreesSimple(op, ctx.locals, base, ops, floor);
    var r := Compute(op, ctx.locals, ops);
    if r.Through? {
      Agrees(store, sig, fuel, rest, closed, ctx, base, r.ops, floor);
    }
  }

  lemma AgreesSimple(op: Instr, locals: seq<i32>, base: seq<i32>, ops: seq<i32>, floor: nat)
    requires IsSimple(op) && floor <= |ops|
    requires op.LocalGet? ==> op.idx < |locals|
    requires IsArith(op) ==> floor + 2 <= |ops|
    ensures var r := Compute(op, locals, ops);
      if r.Through? then
        && Simple(op, locals, base + ops) == Ok(base + r.ops)
        && |r.ops| == (if IsArith(op) then |ops| - 1 else |ops| + 1)
        && r.ops[..floor] == ops[..floor]
      else r == Overflows && Simple(op, locals, base + ops) == Fail(Overflow)
  {
    if IsArith(op) {
      var k := |ops| - 2;
      assert (base + ops)[..|base + ops| - 2] == base + ops[..k];
      var v := Arith(op, ops[k], ops[k + 1]);
      if v.Ok? {
        assert base + ops[..k] + [v.val] == base + (ops[..k] + [v.val]);
        assert (ops[..k] + [v.val])[..floor] == ops[..floor];
      }
    } else {
      var v := if op.Const? then op.val else locals[op.idx];
      assert base + ops + [v] == base + (ops + [v]);
      assert (ops + [v])[..floor] == ops[..floor];
    }
  }

  /** A block and the code behind it.  When the block is skipped the code behind
      it may run twice: the second run starts from the same operands, because the
      first one kept them or never came to its end. */
  lemma {:induction false} AgreesBlock(
    store: Store, sig: Sig, fuel: nat, body: Code, next: Code, closed: bool, ctx: Ctx,
    base: seq<i32>, ops: seq<i32>, floor: nat)
    requires SafeStore(store) && |base| == ctx.sp && sig == Sig(|ctx.locals|, ctx.arity) && ctx.arity <= 1
    requires floor <= |ops| && Check(store, sig, Block(body, next), floor, |ops|) != Bad
    requires closed || Check(store, sig, Block(body, next), floor, |ops|) == Dead
    ensures Matches(Eval(store, fuel, Block(body, next), ctx.locals, ctx.arity, ops),
                    Exec(store, fuel, Block(body, next), closed, ctx, base + ops),
                    Check(store, sig, Block(body, next), floor, |ops|), base, ops, floor, ctx.arity)
    decreases fuel, 0, Block(body, next), 0
  {
    hide Exec, Eval, Check, SafeStore;
    CheckBlock(store, sig, body, next, floor, |ops|);
    EvalBlock(store, fuel, body, next, ctx.locals, ctx.arity, ops);
    var h := |ops| - 1;
    var below := ops[..h];
    var stack := base + ops;
    assert stack[..|stack| - 1] == base + below && stack[|stack| - 1] == ops[h];
    var floor' := if Check(store, sig, next, floor, h) == Dead then floor else h;
    Agrees(store, sig, fuel, next, closed, ctx, base, below, floor');
    if ops[h] != 0 {
      Agrees(store, sig, fuel, body, true, ctx, base, below, h);
      var first := Exec(store, fuel, body, true, ctx, base + below);
      ExecBlock(store, fuel, body, next, closed, ctx, stack, first);
      var r := Eval(store, fuel, body, ctx.locals, ctx.arity, below);
      if r.Through? {
        assert r.ops == r.ops[..h] == below;
        assert first.stack[..|stack| - 1] == base + below;
      }
    } else {
      var first := Exec(store, fuel, next, closed, ctx, base + below);
      ExecBlock(store, fuel, body, next, closed, ctx, stack, first);
      var r := Eval(store, fuel, next, ctx.locals, ctx.arity, below);
      if r.Through? {
        assert r.ops[..h] == below;
        assert first.stack[..|stack| - 1] == base + below;
      }
    }
  }

  /** Without the extra condition of the check, for any code behind a skipped block
      that is checked by itself: the machine gives the block its structured meaning
      exactly when that code never reaches its end, or running it again, from the
      operands that its first run left below the block's height, gives the same
      operands again.  That depends on the operands and on the code, so no condition on
      the code alone is exact; `Check` is the one to test before a call. */
  lemma {:induction false} SkippedBlockAgreesExactlyWhen(
    store: Store, sig: Sig, fuel: nat, body: Code, next: Code, ctx: Ctx, base: seq<i32>, ops: seq<i32>, floor: nat)
    requires SafeStore(store) && |base| == ctx.sp && sig == Sig(|ctx.locals|, ctx.arity) && ctx.arity <= 1
    requires floor < |ops| && ops[|ops| - 1] == 0 && Check(store, sig, next, floor, |ops| - 1) != Bad
    ensures
      var h := |ops| - 1;
      var once := Eval(store, fuel, next, ctx.locals, ctx.arity, ops[..h]);
      var whole := Eval(store, fuel, Block(body, next), ctx.locals, ctx.arity, ops);
      var o := Exec(store, fuel, Block(body, next), true, ctx, base + ops);
      Matches(whole, o, Check(store, sig, next, floor, h), base, ops, floor, ctx.arity) <==>
        (once.Through? ==>
           h <= |once.ops| && Eval(store, fuel, next, ctx.locals, ctx.arity, once.ops[..h]) == once)
  {
    hide Exec, Eval, Check, SafeStore;
    EvalBlock(store, fuel, body, next, ctx.locals, ctx.arity, ops);
    var h := |ops| - 1;
    var below, stack := ops[..h], base + ops;
    assert stack[..|stack| - 1] == base + below && stack[|stack| - 1] == ops[h];
    Agrees(store, sig, fuel, next, true, ctx, base, below, floor);
    var first := Exec(store, fuel, next, true, ctx, base + below);
    ExecBlock(store, fuel, body, next, true, ctx, stack, first);
    var once := Eval(store, fuel, next, ctx.locals, ctx.arity, below);
    if once.Through? && h <= |once.ops| {
      var cut := once.ops[..h];
      assert first.stack[..|stack| - 1] == base + cut;
      Agrees(store, sig, fuel, next, true, ctx, base, cut, floor);
      var twice := Eval(store, fuel, next, ctx.locals, ctx.arity, cut);
      if twice.Through? && base + twice.ops == base + once.ops {
        assert twice.ops == (base + twice.ops)[|base|..] == once.ops;
      }
    }
  }

  /** A call on any shared stack: the operands below the arguments come back
      unchanged, with exactly the structured result on top. */
  lemma {:induction false} AgreesCall(store: Store, fuel: nat, f: nat, below: seq<i32>, args: seq<i32>)
    requires SafeStore(store) && f < |store| && |args| == store[f].params
    ensures var r := EvalCall(store, fuel, f, args);
      Matches(r, Invoke(store, fuel, f, below + args), Dead, below, [], 0, store[f].results)
    decreases fuel, 1
  {
    hide Exec, Parse, Check;
    var stack := below + args;
    var fr := NewFrame(store[f], stack);
    var p := Parse(fr.insts, 0);
    assert SafeFunc(store, store[f]);
    assert stack[..|below|] == below && stack[|below|..] == args;
    assert below + [] == below;
    Agrees(store, SigOf(store[f]), fuel, p.code, p.closed, CtxOf(fr), below, [], 0);
    var r := Eval(store, fuel, p.code, fr.locals, fr.arity, []);
    if r.Through? {
      assert (below + r.ops)[..|below|] == below;
    }
  }

  // ----- whole calls -----

  /** The stopped machine `m` shows the structured result `r` of a call: the result
      on top of the operands that were not arguments and the frame gone, or the
      overflow panic.  No other panic is possible. */
  ghost predicate Shows(m: Machine, r: Result, below: seq<i32>, calls: seq<Frame>) {
    match r
    case Returned(vals) =>
      m.Halted? && m.st.stack == below + vals && Ready(m.st.calls) && |m.st.calls| == |calls|
    case Overflows => m == Panicked(Overflow)
    case _ => false
  }

  /** Every run of the flat machine on checked functions that stops, stops with the
      structured result. */
  lemma InterpreterIsStructured(store: Store, n: nat, idx: nat, args: seq<i32>, calls: seq<Frame>)
    requires SafeStore(store) && idx < |store| && store[idx].params <= |args| && Ready(calls)
    requires !Steps(store, n, EnterIdx(store, idx, args, calls)).Running?
    ensures var k := |args| - store[idx].params;
      Shows(Steps(store, n, EnterIdx(store, idx, args, calls)),
            EvalCall(store, n + 1, idx, args[k..]), args[..k], calls)
  {
    hide SafeStore, Invoke, EvalCall, EnterIdx, Steps;
    var k := |args| - store[idx].params;
    AgreesCall(store, n + 1, idx, args[..k], args[k..]);
    assert args[..k] + args[k..] == args;
    EveryRunHasItsMeaning(store, n, n + 1, idx, args, calls);
  }

  /** Every structured evaluation that ends is reached by the flat machine. */
  lemma StructuredIsReached(store: Store, fuel: nat, idx: nat, args: seq<i32>, calls: seq<Frame>) returns (n: nat)
    requires SafeStore(store) && idx < |store| && store[idx].params <= |args| && Ready(calls)
    requires EvalCall(store, fuel, idx, args[|args| - store[idx].params..]) != OutOfFuel
    ensures var k := |args| - store[idx].params;
      Shows(Steps(store, n, EnterIdx(store, idx, args, calls)),
            EvalCall(store, fuel, idx, args[k..]), args[..k], calls)
  {
    hide SafeStore, Invoke, EvalCall, EnterIdx, Steps;
    var k := |args| - store[idx].params;
    AgreesCall(store, fuel, idx, args[..k], args[k..]);
    assert args[..k] + args[k..] == args;
    n := CallFinishes(store, fuel, idx, args, calls);
  }

  // ----- two families that pass the check -----

  /** Validation as WebAssembly has it: the code behind a block may use all the
      operands that the code before it may. */
  function Valid(store: Store, sig: Sig, c: Code, floor: nat, h: nat): Height
    decreases c
  {
    match c
    case Nil => At(h)
    case Op(op, rest) =>
      var k := OpHeight(store, sig, op, floor, h);
      if k.At? then Valid(store, sig, rest, floor, k.n) else k
    case Block(body, next) =>
      if h <= floor then Bad
      else
        var b := Valid(store, sig, body, h - 1, h - 1);
        if b == Bad || (b.At? && b.n != h - 1) then Bad
        else Valid(store, sig, next, floor, h - 1)
    case OpenIf(_) => Bad
  }

  /** Every `If` leaves the operand stack at the frame base when it has popped its
      condition. */
  predicate IfsAtBase(store: Store, sig: Sig, c: Code, h: nat)
    decreases c
  {
    match c
    case Nil => true
    case Op(op, rest) =>
      var k := OpHeight(store, sig, op, 0, h);
      k.At? ==> IfsAtBase(store, sig, rest, k.n)
    case Block(body, next) => h == 1 && IfsAtBase(store, sig, body, 0) && IfsAtBase(store, sig, next, 0)
    case OpenIf(_) => true
  }

  predicate EndsInReturn(c: Code) {
    match c
    case Nil => false
    case Op(op, rest) => op.Return? || EndsInReturn(rest)
    case Block(_, next) => EndsInReturn(next)
    case OpenIf(_) => false
  }

  /** Every block ends in `Return`. */
  predicate Guarded(c: Code) {
    match c
    case Nil => true
    case Op(_, rest) => Guarded(rest)
    case Block(body, next) => EndsInReturn(body) && Guarded(body) && Guarded(next)
    case OpenIf(tail) => Guarded(tail)
  }

  lemma {:induction false} AtBasePasses(store: Store, sig: Sig, c: Code, h: nat)
    requires Valid(store, sig, c, 0, h) != Bad && IfsAtBase(store, sig, c, h)
    ensures Check(store, sig, c, 0, h) == Valid(store, sig, c, 0, h)
    decreases c
  {
    match c
    case Nil =>
    case Op(op, rest) =>
      var k := OpHeight(store, sig, op, 0, h);
      if k.At? {
        AtBasePasses(store, sig, rest, k.n);
      }
    case Block(body, next) =>
      AtBasePasses(store, sig, body, 0);
      AtBasePasses(store, sig, next, 0);
  }

  lemma {:induction false} GuardedPasses(store: Store, sig: Sig, c: Code, floor: nat, h: nat)
    requires Valid(store, sig, c, floor, h) != Bad && Guarded(c) && EndsInReturn(c)
    ensures Check(store, sig, c, floor, h) == Dead
    decreases c
  {
    match c
    case Op(op, rest) =>
      var k := OpHeight(store, sig, op, floor, h);
      if k.At? {
        GuardedPasses(store, sig, rest, floor, k.n);
      }
    case Block(body, next) =>
      GuardedPasses(store, sig, body, h - 1, h - 1);
      GuardedPasses(store, sig, next, floor, h - 1);
  }

  predicate ValidFunc(store: Store, f: Func) {
    var p := Parse(f.body, 0);
    var h := Valid(store, SigOf(f), p.code, 0, 0);
    f.results <= 1 && (h == Dead || (p.closed && h == At(f.results)))
  }

  /** Valid functions whose `If`s are at the frame base, or that are guarded and
      return, are all safe, mixed in one store. */
  lemma FamiliesAreSafe(store: Store)
    requires forall f :: 0 <= f < |store| ==>
      && ValidFunc(store, store[f])
      && var c := Parse(store[f].body, 0).code;
         IfsAtBase(store, SigOf(store[f]), c, 0) || (Guarded(c) && EndsInReturn(c))
    ensures SafeStore(store)
  {
    hide Parse, Valid, Check, IfsAtBase, Guarded, EndsInReturn;
    forall f | 0 <= f < |store|
      ensures SafeFunc(store, store[f])
    {
      var c := Parse(store[f].body, 0).code;
      assert ValidFunc(store, store[f]);
      if IfsAtBase(store, SigOf(store[f]), c, 0) {
        AtBasePasses(store, SigOf(store[f]), c, 0);
      } else {
        GuardedPasses(store, SigOf(store[f]), c, 0, 0);
      }
    }
  }

  // ----- what a call returns -----

  /** The answer of a call for a structured result: its one value, or none. */
  function Answer(results: nat, r: Result): CallResult {
    match r
    case Returned(vals) =>
      if results == 0 && vals == [] then Value(None)
      else if results == 1 && |vals| == 1 then Value(Some(vals[0]))
      else Deeper
    case Overflows => Panics(Overflow)
    case _ => Deeper
  }

  /** Calls of checked functions answer with the structured result of their last
      arguments; a call with an unknown index or too few arguments panics. */
  lemma CallIsStructured(store: Store, fuel: nat, idx: nat, args: seq<i32>)
    requires SafeStore(store)
    ensures CallMeaning(store, fuel, idx, args) ==
      if idx >= |store| then Panics(MissingFunc)
      else if |args| < store[idx].params then Panics(MissingArgs)
      else Answer(store[idx].results, EvalCall(store, fuel, idx, args[|args| - store[idx].params..]))
  {
    hide Invoke, EvalCall, Check, Parse;
    if idx < |store| {
      if |args| < store[idx].params {
        TooFewArgs(store, fuel, idx, args);
      } else {
        var k := |args| - store[idx].params;
        assert args == args[..k] + args[k..];
        assert SafeFunc(store, store[idx]);
        AgreesCall(store, fuel, idx, args[..k], args[k..]);
      }
    }
  }

  lemma SafeCallAnswers(store: Store, fuel: nat, idx: nat, args: seq<i32>)
    ensures SafeStore(store) && idx < |store| && store[idx].params <= |args| ==>
      CallMeaning(store, fuel, idx, args)
        == Answer(store[idx].results, EvalCall(store, fuel, idx, args[|args| - store[idx].params..]))
  {
    hide *;
    if SafeStore(store) {
      CallIsStructured(store, fuel, idx, args);
    }
  }

  lemma TooFewArgs(store: Store, fuel: nat, idx: nat, args: seq<i32>)
    requires idx < |store| && |args| < store[idx].params
    ensures Invoke(store, fuel, idx, args) == Trap(MissingArgs)
  {
  }
}
