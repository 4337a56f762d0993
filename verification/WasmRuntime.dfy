/** Whole calls: what a call returns, when it terminates, and why it does
    not depend on the calls made before. */
module WasmRuntime {
  import opened Wrappers
  import opened Bits
  import opened WasmCode
  import opened WasmMachine
  import opened WasmRerun

  /** `Deeper`: the fuel does not cover the nesting of calls. */
  datatype CallResult = Value(val: Option<i32>) | Panics(why: Panic) | Deeper

  function TopOf(results: nat, stack: seq<i32>): CallResult {
    if results == 0 then Value(None)
    else if stack == [] then Panics(MissingValue)
    else Value(Some(stack[|stack| - 1]))
  }

  /** The meaning of a call, fixed by store, index and arguments alone. */
  function CallMeaning(store: Store, fuel: nat, idx: nat, args: seq<i32>): CallResult {
    if idx >= |store| then Panics(MissingFunc)
    else
      match Invoke(store, fuel, idx, args)
      case Ret(s) => TopOf(store[idx].results, s)
      case Halt(s) => TopOf(store[idx].results, s)
      case Trap(w) => Panics(w)
      case _ => Deeper
  }

  /** Between calls the call stack is empty or blocked by an exhausted frame. */
  predicate Ready(calls: seq<Frame>) {
    calls == [] || Exhausted(calls[|calls| - 1])
  }

  /** `m` is the stopped machine that a call with outcome `o` leaves behind. */
  ghost predicate Finished(o: Outcome, m: Machine, calls: seq<Frame>) {
    match o
    case Ret(s) => m.Halted? && m.st.stack == s && Ready(m.st.calls) && |m.st.calls| == |calls|
    case Halt(s) => m.Halted? && m.st.stack == s && Ready(m.st.calls) && |m.st.calls| > |calls|
    case Trap(w) => m == Panicked(w)
    case _ => false
  }

  /** With nothing but a blocked frame left, the loop stops at once. */
  lemma ReadyStops(store: Store, stack: seq<i32>, calls: seq<Frame>)
    requires Ready(calls)
    ensures var m := Step(store, Running(State(stack, calls)));
      m.Halted? && m.st.stack == stack && Ready(m.st.calls) && |m.st.calls| == |calls|
  {
    hide Perform;
    if calls != [] {
      var k := |calls| - 1;
      assert calls == calls[..k] + [calls[k]];
      StepPastEnd(store, stack, calls[..k], calls[k]);
    }
  }

  /** A call whose outcome is known stops the machine in the state it tells. */
  lemma CallFinishes(store: Store, fuel: nat, idx: nat, args: seq<i32>, calls: seq<Frame>) returns (n: nat)
    requires Ready(calls) && Invoke(store, fuel, idx, args) != NoFuel
    ensures Finished(Invoke(store, fuel, idx, args), Steps(store, n, EnterIdx(store, idx, args, calls)), calls)
    ensures n <= CallTurns(store, fuel) + 1
  {
    hide Invoke, EnterIdx, Step, CallTurns;
    n := SimulatesCall(store, fuel, idx, calls, args);
    var o := Invoke(store, fuel, idx, args);
    if o.Ret? {
      var start := EnterIdx(store, idx, args, calls);
      ReadyStops(store, o.stack, calls);
      StepsAdd(store, n, 1, start);
      assert Steps(store, 1, Steps(store, n, start)) == Step(store, Steps(store, n, start));
      n := n + 1;
    }
  }

  /** Every run of a call that stops within `n` turns has a known outcome with any
      fuel above `n`, and stops in the state that outcome tells. */
  lemma EveryRunHasItsMeaning(store: Store, n: nat, fuel: nat, idx: nat, args: seq<i32>, calls: seq<Frame>)
    requires Ready(calls) && n < fuel
    requires !Steps(store, n, EnterIdx(store, idx, args, calls)).Running?
    ensures Finished(Invoke(store, fuel, idx, args), Steps(store, n, EnterIdx(store, idx, args, calls)), calls)
  {
    hide Invoke, EnterIdx, Step;
    var start := EnterIdx(store, idx, args, calls);
    var o := Invoke(store, fuel, idx, args);
    if o == NoFuel {
      var k := SimulatesCall(store, fuel, idx, calls, args);
      StepsAdd(store, n, k - n, start);
      StoppedStays(store, k - n, Steps(store, n, start));
      assert false;
    }
    var k := CallFinishes(store, fuel, idx, args, calls);
    FinalStateUnique(store, k, n, start);
  }

  /** More fuel never changes a known outcome. */
  lemma FuelIrrelevant(store: Store, f1: nat, f2: nat, idx: nat, args: seq<i32>)
    requires Invoke(store, f1, idx, args) != NoFuel && Invoke(store, f2, idx, args) != NoFuel
    ensures Invoke(store, f1, idx, args) == Invoke(store, f2, idx, args)
  {
    hide Invoke, EnterIdx, Step;
    var a := CallFinishes(store, f1, idx, args, []);
    var b := CallFinishes(store, f2, idx, args, []);
    FinalStateUnique(store, a, b, EnterIdx(store, idx, args, []));
  }

  // ----- termination over acyclic call graphs -----

  /** Ranks that go down along every call found in the instructions. */
  ghost predicate Acyclic(store: Store, rank: nat -> nat) {
    forall g, k :: 0 <= g < |store| && 0 <= k < |store[g].body| && store[g].body[k].Call? ==>
      rank(store[g].body[k].func) < rank(g)
  }

  ghost predicate CallsBelow(c: Code, rank: nat -> nat, r: nat) {
    match c
    case Nil => true
    case Op(op, rest) => (op.Call? ==> rank(op.func) < r) && CallsBelow(rest, rank, r)
    case Block(body, next) => CallsBelow(body, rank, r) && CallsBelow(next, rank, r)
    case OpenIf(tail) => CallsBelow(tail, rank, r)
  }

  lemma {:induction false} FoundCallsBelow(insts: seq<Instr>, pc: nat, c: Code, rank: nat -> nat, r: nat)
    requires Lies(insts, pc, c)
    requires forall k :: 0 <= k < |insts| && insts[k].Call? ==> rank(insts[k].func) < r
    ensures CallsBelow(c, rank, r)
    decreases c
  {
    hide Lies;
    LiesParts(insts, pc, c);
    match c
    case Nil =>
    case Op(op, rest) => FoundCallsBelow(insts, pc + 1, rest, rank, r);
    case Block(body, next) =>
      FoundCallsBelow(insts, pc + 1, body, rank, r);
      FoundCallsBelow(insts, pc + 2 + Size(body), next, rank, r);
    case OpenIf(tail) => FoundCallsBelow(insts, pc + 1, tail, rank, r);
  }

  lemma {:induction false} RankIsFuel(
    store: Store, rank: nat -> nat, fuel: nat, c: Code, closed: bool, ctx: Ctx, stack: seq<i32>)
    requires Acyclic(store, rank) && CallsBelow(c, rank, fuel)
    ensures Exec(store, fuel, c, closed, ctx, stack) != NoFuel
    decreases fuel, 0, c
  {
    match c
    case Nil =>
    case Op(op, rest) =>
      if op.Call? {
        var o := Invoke(store, fuel - 1, op.func, stack);
        RankIsFuelCall(store, rank, fuel - 1, op.func, stack);
        if o.Ret? {
          RankIsFuel(store, rank, fuel, rest, closed, ctx, o.stack);
        }
      } else if IsSimple(op) {
        var r := Simple(op, ctx.locals, stack);
        if r.Ok? {
          RankIsFuel(store, rank, fuel, rest, closed, ctx, r.val);
        }
      }
    case Block(body, next) =>
      if stack != [] {
        var s := stack[..|stack| - 1];
        RankIsFuel(store, rank, fuel, body, true, ctx, s);
        RankIsFuel(store, rank, fuel, next, closed, ctx, s);
        var first := if stack[|stack| - 1] != 0 then Exec(store, fuel, body, true, ctx, s)
                     else Exec(store, fuel, next, closed, ctx, s);
        if first.Fall? && |s| <= |first.stack| {
          RankIsFuel(store, rank, fuel, next, closed, ctx, first.stack[..|s|]);
        }
      }
    case OpenIf(_) =>
  }

  lemma {:induction false} RankIsFuelCall(store: Store, rank: nat -> nat, fuel: nat, f: nat, stack: seq<i32>)
    requires Acyclic(store, rank) && rank(f) <= fuel
    ensures Invoke(store, fuel, f, stack) != NoFuel
    decreases fuel, 1
  {
    if f < |store| && store[f].params <= |stack| {
      var fr := NewFrame(store[f], stack);
      var p := Parse(fr.insts, 0);
      ParseStands(fr.insts, 0);
      FoundCallsBelow(fr.insts, 0, p.code, rank, fuel);
      RankIsFuel(store, rank, fuel, p.code, p.closed, CtxOf(fr), stack[..fr.sp]);
    }
  }

  /** Over an acyclic call graph every call terminates, whatever its
      instructions are and however often an `End` jumps back, within a number of
      turns that the code and the rank give. */
  lemma AcyclicCallsTerminate(store: Store, rank: nat -> nat, idx: nat, args: seq<i32>, calls: seq<Frame>)
    returns (n: nat)
    requires Acyclic(store, rank) && Ready(calls)
    ensures !Steps(store, n, EnterIdx(store, idx, args, calls)).Running?
    ensures n <= CallTurns(store, rank(idx)) + 1
  {
    hide Acyclic, Invoke, EnterIdx, Steps, CallTurns;
    RankIsFuelCall(store, rank, rank(idx), idx, args);
    n := CallFinishes(store, rank(idx), idx, args, calls);
  }

  lemma TurnsGrow(b: nat, m: nat)
    requires 1 <= b && 1 <= m
    ensures Pow2(b) + 2 * Pow2(m) <= Pow2(b + m + 1)
  {
    hide Pow2;
    Pow2Sum(b, m);
    Pow2Next(b + m);
    Pow2Next(b - 1);
    Pow2Next(m - 1);
    Product(Pow2(b), Pow2(m));
  }

  lemma Product(x: nat, y: nat)
    requires 2 <= x && 2 <= y
    ensures 2 * x <= x * y && 2 * y <= x * y
  {
    Scale(x, 2, y);
    Scale(y, 2, x);
  }

  lemma {:induction false} Pow2Sum(a: nat, b: nat)
    ensures Pow2(a + b) == Pow2(a) * Pow2(b)
    decreases b
  {
    if b > 0 {
      Pow2Sum(a, b - 1);
      Pow2Next(a + b - 1);
      Pow2Next(b - 1);
      assert Pow2(a) * (2 * Pow2(b - 1)) == 2 * (Pow2(a) * Pow2(b - 1));
    }
  }

  lemma Scale(k: nat, a: nat, b: nat)
    requires a <= b
    ensures k * a <= k * b
  {
  }

  /** Code of size `s` takes at most `call + 2` times 2^(s + 1) turns. */
  lemma {:induction false} TurnsBound(c: Code, call: nat)
    ensures Turns(c, call) <= (call + 2) * (Pow2(Size(c) + 1) - 1)
    decreases c
  {
    hide Turns, Pow2, Size;
    TurnsParts(c, call);
    SizeParts(c);
    var k := call + 2;
    match c
    case Nil => Pow2Next(0); Pow2Small();
    case Op(_, rest) =>
      TurnsBound(rest, call);
      Pow2Next(Size(rest) + 1);
      Scale(k, Pow2(Size(rest) + 1), Pow2(Size(c) + 1) - 1);
      assert k * (Pow2(Size(rest) + 1) - 1) == k * Pow2(Size(rest) + 1) - k;
    case Block(body, next) =>
      TurnsBound(body, call);
      TurnsBound(next, call);
      var x, y := Pow2(Size(body) + 1), Pow2(Size(next) + 1);
      TurnsGrow(Size(body) + 1, Size(next) + 1);
      BlockBound(k, x, y, Pow2(Size(c) + 1));
    case OpenIf(tail) =>
      Pow2Next(Size(c));
      Scale(k, 1, Pow2(Size(c) + 1) - 1);
  }

  lemma BlockBound(k: nat, x: nat, y: nat, z: nat)
    requires 2 <= k && 1 <= x && 1 <= y && x + 2 * y <= z
    ensures 2 + k * (x - 1) + 2 * (k * (y - 1)) <= k * (z - 1)
  {
    Scale(k, x + 2 * y - 2, z - 1);
    assert k * (x + 2 * y - 2) == k * (x - 1) + 2 * (k * (y - 1)) + k;
  }

  lemma {:induction false} Pow2Grows(a: nat, b: nat)
    requires a <= b
    ensures Pow2(a) <= Pow2(b)
    decreases b
  {
    if a < b {
      Pow2Grows(a, b - 1);
    }
  }

  ghost predicate BodiesWithin(store: Store, s: nat) {
    forall f :: 0 <= f < |store| ==> |store[f].body| <= s
  }

  lemma {:induction false} MostTurnsBound(store: Store, call: nat, s: nat)
    requires BodiesWithin(store, s)
    ensures MostTurns(store, call) <= (call + 2) * (Pow2(s + 1) - 1)
    decreases |store|
  {
    hide Turns, Parse, Pow2;
    if store != [] {
      var k := |store| - 1;
      MostTurnsBound(store[..k], call, s);
      var p := Parse(store[k].body, 0);
      ParseEnds(store[k].body);
      TurnsBound(p.code, call);
      Pow2Grows(Size(p.code) + 1, s + 1);
      Scale(call + 2, Pow2(Size(p.code) + 1) - 1, Pow2(s + 1) - 1);
    }
  }

  lemma ParseEnds(insts: seq<Instr>)
    ensures Size(Parse(insts, 0).code) <= |insts|
  {
    hide Parse, StandsAt, Size;
    ParseStands(insts, 0);
  }

  /** With bodies of at most `s` instructions, a call of rank `r` takes fewer than
      2^((s + 2)(r + 1) + 1) turns. */
  lemma {:induction false} CallTurnsBound(store: Store, r: nat, s: nat)
    requires BodiesWithin(store, s)
    ensures CallTurns(store, r) + 2 <= Pow2((s + 2) * (r + 1) + 1)
    decreases r
  {
    hide MostTurns, Pow2, BodiesWithin;
    var inner := InnerTurns(store, r);
    MostTurnsBound(store, inner, s);
    if r == 0 {
      assert (s + 2) * 0 == 0;
      Pow2Next(0);
      Pow2Small();
    } else {
      CallTurnsBound(store, r - 1, s);
      InnerIs(store, r);
    }
    var e := (s + 2) * r + 1;
    assert inner + 2 <= Pow2(e);
    Pow2Next(s + 1);
    Pow2Sum(e, s + 2);
    assert e + (s + 2) == (s + 2) * (r + 1) + 1;
    OneMoreLevel(inner + 2, Pow2(s + 1), Pow2(e));
  }

  lemma InnerIs(store: Store, r: nat)
    requires 0 < r
    ensures InnerTurns(store, r) == CallTurns(store, r - 1)
  {
  }

  lemma OneMoreLevel(k: nat, p: nat, q: nat)
    requires 2 <= k <= q && 1 <= p
    ensures 3 + k * (p - 1) <= q * (2 * p)
  {
    Scale(2 * p, k, q);
    assert k * (p - 1) == k * p - k && k * (2 * p) == 2 * (k * p);
    Scale(k, 1, p);
  }

  /** Whatever earlier calls left on the call stack, a call that stops gives the
      same panic, or the same operands and again a blocked or empty call stack. */
  lemma HistoryIndependent(
    store: Store, n1: nat, n2: nat, idx: nat, args: seq<i32>, calls1: seq<Frame>, calls2: seq<Frame>)
    requires Ready(calls1) && Ready(calls2)
    requires !Steps(store, n1, EnterIdx(store, idx, args, calls1)).Running?
    requires !Steps(store, n2, EnterIdx(store, idx, args, calls2)).Running?
    ensures var m1 := Steps(store, n1, EnterIdx(store, idx, args, calls1));
      var m2 := Steps(store, n2, EnterIdx(store, idx, args, calls2));
      && (m1.Panicked? || m2.Panicked? ==> m1 == m2)
      && (m1.Halted? && m2.Halted? ==>
            && m1.st.stack == m2.st.stack && Ready(m1.st.calls) && Ready(m2.st.calls)
            && (|m1.st.calls| == |calls1| <==> |m2.st.calls| == |calls2|))
  {
    hide Invoke, EnterIdx, Steps, Ready;
    var fuel := n1 + n2 + 1;
    EveryRunHasItsMeaning(store, n1, fuel, idx, args, calls1);
    EveryRunHasItsMeaning(store, n2, fuel, idx, args, calls2);
  }

  // ----- closed programs -----

  predicate ClosedStore(store: Store) {
    forall f :: 0 <= f < |store| ==> Parse(store[f].body, 0).closed
  }

  lemma {:induction false} ClosedCodeNeverHalts(store: Store, fuel: nat, c: Code, ctx: Ctx, stack: seq<i32>)
    requires ClosedStore(store)
    ensures !Exec(store, fuel, c, true, ctx, stack).Halt?
    decreases fuel, 0, c
  {
    hide ClosedStore, Simple;
    match c
    case Nil =>
    case Op(op, rest) =>
      if op.Call? && fuel > 0 {
        var o := Invoke(store, fuel - 1, op.func, stack);
        ClosedCallsNeverHalt(store, fuel - 1, op.func, stack);
        if o.Ret? {
          ClosedCodeNeverHalts(store, fuel, rest, ctx, o.stack);
        }
      } else if IsSimple(op) {
        var r := Simple(op, ctx.locals, stack);
        if r.Ok? {
          ClosedCodeNeverHalts(store, fuel, rest, ctx, r.val);
        }
      }
    case Block(body, next) =>
      if stack != [] {
        var s := stack[..|stack| - 1];
        ClosedCodeNeverHalts(store, fuel, body, ctx, s);
        ClosedCodeNeverHalts(store, fuel, next, ctx, s);
        var first := if stack[|stack| - 1] != 0 then Exec(store, fuel, body, true, ctx, s)
                     else Exec(store, fuel, next, true, ctx, s);
        ExecBlock(store, fuel, body, next, true, ctx, stack, first);
        if first.Fall? && |s| <= |first.stack| {
          ClosedCodeNeverHalts(store, fuel, next, ctx, first.stack[..|s|]);
        }
      }
    case OpenIf(_) =>
  }

  /** When every function has its closing `End`, a call that stops without a panic
      leaves the call stack as it found it. */
  lemma {:induction false} ClosedCallsNeverHalt(store: Store, fuel: nat, f: nat, stack: seq<i32>)
    requires ClosedStore(store)
    ensures !Invoke(store, fuel, f, stack).Halt?
    decreases fuel, 1
  {
    hide Exec, Parse;
    if f < |store| && store[f].params <= |stack| {
      var fr := NewFrame(store[f], stack);
      ClosedCodeNeverHalts(store, fuel, Parse(fr.insts, 0).code, CtxOf(fr), stack[..fr.sp]);
    }
  }
}
