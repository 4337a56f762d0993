/** Every step of the flat machine on checked functions, also in calls that never return:
    the operands of all frames below the running one are untouched, frames lie in order
    on the operand stack, and the only panic is overflow. */
module WasmSafety {
  import opened Wrappers
  import opened WasmCode
  import opened WasmMachine
  import opened WasmRerun
  import opened WasmRuntime
  import opened WasmStructured

  /** A frame with `h` operands and these labels can go on at address `pc`: the code there
      passes the check, and if it comes to its end, so does what follows that `End`. */
  ghost predicate Goes(
    store: Store, sig: Sig, insts: seq<Instr>, pc: nat, labels: seq<Label>, sp: nat, h: nat)
    decreases |labels|, 2
  {
    exists floor: nat :: GoesFrom(store, sig, insts, pc, labels, sp, h, floor)
  }

  ghost predicate GoesFrom(
    store: Store, sig: Sig, insts: seq<Instr>, pc: nat, labels: seq<Label>, sp: nat, h: nat, floor: nat)
    decreases |labels|, 1
  {
    pc <= |insts| && floor <= h &&
    EndsWell(store, sig, insts, labels, sp, Parse(insts, pc).closed,
             Check(store, sig, Parse(insts, pc).code, floor, h))
  }

  ghost predicate EndsWell(
    store: Store, sig: Sig, insts: seq<Instr>, labels: seq<Label>, sp: nat, closed: bool, end: Height)
    decreases |labels|, 0
  {
    end == Dead ||
    (end.At? && closed &&
     if labels == [] then end.n == sig.arity
     else
       var k := |labels| - 1;
       var l := labels[k];
       l.arity == 0 && sp <= l.sp <= sp + end.n && Goes(store, sig, insts, l.pc + 1, labels[..k], sp, l.sp - sp))
  }

  lemma {:induction false} CheckAbove(store: Store, sig: Sig, c: Code, floor: nat, h: nat)
    requires floor <= h && Check(store, sig, c, floor, h).At?
    ensures floor <= Check(store, sig, c, floor, h).n
    decreases c
  {
    match c
    case Nil =>
    case Op(op, rest) =>
      CheckAbove(store, sig, rest, floor, OpHeight(store, sig, op, floor, h).n);
    case Block(body, next) =>
      CheckAbove(store, sig, next, h - 1, h - 1);
  }

  // ----- one instruction -----

  lemma GoesNotPast(store: Store, sig: Sig, insts: seq<Instr>, pc: nat, labels: seq<Label>, sp: nat, h: nat)
    requires Goes(store, sig, insts, pc, labels, sp, h)
    ensures pc < |insts|
  {
    var floor: nat :| GoesFrom(store, sig, insts, pc, labels, sp, h, floor);
    if pc == |insts| {
      AtIsClosed(store, sig, insts, labels, sp, Parse(insts, pc).closed, At(h));
    }
  }

  lemma GoesOp(store: Store, sig: Sig, insts: seq<Instr>, pc: nat, labels: seq<Label>, sp: nat, h: nat)
    returns (floor: nat)
    requires Goes(store, sig, insts, pc, labels, sp, h) && pc < |insts| && insts[pc] != If && insts[pc] != End
    ensures floor <= h
    ensures var k := OpHeight(store, sig, insts[pc], floor, h);
      && k != Bad
      && (k.At? ==> floor <= k.n && Goes(store, sig, insts, pc + 1, labels, sp, k.n))
  {
    hide EndsWell;
    floor :| GoesFrom(store, sig, insts, pc, labels, sp, h, floor);
    var k := OpHeight(store, sig, insts[pc], floor, h);
    BadEndsBadly(store, sig, insts, labels, sp, Parse(insts, pc).closed);
    if k.At? {
      assert GoesFrom(store, sig, insts, pc + 1, labels, sp, k.n, floor);
    }
  }

  lemma BadEndsBadly(store: Store, sig: Sig, insts: seq<Instr>, labels: seq<Label>, sp: nat, closed: bool)
    ensures !EndsWell(store, sig, insts, labels, sp, closed, Bad)
  {
  }

  lemma GoesEnd(store: Store, sig: Sig, insts: seq<Instr>, pc: nat, labels: seq<Label>, sp: nat, h: nat)
    requires Goes(store, sig, insts, pc, labels, sp, h) && pc < |insts| && insts[pc] == End
    ensures EndsWell(store, sig, insts, labels, sp, true, At(h))
  {
    hide EndsWell;
  }

  /** Behind an `If`, entered or not, with the label that it pushes. */
  lemma GoesIf(store: Store, sig: Sig, insts: seq<Instr>, pc: nat, labels: seq<Label>, sp: nat, h: nat)
    returns (end: nat)
    requires Goes(store, sig, insts, pc, labels, sp, h) && pc < |insts| && insts[pc] == If
    ensures 0 < h && MatchingEnd(insts, pc) == Some(end)
    ensures var labels' := labels + [Label(end, sp + h - 1, 0)];
      && Goes(store, sig, insts, pc + 1, labels', sp, h - 1)
      && Goes(store, sig, insts, end + 1, labels', sp, h - 1)
  {
    hide EndsWell, Check;
    var floor: nat :| GoesFrom(store, sig, insts, pc, labels, sp, h, floor);
    BadEndsBadly(store, sig, insts, labels, sp, Parse(insts, pc).closed);
    var b := Parse(insts, pc + 1);
    OpenIfIsBad(store, sig, b.code, floor, h);
    assert b.closed;
    end := b.end;
    var r := Parse(insts, end + 1);
    CheckBlock(store, sig, b.code, r.code, floor, h);
    var floor' := if Check(store, sig, r.code, floor, h - 1) == Dead then floor else h - 1;
    assert GoesFrom(store, sig, insts, end + 1, labels, sp, h - 1, floor');
    LabelPushed(store, sig, insts, end, labels, sp, h - 1, b.closed, Check(store, sig, b.code, h - 1, h - 1));
    assert GoesFrom(store, sig, insts, pc + 1, labels + [Label(end, sp + h - 1, 0)], sp, h - 1, h - 1);
    var c := Check(store, sig, r.code, floor', h - 1);
    if c.At? {
      CheckAbove(store, sig, r.code, floor', h - 1);
      AtIsClosed(store, sig, insts, labels, sp, r.closed, c);
    }
    LabelPushed(store, sig, insts, end, labels, sp, h - 1, r.closed, c);
    assert GoesFrom(store, sig, insts, end + 1, labels + [Label(end, sp + h - 1, 0)], sp, h - 1, floor');
  }

  lemma OpenIfIsBad(store: Store, sig: Sig, c: Code, floor: nat, h: nat)
    ensures Check(store, sig, OpenIf(c), floor, h) == Bad
  {
  }

  lemma AtIsClosed(store: Store, sig: Sig, insts: seq<Instr>, labels: seq<Label>, sp: nat, closed: bool, c: Height)
    requires EndsWell(store, sig, insts, labels, sp, closed, c) && c.At?
    ensures closed
  {
  }

  lemma LabelPushed(
    store: Store, sig: Sig, insts: seq<Instr>, end: nat, labels: seq<Label>, sp: nat, h: nat, closed: bool, c: Height)
    requires Goes(store, sig, insts, end + 1, labels, sp, h) && c != Bad && (c.At? ==> closed && h <= c.n)
    ensures EndsWell(store, sig, insts, labels + [Label(end, sp + h, 0)], sp, closed, c)
  {
    var labels' := labels + [Label(end, sp + h, 0)];
    assert labels'[..|labels|] == labels;
  }

  // ----- the frames on the operand stack -----

  ghost predicate FrameOk(store: Store, fr: Frame, h: nat) {
    fr.pc >= -1 && fr.arity <= 1 &&
    Goes(store, Sig(|fr.locals|, fr.arity), fr.insts, fr.pc + 1, fr.labels, fr.sp, h)
  }

  /** The frames lie one above the other over the lowest `bottom` operands, the last one
      up to `top`.  Each of the others can go on once the one above has left its result. */
  ghost predicate Chain(store: Store, frames: seq<Frame>, bottom: nat, top: nat)
    decreases |frames|
  {
    bottom <= top &&
    (frames != [] ==>
       var k := |frames| - 1;
       var fr := frames[k];
       && bottom <= fr.sp <= top && (k > 0 ==> frames[k - 1].sp <= fr.sp)
       && FrameOk(store, fr, top - fr.sp) && Chain(store, frames[..k], bottom, fr.sp + fr.arity))
  }

  lemma ChainPush(store: Store, frames: seq<Frame>, fr: Frame, bottom: nat, top: nat)
    requires bottom <= fr.sp <= top && FrameOk(store, fr, top - fr.sp)
    requires Chain(store, frames, bottom, fr.sp + fr.arity) && (frames != [] ==> frames[|frames| - 1].sp <= fr.sp)
    ensures Chain(store, frames + [fr], bottom, top)
  {
    hide FrameOk;
    assert (frames + [fr])[..|frames|] == frames;
  }

  lemma ChainTop(store: Store, rest: seq<Frame>, fr: Frame, bottom: nat, top: nat)
    requires Chain(store, rest + [fr], bottom, top)
    ensures bottom <= fr.sp <= top && FrameOk(store, fr, top - fr.sp)
    ensures Chain(store, rest, bottom, fr.sp + fr.arity) && (rest != [] ==> rest[|rest| - 1].sp <= fr.sp)
  {
    hide FrameOk;
    assert (rest + [fr])[..|rest|] == rest;
  }

  /** A running machine over `frames`, which lie above `calls`. */
  ghost predicate RunsSafely(store: Store, st: State, base: seq<i32>, calls: seq<Frame>, frames: seq<Frame>) {
    base <= st.stack && st.calls == calls + frames && Chain(store, frames, |base|, |st.stack|)
  }

  /** What a turn from a machine with top frame `fr` may lead to. */
  ghost predicate StepsSafely(
    store: Store, m: Machine, stack: seq<i32>, base: seq<i32>, calls: seq<Frame>, sp: nat)
    requires sp <= |stack|
  {
    match m
    case Panicked(w) => w == Overflow
    case Halted(_) => false
    case Running(st) =>
      stack[..sp] <= st.stack && exists frames :: RunsSafely(store, st, base, calls, frames)
  }

  /** The state after a turn, given its stack and frames. */
  lemma StepsTo(
    store: Store, stack: seq<i32>, stack': seq<i32>, base: seq<i32>, calls: seq<Frame>, frames: seq<Frame>, sp: nat)
    requires |base| <= sp <= |stack| && base <= stack && stack[..sp] <= stack'
    requires Chain(store, frames, |base|, |stack'|)
    ensures StepsSafely(store, Running(State(stack', calls + frames)), stack, base, calls, sp)
  {
    hide Chain;
    assert base == stack[..|base|] == stack[..sp][..|base|] == stack'[..|base|];
    assert RunsSafely(store, State(stack', calls + frames), base, calls, frames);
  }

  lemma SafeSimple(store: Store, stack: seq<i32>, base: seq<i32>, calls: seq<Frame>, rest: seq<Frame>, fr: Frame)
    requires base <= stack && Chain(store, rest + [fr], |base|, |stack|)
    requires 0 <= fr.pc + 1 < |fr.insts| && IsSimple(fr.insts[fr.pc + 1])
    ensures fr.sp <= |stack|
    ensures StepsSafely(store, Step(store, Running(State(stack, calls + rest + [fr]))), stack, base, calls, fr.sp)
  {
    hide Goes, Step, Check, StepsSafely, Chain, Simple, Compute;
    ChainTop(store, rest, fr, |base|, |stack|);
    var i, h := fr.insts[fr.pc + 1], |stack| - fr.sp;
    var floor := GoesOp(store, Sig(|fr.locals|, fr.arity), fr.insts, fr.pc + 1, fr.labels, fr.sp, h);
    StepSimple(store, stack, calls + rest, fr);
    var below, ops := stack[..fr.sp], stack[fr.sp..];
    assert stack == below + ops;
    AgreesSimple(i, fr.locals, below, ops, 0);
    var r := Compute(i, fr.locals, ops);
    if r.Through? {
      var fr' := fr.(pc := fr.pc + 1);
      ChainPush(store, rest, fr', |base|, |below + r.ops|);
      assert calls + rest + [fr'] == calls + (rest + [fr']);
      StepsTo(store, stack, below + r.ops, base, calls, rest + [fr'], fr.sp);
    } else {
      PanicIsSafe(store, stack, base, calls, fr.sp);
    }
  }

  lemma PanicIsSafe(store: Store, stack: seq<i32>, base: seq<i32>, calls: seq<Frame>, sp: nat)
    requires sp <= |stack|
    ensures StepsSafely(store, Panicked(Overflow), stack, base, calls, sp)
  {
  }

  /** A frame that is left with enough operands for its result. */
  lemma SafeLeave(store: Store, stack: seq<i32>, base: seq<i32>, calls: seq<Frame>, rest: seq<Frame>, fr: Frame)
    requires base <= stack && Chain(store, rest + [fr], |base|, |stack|) && fr.sp + fr.arity <= |stack|
    ensures StepsSafely(store, Resume(Unwind(stack, fr.sp, fr.arity), calls + rest), stack, base, calls, fr.sp)
  {
    hide Goes, StepsSafely, Chain;
    ChainTop(store, rest, fr, |base|, |stack|);
    var r := Unwind(stack, fr.sp, fr.arity);
    StepsTo(store, stack, r.val, base, calls, rest, fr.sp);
  }

  lemma SafeReturn(store: Store, stack: seq<i32>, base: seq<i32>, calls: seq<Frame>, rest: seq<Frame>, fr: Frame)
    requires base <= stack && Chain(store, rest + [fr], |base|, |stack|)
    requires 0 <= fr.pc + 1 < |fr.insts| && fr.insts[fr.pc + 1] == Return
    ensures fr.sp <= |stack|
    ensures StepsSafely(store, Step(store, Running(State(stack, calls + rest + [fr]))), stack, base, calls, fr.sp)
  {
    hide Goes, Step, Check, StepsSafely, Chain;
    ChainTop(store, rest, fr, |base|, |stack|);
    var floor := GoesOp(store, Sig(|fr.locals|, fr.arity), fr.insts, fr.pc + 1, fr.labels, fr.sp, |stack| - fr.sp);
    StepAt(store, stack, calls + rest, fr);
    SafeLeave(store, stack, base, calls, rest, fr);
  }

  lemma SafeEnd(store: Store, stack: seq<i32>, base: seq<i32>, calls: seq<Frame>, rest: seq<Frame>, fr: Frame)
    requires base <= stack && Chain(store, rest + [fr], |base|, |stack|)
    requires 0 <= fr.pc + 1 < |fr.insts| && fr.insts[fr.pc + 1] == End
    ensures fr.sp <= |stack|
    ensures StepsSafely(store, Step(store, Running(State(stack, calls + rest + [fr]))), stack, base, calls, fr.sp)
  {
    hide Goes, Step, Check, StepsSafely, Chain;
    ChainTop(store, rest, fr, |base|, |stack|);
    GoesEnd(store, Sig(|fr.locals|, fr.arity), fr.insts, fr.pc + 1, fr.labels, fr.sp, |stack| - fr.sp);
    StepAt(store, stack, calls + rest, fr);
    if fr.labels == [] {
      SafeLeave(store, stack, base, calls, rest, fr);
    } else {
      var k := |fr.labels| - 1;
      var l := fr.labels[k];
      var fr' := fr.(pc := l.pc, labels := fr.labels[..k]);
      ChainPush(store, rest, fr', |base|, l.sp);
      assert calls + rest + [fr'] == calls + (rest + [fr']);
      StepsTo(store, stack, stack[..l.sp], base, calls, rest + [fr'], fr.sp);
    }
  }

  lemma SafeIf(store: Store, stack: seq<i32>, base: seq<i32>, calls: seq<Frame>, rest: seq<Frame>, fr: Frame)
    requires base <= stack && Chain(store, rest + [fr], |base|, |stack|)
    requires 0 <= fr.pc + 1 < |fr.insts| && fr.insts[fr.pc + 1] == If
    ensures fr.sp <= |stack|
    ensures StepsSafely(store, Step(store, Running(State(stack, calls + rest + [fr]))), stack, base, calls, fr.sp)
  {
    hide Goes, Step, Check, MatchingEnd, StepsSafely, Chain;
    ChainTop(store, rest, fr, |base|, |stack|);
    var end := GoesIf(store, Sig(|fr.locals|, fr.arity), fr.insts, fr.pc + 1, fr.labels, fr.sp, |stack| - fr.sp);
    StepIf(store, stack, calls + rest, fr, end);
    var s := stack[..|stack| - 1];
    var pc := if stack[|stack| - 1] == 0 then end else fr.pc + 1;
    var fr' := fr.(pc := pc, labels := fr.labels + [Label(end, |s|, 0)]);
    ChainPush(store, rest, fr', |base|, |s|);
    assert calls + rest + [fr'] == calls + (rest + [fr']);
    StepsTo(store, stack, s, base, calls, rest + [fr'], fr.sp);
  }

  /** A checked function can start on no operands. */
  lemma NewFrameOk(store: Store, f: nat, stack: seq<i32>)
    requires SafeStore(store) && f < |store| && store[f].params <= |stack|
    ensures var fr := NewFrame(store[f], stack);
      FrameOk(store, fr, 0) && fr.sp == |stack| - store[f].params && fr.arity == store[f].results
  {
    hide Check, Parse;
    var fr := NewFrame(store[f], stack);
    assert SafeFunc(store, store[f]);
    assert GoesFrom(store, SigOf(store[f]), fr.insts, 0, [], fr.sp, 0, 0);
  }

  lemma SafeCall(store: Store, stack: seq<i32>, base: seq<i32>, calls: seq<Frame>, rest: seq<Frame>, fr: Frame)
    requires SafeStore(store) && base <= stack && Chain(store, rest + [fr], |base|, |stack|)
    requires 0 <= fr.pc + 1 < |fr.insts| && fr.insts[fr.pc + 1].Call?
    ensures fr.sp <= |stack|
    ensures StepsSafely(store, Step(store, Running(State(stack, calls + rest + [fr]))), stack, base, calls, fr.sp)
  {
    hide FrameOk, Step, SafeStore, StepsSafely, Chain, NewFrame;
    var fr', new' := CalledFrames(store, rest, fr, |base|, stack);
    StepCall(store, stack, calls + rest, fr);
    CallStepsTo(store, stack, base, calls, rest, fr', new');
  }

  lemma CallStepsTo(
    store: Store, stack: seq<i32>, base: seq<i32>, calls: seq<Frame>, rest: seq<Frame>, fr: Frame, new': Frame)
    requires |base| <= fr.sp <= new'.sp <= |stack| && base <= stack
    requires Chain(store, rest + [fr] + [new'], |base|, new'.sp)
    ensures StepsSafely(store, Running(State(stack[..new'.sp], calls + rest + [fr] + [new'])), stack, base, calls, fr.sp)
  {
    hide Chain, StepsSafely;
    assert stack[..fr.sp] == stack[..new'.sp][..fr.sp];
    Regroup(calls, rest, fr, new');
    StepsTo(store, stack, stack[..new'.sp], base, calls, rest + [fr] + [new'], fr.sp);
  }

  /** The frames after a call. */
  lemma CalledFrames(store: Store, rest: seq<Frame>, fr: Frame, bottom: nat, stack: seq<i32>)
    returns (fr': Frame, new': Frame)
    requires SafeStore(store) && Chain(store, rest + [fr], bottom, |stack|)
    requires 0 <= fr.pc + 1 < |fr.insts| && fr.insts[fr.pc + 1].Call?
    ensures fr' == fr.(pc := fr.pc + 1) && bottom <= fr.sp <= new'.sp <= |stack|
    ensures var f := fr.insts[fr.pc + 1].func;
      && f < |store| && store[f].params <= |stack| && new' == NewFrame(store[f], stack)
      && new'.sp == |stack| - store[f].params
    ensures Chain(store, rest + [fr'] + [new'], bottom, new'.sp)
  {
    hide FrameOk, SafeStore, Chain, NewFrame;
    ChainTop(store, rest, fr, bottom, |stack|);
    var f, h := fr.insts[fr.pc + 1].func, |stack| - fr.sp;
    FrameAfterCall(store, fr, h);
    NewFrameOk(store, f, stack);
    fr' := fr.(pc := fr.pc + 1);
    new' := NewFrame(store[f], stack);
    assert new'.sp + new'.arity - fr'.sp == h - store[f].params + store[f].results;
    CalledChain(store, rest, fr', new', bottom);
  }

  lemma CalledChain(store: Store, rest: seq<Frame>, fr: Frame, new': Frame, bottom: nat)
    requires bottom <= fr.sp <= new'.sp && Chain(store, rest, bottom, fr.sp + fr.arity)
    requires rest != [] ==> rest[|rest| - 1].sp <= fr.sp
    requires FrameOk(store, fr, new'.sp + new'.arity - fr.sp) && FrameOk(store, new', 0)
    ensures Chain(store, rest + [fr] + [new'], bottom, new'.sp)
  {
    hide FrameOk, Chain;
    ChainPush(store, rest, fr, bottom, new'.sp + new'.arity);
    ChainPush(store, rest + [fr], new', bottom, new'.sp);
  }

  lemma Regroup(calls: seq<Frame>, rest: seq<Frame>, a: Frame, b: Frame)
    ensures calls + rest + [a] + [b] == calls + (rest + [a] + [b])
  {
  }

  /** The arguments are there, and with the result the frame can go on. */
  lemma FrameAfterCall(store: Store, fr: Frame, h: nat)
    requires FrameOk(store, fr, h) && 0 <= fr.pc + 1 < |fr.insts| && fr.insts[fr.pc + 1].Call?
    ensures var f := fr.insts[fr.pc + 1].func;
      && f < |store| && store[f].params <= h
      && FrameOk(store, fr.(pc := fr.pc + 1), h - store[f].params + store[f].results)
  {
    hide Goes, Check;
    var floor := GoesOp(store, Sig(|fr.locals|, fr.arity), fr.insts, fr.pc + 1, fr.labels, fr.sp, h);
  }

  lemma FrameNotPast(store: Store, fr: Frame, h: nat)
    requires FrameOk(store, fr, h)
    ensures 0 <= fr.pc + 1 < |fr.insts|
  {
    hide Goes;
    GoesNotPast(store, Sig(|fr.locals|, fr.arity), fr.insts, fr.pc + 1, fr.labels, fr.sp, h);
  }

  lemma IsSimpleOr(i: Instr)
    ensures i == If || i == End || i == Return || i.Call? || IsSimple(i)
  {
  }

  /** One turn: it changes no operand below the running frame, and panics only on
      overflow. */
  lemma StepIsSafe(store: Store, stack: seq<i32>, base: seq<i32>, calls: seq<Frame>, rest: seq<Frame>, fr: Frame)
    requires SafeStore(store) && base <= stack && Chain(store, rest + [fr], |base|, |stack|)
    ensures fr.sp <= |stack|
    ensures StepsSafely(store, Step(store, Running(State(stack, calls + (rest + [fr])))), stack, base, calls, fr.sp)
  {
    hide *;
    ChainTop(store, rest, fr, |base|, |stack|);
    FrameNotPast(store, fr, |stack| - fr.sp);
    assert calls + (rest + [fr]) == calls + rest + [fr];
    var i := fr.insts[fr.pc + 1];
    if i == If {
      SafeIf(store, stack, base, calls, rest, fr);
    } else if i == End {
      SafeEnd(store, stack, base, calls, rest, fr);
    } else if i == Return {
      SafeReturn(store, stack, base, calls, rest, fr);
    } else if i.Call? {
      SafeCall(store, stack, base, calls, rest, fr);
    } else {
      IsSimpleOr(i);
      SafeSimple(store, stack, base, calls, rest, fr);
    }
  }

  // ----- whole runs -----

  /** The machine during and after a call: the operands that were no arguments are kept,
      and the frames of the call lie in order above the call stack it started from. */
  ghost predicate SafeAt(store: Store, m: Machine, base: seq<i32>, calls: seq<Frame>) {
    match m
    case Panicked(w) => w == Overflow
    case Halted(st) => base <= st.stack && |st.calls| == |calls|
    case Running(st) => exists frames :: RunsSafely(store, st, base, calls, frames)
  }

  lemma StepKeepsSafe(store: Store, m: Machine, base: seq<i32>, calls: seq<Frame>)
    requires SafeStore(store) && Ready(calls) && SafeAt(store, m, base, calls)
    ensures SafeAt(store, Step(store, m), base, calls)
  {
    hide Chain, SafeStore, Step;
    if m.Running? {
      var frames :| RunsSafely(store, m.st, base, calls, frames);
      if frames == [] {
        LastTurn(store, m.st.stack, calls);
        assert calls + frames == calls;
      } else {
        var k := |frames| - 1;
        assert frames == frames[..k] + [frames[k]];
        StepIsSafe(store, m.st.stack, base, calls, frames[..k], frames[k]);
      }
    } else {
      StoppedTurn(store, m);
    }
  }

  lemma StoppedTurn(store: Store, m: Machine)
    requires !m.Running?
    ensures Step(store, m) == m
  {
  }

  lemma LastTurn(store: Store, stack: seq<i32>, calls: seq<Frame>)
    requires Ready(calls)
    ensures var m := Step(store, Running(State(stack, calls)));
      m.Halted? && m.st.stack == stack && |m.st.calls| == |calls|
  {
  }

  /** After any number of turns of a call of checked functions. */
  lemma {:induction false} EveryStepIsSafe(store: Store, n: nat, idx: nat, args: seq<i32>, calls: seq<Frame>)
    requires SafeStore(store) && idx < |store| && store[idx].params <= |args| && Ready(calls)
    ensures var m := Steps(store, n, EnterIdx(store, idx, args, calls));
      SafeAt(store, m, args[..|args| - store[idx].params], calls)
    decreases n
  {
    hide Chain, SafeStore, Step, Steps;
    var base, start := args[..|args| - store[idx].params], EnterIdx(store, idx, args, calls);
    if n == 0 {
      StepsZero(store, start);
      NewFrameOk(store, idx, args);
      var fr := NewFrame(store[idx], args);
      OneFrame(store, fr, |base|);
      assert RunsSafely(store, start.st, base, calls, [fr]);
    } else {
      EveryStepIsSafe(store, n - 1, idx, args, calls);
      StepsLast(store, n - 1, start);
      StepKeepsSafe(store, Steps(store, n - 1, start), base, calls);
    }
  }

  lemma OneFrame(store: Store, fr: Frame, bottom: nat)
    requires FrameOk(store, fr, 0) && fr.sp == bottom
    ensures Chain(store, [fr], bottom, bottom)
  {
    hide FrameOk;
    assert [fr] == [] + [fr];
    ChainPush(store, [], fr, bottom, bottom);
  }
}
