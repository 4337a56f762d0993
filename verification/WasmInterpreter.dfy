/** The interpreter as an object whose methods update its stacks. */
module WasmInterpreter {
  import opened Wrappers
  import opened WasmCode
  import opened WasmMachine
  import opened WasmRerun
  import opened WasmRuntime
  import opened WasmStructured

  datatype Turn = Continue | Break | Panicking(why: Panic)

  /** The machine after a turn that left `st` in the interpreter's fields. */
  function After(t: Turn, st: State): Machine {
    match t
    case Continue => Running(st)
    case Break => Halted(st)
    case Panicking(w) => Panicked(w)
  }

  class Runtime {
    const store: Store
    var stack: seq<i32>
    var calls: seq<Frame>

    constructor (store: Store)
      ensures this.store == store && stack == [] && calls == []
    {
      this.store := store;
      stack, calls := [], [];
    }

    ghost function St(): State
      reads this
    {
      State(stack, calls)
    }

    method StackUnwind(sp: nat, arity: nat) returns (t: Turn)
      modifies this`stack
      ensures match Unwind(old(stack), sp, arity)
        case Ok(s) => t == Continue && stack == s
        case Fail(w) => t == Panicking(w)
    {
      if arity > 0 {
        if stack == [] {
          return Panicking(MissingValue);
        }
        var val := stack[|stack| - 1];
        stack := stack[..|stack| - 1];
        if sp > |stack| {
          return Panicking(BadDrain);
        }
        stack := stack[..sp];
        stack := stack + [val];
      } else {
        if sp > |stack| {
          return Panicking(BadDrain);
        }
        stack := stack[..sp];
      }
      return Continue;
    }

    method PushFrame(func: Func) returns (t: Turn)
      modifies this
      ensures After(t, St()) == Enter(func, old(stack), old(calls))
    {
      if |stack| < func.params {
        return Panicking(MissingArgs);
      }
      var bottom := |stack| - func.params;
      var locals := stack[bottom..];
      stack := stack[..bottom];
      for i := 0 to func.locals
        invariant locals == old(stack)[bottom..] + Zeros(i)
        invariant stack == old(stack)[..bottom] && calls == old(calls)
      {
        locals := locals + [0];
        assert Zeros(i) + [0] == Zeros(i + 1);
      }
      calls := calls + [Frame(-1, |stack|, func.body, func.results, [], locals)];
      return Continue;
    }

    method Operate(i: Instr, locals: seq<i32>) returns (t: Turn)
      requires IsSimple(i)
      modifies this`stack
      ensures match Simple(i, locals, old(stack))
        case Ok(s) => t == Continue && stack == s
        case Fail(w) => t == Panicking(w)
    {
      t := Continue;
      if i.Const? {
        stack := stack + [i.val];
      } else if i.LocalGet? {
        if i.idx >= |locals| {
          return Panicking(MissingLocal);
        }
        stack := stack + [locals[i.idx]];
      } else {
        if |stack| < 2 {
          return Panicking(MissingValue);
        }
        var rhs, lhs := stack[|stack| - 1], stack[|stack| - 2];
        stack := stack[..|stack| - 2];
        var r := Arith(i, lhs, rhs);
        if r.Fail? {
          return Panicking(r.why);
        }
        stack := stack + [r.val];
      }
    }

    /** One instruction of the top frame `fr`, whose `pc` points at it. */
    method Instruction(i: Instr, ghost below: seq<Frame>, fr: Frame) returns (t: Turn)
      requires 0 <= fr.pc < |fr.insts| && calls == below + [fr]
      modifies this
      ensures After(t, St()) == Perform(store, i, old(stack), below, fr)
    {
      hide Parse, Enter, Unwind;
      var top := |calls| - 1;
      assert calls[..top] == below;
      match i
      case Call(f) =>
        if f >= |store| {
          return Panicking(MissingFunc);
        }
        t := PushFrame(store[f]);
      case If =>
        if stack == [] {
          return Panicking(MissingValue);
        }
        var cond := stack[|stack| - 1];
        stack := stack[..|stack| - 1];
        var end := GetEndAddr(fr.insts, fr.pc);
        if end == None {
          return Panicking(MissingEnd);
        }
        var pc := if cond == 0 then end.value else fr.pc;
        calls := calls[top := fr.(pc := pc, labels := fr.labels + [Label(end.value, |stack|, 0)])];
        t := Continue;
      case Return =>
        calls := calls[..top];
        t := StackUnwind(fr.sp, fr.arity);
      case End =>
        if fr.labels == [] {
          calls := calls[..top];
          t := StackUnwind(fr.sp, fr.arity);
        } else {
          var last := |fr.labels| - 1;
          var popped := fr.labels[last];
          calls := calls[top := fr.(pc := popped.pc, labels := fr.labels[..last])];
          t := StackUnwind(popped.sp, popped.arity);
        }
      case _ =>
        t := Operate(i, fr.locals);
    }

    /** Runs to the end of a run that stops within `n` turns. */
    method Execute(ghost n: nat) returns (t: Turn)
      requires !Steps(store, n, Running(St())).Running?
      modifies this
      ensures t != Continue && After(t, St()) == old(Steps(store, n, Running(St())))
    {
      hide Perform;
      ghost var left := n;
      ghost var final := Steps(store, n, Running(St()));
      t := Continue;
      while t == Continue
        invariant t == Continue ==> Steps(store, left, Running(St())) == final
        invariant t != Continue ==> After(t, St()) == final
        decreases left
      {
        ghost var next := Step(store, Running(St()));
        if !next.Running? {
          StoppedStays(store, left - 1, next);
        }
        left := left - 1;
        if calls == [] {
          t := Break;
        } else {
          var top := |calls| - 1;
          var fr := calls[top];
          fr := fr.(pc := fr.pc + 1);
          ghost var below := calls[..top];
          calls := calls[..top] + [fr];
          if 0 <= fr.pc < |fr.insts| {
            t := Instruction(fr.insts[fr.pc], below, fr);
          } else {
            t := Break;
          }
        }
      }
    }

    /** Runs function `func` on the operands on the stack. */
    method Invoke(func: Func, ghost n: nat) returns (r: CallResult)
      requires !Steps(store, n, Enter(func, stack, calls)).Running?
      modifies this
      ensures match old(Steps(store, n, Enter(func, stack, calls)))
        case Panicked(w) => r == Panics(w)
        case Halted(st) => calls == st.calls && r == TopOf(func.results, st.stack)
        case _ => false
    {
      ghost var start := Enter(func, stack, calls);
      var t := PushFrame(func);
      if t.Panicking? {
        StoppedStays(store, n, start);
        return Panics(t.why);
      }
      t := Execute(n);
      if t.Panicking? {
        return Panics(t.why);
      }
      if func.results > 0 {
        if stack == [] {
          return Panics(MissingValue);
        }
        var val := stack[|stack| - 1];
        stack := stack[..|stack| - 1];
        return Value(Some(val));
      }
      return Value(None);
    }

    /** For every call that stops: its result is the meaning of the call, which
        does not mention the interpreter's state, and unless it panics the next
        call finds the interpreter ready again. */
    method Call(idx: nat, args: seq<i32>, ghost n: nat) returns (r: CallResult)
      requires Ready(calls)
      requires !Steps(store, n, EnterIdx(store, idx, args, calls)).Running?
      modifies this
      ensures r != Deeper && r == CallMeaning(store, n + 1, idx, args)
      ensures !r.Panics? ==> Ready(calls)
      ensures !r.Panics? ==>
        (|calls| == |old(calls)| <==> WasmRerun.Invoke(store, n + 1, idx, args).Ret?)
      ensures SafeStore(store) && idx < |store| && store[idx].params <= |args| ==>
        r == Answer(store[idx].results, EvalCall(store, n + 1, idx, args[|args| - store[idx].params..]))
    {
      hide SafeStore, EvalCall, Answer;
      SafeCallAnswers(store, n + 1, idx, args);
      hide Steps, WasmRerun.Invoke;
      stack := [];
      if idx >= |store| {
        return Panics(MissingFunc);
      }
      EveryRunHasItsMeaning(store, n, n + 1, idx, args, calls);
      for i := 0 to |args|
        invariant stack == args[..i] && calls == old(calls)
      {
        stack := stack + [args[i]];
      }
      assert stack == args;
      r := this.Invoke(store[idx], n);
    }
  }
}
