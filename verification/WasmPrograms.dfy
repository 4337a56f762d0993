/** Concrete programs: the two functions that draw the diamond, and a program that
    the static check rejects because the machine runs part of it twice. */
module WasmPrograms {
  import opened Wrappers
  import opened Bits
  import opened WasmCode
  import opened WasmMachine
  import opened WasmRerun
  import opened WasmRuntime
  import opened WasmStructured

  // ----- the diamond -----

  function SpaceBody(half: i32): seq<Instr> {
    [LocalGet(0), Const(half), I32Lts, If,
     Const(half), LocalGet(0), I32Sub, Return, End,
     LocalGet(0), Const(half), I32Sub, Return]
  }

  function StarBody(size: i32, half: i32): seq<Instr> {
    [LocalGet(0), Const(half), I32Lts, If,
     LocalGet(0), Const(2), I32Mul, Const(1), I32Add, Return, End,
     Const(size), Const(2), LocalGet(0), Const(half), I32Sub, I32Mul, I32Sub, Return]
  }

  function SpaceStore(size: i32): Store
    requires 0 <= size
  {
    [Func(1, 1, 0, SpaceBody(size / 2))]
  }

  function StarStore(size: i32): Store
    requires 0 <= size
  {
    [Func(1, 1, 0, StarBody(size, size / 2))]
  }

  function Difference(a: Instr, b: Instr): Code {
    Op(a, Op(b, Op(I32Sub, Op(Return, Nil))))
  }

  /** `if n < half { then } else`, as both functions start. */
  function Choice(half: i32, then_: Code, else_: Code): Code {
    Op(LocalGet(0), Op(Const(half), Op(I32Lts, Block(then_, else_))))
  }

  function SpaceCode(half: i32): Code {
    Choice(half, Difference(Const(half), LocalGet(0)), Difference(LocalGet(0), Const(half)))
  }

  function StarThen(): Code {
    Op(LocalGet(0), Op(Const(2), Op(I32Mul, Op(Const(1), Op(I32Add, Op(Return, Nil))))))
  }

  function StarElse(size: i32, half: i32): Code {
    Op(Const(size), Op(Const(2), Op(LocalGet(0), Op(Const(half),
      Op(I32Sub, Op(I32Mul, Op(I32Sub, Op(Return, Nil))))))))
  }

  function StarCode(size: i32, half: i32): Code {
    Choice(half, StarThen(), StarElse(size, half))
  }

  lemma FlatDifference(a: Instr, b: Instr)
    ensures Flatten(Difference(a, b)) == [a, b, I32Sub, Return]
    ensures a != If && a != End && b != If && b != End ==> Closed(Difference(a, b))
  {
    var c := Op(I32Sub, Op(Return, Nil));
    assert Flatten(c) == [I32Sub, Return] && Closed(c);
    assert Flatten(Op(b, c)) == [b, I32Sub, Return];
  }

  lemma {:induction false} FlatChoice(half: i32, then_: Code, else_: Code)
    requires Closed(then_) && Closed(else_)
    ensures Flatten(Choice(half, then_, else_))
         == [LocalGet(0), Const(half), I32Lts, If] + Flatten(then_) + [End] + Flatten(else_)
    ensures Wf(Choice(half, then_, else_))
  {
    hide Flatten;
    var b := Block(then_, else_);
    ClosedIsWf(else_);
    FlattenParts(b);
    FlattenParts(Op(I32Lts, b));
    FlattenParts(Op(Const(half), Op(I32Lts, b)));
    FlattenParts(Choice(half, then_, else_));
    assert Wf(Op(I32Lts, b));
  }

  lemma SpaceParses(half: i32)
    ensures Parse(SpaceBody(half), 0) == Parsed(SpaceCode(half), false, |SpaceBody(half)|)
  {
    hide Parse, Choice, Difference, Wf, Closed;
    var t, e := Difference(Const(half), LocalGet(0)), Difference(LocalGet(0), Const(half));
    FlatDifference(Const(half), LocalGet(0));
    FlatDifference(LocalGet(0), Const(half));
    FlatChoice(half, t, e);
    assert [] + Flatten(SpaceCode(half)) == SpaceBody(half);
    ParseUndoesFlattenOpen([], SpaceCode(half));
  }

  lemma FlatStarThen()
    ensures Flatten(StarThen()) == [LocalGet(0), Const(2), I32Mul, Const(1), I32Add, Return]
    ensures Closed(StarThen())
  {
    var c := Op(Const(1), Op(I32Add, Op(Return, Nil)));
    assert Flatten(Op(I32Add, Op(Return, Nil))) == [I32Add, Return] && Closed(Op(I32Add, Op(Return, Nil)));
    assert Flatten(c) == [Const(1), I32Add, Return] && Closed(c);
    assert Flatten(Op(I32Mul, c)) == [I32Mul, Const(1), I32Add, Return] && Closed(Op(I32Mul, c));
    assert Flatten(Op(Const(2), Op(I32Mul, c))) == [Const(2), I32Mul, Const(1), I32Add, Return];
  }

  lemma FlatStarElse(size: i32, half: i32)
    ensures Flatten(StarElse(size, half))
         == [Const(size), Const(2), LocalGet(0), Const(half), I32Sub, I32Mul, I32Sub, Return]
    ensures Closed(StarElse(size, half))
  {
    var c1 := Op(I32Sub, Op(Return, Nil));
    assert Flatten(c1) == [I32Sub, Return] && Closed(c1);
    var c3 := Op(I32Sub, Op(I32Mul, c1));
    assert Flatten(Op(I32Mul, c1)) == [I32Mul, I32Sub, Return];
    assert Flatten(c3) == [I32Sub, I32Mul, I32Sub, Return] && Closed(c3);
    var c5 := Op(LocalGet(0), Op(Const(half), c3));
    assert Flatten(Op(Const(half), c3)) == [Const(half), I32Sub, I32Mul, I32Sub, Return];
    assert Flatten(c5) == [LocalGet(0), Const(half), I32Sub, I32Mul, I32Sub, Return] && Closed(c5);
    assert Flatten(Op(Const(2), c5)) == [Const(2), LocalGet(0), Const(half), I32Sub, I32Mul, I32Sub, Return];
  }

  lemma StarParses(size: i32, half: i32)
    ensures Parse(StarBody(size, half), 0) == Parsed(StarCode(size, half), false, |StarBody(size, half)|)
  {
    hide Parse, Choice, StarThen, StarElse, Wf, Closed;
    FlatStarThen();
    FlatStarElse(size, half);
    FlatChoice(half, StarThen(), StarElse(size, half));
    assert [] + Flatten(StarCode(size, half)) == StarBody(size, half);
    ParseUndoesFlattenOpen([], StarCode(size, half));
  }

  // Straight-line execution, one instruction at a time, in a frame whose only
  // local is `n`.

  function Line(n: i32): Ctx {
    Ctx([n], 0, 1)
  }

  lemma {:induction false} Push(store: Store, fuel: nat, op: Instr, rest: Code, closed: bool, n: i32, stack: seq<i32>)
    requires op.Const? || op == LocalGet(0)
    ensures Exec(store, fuel, Op(op, rest), closed, Line(n), stack)
         == Exec(store, fuel, rest, closed, Line(n), stack + [if op.Const? then op.val else n])
  {
    hide Exec;
    ExecSimple(store, fuel, op, rest, closed, Line(n), stack);
  }

  lemma {:induction false} Combine(
    store: Store, fuel: nat, op: Instr, rest: Code, closed: bool, n: i32, stack: seq<i32>, x: i32, y: i32, v: i32)
    requires IsArith(op) && Arith(op, x, y) == Ok(v)
    ensures Exec(store, fuel, Op(op, rest), closed, Line(n), stack + [x] + [y])
         == Exec(store, fuel, rest, closed, Line(n), stack + [v])
  {
    hide Exec;
    ExecSimple(store, fuel, op, rest, closed, Line(n), stack + [x] + [y]);
    assert (stack + [x] + [y])[..|stack|] == stack;
  }

  lemma {:induction false} Finish(store: Store, fuel: nat, closed: bool, n: i32, v: i32)
    ensures Exec(store, fuel, Op(Return, Nil), closed, Line(n), [] + [v]) == Ret([v])
  {
  }

  lemma {:induction false} Choose(store: Store, fuel: nat, half: i32, then_: Code, else_: Code, n: i32)
    requires n < half ==> !Exec(store, fuel, then_, true, Line(n), []).Fall?
    ensures Exec(store, fuel, Choice(half, then_, else_), false, Line(n), [])
         == if n < half then Exec(store, fuel, then_, true, Line(n), [])
            else Exec(store, fuel, else_, false, Line(n), [])
  {
    hide Exec;
    var b := Block(then_, else_);
    var flag: i32 := if n < half then 1 else 0;
    Push(store, fuel, LocalGet(0), Op(Const(half), Op(I32Lts, b)), false, n, []);
    Push(store, fuel, Const(half), Op(I32Lts, b), false, n, [] + [n]);
    Combine(store, fuel, I32Lts, b, false, n, [], n, half, flag);
    var first := if flag != 0 then Exec(store, fuel, then_, true, Line(n), [])
                 else Exec(store, fuel, else_, false, Line(n), []);
    assert ([] + [flag])[..0] == [];
    ExecBlock(store, fuel, then_, else_, false, Line(n), [] + [flag], first);
  }

  lemma {:induction false} ExecDifference(
    store: Store, fuel: nat, a: Instr, b: Instr, closed: bool, n: i32, x: i32, y: i32)
    requires (a.Const? && a.val == x) || (a == LocalGet(0) && n == x)
    requires (b.Const? && b.val == y) || (b == LocalGet(0) && n == y)
    requires -2147483648 <= x - y <= 2147483647
    ensures Exec(store, fuel, Difference(a, b), closed, Line(n), []) == Ret([x - y])
  {
    hide Exec;
    Push(store, fuel, a, Op(b, Op(I32Sub, Op(Return, Nil))), closed, n, []);
    Push(store, fuel, b, Op(I32Sub, Op(Return, Nil)), closed, n, [] + [x]);
    Combine(store, fuel, I32Sub, Op(Return, Nil), closed, n, [], x, y, x - y);
    Finish(store, fuel, closed, n, x - y);
  }

  lemma {:induction false} ExecStarThen(store: Store, fuel: nat, n: i32)
    requires 0 <= 2 * n + 1 < 0x8000_0000
    ensures Exec(store, fuel, StarThen(), true, Line(n), []) == Ret([2 * n + 1])
  {
    hide Exec;
    var c := Op(Const(1), Op(I32Add, Op(Return, Nil)));
    Push(store, fuel, LocalGet(0), Op(Const(2), Op(I32Mul, c)), true, n, []);
    Push(store, fuel, Const(2), Op(I32Mul, c), true, n, [] + [n]);
    Combine(store, fuel, I32Mul, c, true, n, [], n, 2, 2 * n);
    Push(store, fuel, Const(1), Op(I32Add, Op(Return, Nil)), true, n, [] + [2 * n]);
    Combine(store, fuel, I32Add, Op(Return, Nil), true, n, [], 2 * n, 1, 2 * n + 1);
    Finish(store, fuel, true, n, 2 * n + 1);
  }

  lemma {:induction false} ExecStarElse(store: Store, fuel: nat, size: i32, half: i32, n: i32)
    requires 0 <= half <= n < size && 2 * (n - half) <= size
    ensures Exec(store, fuel, StarElse(size, half), false, Line(n), []) == Ret([size - 2 * (n - half)])
  {
    hide Exec;
    var c1 := Op(I32Sub, Op(Return, Nil));
    var c2 := Op(I32Mul, c1);
    var c3 := Op(I32Sub, c2);
    var two := [] + [size] + [2];
    Push(store, fuel, Const(size), Op(Const(2), Op(LocalGet(0), Op(Const(half), c3))), false, n, []);
    Push(store, fuel, Const(2), Op(LocalGet(0), Op(Const(half), c3)), false, n, [] + [size]);
    Push(store, fuel, LocalGet(0), Op(Const(half), c3), false, n, two);
    Push(store, fuel, Const(half), c3, false, n, two + [n]);
    Combine(store, fuel, I32Sub, c2, false, n, two, n, half, n - half);
    Combine(store, fuel, I32Mul, c1, false, n, [] + [size], 2, n - half, 2 * (n - half));
    Combine(store, fuel, I32Sub, Op(Return, Nil), false, n, [], size, 2 * (n - half), size - 2 * (n - half));
    Finish(store, fuel, false, n, size - 2 * (n - half));
  }

  lemma EntersLine(f: Func, n: i32)
    requires f.params == 1 && f.results == 1 && f.locals == 0
    ensures var fr := NewFrame(f, [n]); CtxOf(fr) == Line(n) && fr.insts == f.body && [n][..fr.sp] == []
  {
    assert [n][0..] + Zeros(0) == [n];
  }

  lemma CallLine(f: Func, fuel: nat, c: Code, n: i32, v: i32)
    requires f.params == 1 && f.results == 1 && f.locals == 0
    requires Parse(f.body, 0) == Parsed(c, false, |f.body|)
    requires Exec([f], fuel, c, false, Line(n), []) == Ret([v])
    ensures Invoke([f], fuel, 0, [n]) == Ret([v]) && CallMeaning([f], fuel, 0, [n]) == Value(Some(v))
  {
    hide Exec, Parse;
    EntersLine(f, n);
  }

  lemma {:induction false} CallSpace(fuel: nat, half: i32, n: i32)
    requires 0 <= n && 0 <= half
    ensures var store, v := [Func(1, 1, 0, SpaceBody(half))], if n < half then half - n else n - half;
      Invoke(store, fuel, 0, [n]) == Ret([v]) && CallMeaning(store, fuel, 0, [n]) == Value(Some(v))
  {
    hide Exec, Parse, Choice, Difference, SpaceBody, CallMeaning, Invoke;
    var f := Func(1, 1, 0, SpaceBody(half));
    SpaceParses(half);
    if n < half {
      ExecDifference([f], fuel, Const(half), LocalGet(0), true, n, half, n);
    } else {
      ExecDifference([f], fuel, LocalGet(0), Const(half), false, n, n, half);
    }
    Choose([f], fuel, half, Difference(Const(half), LocalGet(0)), Difference(LocalGet(0), Const(half)), n);
    CallLine(f, fuel, SpaceCode(half), n, if n < half then half - n else n - half);
  }

  lemma {:induction false} CallStar(fuel: nat, size: i32, half: i32, n: i32)
    requires 0 <= n < size && 0 <= half && 2 * half <= size <= 2 * half + 1
    ensures
      var store, v := [Func(1, 1, 0, StarBody(size, half))], if n < half then 2 * n + 1 else size - 2 * (n - half);
      Invoke(store, fuel, 0, [n]) == Ret([v]) && CallMeaning(store, fuel, 0, [n]) == Value(Some(v))
  {
    hide Exec, Parse, Choice, StarThen, StarElse, StarBody, CallMeaning, Invoke;
    var f := Func(1, 1, 0, StarBody(size, half));
    StarParses(size, half);
    if n < half {
      ExecStarThen([f], fuel, n);
    } else {
      ExecStarElse([f], fuel, size, half, n);
    }
    Choose([f], fuel, half, StarThen(), StarElse(size, half), n);
    CallLine(f, fuel, StarCode(size, half), n, if n < half then 2 * n + 1 else size - 2 * (n - half));
  }

  /** The calls of both functions for every line of a diamond of every size give
      non-negative counts, and line up to twice the space plus the stars exactly
      when the size is odd or the line is in the lower half. */
  lemma DiamondLine(size: i32, fuel: nat, n: i32)
    requires 0 <= n < size
    ensures exists space: i32, star: i32 ::
      && CallMeaning(SpaceStore(size), fuel, 0, [n]) == Value(Some(space))
      && CallMeaning(StarStore(size), fuel, 0, [n]) == Value(Some(star))
      && 0 <= space && 0 <= star
      && (2 * space + star == size <==> size % 2 == 1 || size / 2 <= n)
  {
    hide CallMeaning, Invoke, SpaceBody, StarBody;
    CallSpace(fuel, size / 2, n);
    CallStar(fuel, size, size / 2, n);
  }

  /** Starting from any call stack that earlier calls may have left, the two calls of a line
      stop with nothing but their result on the operand stack and no frame left behind. */
  lemma DiamondCallsReturn(size: i32, n: i32, calls: seq<Frame>) returns (a: nat, b: nat)
    requires 0 <= n < size && Ready(calls)
    ensures var m := Steps(SpaceStore(size), a, EnterIdx(SpaceStore(size), 0, [n], calls));
      m.Halted? && |m.st.stack| == 1 && |m.st.calls| == |calls|
    ensures var m := Steps(StarStore(size), b, EnterIdx(StarStore(size), 0, [n], calls));
      m.Halted? && |m.st.stack| == 1 && |m.st.calls| == |calls|
  {
    hide CallMeaning, Invoke, Steps, EnterIdx, SpaceBody, StarBody;
    CallSpace(0, size / 2, n);
    CallStar(0, size, size / 2, n);
    a := CallFinishes(SpaceStore(size), 0, 0, [n], calls);
    b := CallFinishes(StarStore(size), 0, 0, [n], calls);
  }

  // Both functions pass the check.

  lemma CheckOp(store: Store, sig: Sig, op: Instr, rest: Code, floor: nat, h: nat)
    ensures Check(store, sig, Op(op, rest), floor, h) ==
      var k := OpHeight(store, sig, op, floor, h); if k.At? then Check(store, sig, rest, floor, k.n) else k
  {
  }

  lemma CheckDifference(store: Store, a: Instr, b: Instr)
    requires (a.Const? || a == LocalGet(0)) && (b.Const? || b == LocalGet(0))
    ensures Check(store, Sig(1, 1), Difference(a, b), 0, 0) == Dead
  {
    hide Check;
    var end := Op(Return, Nil);
    CheckOp(store, Sig(1, 1), a, Op(b, Op(I32Sub, end)), 0, 0);
    CheckOp(store, Sig(1, 1), b, Op(I32Sub, end), 0, 1);
    CheckOp(store, Sig(1, 1), I32Sub, end, 0, 2);
    CheckOp(store, Sig(1, 1), Return, Nil, 0, 1);
  }

  lemma CheckStarThen(store: Store)
    ensures Check(store, Sig(1, 1), StarThen(), 0, 0) == Dead
  {
    hide Check;
    var sig := Sig(1, 1);
    var c3 := Op(Const(1), Op(I32Add, Op(Return, Nil)));
    CheckOp(store, sig, LocalGet(0), Op(Const(2), Op(I32Mul, c3)), 0, 0);
    CheckOp(store, sig, Const(2), Op(I32Mul, c3), 0, 1);
    CheckOp(store, sig, I32Mul, c3, 0, 2);
    CheckOp(store, sig, Const(1), c3.rest, 0, 1);
    CheckOp(store, sig, I32Add, Op(Return, Nil), 0, 2);
    CheckOp(store, sig, Return, Nil, 0, 1);
  }

  lemma CheckStarElse(store: Store, size: i32, half: i32)
    ensures Check(store, Sig(1, 1), StarElse(size, half), 0, 0) == Dead
  {
    hide Check;
    var sig := Sig(1, 1);
    var c1 := Op(I32Sub, Op(Return, Nil));
    var c3 := Op(I32Sub, Op(I32Mul, c1));
    var c5 := Op(LocalGet(0), Op(Const(half), c3));
    CheckOp(store, sig, Const(size), Op(Const(2), c5), 0, 0);
    CheckOp(store, sig, Const(2), c5, 0, 1);
    CheckOp(store, sig, LocalGet(0), Op(Const(half), c3), 0, 2);
    CheckOp(store, sig, Const(half), c3, 0, 3);
    CheckOp(store, sig, I32Sub, Op(I32Mul, c1), 0, 4);
    CheckOp(store, sig, I32Mul, c1, 0, 3);
    CheckOp(store, sig, I32Sub, Op(Return, Nil), 0, 2);
    CheckOp(store, sig, Return, Nil, 0, 1);
  }

  lemma CheckChoice(store: Store, half: i32, then_: Code, else_: Code)
    requires Check(store, Sig(1, 1), then_, 0, 0) == Dead && Check(store, Sig(1, 1), else_, 0, 0) == Dead
    ensures Check(store, Sig(1, 1), Choice(half, then_, else_), 0, 0) == Dead
  {
    var sig, b := Sig(1, 1), Block(then_, else_);
    assert Check(store, sig, b, 0, 1) == Dead;
    hide Check;
    CheckOp(store, sig, LocalGet(0), Op(Const(half), Op(I32Lts, b)), 0, 0);
    CheckOp(store, sig, Const(half), Op(I32Lts, b), 0, 1);
    CheckOp(store, sig, I32Lts, b, 0, 2);
  }

  /** So they have their structured meaning, and every step of them is safe. */
  lemma DiamondIsSafe(size: i32)
    requires 0 <= size
    ensures SafeStore(SpaceStore(size)) && SafeStore(StarStore(size))
  {
    hide Check, Parse, Choice, Difference, StarThen, StarElse, SpaceBody, StarBody;
    var half := size / 2;
    SpaceParses(half);
    StarParses(size, half);
    CheckDifference(SpaceStore(size), Const(half), LocalGet(0));
    CheckDifference(SpaceStore(size), LocalGet(0), Const(half));
    CheckChoice(SpaceStore(size), half, Difference(Const(half), LocalGet(0)), Difference(LocalGet(0), Const(half)));
    CheckStarThen(StarStore(size));
    CheckStarElse(StarStore(size), size, half);
    CheckChoice(StarStore(size), half, StarThen(), StarElse(size, half));
  }

  /** The first line of a diamond of size 2 is one space and one star, three wide. */
  lemma SizeTwoIsThreeWide(fuel: nat)
    ensures CallMeaning(SpaceStore(2), fuel, 0, [0]) == Value(Some(1))
    ensures CallMeaning(StarStore(2), fuel, 0, [0]) == Value(Some(1))
  {
    hide CallMeaning, Invoke, SpaceBody, StarBody;
    CallSpace(fuel, 1, 0);
    CallStar(fuel, 2, 1, 0);
  }

  // ----- a valid program that the machine runs twice -----

  /** Pushes local 0, skips or enters an empty block on local 1, adds local 2. */
  function TwiceBody(): seq<Instr> {
    [LocalGet(0), LocalGet(1), If, End, LocalGet(2), I32Add, End]
  }

  function TwiceStore(): Store {
    [Func(3, 1, 0, TwiceBody())]
  }

  function AddTail(): Code {
    Op(LocalGet(2), Op(I32Add, Nil))
  }

  function TwiceCode(): Code {
    Op(LocalGet(0), Op(LocalGet(1), Block(Nil, AddTail())))
  }

  lemma TwiceParses()
    ensures Parse(TwiceBody(), 0) == Parsed(TwiceCode(), true, 6)
  {
    var s := TwiceBody();
    assert Parse(s, 6) == Parsed(Nil, true, 6);
    assert Parse(s, 5) == Parsed(Op(I32Add, Nil), true, 6);
    assert Parse(s, 4) == Parsed(AddTail(), true, 6);
    assert Parse(s, 3) == Parsed(Nil, true, 3);
    assert Parse(s, 2) == Parsed(Block(Nil, AddTail()), true, 6);
    assert Parse(s, 1) == Parsed(Op(LocalGet(1), Block(Nil, AddTail())), true, 6);
  }

  /** WebAssembly validates the program; the check here does not pass it. */
  lemma TwiceIsValidButUnsafe()
    ensures ValidFunc(TwiceStore(), TwiceStore()[0]) && !SafeStore(TwiceStore())
  {
    hide Parse;
    var store, f := TwiceStore(), TwiceStore()[0];
    var sig := SigOf(f);
    TwiceParses();
    assert Valid(store, sig, Op(I32Add, Nil), 0, 2) == At(1);
    assert Valid(store, sig, AddTail(), 0, 1) == At(1);
    assert Valid(store, sig, Block(Nil, AddTail()), 0, 2) == At(1);
    assert Valid(store, sig, Op(LocalGet(1), Block(Nil, AddTail())), 0, 1) == At(1);
    assert Check(store, sig, Op(I32Add, Nil), 0, 2) == At(1);
    assert Check(store, sig, AddTail(), 0, 1) == At(1);
    assert Check(store, sig, Op(I32Add, Nil), 1, 2) == Bad;
    assert Check(store, sig, AddTail(), 1, 1) == Bad;
    assert Check(store, sig, Block(Nil, AddTail()), 0, 2) == Bad;
    assert Check(store, sig, Op(LocalGet(1), Block(Nil, AddTail())), 0, 1) == Bad;
    assert !SafeFunc(store, store[0]);
  }

  lemma {:induction false} ExecAddTail(store: Store, fuel: nat, ctx: Ctx, x: i32)
    requires |ctx.locals| == 3
    ensures Exec(store, fuel, AddTail(), true, ctx, [x]) ==
      var y := x + ctx.locals[2]; if -2147483648 <= y <= 2147483647 then Fall([y]) else Trap(Overflow)
  {
    hide Exec;
    var k := ctx.locals[2];
    ExecSimple(store, fuel, LocalGet(2), Op(I32Add, Nil), true, ctx, [x]);
    assert [x] + [k] == [x, k];
    ExecSimple(store, fuel, I32Add, Nil, true, ctx, [x, k]);
    assert [x, k][..0] == [];
    var r := Checked(x + k);
    if r.Ok? {
      ExecNil(store, fuel, ctx, [r.val]);
      assert [] + [r.val] == [r.val];
    }
  }

  lemma ExecNil(store: Store, fuel: nat, ctx: Ctx, stack: seq<i32>)
    ensures Exec(store, fuel, Nil, true, ctx, stack) == Fall(stack)
  {
  }

  /** What the machine makes of the program for all arguments: with a zero
      condition it adds the third argument twice. */
  lemma {:induction false} TwiceRuns(fuel: nat, a: i32, c: i32, k: i32)
    ensures Invoke(TwiceStore(), fuel, 0, [a, c, k]) ==
      if !(-2147483648 <= a + k <= 2147483647) then Trap(Overflow)
      else if c != 0 then Ret([a + k])
      else if !(-2147483648 <= a + 2 * k <= 2147483647) then Trap(Overflow)
      else Ret([a + 2 * k])
  {
    hide Exec, Parse;
    var store, args := TwiceStore(), [a, c, k];
    var fr := NewFrame(store[0], args);
    var ctx := Ctx(args, 0, 1);
    assert args[0..] + Zeros(0) == args && args[..0] == [];
    TwiceParses();
    var block := Block(Nil, AddTail());
    ExecSimple(store, fuel, LocalGet(0), Op(LocalGet(1), block), true, ctx, []);
    assert [] + [a] == [a];
    ExecSimple(store, fuel, LocalGet(1), block, true, ctx, [a]);
    assert [a] + [c] == [a, c] && [a, c][..1] == [a] && [a][..1] == [a];
    ExecNil(store, fuel, ctx, [a]);
    ExecAddTail(store, fuel, ctx, a);
    var first := if c != 0 then Exec(store, fuel, Nil, true, ctx, [a])
                 else Exec(store, fuel, AddTail(), true, ctx, [a]);
    ExecBlock(store, fuel, Nil, AddTail(), true, ctx, [a, c], first);
    if c == 0 && first.Fall? {
      assert first.stack[..1] == first.stack;
      ExecAddTail(store, fuel, ctx, a + k);
    }
  }

  lemma {:induction false} TwiceEvaluates(fuel: nat, a: i32, c: i32, k: i32)
    ensures EvalCall(TwiceStore(), fuel, 0, [a, c, k]) ==
      if -2147483648 <= a + k <= 2147483647 then Returned([a + k]) else Overflows
  {
    hide Parse, Eval, Compute;
    var store, args := TwiceStore(), [a, c, k];
    assert args + Zeros(0) == args;
    TwiceParses();
    var block := Block(Nil, AddTail());
    EvalAddTail(store, fuel, args, a);
    assert [a, c][..1] == [a];
    EvalBlock(store, fuel, Nil, AddTail(), args, 1, [a, c]);
    EvalNil(store, fuel, args, [a]);
    EvalLocal(store, fuel, 0, Op(LocalGet(1), block), args, []);
    EvalLocal(store, fuel, 1, block, args, [a]);
    assert [] + [a] == [a] && [a] + [c] == [a, c];
  }

  lemma EvalNil(store: Store, fuel: nat, locals: seq<i32>, ops: seq<i32>)
    ensures Eval(store, fuel, Nil, locals, 1, ops) == Through(ops)
  {
  }

  lemma {:induction false} EvalLocal(store: Store, fuel: nat, x: nat, rest: Code, locals: seq<i32>, ops: seq<i32>)
    requires x < |locals|
    ensures Eval(store, fuel, Op(LocalGet(x), rest), locals, 1, ops)
         == Eval(store, fuel, rest, locals, 1, ops + [locals[x]])
  {
  }

  lemma {:induction false} EvalAddTail(store: Store, fuel: nat, locals: seq<i32>, a: i32)
    requires |locals| == 3
    ensures Eval(store, fuel, AddTail(), locals, 1, [a]) ==
      var y := a + locals[2]; if -2147483648 <= y <= 2147483647 then Through([y]) else Overflows
  {
    var k := locals[2];
    EvalLocal(store, fuel, 2, Op(I32Add, Nil), locals, [a]);
    assert [a] + [k] == [a, k] && [a, k][..0] == [];
    var y: int := a + k;
    if -2147483648 <= y <= 2147483647 {
      assert [] + [y] == [y];
    }
  }

  /** The machine gives this valid program its structured meaning exactly when the
      block is entered, or the second addition changes nothing, or the first one
      already overflows. */
  lemma TwiceAgreesExactlyWhen(fuel: nat, a: i32, c: i32, k: i32)
    ensures
      Matches(EvalCall(TwiceStore(), fuel, 0, [a, c, k]), Invoke(TwiceStore(), fuel, 0, [a, c, k]), Dead, [], [], 0, 1)
      <==> c != 0 || k == 0 || !(-2147483648 <= a + k <= 2147483647)
  {
    hide EvalCall, Invoke;
    TwiceRuns(fuel, a, c, k);
    TwiceEvaluates(fuel, a, c, k);
    assert forall v: i32 :: [] + [v] == [v];
  }

  /** 0 + 1, with the block skipped: the machine returns 2. */
  lemma ZeroPlusOneIsTwo(fuel: nat)
    ensures EvalCall(TwiceStore(), fuel, 0, [0, 0, 1]) == Returned([1])
    ensures Invoke(TwiceStore(), fuel, 0, [0, 0, 1]) == Ret([2])
  {
    hide EvalCall, Invoke;
    TwiceRuns(fuel, 0, 0, 1);
    TwiceEvaluates(fuel, 0, 0, 1);
  }

  // ----- a program that takes exponentially many turns -----

  /** `k` empty blocks one behind the other, each of them skipped. */
  function Skips(k: nat): Code {
    if k == 0 then Nil else Op(Const(0), Block(Nil, Skips(k - 1)))
  }

  lemma {:induction false} SkipsShape(k: nat)
    ensures Closed(Skips(k)) && Size(Skips(k)) == 3 * k
  {
    if k > 0 {
      SkipsShape(k - 1);
      var b := Block(Nil, Skips(k - 1));
      assert Closed(b) && Size(b) == 2 + Size(Nil) + Size(Skips(k - 1));
    }
  }

  /** Each block doubles the turns of the code behind it. */
  lemma {:induction false} SkipsRun(store: Store, k: nat, pc: nat, fr: Frame, calls: seq<Frame>, stack: seq<i32>)
    returns (n: nat)
    requires fr.pc == pc - 1 && StandsAt(fr.insts, pc, Skips(k), true)
    ensures Pow2(k) <= n + 1
    ensures Steps(store, n, Running(State(stack, calls + [fr])))
         == Running(State(stack, calls + [fr.(pc := pc + Size(Skips(k)) - 1)]))
    decreases k
  {
    hide StandsAt, Steps, Step, Size, Pow2, MatchingEnd;
    var start := Running(State(stack, calls + [fr]));
    n := 0;
    if k == 0 {
      SizeParts(Nil);
      Pow2Small();
      StepsZero(store, start);
    } else {
      Pow2Next(k - 1);
      var next, end := Skips(k - 1), pc + 2;
      SkipsSizes(k);
      var a := SkipOnce(store, next, pc, fr, calls, stack);
      var l := Label(end, |stack|, 0);
      var fr' := fr.(pc := end, labels := fr.labels + [l]);
      var b := SkipsRun(store, k - 1, end + 1, fr', calls, stack);
      StepsAdd(store, a, b, start);
      var stop := end + 1 + Size(next);
      EndOfStanding(fr.insts, end + 1, next);
      assert fr'.(pc := stop - 1) == fr.(pc := stop - 1, labels := fr.labels + [l]);
      PopsLabel(store, stack, calls, fr, stop, l);
      assert stack[..|stack|] == stack;
      StepsLast(store, a + b, start);
      var c := SkipsRun(store, k - 1, end + 1, fr.(pc := end), calls, stack);
      StepsAdd(store, a + b + 1, c, start);
      n := a + b + 1 + c;
    }
  }

  lemma SkipsSizes(k: nat)
    requires 0 < k
    ensures Size(Skips(k)) == 3 + Size(Skips(k - 1))
  {
    hide Size;
    SizeParts(Skips(k));
    SizeParts(Block(Nil, Skips(k - 1)));
    SizeParts(Nil);
  }

  /** The condition and the `If` that skips its block. */
  lemma SkipOnce(store: Store, next: Code, pc: nat, fr: Frame, calls: seq<Frame>, stack: seq<i32>) returns (n: nat)
    requires fr.pc == pc - 1 && StandsAt(fr.insts, pc, Op(Const(0), Block(Nil, next)), true)
    ensures StandsAt(fr.insts, pc + 3, next, true)
    ensures Steps(store, n, Running(State(stack, calls + [fr])))
         == Running(State(stack, calls + [fr.(pc := pc + 2, labels := fr.labels + [Label(pc + 2, |stack|, 0)])]))
  {
    hide StandsAt, Steps, Step, Size, MatchingEnd;
    StandsParts(fr.insts, pc, Op(Const(0), Block(Nil, next)), true);
    StandsParts(fr.insts, pc + 1, Block(Nil, next), true);
    SizeParts(Nil);
    var start, fr1 := Running(State(stack, calls + [fr])), fr.(pc := pc);
    StepSimple(store, stack, calls, fr);
    IfFindsItsOwnEnd(fr.insts, pc + 1, Nil, true);
    StepIf(store, stack + [0], calls, fr1, pc + 2);
    assert (stack + [0])[..|stack|] == stack;
    StepsZero(store, start);
    StepsLast(store, 0, start);
    StepsLast(store, 1, start);
    n := 2;
  }

  /** A function of `3 k + 1` instructions whose call is still running after 2^k - 1 turns. */
  lemma ExponentiallyManyTurns(k: nat, n: nat)
    requires n < Pow2(k)
    ensures var f := Func(0, 0, 0, Flatten(Skips(k)) + [End]);
      |f.body| == 3 * k + 1 && Steps([f], n, EnterIdx([f], 0, [], [])).Running?
  {
    hide StandsAt, Steps, Step, Pow2, Flatten, Skips, Parse;
    var f := Func(0, 0, 0, Flatten(Skips(k)) + [End]);
    SkipsShape(k);
    FlatSize(Skips(k));
    ParseUndoesFlatten([], Skips(k), []);
    assert [] + Flatten(Skips(k)) + ([End] + []) == f.body;
    ParseStands(f.body, 0);
    var fr := NewFrame(f, []);
    var m := SkipsRun([f], k, 0, fr, [], []);
    var start := EnterIdx([f], 0, [], []);
    assert start == Running(State([], [] + [fr]));
    if !Steps([f], n, start).Running? {
      StepsAdd([f], n, m - n, start);
      StoppedStays([f], m - n, Steps([f], n, start));
    }
  }
}
