/** Flat instruction sequences, the block structure hidden in them, and the
    search for the `End` that closes an `If`. */
module WasmCode {
  import opened Wrappers

  type i32 = x: int | -0x8000_0000 <= x < 0x8000_0000

  /** Every block type is Void, so `If` carries no data. */
  datatype Instr =
    | If
    | End
    | Return
    | Const(val: i32)
    | LocalGet(idx: nat)
    | I32Lts
    | I32Add
    | I32Sub
    | I32Mul
    | Call(func: nat)

  /** Block structure.  `OpenIf` is an `If` that no `End` closes; everything
      after it, up to the end of the code, is inside it. */
  datatype Code =
    | Nil
    | Op(op: Instr, rest: Code)
    | Block(body: Code, next: Code)
    | OpenIf(tail: Code)

  predicate Closed(c: Code) {
    match c
    case Nil => true
    case Op(op, rest) => op != If && op != End && Closed(rest)
    case Block(body, next) => Closed(body) && Closed(next)
    case OpenIf(_) => false
  }

  /** Unclosed `If`s may occur, but not inside a closed block. */
  predicate Wf(c: Code) {
    match c
    case Nil => true
    case Op(op, rest) => op != If && op != End && Wf(rest)
    case Block(body, next) => Closed(body) && Wf(next)
    case OpenIf(tail) => Wf(tail)
  }

  function Flatten(c: Code): seq<Instr> {
    match c
    case Nil => []
    case Op(op, rest) => [op] + Flatten(rest)
    case Block(body, next) => [If] + Flatten(body) + [End] + Flatten(next)
    case OpenIf(tail) => [If] + Flatten(tail)
  }

  function Size(c: Code): nat {
    match c
    case Nil => 0
    case Op(_, rest) => 1 + Size(rest)
    case Block(body, next) => 2 + Size(body) + Size(next)
    case OpenIf(tail) => 1 + Size(tail)
  }

  /** The code `c` is found in the instructions at address `pc`. */
  predicate Lies(insts: seq<Instr>, pc: nat, c: Code)
    decreases c
  {
    match c
    case Nil => pc <= |insts|
    case Op(op, rest) => pc < |insts| && insts[pc] == op && Lies(insts, pc + 1, rest)
    case Block(body, next) =>
      && pc < |insts| && insts[pc] == If && Lies(insts, pc + 1, body)
      && pc + 1 + Size(body) < |insts| && insts[pc + 1 + Size(body)] == End
      && Lies(insts, pc + 2 + Size(body), next)
    case OpenIf(tail) => pc < |insts| && insts[pc] == If && Lies(insts, pc + 1, tail)
  }

  /** The code `c` is found at `pc` and goes on with the `End` that closes it, or
      else runs to the end of the instructions. */
  predicate StandsAt(insts: seq<Instr>, pc: nat, c: Code, closed: bool) {
    && Lies(insts, pc, c)
    && if closed then Closed(c) && pc + Size(c) < |insts| && insts[pc + Size(c)] == End
       else Wf(c) && pc + Size(c) == |insts|
  }

  /** `closed`: an unmatched `End` terminated the code, which stands at `end`;
      otherwise `end` is the number of instructions. */
  datatype Parsed = Parsed(code: Code, closed: bool, end: nat)

  /** Reads any instruction sequence from `pc` up to its first unmatched `End`. */
  function Parse(insts: seq<Instr>, pc: nat): (p: Parsed)
    requires pc <= |insts|
    ensures pc <= p.end <= |insts| && (p.closed ==> p.end < |insts|)
    decreases |insts| - pc
  {
    if pc == |insts| then Parsed(Nil, false, pc)
    else if insts[pc] == End then Parsed(Nil, true, pc)
    else if insts[pc] == If then
      var b := Parse(insts, pc + 1);
      if b.closed then
        var r := Parse(insts, b.end + 1);
        Parsed(Block(b.code, r.code), r.closed, r.end)
      else
        Parsed(OpenIf(b.code), false, b.end)
    else
      var r := Parse(insts, pc + 1);
      Parsed(Op(insts[pc], r.code), r.closed, r.end)
  }

  lemma ClosedIsWf(c: Code)
    requires Closed(c)
    ensures Wf(c)
  {
  }

  // The equations of the definitions, so that proofs can use one without unfolding the
  // others.

  lemma SizeParts(c: Code)
    ensures c.Nil? ==> Size(c) == 0
    ensures c.Op? ==> Size(c) == 1 + Size(c.rest)
    ensures c.Block? ==> Size(c) == 2 + Size(c.body) + Size(c.next)
    ensures c.OpenIf? ==> Size(c) == 1 + Size(c.tail)
  {
  }

  lemma FlattenParts(c: Code)
    ensures c.Nil? ==> Flatten(c) == []
    ensures c.Op? ==> Flatten(c) == [c.op] + Flatten(c.rest)
    ensures c.Block? ==> Flatten(c) == [If] + Flatten(c.body) + [End] + Flatten(c.next)
    ensures c.OpenIf? ==> Flatten(c) == [If] + Flatten(c.tail)
  {
  }

  lemma WfParts(c: Code)
    requires Wf(c)
    ensures c.Op? ==> c.op != If && c.op != End && Wf(c.rest)
    ensures c.Block? ==> Closed(c.body) && Wf(c.next)
    ensures c.OpenIf? ==> Wf(c.tail)
  {
  }

  lemma ClosedParts(c: Code)
    requires Closed(c)
    ensures !c.OpenIf?
    ensures c.Op? ==> c.op != If && c.op != End && Closed(c.rest)
    ensures c.Block? ==> Closed(c.body) && Closed(c.next)
  {
  }

  lemma {:induction false} LiesParts(insts: seq<Instr>, pc: nat, c: Code)
    requires Lies(insts, pc, c)
    ensures match c
      case Nil => pc <= |insts|
      case Op(op, rest) => pc < |insts| && insts[pc] == op && Lies(insts, pc + 1, rest)
      case Block(body, next) =>
        && pc < |insts| && insts[pc] == If && Lies(insts, pc + 1, body)
        && pc + 1 + Size(body) < |insts| && insts[pc + 1 + Size(body)] == End
        && Lies(insts, pc + 2 + Size(body), next)
      case OpenIf(tail) => pc < |insts| && insts[pc] == If && Lies(insts, pc + 1, tail)
  {
    hide Size;
  }

  lemma {:induction false} StandsParts(insts: seq<Instr>, pc: nat, c: Code, closed: bool)
    requires StandsAt(insts, pc, c, closed)
    ensures match c
      case Nil => if closed then pc < |insts| && insts[pc] == End else pc == |insts|
      case Op(op, rest) =>
        pc < |insts| && insts[pc] == op && op != If && op != End && StandsAt(insts, pc + 1, rest, closed)
      case Block(body, next) =>
        && pc < |insts| && insts[pc] == If
        && StandsAt(insts, pc + 1, body, true) && StandsAt(insts, pc + 2 + Size(body), next, closed)
      case OpenIf(tail) => pc < |insts| && insts[pc] == If && !closed && StandsAt(insts, pc + 1, tail, false)
  {
    hide Lies;
    LiesParts(insts, pc, c);
  }

  lemma {:induction false} BlockLies(insts: seq<Instr>, pc: nat, body: Code, next: Code)
    requires pc < |insts| && insts[pc] == If && Lies(insts, pc + 1, body)
    requires pc + 1 + Size(body) < |insts| && insts[pc + 1 + Size(body)] == End
    requires Lies(insts, pc + 2 + Size(body), next)
    ensures Lies(insts, pc, Block(body, next))
  {
    hide Size;
  }

  lemma {:induction false} BlockStands(insts: seq<Instr>, pc: nat, body: Code, next: Code, closed: bool)
    requires pc < |insts| && insts[pc] == If
    requires StandsAt(insts, pc + 1, body, true)
    requires StandsAt(insts, pc + 2 + Size(body), next, closed)
    ensures StandsAt(insts, pc, Block(body, next), closed)
  {
    hide Lies;
    BlockLies(insts, pc, body, next);
  }

  lemma {:induction false} OpStands(insts: seq<Instr>, pc: nat, rest: Code, closed: bool)
    requires pc < |insts| && insts[pc] != If && insts[pc] != End
    requires StandsAt(insts, pc + 1, rest, closed)
    ensures StandsAt(insts, pc, Op(insts[pc], rest), closed)
  {
  }

  lemma {:induction false} OpenIfStands(insts: seq<Instr>, pc: nat, tail: Code)
    requires pc < |insts| && insts[pc] == If
    requires StandsAt(insts, pc + 1, tail, false)
    ensures StandsAt(insts, pc, OpenIf(tail), false)
  {
  }

  lemma ParseNext(insts: seq<Instr>, pc: nat)
    requires pc <= |insts|
    ensures Parse(insts, pc) ==
      if pc == |insts| then Parsed(Nil, false, pc)
      else if insts[pc] == End then Parsed(Nil, true, pc)
      else
        var b := Parse(insts, pc + 1);
        if insts[pc] != If then Parsed(Op(insts[pc], b.code), b.closed, b.end)
        else if !b.closed then Parsed(OpenIf(b.code), false, b.end)
        else var r := Parse(insts, b.end + 1); Parsed(Block(b.code, r.code), r.closed, r.end)
  {
  }

  lemma NilStands(insts: seq<Instr>, pc: nat)
    requires pc == |insts| || (pc < |insts| && insts[pc] == End)
    ensures StandsAt(insts, pc, Nil, pc < |insts|) && Size(Nil) == 0
  {
  }

  /** What `Parse` reads stands where it was read. */
  lemma {:induction false} ParseStands(insts: seq<Instr>, pc: nat)
    requires pc <= |insts|
    ensures var p := Parse(insts, pc); StandsAt(insts, pc, p.code, p.closed) && p.end == pc + Size(p.code)
    decreases |insts| - pc
  {
    hide *;
    ParseNext(insts, pc);
    SizeParts(Parse(insts, pc).code);
    if pc == |insts| || insts[pc] == End {
      NilStands(insts, pc);
      return;
    }
    var b := Parse(insts, pc + 1);
    ParseStands(insts, pc + 1);
    if insts[pc] != If {
      OpStands(insts, pc, b.code, b.closed);
    } else if b.closed {
      var r := Parse(insts, b.end + 1);
      ParseStands(insts, b.end + 1);
      BlockStands(insts, pc, b.code, r.code, r.closed);
    } else {
      OpenIfStands(insts, pc, b.code);
    }
  }

  /** Block structure is unique: whatever code stands at `pc` is what `Parse` reads. */
  lemma {:induction false} StandingParses(insts: seq<Instr>, pc: nat, c: Code, closed: bool)
    requires StandsAt(insts, pc, c, closed)
    ensures pc <= |insts| && Parse(insts, pc) == Parsed(c, closed, pc + Size(c))
    decreases c
  {
    hide *;
    StandsParts(insts, pc, c, closed);
    SizeParts(c);
    ParseNext(insts, pc);
    match c
    case Nil =>
    case Op(_, rest) => StandingParses(insts, pc + 1, rest, closed);
    case Block(body, next) =>
      StandingParses(insts, pc + 1, body, true);
      StandingParses(insts, pc + 2 + Size(body), next, closed);
    case OpenIf(tail) => StandingParses(insts, pc + 1, tail, false);
  }

  lemma {:induction false} FlatSize(c: Code)
    ensures |Flatten(c)| == Size(c)
  {
    match c
    case Nil =>
    case Op(_, rest) => FlatSize(rest);
    case Block(body, next) => FlatSize(body); FlatSize(next);
    case OpenIf(tail) => FlatSize(tail);
  }

  lemma OpLies(insts: seq<Instr>, pc: nat, op: Instr, rest: Code)
    requires pc < |insts| && insts[pc] == op && Lies(insts, pc + 1, rest)
    ensures Lies(insts, pc, Op(op, rest))
  {
  }

  lemma OpenIfLies(insts: seq<Instr>, pc: nat, tail: Code)
    requires pc < |insts| && insts[pc] == If && Lies(insts, pc + 1, tail)
    ensures Lies(insts, pc, OpenIf(tail))
  {
  }

  lemma NilLies(insts: seq<Instr>, pc: nat)
    requires pc <= |insts|
    ensures Lies(insts, pc, Nil)
  {
  }

  lemma {:induction false} FlattenedLies(before: seq<Instr>, c: Code, after: seq<Instr>)
    ensures Lies(before + Flatten(c) + after, |before|, c)
    decreases c
  {
    hide *;
    var s := before + Flatten(c) + after;
    FlattenParts(c);
    match c
    case Nil => NilLies(s, |before|);
    case Op(op, rest) =>
      assert s == (before + [op]) + Flatten(rest) + after;
      FlattenedLies(before + [op], rest, after);
      OpLies(s, |before|, op, rest);
    case Block(body, next) => FlattenedBlockLies(before, body, next, after);
    case OpenIf(tail) =>
      assert s == (before + [If]) + Flatten(tail) + after;
      FlattenedLies(before + [If], tail, after);
      OpenIfLies(s, |before|, tail);
  }

  lemma {:induction false} FlattenedBlockLies(before: seq<Instr>, body: Code, next: Code, after: seq<Instr>)
    ensures Lies(before + Flatten(Block(body, next)) + after, |before|, Block(body, next))
    decreases Block(body, next), 0
  {
    hide *;
    FlattenParts(Block(body, next));
    var s := before + Flatten(Block(body, next)) + after;
    var after1 := [End] + Flatten(next) + after;
    assert s == (before + [If]) + Flatten(body) + after1;
    FlattenedLies(before + [If], body, after1);
    FlatSize(body);
    var before2 := before + [If] + Flatten(body) + [End];
    assert s == before2 + Flatten(next) + after;
    FlattenedLies(before2, next, after);
    assert s[|before2| - 1] == End;
    BlockLies(s, |before|, body, next);
  }

  /** Parsing undoes flattening: closed code between anything, its `End` after it. */
  lemma {:induction false} ParseUndoesFlatten(before: seq<Instr>, c: Code, after: seq<Instr>)
    requires Closed(c)
    ensures Parse(before + Flatten(c) + ([End] + after), |before|) == Parsed(c, true, |before| + |Flatten(c)|)
  {
    FlatSize(c);
    FlattenedLies(before, c, [End] + after);
    StandingParses(before + Flatten(c) + ([End] + after), |before|, c, true);
  }

  /** Parsing undoes flattening: code that ends with the instructions. */
  lemma {:induction false} ParseUndoesFlattenOpen(before: seq<Instr>, c: Code)
    requires Wf(c)
    ensures Parse(before + Flatten(c), |before|) == Parsed(c, false, |before + Flatten(c)|)
  {
    FlatSize(c);
    FlattenedLies(before, c, []);
    assert before + Flatten(c) + [] == before + Flatten(c);
    StandingParses(before + Flatten(c), |before|, c, false);
  }

  /** Flattening undoes parsing, on every instruction sequence. */
  lemma {:induction false} FlattenUndoesParse(insts: seq<Instr>, pc: nat)
    requires pc <= |insts|
    ensures var p := Parse(insts, pc); insts[pc..p.end] == Flatten(p.code)
  {
    var p := Parse(insts, pc);
    ParseStands(insts, pc);
    LiesFlattened(insts, pc, p.code);
  }

  lemma SliceFirst(insts: seq<Instr>, pc: nat, k: nat)
    requires pc < k <= |insts|
    ensures insts[pc..k] == [insts[pc]] + insts[pc + 1..k]
  {
  }

  lemma SliceBlock(insts: seq<Instr>, pc: nat, e: nat, k: nat, a: seq<Instr>, b: seq<Instr>)
    requires pc < e < k <= |insts| && insts[pc + 1..e] == a && insts[e + 1..k] == b
    ensures insts[pc..k] == [insts[pc]] + a + [insts[e]] + b
  {
  }

  lemma {:induction false} LiesFlattened(insts: seq<Instr>, pc: nat, c: Code)
    requires Lies(insts, pc, c)
    ensures pc + Size(c) <= |insts| && insts[pc..pc + Size(c)] == Flatten(c)
    decreases c
  {
    hide *;
    LiesParts(insts, pc, c);
    SizeParts(c);
    FlattenParts(c);
    match c
    case Nil =>
    case Op(op, rest) =>
      LiesFlattened(insts, pc + 1, rest);
      SliceFirst(insts, pc, pc + Size(c));
    case Block(body, next) =>
      LiesFlattened(insts, pc + 1, body);
      LiesFlattened(insts, pc + 2 + Size(body), next);
      SliceBlock(insts, pc, pc + 1 + Size(body), pc + Size(c), Flatten(body), Flatten(next));
    case OpenIf(tail) =>
      LiesFlattened(insts, pc + 1, tail);
      SliceFirst(insts, pc, pc + Size(c));
  }

  /** The address of the `End` that closes the `If` at `pc`, read off the block
      structure of the code after it. */
  function MatchingEnd(insts: seq<Instr>, pc: nat): (r: Option<nat>)
    requires pc < |insts|
    ensures r.Some? ==> r.value < |insts|
  {
    var p := Parse(insts, pc + 1);
    if p.closed then Some(p.end) else None
  }

  /** The depth-counting search, looking at `pc` next. */
  function EndFrom(insts: seq<Instr>, pc: nat, depth: nat): Option<nat>
    decreases |insts| - pc
  {
    if pc >= |insts| then None
    else if insts[pc] == If then EndFrom(insts, pc + 1, depth + 1)
    else if insts[pc] != End then EndFrom(insts, pc + 1, depth)
    else if depth > 0 then EndFrom(insts, pc + 1, depth - 1)
    else Some(pc)
  }

  lemma EndFromNext(insts: seq<Instr>, pc: nat, depth: nat)
    ensures EndFrom(insts, pc, depth) ==
      if pc >= |insts| then None
      else if insts[pc] == If then EndFrom(insts, pc + 1, depth + 1)
      else if insts[pc] != End then EndFrom(insts, pc + 1, depth)
      else if depth > 0 then EndFrom(insts, pc + 1, depth - 1)
      else Some(pc)
  {
  }

  /** The search passes over closed code without changing its depth. */
  lemma {:induction false} SearchSkipsClosed(insts: seq<Instr>, pc: nat, c: Code, depth: nat)
    requires Closed(c) && Lies(insts, pc, c)
    ensures EndFrom(insts, pc, depth) == EndFrom(insts, pc + Size(c), depth)
    decreases c
  {
    hide *;
    LiesParts(insts, pc, c);
    SizeParts(c);
    ClosedParts(c);
    EndFromNext(insts, pc, depth);
    match c
    case Nil =>
    case Op(op, rest) => SearchSkipsClosed(insts, pc + 1, rest, depth);
    case Block(body, next) =>
      var end := pc + 1 + Size(body);
      SearchSkipsClosed(insts, pc + 1, body, depth + 1);
      EndFromNext(insts, end, depth + 1);
      SearchSkipsClosed(insts, end + 1, next, depth);
  }

  /** The search finds nothing in code that runs to the end of the instructions. */
  lemma {:induction false} SearchFailsOpen(insts: seq<Instr>, pc: nat, c: Code, depth: nat)
    requires Wf(c) && Lies(insts, pc, c) && pc + Size(c) == |insts|
    ensures EndFrom(insts, pc, depth) == None
    decreases c
  {
    hide *;
    LiesParts(insts, pc, c);
    SizeParts(c);
    WfParts(c);
    EndFromNext(insts, pc, depth);
    match c
    case Nil =>
    case Op(op, rest) => SearchFailsOpen(insts, pc + 1, rest, depth);
    case Block(body, next) =>
      SearchSkipsClosed(insts, pc + 1, body, depth + 1);
      EndFromNext(insts, pc + 1 + Size(body), depth + 1);
      SearchFailsOpen(insts, pc + 2 + Size(body), next, depth);
    case OpenIf(tail) => SearchFailsOpen(insts, pc + 1, tail, depth + 1);
  }

  /** On every instruction sequence, counting depth finds the `End` given by the
      block structure, and fails exactly when there is none. */
  lemma {:induction false} SearchFindsMatchingEnd(insts: seq<Instr>, pc: nat)
    requires pc < |insts|
    ensures EndFrom(insts, pc + 1, 0) == MatchingEnd(insts, pc)
  {
    hide Parse, Lies, Closed, Wf, Size, EndFrom;
    var p := Parse(insts, pc + 1);
    ParseStands(insts, pc + 1);
    if p.closed {
      SearchSkipsClosed(insts, pc + 1, p.code, 0);
      EndFromNext(insts, p.end, 0);
    } else {
      SearchFailsOpen(insts, pc + 1, p.code, 0);
    }
  }

  /** `None` stands for the panic when the instructions run out. */
  method GetEndAddr(insts: seq<Instr>, start: nat) returns (end: Option<nat>)
    requires start < |insts|
    ensures end == MatchingEnd(insts, start)
  {
    SearchFindsMatchingEnd(insts, start);
    var pc := start;
    var depth := 0;
    while pc + 1 < |insts|
      invariant start <= pc < |insts|
      invariant EndFrom(insts, pc + 1, depth) == EndFrom(insts, start + 1, 0)
    {
      pc := pc + 1;
      match insts[pc]
      case If => depth := depth + 1;
      case End =>
        if depth == 0 {
          return Some(pc);
        } else {
          depth := depth - 1;
        }
      case _ =>
    }
    return None;
  }
}
