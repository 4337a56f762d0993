/** Scheduler, context switches and page tables together: which task runs, where it goes
    on, and in which address space. */
module TaskSystem {
  import opened Wrappers
  import opened PageEntry
  import opened PageTree
  import opened PageMap
  import opened KernelSpace
  import opened KernelCopy
  import opened X86
  import opened ContextSwitch
  import S = Scheduler
  import T = TaskRuns

  // ----- the page tables of all tasks -----

  /** The root table of each task, in the order in which they were made. */
  datatype Tables = Tables(mem: Mem, roots: seq<nat>)

  /** One spawn after the other; spawn `k` copies the table of task `parents[k]`, the
      current one at that time.  `None` when the heap is exhausted. */
  function Spawned(m: Mem, root: nat, parents: seq<nat>): Option<Tables>
    decreases |parents|
  {
    if parents == [] then Some(Tables(m, [root]))
    else
      var k := |parents| - 1;
      match Spawned(m, root, parents[..k])
      case None => None
      case Some(t) =>
        if parents[k] >= |t.roots| then None
        else
          var r := Duplicate(t.mem, t.roots[parents[k]]);
          if r.Got? then Some(Tables(r.mem, t.roots + [r.node])) else None
  }

  /** Root tables that all give the kernel's address space. */
  ghost predicate AllKernel(t: Tables, tag: map<nat, Tag>, s: Sections)
    requires Linked(s)
  {
    MemOk(t.mem, tag) &&
    forall i :: 0 <= i < |t.roots| ==> IsRoot(t.mem.nodes, tag, t.roots[i]) && GivesKernel(t.mem.nodes, t.roots[i], s)
  }

  ghost predicate GivesKernel(nodes: Nodes, root: nat, s: Sections)
    requires Linked(s)
  {
    forall u :: Translate(nodes, root, u) == KernelView(s, u)
  }

  lemma DuplicateKeepsOthers(m: Mem, tag: map<nat, Tag>, root: nat, a: nat, u: nat)
    requires MemOk(m, tag) && IsRoot(m.nodes, tag, root) && IsRoot(m.nodes, tag, a)
    ensures var r := Duplicate(m, root); r.Got? ==> Translate(r.mem.nodes, a, u) == Translate(m.nodes, a, u)
  {
    hide Present, Walk, NewTable;
    NewTableIsFresh(m, tag);
    var r := Duplicate(m, root);
    if r.Got? {
      RootOnWay(m.nodes, tag, a, u);
      SameWalk(m.nodes, r.mem.nodes, tag, a, 4, u, ALL);
    }
  }

  lemma DuplicateKeepsAllKernel(t: Tables, tag: map<nat, Tag>, s: Sections, i: nat) returns (tag': map<nat, Tag>)
    requires Linked(s) && AllKernel(t, tag, s) && i < |t.roots|
    ensures var r := Duplicate(t.mem, t.roots[i]);
      r.Got? ==> AllKernel(Tables(r.mem, t.roots + [r.node]), tag', s)
  {
    hide Walk, Duplicate, KernelView, Tree, Placed, Twins;
    tag' := tag;
    DuplicateTranslates(t.mem, tag, t.roots[i]);
    var r := Duplicate(t.mem, t.roots[i]);
    if r.Got? {
      tag' := tag[r.node := Tag(4, 0)];
      forall j | 0 <= j < |t.roots|
        ensures IsRoot(r.mem.nodes, tag', t.roots[j]) && GivesKernel(r.mem.nodes, t.roots[j], s)
      {
        RootStays(t.mem, tag, r.mem, tag', t.roots[j]);
        forall u
          ensures Translate(r.mem.nodes, t.roots[j], u) == KernelView(s, u)
        {
          DuplicateKeepsOthers(t.mem, tag, t.roots[i], t.roots[j], u);
        }
      }
      assert GivesKernel(t.mem.nodes, t.roots[i], s);
    }
  }

  /** After the kernel's table is built and any number of tasks are spawned, each task's
      table translates every address as the kernel's address space. */
  lemma {:induction false} EveryTaskSeesTheKernel(
    m: Mem, tag: map<nat, Tag>, root: nat, s: Sections, parents: seq<nat>)
    returns (tag': map<nat, Tag>)
    requires MemOk(m, tag) && IsRoot(m.nodes, tag, root) && Linked(s) && GivesKernel(m.nodes, root, s)
    ensures var t := Spawned(m, root, parents);
      t.Some? ==> |t.value.roots| == |parents| + 1 && AllKernel(t.value, tag', s)
    decreases |parents|
  {
    hide GivesKernel, MemOk, Duplicate;
    tag' := tag;
    if parents != [] {
      var k := |parents| - 1;
      var tag1 := EveryTaskSeesTheKernel(m, tag, root, s, parents[..k]);
      var t := Spawned(m, root, parents[..k]);
      if t.Some? && parents[k] < |t.value.roots| {
        tag' := DuplicateKeepsAllKernel(t.value, tag1, s, parents[k]);
      }
    }
  }

  // ----- timer interrupts -----

  /** `roots[i]` is the root table of task `i`, `cr3` the one in use. */
  datatype Kernel = Kernel(s: S.Sched, y: T.System, roots: seq<nat>, cr3: nat)

  ghost predicate Ok(k: Kernel) {
    && T.Inv(k.y) && k.s.current == k.y.current < |k.s.tasks| && k.s.ticks < 3
    && |k.s.tasks| == |k.y.areas| == |k.roots| && k.cr3 == k.roots[k.s.current]
  }

  /** The current task runs up to processor state `c`; then a timer interrupt comes, which
      may switch.  `None` is the deadlock. */
  function Timer(k: Kernel, c: Cpu): Option<Kernel> {
    var y := T.Next(k.y, T.Work(c));
    match S.TimerStep(k.s)
    case Hangs => None
    case Stays(s) => Some(k.(s := s, y := y))
    case Moved(s) =>
      if s.current < |k.roots| then
        Some(Kernel(s, T.Next(y, T.Switch(s.current)), k.roots, k.roots[s.current]))
      else None
  }

  ghost predicate Able(k: Kernel, c: Cpu) {
    && T.Enabled(k.y, T.Work(c))
    && (S.TimerStep(k.s).Moved? ==> T.Enabled(T.Next(k.y, T.Work(c)), T.Switch(S.TimerStep(k.s).s.current)))
  }

  function Timers(k: Kernel, cs: seq<Cpu>): Option<Kernel>
    decreases |cs|
  {
    if cs == [] then Some(k)
    else
      match Timer(k, cs[0])
      case None => None
      case Some(k1) => Timers(k1, cs[1..])
  }

  ghost predicate AllAble(k: Kernel, cs: seq<Cpu>)
    decreases |cs|
  {
    cs == [] || (Able(k, cs[0]) && (Timer(k, cs[0]).Some? ==> AllAble(Timer(k, cs[0]).value, cs[1..])))
  }

  /** At most how many timer interrupts until task `t` is dispatched. */
  function Left(s: S.Sched, t: nat): int
    requires s.current < |s.tasks| && t < |s.tasks|
  {
    3 * S.Before(s, t) - s.ticks
  }

  /** One timer interrupt comes closer to every other runnable task, which meanwhile
      waits where it waited; if it is dispatched, it goes on there. */
  lemma TimerComesCloser(k: Kernel, c: Cpu, t: nat)
    requires Ok(k) && Able(k, c) && t < |k.s.tasks| && t != k.s.current && k.s.tasks[t].state == S.Runnable
    ensures Timer(k, c).Some?
    ensures var k1 := Timer(k, c).value;
      && Ok(k1) && k1.roots == k.roots && |k1.s.tasks| == |k.s.tasks| && k1.s.tasks[t].state == S.Runnable
      && k1.y.points[t] == k.y.points[t]
      && (k1.s.current == t ==> PointOf(k1.y.cpu) == k.y.points[t])
      && (k1.s.current != t ==> Left(k1.s, t) < Left(k.s, t))
  {
    hide S.SwitchStep, T.Inv, T.Enabled, SwitchInner, PointOf, CallSite;
    var s1 := k.s.(ticks := k.s.ticks + 1);
    S.SwitchComesCloser(s1, t);
    T.WorkKeepsInv(k.y, c);
    var y := T.Next(k.y, T.Work(c));
    PointsOfAll(k.y);
    if S.TimerStep(k.s).Moved? {
      var to := S.TimerStep(k.s).s.current;
      T.SwitchKeepsInv(y, to);
      PointsOfAll(y);
    }
  }

  lemma PointsOfAll(y: T.System)
    requires T.Inv(y)
    ensures |y.points| == |y.areas| && y.current < |y.points|
  {
  }

  /** Within three timer interrupts for each other task a waiting runnable task is the
      current one, goes on exactly where it waits, and has its own table in use. */
  lemma {:induction false} ResumedWithinTimers(k: Kernel, cs: seq<Cpu>, t: nat) returns (n: nat)
    requires Ok(k) && AllAble(k, cs) && t < |k.s.tasks| && t != k.s.current && k.s.tasks[t].state == S.Runnable
    requires Left(k.s, t) <= |cs|
    ensures 0 < n <= |cs| && n <= Left(k.s, t) <= 3 * (|k.s.tasks| - 1)
    ensures Timers(k, cs[..n]).Some?
    ensures var k' := Timers(k, cs[..n]).value;
      k'.s.current == t && PointOf(k'.y.cpu) == k.y.points[t] && k'.cr3 == k.roots[t]
    decreases Left(k.s, t)
  {
    hide Ok, Timer, Able, PointOf;
    OkTicks(k, t);
    TimerComesCloser(k, cs[0], t);
    var k1 := Timer(k, cs[0]).value;
    n := 1;
    if k1.s.current != t {
      OkTicks(k1, t);
      n := ResumedWithinTimers(k1, cs[1..], t);
      n := n + 1;
      assert cs[..n][1..] == cs[1..][..n - 1];
    } else {
      assert cs[..1][1..] == [];
      OkTicks(k1, t);
    }
  }

  lemma OkTicks(k: Kernel, t: nat)
    requires Ok(k) && t < |k.s.tasks|
    ensures k.s.current < |k.s.tasks| == |k.roots| && k.cr3 == k.roots[k.s.current]
    ensures t != k.s.current ==> 0 < Left(k.s, t) <= 3 * (|k.s.tasks| - 1)
    ensures |k.y.points| == |k.s.tasks|
  {
  }

  /** A task that a timer interrupt switches away from goes on behind that very call, with
      its registers, stack pointer and flags, within three further timer interrupts for
      each other task. */
  lemma PreemptedTaskComesBack(k: Kernel, c: Cpu, cs: seq<Cpu>) returns (n: nat)
    requires Ok(k) && Able(k, c) && k.s.tasks[k.s.current].state == S.Runnable
    requires S.TimerStep(k.s).Moved? && Timer(k, c).Some?
    requires AllAble(Timer(k, c).value, cs) && 3 * (|k.s.tasks| - 1) <= |cs|
    ensures n <= 3 * (|k.s.tasks| - 1) && Timers(Timer(k, c).value, cs[..n]).Some?
    ensures var k' := Timers(Timer(k, c).value, cs[..n]).value;
      k'.s.current == k.s.current && PointOf(k'.y.cpu) == CallSite(c) && k'.cr3 == k.cr3
  {
    hide T.Inv, T.Enabled, SwitchInner, PointOf, CallSite, AllAble, S.Search;
    var t := k.s.current;
    T.WorkKeepsInv(k.y, c);
    var y := T.Next(k.y, T.Work(c));
    PointsOfAll(k.y);
    PointsOfAll(y);
    var to := S.TimerStep(k.s).s.current;
    T.SwitchKeepsInv(y, to);
    var k1 := Timer(k, c).value;
    assert Ok(k1) && k1.y.points[t] == CallSite(c);
    OkTicks(k1, t);
    n := ResumedWithinTimers(k1, cs, t);
  }
}
