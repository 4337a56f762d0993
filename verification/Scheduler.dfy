/** The round-robin scheduler: who runs, and that everyone gets to run. */
module Scheduler {
  import opened Wrappers
  import opened Bits

  datatype TaskState = Runnable | Stopped

  datatype Task = Task(pid: nat, state: TaskState, running: bool)

  /** The scheduler after `init`; `current` is the index of the current task. */
  datatype Sched = Sched(tasks: seq<Task>, current: nat, ticks: nat)

  /** The place `k` after `start`, around a list of `n`. */
  function Around(n: nat, start: nat, k: nat): (i: nat)
    requires start < n && k <= n
    ensures i < n
  {
    if start + k < n then start + k else start + k - n
  }

  lemma AroundIsRemainder(n: nat, start: nat, k: nat)
    requires start < n && k <= n
    ensures (start + k) % n == Around(n, start, k)
  {
    if start + k < n {
      DivModUnique(start + k, n, 0, start + k);
    } else {
      DivModUnique(start + k, n, 1, start + k - n);
    }
  }

  /** The first offset from `d` on at which a task, counted around from `start`, is
      runnable; the number of tasks if there is none. */
  function Search(tasks: seq<Task>, start: nat, d: nat): (r: nat)
    requires start < |tasks| && d <= |tasks|
    ensures d <= r <= |tasks|
    ensures r < |tasks| ==> tasks[Around(|tasks|, start, r)].state == Runnable
    ensures forall k :: d <= k < r ==> tasks[Around(|tasks|, start, k)].state != Runnable
    decreases |tasks| - d
  {
    if d == |tasks| || tasks[Around(|tasks|, start, d)].state == Runnable then d else Search(tasks, start, d + 1)
  }

  /** `Hangs`: the next task is the current one, whose lock is taken already. */
  datatype Outcome = Moved(s: Sched) | Stays(s: Sched) | Hangs

  function SwitchTo(s: Sched, j: nat): Sched
    requires j < |s.tasks| && s.current < |s.tasks|
  {
    var off := s.tasks[s.current := s.tasks[s.current].(running := false)];
    Sched(off[j := off[j].(running := true)], j, s.ticks)
  }

  function SwitchStep(s: Sched): Outcome {
    var s0 := s.(ticks := 0);
    if s.current >= |s.tasks| then Stays(s0)
    else
      var n := |s.tasks|;
      var start := Around(n, s.current, 1);
      var d := Search(s.tasks, start, 0);
      if d == n then Stays(s0)
      else
        var j := Around(n, start, d);
        if j == s.current then Hangs else Moved(SwitchTo(s0, j))
  }

  /** A timer interrupt counts, and every third one switches. */
  function TimerStep(s: Sched): Outcome {
    var s1 := s.(ticks := s.ticks + 1);
    if s1.ticks >= 3 then SwitchStep(s1) else Stays(s1)
  }

  /** `spawn` adds a stopped task and makes it runnable when it is set up. */
  datatype Event = Add | Ready(i: nat) | Timer | Yield

  /** The idle task alone; `ticks` were counted before. */
  function Init(ticks: nat): Sched {
    Sched([Task(0, Runnable, true)], 0, ticks)
  }

  function Step(s: Sched, e: Event): Outcome {
    match e
    case Add => Stays(s.(tasks := s.tasks + [Task(|s.tasks|, Stopped, false)]))
    case Ready(i) =>
      Stays(if i < |s.tasks| then s.(tasks := s.tasks[i := s.tasks[i].(state := Runnable)]) else s)
    case Timer => TimerStep(s)
    case Yield => SwitchStep(s)
  }

  // ----- who runs -----

  /** Exactly one task is marked running, and it is the current one. */
  ghost predicate OneRuns(s: Sched) {
    && s.current < |s.tasks| && s.ticks < 3
    && (forall i :: 0 <= i < |s.tasks| ==> (s.tasks[i].running <==> i == s.current))
    && (forall i :: 0 <= i < |s.tasks| ==> s.tasks[i].pid == i)
  }

  lemma SwitchKeepsOneRuns(s: Sched)
    requires s.current < |s.tasks| && OneRuns(s.(ticks := 0))
    ensures !SwitchStep(s).Hangs? ==> OneRuns(SwitchStep(s).s)
  {
  }

  lemma StepKeepsOneRuns(s: Sched, e: Event)
    requires OneRuns(s)
    ensures !Step(s, e).Hangs? ==> OneRuns(Step(s, e).s)
  {
    hide SwitchStep;
    SwitchKeepsOneRuns(s);
    SwitchKeepsOneRuns(s.(ticks := s.ticks + 1));
  }

  /** The state after the events, unless the scheduler has hung. */
  function Run(ticks: nat, es: seq<Event>): Outcome
    decreases |es|
  {
    if es == [] then Stays(Init(ticks))
    else
      var o := Run(ticks, es[..|es| - 1]);
      if o.Hangs? then Hangs else Step(o.s, es[|es| - 1])
  }

  /** In every run of spawns, timer interrupts and switches. */
  lemma {:induction false} OneRunsAlways(ticks: nat, es: seq<Event>)
    requires ticks < 3
    ensures !Run(ticks, es).Hangs? ==> OneRuns(Run(ticks, es).s)
    decreases |es|
  {
    hide Step;
    if es != [] {
      OneRunsAlways(ticks, es[..|es| - 1]);
      var o := Run(ticks, es[..|es| - 1]);
      if !o.Hangs? {
        StepKeepsOneRuns(o.s, es[|es| - 1]);
      }
    }
  }

  lemma OffsetOf(n: nat, start: nat, i: nat) returns (k: nat)
    requires start < n && i < n
    ensures k < n && Around(n, start, k) == i
  {
    k := if i >= start then i - start else i + n - start;
  }

  /** A switch hangs exactly when the current task is the only runnable one. */
  lemma HangsExactlyWhen(s: Sched)
    requires OneRuns(s)
    ensures SwitchStep(s).Hangs? <==>
      s.tasks[s.current].state == Runnable &&
      forall i :: 0 <= i < |s.tasks| && i != s.current ==> s.tasks[i].state != Runnable
  {
    var n := |s.tasks|;
    var start := Around(n, s.current, 1);
    var d := Search(s.tasks, start, 0);
    forall i | 0 <= i < n && i != s.current && s.tasks[i].state == Runnable
      ensures d < n - 1
    {
      var k := OffsetOf(n, start, i);
    }
    assert Around(n, start, n - 1) == s.current;
  }

  /** So it hangs at the third timer interrupt when nothing was spawned. */
  lemma IdleAloneHangs()
    ensures Run(0, [Timer, Timer]) == Stays(Init(2)) && Run(0, [Timer, Timer, Timer]).Hangs?
  {
    var es := [Timer, Timer, Timer];
    assert es[..2][..1][..0] == [] && es[..2][..1] == es[..1] == [Timer];
    assert Run(0, es[..1]) == Stays(Init(1));
    assert Run(0, es[..2]) == Stays(Init(2));
    HangsExactlyWhen(Init(2));
    assert SwitchStep(Init(3)).Hangs? == SwitchStep(Init(2)).Hangs?;
  }

  // ----- everyone gets to run -----

  /** How many places the current task is before task `j`. */
  function Before(s: Sched, j: nat): nat
    requires s.current < |s.tasks| && j < |s.tasks|
  {
    if s.current <= j then j - s.current else j + |s.tasks| - s.current
  }

  /** A switch comes closer to every runnable task, without passing it. */
  lemma SwitchComesCloser(s: Sched, j: nat)
    requires s.current < |s.tasks| && j < |s.tasks| && j != s.current && s.tasks[j].state == Runnable
    ensures var o := SwitchStep(s);
      && o.Moved? && o.s.ticks == 0 && |o.s.tasks| == |s.tasks| && o.s.current < |s.tasks|
      && (forall i :: 0 <= i < |s.tasks| ==> o.s.tasks[i].state == s.tasks[i].state)
      && Before(o.s, j) < Before(s, j)
  {
    var n := |s.tasks|;
    var start := Around(n, s.current, 1);
    var k := Before(s, j) - 1;
    assert Around(n, start, k) == j;
    assert Search(s.tasks, start, 0) <= k;
  }

  /** The state after a step that did not hang. */
  function Then(o: Outcome): Option<Sched> {
    if o.Hangs? then None else Some(o.s)
  }

  /** `k` switches in a row. */
  function Switches(s: Sched, k: nat): Option<Sched> {
    if k == 0 then Some(s)
    else
      var o := Switches(s, k - 1);
      if o.Some? then Then(SwitchStep(o.value)) else None
  }

  /** `k` timer interrupts in a row. */
  function Timers(s: Sched, k: nat): Option<Sched> {
    if k == 0 then Some(s)
    else
      var o := Timers(s, k - 1);
      if o.Some? then Then(TimerStep(o.value)) else None
  }

  lemma {:induction false} SwitchesFirst(s: Sched, k: nat)
    requires !SwitchStep(s).Hangs?
    ensures Switches(s, k + 1) == Switches(SwitchStep(s).s, k)
  {
    hide SwitchStep;
    if k > 0 {
      SwitchesFirst(s, k - 1);
    }
  }

  lemma {:induction false} TimersAdd(s: Sched, a: nat, b: nat)
    requires Timers(s, a).Some?
    ensures Timers(s, a + b) == Timers(Timers(s, a).value, b)
    decreases b
  {
    hide TimerStep;
    if b > 0 {
      TimersAdd(s, a, b - 1);
    }
  }

  /** With a fixed list of tasks, a runnable task is dispatched within one switch for
      each of the others. */
  lemma {:induction false} DispatchedWithinSwitches(s: Sched, j: nat) returns (k: nat)
    requires s.current < |s.tasks| && j < |s.tasks| && s.tasks[j].state == Runnable
    ensures k <= Before(s, j) <= |s.tasks| - 1
    ensures Switches(s, k).Some? && Switches(s, k).value.current == j
    decreases Before(s, j)
  {
    hide SwitchStep;
    k := 0;
    if j != s.current {
      SwitchComesCloser(s, j);
      var s1 := SwitchStep(s).s;
      k := DispatchedWithinSwitches(s1, j);
      SwitchesFirst(s, k);
      k := k + 1;
    }
  }

  /** The timer interrupts up to the next switch. */
  lemma ThirdTimerSwitches(s: Sched)
    requires s.ticks < 3
    ensures var r := 3 - s.ticks; r <= 3 && Timers(s, r) == Then(SwitchStep(s))
  {
    hide SwitchStep;
    var s1 := s.(ticks := s.ticks + 1);
    var s2 := s.(ticks := s.ticks + 2);
    TicksDoNotMatter(s, s.(ticks := 3));
    TicksDoNotMatter(s, s.(ticks := s.ticks + 1));
    TicksDoNotMatter(s, s.(ticks := s.ticks + 2));
    TicksDoNotMatter(s, s.(ticks := s.ticks + 3));
    assert Timers(s, 1) == Then(TimerStep(s));
    if s.ticks < 2 {
      assert Timers(s, 1) == Some(s1);
      assert Timers(s, 2) == Then(TimerStep(s1));
    }
    if s.ticks < 1 {
      assert Timers(s, 2) == Some(s2);
      assert Timers(s, 3) == Then(TimerStep(s2));
    }
  }

  lemma TicksDoNotMatter(s: Sched, s': Sched)
    requires s.tasks == s'.tasks && s.current == s'.current
    ensures SwitchStep(s) == SwitchStep(s')
  {
  }

  /** Hence within three timer interrupts for each of the others. */
  lemma {:induction false} DispatchedWithinTimers(s: Sched, j: nat) returns (k: nat)
    requires s.current < |s.tasks| && j < |s.tasks| && s.tasks[j].state == Runnable && s.ticks < 3
    ensures k <= 3 * Before(s, j) <= 3 * (|s.tasks| - 1)
    ensures Timers(s, k).Some? && Timers(s, k).value.current == j
    decreases Before(s, j)
  {
    hide SwitchStep;
    k := 0;
    if j != s.current {
      SwitchComesCloser(s, j);
      ThirdTimerSwitches(s);
      var r := 3 - s.ticks;
      var s1 := SwitchStep(s).s;
      k := DispatchedWithinTimers(s1, j);
      TimersAdd(s, r, k);
      k := r + k;
    }
  }

  // ----- what a spawned task can count on -----

  lemma SearchMisses(s: Sched)
    requires s.current < |s.tasks|
    ensures var n := |s.tasks|;
      Search(s.tasks, Around(n, s.current, 1), 0) == n <==> forall i :: 0 <= i < n ==> s.tasks[i].state != Runnable
  {
    var n := |s.tasks|;
    var start := Around(n, s.current, 1);
    if Search(s.tasks, start, 0) == n {
      forall i | 0 <= i < n
        ensures s.tasks[i].state != Runnable
      {
        var k := OffsetOf(n, start, i);
      }
    }
  }

  /** A switch stays with the current task exactly when no task is runnable, and then only
      the ticks start again. */
  lemma StaysExactlyWhen(s: Sched)
    requires s.current < |s.tasks|
    ensures SwitchStep(s).Stays? <==> forall i :: 0 <= i < |s.tasks| ==> s.tasks[i].state != Runnable
    ensures SwitchStep(s).Stays? ==> SwitchStep(s).s == s.(ticks := 0)
  {
    SearchMisses(s);
  }

  /** A timer interrupt that is not the third one since the last switch only counts. */
  lemma SwitchesAtTheThird(s: Sched)
    requires s.current < |s.tasks| && s.ticks < 3
    ensures if s.ticks < 2 then TimerStep(s) == Stays(s.(ticks := s.ticks + 1)) else TimerStep(s) == SwitchStep(s)
  {
    hide SwitchStep;
    TicksDoNotMatter(s, s.(ticks := s.ticks + 1));
  }

  lemma StepKeepsRunnable(s: Sched, e: Event, i: nat)
    requires s.current < |s.tasks| && i < |s.tasks| && s.tasks[i].state == Runnable && !Step(s, e).Hangs?
    ensures i < |Step(s, e).s.tasks| && Step(s, e).s.tasks[i].state == Runnable
  {
    hide Search;
  }

  lemma TwoNeverHang(s: Sched, e: Event, i: nat, j: nat)
    requires OneRuns(s) && i < j < |s.tasks| && s.tasks[i].state == Runnable && s.tasks[j].state == Runnable
    ensures !Step(s, e).Hangs?
  {
    hide SwitchStep;
    HangsExactlyWhen(s);
    TicksDoNotMatter(s, s.(ticks := s.ticks + 1));
  }

  lemma RunNext(ticks: nat, es: seq<Event>, e: Event)
    ensures Run(ticks, es + [e]) == if Run(ticks, es).Hangs? then Hangs else Step(Run(ticks, es).s, e)
  {
    hide Step;
    assert (es + [e])[..|es|] == es;
  }

  lemma {:induction false} IdleStaysRunnable(ticks: nat, es: seq<Event>)
    requires ticks < 3
    ensures var o := Run(ticks, es); !o.Hangs? ==> 0 < |o.s.tasks| && o.s.tasks[0].state == Runnable
    decreases |es|
  {
    hide Step;
    if es != [] {
      var k := |es| - 1;
      IdleStaysRunnable(ticks, es[..k]);
      OneRunsAlways(ticks, es[..k]);
      var o := Run(ticks, es[..k]);
      if !o.Hangs? && !Step(o.s, es[k]).Hangs? {
        StepKeepsRunnable(o.s, es[k], 0);
      }
    }
  }

  /** With a second runnable task nothing that happens later deadlocks. */
  lemma {:induction false} NeverHangsAgain(ticks: nat, es: seq<Event>, more: seq<Event>, j: nat)
    requires ticks < 3 && !Run(ticks, es).Hangs?
    requires 0 < j < |Run(ticks, es).s.tasks| && Run(ticks, es).s.tasks[j].state == Runnable
    ensures !Run(ticks, es + more).Hangs?
    ensures j < |Run(ticks, es + more).s.tasks| && Run(ticks, es + more).s.tasks[j].state == Runnable
    decreases |more|
  {
    hide Step, Run;
    if more == [] {
      assert es + more == es;
    } else {
      var k := |more| - 1;
      NeverHangsAgain(ticks, es, more[..k], j);
      var before := es + more[..k];
      assert es + more == before + [more[k]];
      RunNext(ticks, before, more[k]);
      OneRunsAlways(ticks, before);
      IdleStaysRunnable(ticks, before);
      var s := Run(ticks, before).s;
      TwoNeverHang(s, more[k], 0, j);
      StepKeepsRunnable(s, more[k], j);
    }
  }

  lemma SpawnedState(ticks: nat, es: seq<Event>)
    requires !Run(ticks, es).Hangs?
    ensures var s := Run(ticks, es).s;
      var j := |s.tasks|;
      Run(ticks, es + [Add] + [Ready(j)]) == Stays(s.(tasks := s.tasks + [Task(j, Runnable, false)]))
  {
    hide Run;
    var s := Run(ticks, es).s;
    RunNext(ticks, es, Add);
    RunNext(ticks, es + [Add], Ready(|s.tasks|));
    assert (s.tasks + [Task(|s.tasks|, Stopped, false)])[|s.tasks| := Task(|s.tasks|, Runnable, false)]
        == s.tasks + [Task(|s.tasks|, Runnable, false)];
  }

  /** A task spawned in any reachable state is dispatched within three timer interrupts for
      each task that was there, and whatever happens after the spawn, nothing deadlocks. */
  lemma SpawnedTaskRuns(ticks: nat, es: seq<Event>, more: seq<Event>) returns (k: nat)
    requires ticks < 3 && !Run(ticks, es).Hangs?
    ensures var j := |Run(ticks, es).s.tasks|;
      var after := es + [Add] + [Ready(j)];
      && !Run(ticks, after).Hangs? && !Run(ticks, after + more).Hangs?
      && k <= 3 * j && Timers(Run(ticks, after).s, k).Some?
      && Timers(Run(ticks, after).s, k).value.current == j
  {
    hide Run, Step, Timers;
    var j := |Run(ticks, es).s.tasks|;
    var after := es + [Add] + [Ready(j)];
    OneRunsAlways(ticks, es);
    SpawnedState(ticks, es);
    NeverHangsAgain(ticks, after, more, j);
    k := DispatchedWithinTimers(Run(ticks, after).s, j);
  }

  // ----- the scheduler's state, updated in place -----

  datatype Result = DidMove | DidStay | Deadlock

  function Ended(r: Result, s: Sched): Outcome {
    match r
    case DidMove => Moved(s)
    case DidStay => Stays(s)
    case Deadlock => Hangs
  }

  /** All tasks, the current one, and the tick count. */
  class TaskTable {
    var tasks: seq<Task>
    var current: nat
    var ticks: nat

    ghost function Value(): Sched
      reads this
    {
      Sched(tasks, current, ticks)
    }

    constructor (ticks: nat)
      ensures Value() == Init(ticks)
      ensures tasks == [Task(0, Runnable, true)] && current == 0 && this.ticks == ticks
    {
      tasks, current, this.ticks := [Task(0, Runnable, true)], 0, ticks;
    }

    method Spawn()
      modifies this
      ensures tasks == old(tasks) + [Task(|old(tasks)|, Runnable, false)]
      ensures current == old(current) && ticks == old(ticks)
      ensures Stays(Value())
           == Step(Step(old(Value()), Add).s, Ready(|old(tasks)|))
    {
      var i := |tasks|;
      tasks := tasks + [Task(|tasks|, Stopped, false)];
      tasks := tasks[i := tasks[i].(state := Runnable)];
    }

    method Tick()
      modifies this`ticks
      ensures ticks == old(ticks) + 1
    {
      ticks := ticks + 1;
    }

    /** The next runnable task around the list, if there is one. */
    method FindNext() returns (next: Option<nat>)
      requires current < |tasks|
      ensures var n := |tasks|;
        var d := Search(tasks, Around(n, current, 1), 0);
        next == if d == n then None else Some(Around(n, Around(n, current, 1), d))
    {
      var n := |tasks|;
      AroundIsRemainder(n, current, 1);
      var i := (current + 1) % n;
      var start := i;
      ghost var d := 0;
      while true
        invariant 0 <= d < n && i == Around(n, start, d)
        invariant Search(tasks, start, d) == Search(tasks, start, 0)
        decreases n - d
      {
        if tasks[i].state == Runnable {
          return Some(i);
        }
        AroundIsRemainder(n, i, 1);
        i := (i + 1) % n;
        d := d + 1;
        if i == start {
          return None;
        }
      }
    }

    method Switch() returns (r: Result)
      requires current < |tasks|
      modifies this
      ensures Ended(r, Value()) == SwitchStep(old(Value()))
    {
      ticks := 0;
      var next := FindNext();
      if next == None {
        return DidStay;
      }
      if next.value == current {
        return Deadlock;
      }
      tasks := tasks[current := tasks[current].(running := false)];
      current := next.value;
      tasks := tasks[current := tasks[current].(running := true)];
      return DidMove;
    }

    method TimerInterrupt() returns (r: Result)
      requires current < |tasks|
      modifies this
      ensures Ended(r, Value()) == TimerStep(old(Value()))
    {
      hide SwitchStep;
      Tick();
      if ticks >= 3 {
        r := Switch();
      } else {
        r := DidStay;
      }
    }
  }
}
