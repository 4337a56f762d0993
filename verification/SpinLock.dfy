/** Any number of threads that allocate under the spin lock, in every interleaving
    of their atomic steps: the swap that acquires, the read of `next`, the write of
    `next`, and the store that releases. */
module SpinLock {
  import opened Bits
  import opened Wrappers
  import opened Allocator

  datatype Phase =
    | Idle
    | Spinning(l: Layout)
    | Holding(l: Layout)
    | Computing(l: Layout, current: nat)
    | Leaving(l: Layout, addr: nat)
    | Panicked(l: Layout)

  /** Finished calls, in the order in which they released the lock. */
  datatype Call = Call(thread: nat, l: Layout, addr: nat)

  datatype World = World(locked: bool, heap: Heap, threads: map<nat, Phase>, log: seq<Call>) {
    function At(t: nat): Phase {
      if t in threads then threads[t] else Idle
    }
  }

  /** One atomic step of thread `t`; an idle thread asks for layout `l`.  What a
      thread writes is computed from the value of `next` that it read. */
  function Step(w: World, t: nat, l: Layout): World {
    match w.At(t)
    case Idle => w.(threads := w.threads[t := Spinning(l)])
    case Spinning(l0) => if w.locked then w else w.(locked := true, threads := w.threads[t := Holding(l0)])
    case Holding(l0) => w.(threads := w.threads[t := Computing(l0, w.heap.next)])
    case Computing(l0, current) =>
      (match Serve(w.heap.(next := current), l0)
       case (Overflow, _) => w.(threads := w.threads[t := Panicked(l0)])
       case (Ptr(a), h) =>
         w.(heap := if a == 0 then w.heap else w.heap.(next := h.next), threads := w.threads[t := Leaving(l0, a)]))
    case Leaving(l0, a) =>
      w.(locked := false, threads := w.threads[t := Idle], log := w.log + [Call(t, l0, a)])
    case Panicked(_) => w
  }

  /** A schedule names the thread that moves next, and a layout for idle threads. */
  function Run(w: World, schedule: seq<(nat, Layout)>): World
    decreases |schedule|
  {
    if schedule == [] then w
    else
      var k := |schedule| - 1;
      var w' := Run(w, schedule[..k]);
      Step(w', schedule[k].0, schedule[k].1)
  }

  function Start(h: Heap): World {
    World(false, h, map[], [])
  }

  // ----- mutual exclusion and the sequential history -----

  predicate Inside(p: Phase) {
    p.Holding? || p.Computing? || p.Leaving? || p.Panicked?
  }

  /** The heap after the logged calls made one after the other, if each of them
      would then get the logged answer. */
  function Replay(h: Heap, log: seq<Call>): Option<Heap>
    decreases |log|
  {
    if log == [] then Some(h)
    else
      var k := |log| - 1;
      match Replay(h, log[..k])
      case None => None
      case Some(h1) =>
        var (r, h2) := Serve(h1, log[k].l);
        if r == Ptr(log[k].addr) then Some(h2) else None
  }

  ghost predicate Exclusive(w: World) {
    && (forall t, t' :: Inside(w.At(t)) && Inside(w.At(t')) ==> t == t')
    && (w.locked <==> exists t :: Inside(w.At(t)))
  }

  ghost predicate Serial(h: Heap, w: World) {
    && (forall t :: w.At(t).Computing? ==> w.At(t).current == w.heap.next)
    && (forall t :: w.At(t).Leaving? ==>
          Replay(h, w.log + [Call(t, w.At(t).l, w.At(t).addr)]) == Some(w.heap))
    && ((forall t :: !w.At(t).Leaving?) ==> Replay(h, w.log) == Some(w.heap))
  }

  ghost predicate HeapOk(h: Heap) {
    0 < h.start <= h.next <= h.end < WORD
  }

  /** A thread has panicked only where the sum of `next` and its alignment overflows. */
  ghost predicate PanicsRightly(w: World) {
    forall t :: w.At(t).Panicked? ==> w.heap.next + Pow2(w.At(t).l.alignLog) >= WORD
  }

  ghost predicate Inv(h: Heap, w: World) {
    Exclusive(w) && Serial(h, w) && HeapOk(w.heap) && PanicsRightly(w)
  }

  lemma ReplayNext(h: Heap, log: seq<Call>, c: Call, h1: Heap, h2: Heap)
    requires Replay(h, log) == Some(h1) && Serve(h1, c.l) == (Ptr(c.addr), h2)
    ensures Replay(h, log + [c]) == Some(h2)
  {
    assert (log + [c])[..|log|] == log;
  }

  lemma StepKeepsExclusive(w: World, t: nat, l: Layout)
    requires Exclusive(w)
    ensures Exclusive(Step(w, t, l))
  {
    hide Serve;
    var w' := Step(w, t, l);
    assert forall u :: u != t ==> w'.At(u) == w.At(u);
    assert Inside(w'.At(t)) || !Inside(w'.At(t));
    if w.locked {
      var u :| Inside(w.At(u));
      assert w'.At(u) == w.At(u) || u == t;
    }
  }

  lemma StepKeepsSerial(h: Heap, w: World, t: nat, l: Layout)
    requires Inv(h, w)
    ensures Serial(h, Step(w, t, l)) && HeapOk(Step(w, t, l).heap)
  {
    var w' := Step(w, t, l);
    assert forall u :: u != t ==> w'.At(u) == w.At(u);
    if w.At(t).Computing? && !w'.At(t).Panicked? {
      var c := w.At(t);
      hide RoundUp, Pow2;
      assert w.heap.(next := c.current) == w.heap;
      ServeMeaning(w.heap, c.l);
      ReplayNext(h, w.log, Call(t, c.l, w'.At(t).addr), w.heap, w'.heap);
    }
  }

  lemma StepPanicsRightly(h: Heap, w: World, t: nat, l: Layout)
    requires Inv(h, w)
    ensures PanicsRightly(Step(w, t, l))
  {
    hide Serve, Pow2, Replay;
    var w' := Step(w, t, l);
    assert forall u :: u != t ==> w'.At(u) == w.At(u);
    if w.At(t).Computing? {
      assert w.heap.(next := w.At(t).current) == w.heap;
      ServeMeaning(w.heap, w.At(t).l);
      assert forall u :: u != t ==> !w.At(u).Panicked?;
    }
  }

  lemma {:induction false} RunKeepsInv(h: Heap, schedule: seq<(nat, Layout)>)
    requires HeapOk(h)
    ensures Inv(h, Run(Start(h), schedule))
    decreases |schedule|
  {
    hide Step;
    if schedule != [] {
      var k := |schedule| - 1;
      var w := Run(Start(h), schedule[..k]);
      RunKeepsInv(h, schedule[..k]);
      StepKeepsExclusive(w, schedule[k].0, schedule[k].1);
      StepKeepsSerial(h, w, schedule[k].0, schedule[k].1);
      StepPanicsRightly(h, w, schedule[k].0, schedule[k].1);
    }
  }

  // ----- the blocks -----

  /** A block that was given out, inside the heap and on its alignment. */
  ghost predicate GoodBlock(h: Heap, c: Call) {
    h.start <= c.addr && c.addr + c.l.size <= h.end && c.addr % Pow2(c.l.alignLog) == 0
  }

  /** No two blocks overlap: the later one starts after the earlier one's end. */
  ghost predicate Apart(log: seq<Call>) {
    forall i, j :: 0 <= i < j < |log| && log[i].addr != 0 && log[j].addr != 0 ==>
      log[i].addr + log[i].l.size <= log[j].addr
  }

  lemma {:induction false} ReplayedBlocks(h: Heap, log: seq<Call>)
    requires HeapOk(h) && Replay(h, log).Some?
    ensures var h' := Replay(h, log).value;
      && HeapOk(h') && h'.start == h.start && h'.end == h.end && h.next <= h'.next
      && Apart(log)
      && forall c :: c in log && c.addr != 0 ==> GoodBlock(h, c) && c.addr + c.l.size <= h'.next
    decreases |log|
  {
    if log != [] {
      var k := |log| - 1;
      ReplayedBlocks(h, log[..k]);
      hide Serve, Pow2;
      ServeMeaning(Replay(h, log[..k]).value, log[k].l);
      assert log == log[..k] + [log[k]];
    }
  }

  /** Call `k` of the history got null exactly when no aligned block of its size was left
      after the calls before it. */
  ghost predicate NullExactlyWhenFull(h: Heap, log: seq<Call>, k: nat)
    requires k < |log|
  {
    Replay(h, log[..k]).Some? &&
    (log[k].addr == 0 <==> !Fits(Replay(h, log[..k]).value, log[k].l))
  }

  lemma ReplayLast(h: Heap, log: seq<Call>)
    requires Replay(h, log).Some? && log != []
    ensures var k := |log| - 1;
      && Replay(h, log[..k]).Some?
      && Serve(Replay(h, log[..k]).value, log[k].l).0 == Ptr(log[k].addr)
  {
    hide Serve;
  }

  /** A null answer means that, after the calls before it, no aligned block of its
      size was left. */
  lemma ReplayedNulls(h: Heap, log: seq<Call>, k: nat)
    requires HeapOk(h) && Replay(h, log).Some? && k < |log|
    ensures NullExactlyWhenFull(h, log, k)
  {
    hide Replay, Serve, Pow2, Fits, Apart, GoodBlock;
    ReplayPrefix(h, log, k + 1);
    ReplayLast(h, log[..k + 1]);
    assert log[..k + 1][..k] == log[..k];
    ReplayedBlocks(h, log[..k]);
    ServeMeaning(Replay(h, log[..k]).value, log[k].l);
  }

  lemma {:induction false} ReplayPrefix(h: Heap, log: seq<Call>, k: nat)
    requires Replay(h, log).Some? && k <= |log|
    ensures Replay(h, log[..k]).Some?
    decreases |log|
  {
    if k < |log| {
      hide Serve;
      ReplayPrefix(h, log[..|log| - 1], k);
      assert log[..|log| - 1][..k] == log[..k];
    } else {
      assert log[..k] == log;
    }
  }

  lemma LogReplays(h: Heap, w: World)
    requires Inv(h, w)
    ensures Replay(h, w.log).Some?
  {
    if t :| w.At(t).Leaving? {
      var log := w.log + [Call(t, w.At(t).l, w.At(t).addr)];
      ReplayPrefix(h, log, |w.log|);
      assert log[..|w.log|] == w.log;
    }
  }

  /** Under every interleaving of any number of threads: at most one is inside the
      lock, the finished calls have the answers they would get one after the other,
      the blocks given out are aligned, inside the heap and pairwise disjoint, a call
      got null exactly when no block was left for it, and a thread has panicked only
      where the sum of `next` and its alignment overflows. */
  lemma EveryInterleaving(h: Heap, schedule: seq<(nat, Layout)>)
    requires HeapOk(h)
    ensures var w := Run(Start(h), schedule);
      && (forall t, t' :: Inside(w.At(t)) && Inside(w.At(t')) ==> t == t')
      && Replay(h, w.log).Some?
      && Apart(w.log)
      && (forall c :: c in w.log && c.addr != 0 ==> GoodBlock(h, c))
      && (forall k :: 0 <= k < |w.log| ==> NullExactlyWhenFull(h, w.log, k))
      && PanicsRightly(w)
  {
    hide Run, Replay, Serial, GoodBlock, Apart, Pow2;
    RunKeepsInv(h, schedule);
    var log := Run(Start(h), schedule).log;
    LogReplays(h, Run(Start(h), schedule));
    ReplayedBlocks(h, log);
    forall k | 0 <= k < |log|
      ensures NullExactlyWhenFull(h, log, k)
    {
      ReplayedNulls(h, log, k);
    }
  }

  // ----- progress -----

  /** Five steps of the same thread. */
  function Alone(w: World, t: nat, l: Layout): World {
    Step(Step(Step(Step(Step(w, t, l), t, l), t, l), t, l), t, l)
  }

  /** In every reachable state with a free lock, an idle thread that runs alone gets its
      answer and releases the lock, unless it panics, which it does exactly when the sum
      of `next` and its alignment overflows. */
  lemma AloneFinishes(h: Heap, schedule: seq<(nat, Layout)>, t: nat, l: Layout)
    requires HeapOk(h) && !Run(Start(h), schedule).locked && Run(Start(h), schedule).At(t) == Idle
    ensures var w := Run(Start(h), schedule);
      var w' := Alone(w, t, l);
      var (r, next) := Serve(w.heap, l);
      && (forall u :: u != t ==> w'.At(u) == w.At(u))
      && if w.heap.next + Pow2(l.alignLog) >= WORD then w'.At(t) == Panicked(l) && w'.locked && w'.log == w.log
         else
           && w'.At(t) == Idle && !w'.locked && r.Ptr?
           && w'.log == w.log + [Call(t, l, r.addr)] && w'.heap == next
  {
    hide Serve, Pow2, Run;
    RunKeepsInv(h, schedule);
    var w := Run(Start(h), schedule);
    ServeMeaning(w.heap, l);
    assert w.heap.(next := w.heap.next) == w.heap;
    var w1 := Step(w, t, l);
    assert w1 == w.(threads := w.threads[t := Spinning(l)]);
    var w2 := Step(w1, t, l);
    assert w2 == w.(locked := true, threads := w.threads[t := Holding(l)]);
    var w3 := Step(w2, t, l);
    assert w3 == w.(locked := true, threads := w.threads[t := Computing(l, w.heap.next)]);
  }
}
