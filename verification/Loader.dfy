/** The boot loader: the extent of the kernel image, its segments in memory, and what the
    kernel finds at its virtual addresses. */
module Loader {
  import opened Wrappers
  import opened Bits
  import opened MemLayout
  import opened PageTree
  import opened PageMap
  import opened PageTable
  import opened KernelSpace
  import opened EarlyPaging

  /** A program header; `load` says that its type is PT_LOAD. */
  datatype Segment = Segment(load: bool, vaddr: nat, paddr: nat, offset: nat, filesz: nat, memsz: nat)

  /** What the loader takes for granted of every loadable segment: its file part is in
      the file and not longer than its memory, and its addresses fit in a word. */
  ghost predicate Sound(file: seq<nat>, s: Segment) {
    s.load ==>
      && s.filesz <= s.memsz && s.offset + s.filesz <= |file|
      && s.vaddr + s.memsz < WORD && s.paddr + s.memsz < WORD
  }

  // ----- the extent of the image -----

  function Min(a: nat, b: nat): nat { if a < b then a else b }
  function Max(a: nat, b: nat): nat { if a > b then a else b }

  /** The bounds of the loadable ones among the first `n` segments: they hold for all
      of these, and each is met by one of them. */
  ghost predicate IsExtent(segs: seq<Segment>, n: nat, e: Extent)
    requires n <= |segs|
  {
    && (forall k :: 0 <= k < n && segs[k].load ==>
          e.startVirt <= segs[k].vaddr && e.startPhys <= segs[k].paddr && segs[k].vaddr + segs[k].memsz <= e.endVirt)
    && (exists k :: 0 <= k < n && segs[k].load && segs[k].vaddr == e.startVirt)
    && (exists k :: 0 <= k < n && segs[k].load && segs[k].paddr == e.startPhys)
    && (exists k :: 0 <= k < n && segs[k].load && segs[k].vaddr + segs[k].memsz == e.endVirt)
  }

  /** The least addresses and the greatest end of the loadable segments, from the
      largest word and zero. */
  method GetKernelSize(segs: seq<Segment>) returns (e: Extent)
    requires forall k :: 0 <= k < |segs| && segs[k].load ==> segs[k].vaddr + segs[k].memsz < WORD && segs[k].paddr < WORD
    ensures if exists k :: 0 <= k < |segs| && segs[k].load then IsExtent(segs, |segs|, e)
            else e == Extent(WORD - 1, WORD - 1, 0)
  {
    var sv, sp, ev := WORD - 1, WORD - 1, 0;
    for i := 0 to |segs|
      invariant 0 <= sv < WORD && 0 <= sp < WORD && 0 <= ev
      invariant if exists k :: 0 <= k < i && segs[k].load then IsExtent(segs, i, Extent(sv, sp, ev))
                else sv == WORD - 1 && sp == WORD - 1 && ev == 0
    {
      ghost var before := Extent(sv, sp, ev);
      if segs[i].load {
        sv := Min(sv, segs[i].vaddr);
        sp := Min(sp, segs[i].paddr);
        ev := Max(ev, segs[i].vaddr + segs[i].memsz);
        ExtentGrows(segs, i, before);
      }
    }
    return Extent(sv, sp, ev);
  }

  lemma ExtentGrows(segs: seq<Segment>, i: nat, e: Extent)
    requires i < |segs| && segs[i].load && segs[i].vaddr < WORD && segs[i].paddr < WORD
    requires IsExtent(segs, i, e) ||
      ((forall k :: 0 <= k < i ==> !segs[k].load) && e == Extent(WORD - 1, WORD - 1, 0))
    ensures IsExtent(segs, i + 1, Extent(Min(e.startVirt, segs[i].vaddr), Min(e.startPhys, segs[i].paddr),
                                         Max(e.endVirt, segs[i].vaddr + segs[i].memsz)))
  {
  }

  // ----- segments in memory -----

  function ByteAt(bytes: map<nat, nat>, a: nat): nat {
    if a in bytes then bytes[a] else 0
  }

  /** The byte at `a` after segment `s` is loaded over what was there. */
  function Over(file: seq<nat>, s: Segment, a: nat, before: nat): nat {
    if s.load && s.paddr <= a < s.paddr + s.filesz && s.offset + (a - s.paddr) < |file| then
      file[s.offset + (a - s.paddr)]
    else if s.load && s.paddr + s.filesz <= a < s.paddr + s.memsz then 0
    else before
  }

  /** The byte at `a` after the first `n` segments. */
  function Loaded(file: seq<nat>, segs: seq<Segment>, n: nat, a: nat, before: nat): nat
    requires n <= |segs|
  {
    if n == 0 then before else Over(file, segs[n - 1], a, Loaded(file, segs, n - 1, a, before))
  }

  class PhysicalMemory {
    var bytes: map<nat, nat>

    method Copy(dst: nat, src: seq<nat>)
      modifies this
      ensures forall a: nat ::
        ByteAt(bytes, a) == if dst <= a < dst + |src| then src[a - dst] else ByteAt(old(bytes), a)
    {
      for i := 0 to |src|
        invariant forall a: nat :: ByteAt(bytes, a) == if dst <= a < dst + i then src[a - dst] else ByteAt(old(bytes), a)
      {
        ghost var prev := bytes;
        bytes := bytes[dst + i := src[i]];
        assert forall a: nat :: ByteAt(bytes, a) == if a == dst + i then src[i] else ByteAt(prev, a);
      }
    }

    method Zero(dst: nat, count: nat)
      modifies this
      ensures forall a: nat :: ByteAt(bytes, a) == if dst <= a < dst + count then 0 else ByteAt(old(bytes), a)
    {
      for i := 0 to count
        invariant forall a: nat :: ByteAt(bytes, a) == if dst <= a < dst + i then 0 else ByteAt(old(bytes), a)
      {
        ghost var prev := bytes;
        bytes := bytes[dst + i := 0];
        assert forall a: nat :: ByteAt(bytes, a) == if a == dst + i then 0 else ByteAt(prev, a);
      }
    }

    /** Copies the file part of every loadable segment and clears the rest of it. */
    method LoadSegments(file: seq<nat>, segs: seq<Segment>)
      requires forall k :: 0 <= k < |segs| ==> Sound(file, segs[k])
      modifies this
      ensures forall a: nat :: ByteAt(bytes, a) == Loaded(file, segs, |segs|, a, ByteAt(old(bytes), a))
      ensures forall a: nat :: !InSegments(segs, a) ==> ByteAt(bytes, a) == ByteAt(old(bytes), a)
    {
      hide InSegments;
      for i := 0 to |segs|
        invariant forall a: nat :: ByteAt(bytes, a) == Loaded(file, segs, i, a, ByteAt(old(bytes), a))
      {
        var s := segs[i];
        assert Sound(file, s);
        if s.load {
          Copy(s.paddr, file[s.offset..s.offset + s.filesz]);
          Zero(s.paddr + s.filesz, s.memsz - s.filesz);
        }
      }
      forall a: nat | !InSegments(segs, a)
        ensures Loaded(file, segs, |segs|, a, ByteAt(old(bytes), a)) == ByteAt(old(bytes), a)
      {
        OutsideIsKept(file, segs, |segs|, a, ByteAt(old(bytes), a));
      }
    }
  }

  /** `a` lies in the memory of a loadable segment. */
  predicate InSegments(segs: seq<Segment>, a: nat) {
    exists k :: 0 <= k < |segs| && segs[k].load && segs[k].paddr <= a < segs[k].paddr + segs[k].memsz
  }

  lemma {:induction false} OutsideIsKept(file: seq<nat>, segs: seq<Segment>, n: nat, a: nat, before: nat)
    requires n <= |segs| && !InSegments(segs, a)
    requires forall k :: 0 <= k < |segs| ==> Sound(file, segs[k])
    ensures Loaded(file, segs, n, a, before) == before
    decreases n
  {
    if n > 0 {
      OutsideIsKept(file, segs, n - 1, a, before);
      assert Sound(file, segs[n - 1]);
    }
  }

  /** No two loadable segments overlap in physical memory. */
  ghost predicate Disjoint(segs: seq<Segment>) {
    forall i, j :: 0 <= i < j < |segs| && segs[i].load && segs[j].load ==>
      segs[i].paddr + segs[i].memsz <= segs[j].paddr || segs[j].paddr + segs[j].memsz <= segs[i].paddr
  }

  /** Loading the segments after `k` leaves the bytes of segment `k` alone. */
  lemma {:induction false} LaterSegmentsKeep(file: seq<nat>, segs: seq<Segment>, k: nat, n: nat, a: nat, before: nat)
    requires Disjoint(segs) && k < n <= |segs| && segs[k].load
    requires forall i :: 0 <= i < |segs| ==> Sound(file, segs[i])
    requires segs[k].paddr <= a < segs[k].paddr + segs[k].memsz
    ensures Loaded(file, segs, n, a, before) == Loaded(file, segs, k + 1, a, before)
    decreases n
  {
    if k + 1 < n {
      LaterSegmentsKeep(file, segs, k, n - 1, a, before);
      assert Sound(file, segs[n - 1]);
    }
  }

  /** Every byte of every segment: the file's byte, or zero past the file part. */
  lemma SegmentBytes(file: seq<nat>, segs: seq<Segment>, k: nat, o: nat, before: nat)
    requires Disjoint(segs) && k < |segs| && segs[k].load && o < segs[k].memsz
    requires forall i :: 0 <= i < |segs| ==> Sound(file, segs[i])
    ensures o < segs[k].filesz ==> segs[k].offset + o < |file|
    ensures Loaded(file, segs, |segs|, segs[k].paddr + o, before)
         == if o < segs[k].filesz then file[segs[k].offset + o] else 0
  {
    assert Sound(file, segs[k]);
    LaterSegmentsKeep(file, segs, k, |segs|, segs[k].paddr + o, before);
  }

  // ----- the image as the kernel sees it -----

  /** All loadable segments are as far apart in virtual as in physical memory. */
  ghost predicate OneOffset(segs: seq<Segment>, d: nat) {
    forall k :: 0 <= k < |segs| && segs[k].load ==> segs[k].vaddr == segs[k].paddr + d
  }

  /** Every byte of every segment lies in the pages allocated for the image, at the place
      that its virtual address is mapped to. */
  lemma ByteInImage(segs: seq<Segment>, e: Extent, d: nat, k: nat, o: nat)
    requires OneOffset(segs, d) && IsExtent(segs, |segs|, e) && e.startVirt <= e.endVirt
    requires k < |segs| && segs[k].load && o < segs[k].memsz
    ensures InImage(e, segs[k].vaddr + o)
    ensures e.startPhys + (segs[k].vaddr + o - e.startVirt) == segs[k].paddr + o
    ensures e.startPhys <= segs[k].paddr + o < e.startPhys + Pages(e.endVirt - e.startVirt) * PAGE_SIZE
  {
    hide Pages;
    StartsMatch(segs, e, d);
    assert segs[k].vaddr == segs[k].paddr + d;
  }

  lemma StartsMatch(segs: seq<Segment>, e: Extent, d: nat)
    requires OneOffset(segs, d) && IsExtent(segs, |segs|, e)
    ensures e.startVirt == e.startPhys + d
  {
    var i :| 0 <= i < |segs| && segs[i].load && segs[i].vaddr == e.startVirt;
    var j :| 0 <= j < |segs| && segs[j].load && segs[j].paddr == e.startPhys;
    assert segs[i].vaddr == segs[i].paddr + d;
    assert segs[j].vaddr == segs[j].paddr + d;
  }

  /** At offset `o` of segment `s` the kernel finds the file's byte, or zero past the
      file part, in memory that it may write and execute. */
  ghost predicate Visible(nodes: Nodes, root: nat, bytes: map<nat, nat>, file: seq<nat>, s: Segment, o: nat) {
    Translate(nodes, root, s.vaddr + o) == Some(ImagePage(s.paddr + o)) && Holds(bytes, file, s, o)
  }

  ghost predicate Holds(bytes: map<nat, nat>, file: seq<nat>, s: Segment, o: nat) {
    if o < s.filesz then s.offset + o < |file| && ByteAt(bytes, s.paddr + o) == file[s.offset + o]
    else ByteAt(bytes, s.paddr + o) == 0
  }

  /** Finds the extent of the image, maps it and loads it.  The new root table lies in
      the stack frame of a function that has returned; `dead` is what the calls after
      it leave in those words.  Every byte of the image is loaded, and it is visible if
      and only if the root word of its address still leads there, in particular if
      that word still means the same. */
  method LoadToMemory(
    pt: PageTables, ram: PhysicalMemory, root: nat, frame: nat, dead: seq<nat>, file: seq<nat>, segs: seq<Segment>,
    ghost tag: map<nat, Tag>, ghost d: nat)
    returns (st: Status, ghost built: seq<nat>, ghost e: Extent)
    requires MemOk(pt.Value(), tag) && IsRoot(pt.nodes, tag, root)
    requires frame !in pt.nodes && Placed(pt.allocator.Value(), frame) && |dead| == 512
    requires forall i :: 0 <= i < |segs| ==> Sound(file, segs[i])
    requires Disjoint(segs) && OneOffset(segs, d) && (exists k :: 0 <= k < |segs| && segs[k].load)
    requires forall e :: IsExtent(segs, |segs|, e) ==> Placeable(e) && ImageFree(pt.nodes, root, e)
    modifies pt, pt.allocator, ram
    ensures st == Success || st == NoMemory
    ensures st == Success ==>
      && |built| == 512 && root in pt.nodes && pt.nodes[root] == old(pt.nodes[root])
      && forall k, o: nat :: 0 <= k < |segs| && segs[k].load && o < segs[k].memsz ==>
           ByteOutcome(pt.nodes, frame, built, dead, ram.bytes, file, segs[k], o)
    ensures st == Success ==> forall a: nat :: !InSegments(segs, a) ==> ByteAt(ram.bytes, a) == ByteAt(old(ram.bytes), a)
    ensures st == Success ==>
      && IsExtent(segs, |segs|, e) && e.startVirt <= e.endVirt
      && StillEarly(pt.nodes, frame, built, dead, e, old(pt.nodes), root)
  {
    hide HugeFree, Walk, Tree, MapSpec, EarlySpec, Loaded, MemOk, Placeable, IsExtent, Placed, ByteOutcome, EarlySpace, StillEarly, InSegments;
    SoundFits(file, segs);
    var extent := GetKernelSize(segs);
    e := extent;
    ghost var m, bytes := pt.Value(), ram.bytes;
    ghost var tag';
    st, tag' := InitEarlyPaging(pt, root, frame, extent, tag);
    built := [];
    if st != Success {
      return;
    }
    ghost var nodes := pt.nodes;
    TableSizes(pt.Value(), tag');
    built := nodes[frame];
    pt.nodes := pt.nodes[frame := dead];
    ram.LoadSegments(file, segs);
    forall k, o: nat | 0 <= k < |segs| && segs[k].load && o < segs[k].memsz
      ensures ByteOutcome(pt.nodes, frame, built, dead, ram.bytes, file, segs[k], o)
    {
      LoadedByte(nodes, tag', frame, dead, m.nodes, root, bytes, ram.bytes, file, segs, e, d, k, o);
    }
    StillEarlyAfter(nodes, tag', frame, dead, e, m.nodes, root);
  }

  lemma LoadedByte(
    nodes: Nodes, tag: map<nat, Tag>, frame: nat, dead: seq<nat>, nodes0: Nodes, root: nat,
    bytes: map<nat, nat>, bytes': map<nat, nat>, file: seq<nat>, segs: seq<Segment>, e: Extent, d: nat, k: nat, o: nat)
    requires Tree(nodes, tag) && IsRoot(nodes, tag, frame) && |dead| == 512
    requires Placeable(e) && EarlySpace(nodes, frame, e, nodes0, root)
    requires forall i :: 0 <= i < |segs| ==> Sound(file, segs[i])
    requires Disjoint(segs) && OneOffset(segs, d) && IsExtent(segs, |segs|, e)
    requires k < |segs| && segs[k].load && o < segs[k].memsz
    requires forall a: nat :: ByteAt(bytes', a) == Loaded(file, segs, |segs|, a, ByteAt(bytes, a))
    ensures ByteOutcome(nodes[frame := dead], frame, nodes[frame], dead, bytes', file, segs[k], o)
  {
    hide Walk, Tree, EarlySpace, Loaded, Placeable, IsExtent, ByteOutcome, ByteAt;
    PlaceableFits(e);
    ByteInImage(segs, e, d, k, o);
    SegmentBytes(file, segs, k, o, ByteAt(bytes, segs[k].paddr + o));
    InEarlySpace(nodes, frame, e, nodes0, root, segs[k].vaddr + o);
    OutcomeOf(nodes, tag, frame, dead, bytes', file, segs[k], o);
  }

  /** Wherever the root word still means the same, the address space is the early one. */
  ghost predicate StillEarly(
    nodes: Nodes, frame: nat, built: seq<nat>, dead: seq<nat>, e: Extent, nodes0: Nodes, root: nat)
    requires |built| == 512 && |dead| == 512 && e.startVirt <= e.endVirt
  {
    forall u: nat :: Canonical(u) && SameMeaning(4, built[Idx(u, 4)], dead[Idx(u, 4)]) ==>
      Translate(nodes, frame, u) == EarlyView(e, u, Translate(nodes0, root, u))
  }

  lemma StillEarlyAfter(
    nodes: Nodes, tag: map<nat, Tag>, frame: nat, dead: seq<nat>, e: Extent, nodes0: Nodes, root: nat)
    requires Tree(nodes, tag) && IsRoot(nodes, tag, frame) && |dead| == 512 && e.startVirt <= e.endVirt
    requires EarlySpace(nodes, frame, e, nodes0, root)
    ensures StillEarly(nodes[frame := dead], frame, nodes[frame], dead, e, nodes0, root)
  {
    hide Walk, Idx, EarlyView, SameMeaning, Canonical;
    forall u: nat | Canonical(u) && SameMeaning(4, nodes[frame][Idx(u, 4)], dead[Idx(u, 4)])
      ensures Translate(nodes[frame := dead], frame, u) == EarlyView(e, u, Translate(nodes0, root, u))
    {
      DeadWord(nodes, tag, frame, dead, u);
    }
  }

  lemma DeadWord(nodes: Nodes, tag: map<nat, Tag>, frame: nat, dead: seq<nat>, u: nat)
    requires Tree(nodes, tag) && IsRoot(nodes, tag, frame) && |dead| == 512
    requires SameMeaning(4, nodes[frame][Idx(u, 4)], dead[Idx(u, 4)])
    ensures Translate(nodes[frame := dead], frame, u) == Translate(nodes, frame, u)
  {
    hide Walk, Idx;
    KeptWordsKeepImage(nodes, tag, frame, nodes[frame := dead], u);
  }

  lemma InEarlySpace(nodes: Nodes, frame: nat, e: Extent, nodes0: Nodes, root: nat, u: nat)
    requires Placeable(e) && EarlySpace(nodes, frame, e, nodes0, root) && InImage(e, u)
    ensures Translate(nodes, frame, u) == Some(ImagePage(e.startPhys + (u - e.startVirt)))
  {
    hide Walk, Placeable;
    PlaceableFits(e);
  }

  /** What becomes of one byte of the image. */
  ghost predicate ByteOutcome(
    nodes: Nodes, frame: nat, built: seq<nat>, dead: seq<nat>, bytes: map<nat, nat>, file: seq<nat>, s: Segment, o: nat)
    requires |built| == 512 && |dead| == 512
  {
    var u, i := s.vaddr + o, Idx(s.vaddr + o, 4);
    && Holds(bytes, file, s, o)
    && (Visible(nodes, frame, bytes, file, s, o) <==> Leads(nodes, dead[i], u, s.paddr + o))
    && (SameMeaning(4, built[i], dead[i]) ==> Visible(nodes, frame, bytes, file, s, o))
  }

  lemma TableSizes(m: Mem, tag: map<nat, Tag>)
    requires MemOk(m, tag)
    ensures Tree(m.nodes, tag) && forall a :: a in m.nodes ==> |m.nodes[a]| == 512
  {
  }

  lemma OutcomeOf(
    nodes: Nodes, tag: map<nat, Tag>, frame: nat, dead: seq<nat>, bytes: map<nat, nat>, file: seq<nat>, s: Segment, o: nat)
    requires Tree(nodes, tag) && IsRoot(nodes, tag, frame) && |dead| == 512
    requires Translate(nodes, frame, s.vaddr + o) == Some(ImagePage(s.paddr + o)) && Holds(bytes, file, s, o)
    ensures ByteOutcome(nodes[frame := dead], frame, nodes[frame], dead, bytes, file, s, o)
  {
    hide Walk, Idx, Leads, Holds;
    var nodes', u := nodes[frame := dead], s.vaddr + o;
    RootWordExactlyWhen(nodes', frame, u, s.paddr + o);
    if SameMeaning(4, nodes[frame][Idx(u, 4)], dead[Idx(u, 4)]) {
      DeadWord(nodes, tag, frame, dead, u);
    }
  }

  lemma SoundFits(file: seq<nat>, segs: seq<Segment>)
    requires forall i :: 0 <= i < |segs| ==> Sound(file, segs[i])
    ensures forall k :: 0 <= k < |segs| && segs[k].load ==> segs[k].vaddr + segs[k].memsz < WORD && segs[k].paddr < WORD
  {
    forall k | 0 <= k < |segs| && segs[k].load
      ensures segs[k].vaddr + segs[k].memsz < WORD && segs[k].paddr < WORD
    {
      assert Sound(file, segs[k]);
    }
  }
}
