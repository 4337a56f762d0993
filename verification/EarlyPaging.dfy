/** The loader's early page table: a copy of the firmware's root table, in a local
    variable, with the linear map and the kernel image mapped into it. */
module EarlyPaging {
  import opened Wrappers
  import opened Bits
  import opened MemLayout
  import opened PageEntry
  import opened PageTree
  import opened PageMap
  import opened PageHuge
  import opened PageTable
  import opened PageRoom
  import opened KernelSpace
  import opened KernelCopy

  /** Where the image lies. */
  datatype Extent = Extent(startVirt: nat, startPhys: nat, endVirt: nat)

  // ----- addresses and sizes -----

  /** Copies bit 47 into the bits above it. */
  function Canonicalize(a: nat): nat {
    if And(a, 0x8000_0000_0000) != 0 then Or(a, 0xFFFF_0000_0000_0000) else And(a, 0xFFFF_FFFF_FFFF)
  }

  /** The result is canonical and selects the same entries; canonical addresses stay. */
  lemma CanonicalizeMeans(a: nat)
    requires a < WORD
    ensures Canonical(Canonicalize(a)) && Canonicalize(a) % ADDRESSES == a % ADDRESSES
    ensures Canonical(a) ==> Canonicalize(a) == a
  {
    hide And, Or, Pow2, High;
    Pow2Values();
    Pow2Next(47);
    AndBit(a, 47);
    HighIs(a, 47);
    OrMask(a, 48, 64);
    AndKeeps(a, 48);
    BitAndRest(a);
  }

  lemma BitAndRest(a: nat)
    requires a < WORD
    ensures var w := a % ADDRESSES;
      && (a / 0x8000_0000_0000 % 2 == 1 <==> 0x8000_0000_0000 <= w)
      && (w + (WORD - ADDRESSES)) % ADDRESSES == w
      && (Canonical(a) ==> a == if 0x8000_0000_0000 <= w then w + (WORD - ADDRESSES) else w)
  {
    var q, w := a / ADDRESSES, a % ADDRESSES;
    var b := if 0x8000_0000_0000 <= w then 1 else 0;
    DivModUnique(a, 0x8000_0000_0000, 2 * q + b, w - b * 0x8000_0000_0000);
    DivModUnique(w + (WORD - ADDRESSES), ADDRESSES, 0xFFFF, w);
  }

  function AlignUpToPage(size: nat): nat
    requires size + PAGE_SIZE <= WORD
  {
    And(size + PAGE_SIZE - 1, 0xFFFF_FFFF_FFFF_FFFF - (PAGE_SIZE - 1))
  }

  /** Rounding a size up to whole pages does not change how many pages it takes. */
  lemma AlignedSizeTakesSamePages(size: nat)
    requires size + PAGE_SIZE <= WORD
    ensures AlignUpToPage(size) == Pages(size) * PAGE_SIZE
    ensures Pages(AlignUpToPage(size)) == Pages(size)
  {
    hide And, Pow2;
    Pow2Values();
    AndClears(size + PAGE_SIZE - 1, 12, 64);
  }

  // ----- the early page table -----

  /** The linear map and the image, mapped into the table `root`. */
  function InitEarlySpec(m: Mem, root: nat, e: Extent): MapResult
    requires e.startVirt <= e.endVirt < WORD && e.endVirt - e.startVirt + PAGE_SIZE <= WORD
  {
    var r1 := MapSpec(m, root, Canonicalize(LINEAR_BASE), 0, Pages(LINEAR_SIZE), ReadWriteKernel1GiB);
    Then(r1, root, Canonicalize(e.startVirt), e.startPhys, Pages(AlignUpToPage(e.endVirt - e.startVirt)),
         ReadWriteExecuteKernel)
  }

  /** The image starts on a page, in virtual and in physical memory; its pages have canonical
      addresses outside the linear map, without the last page of the address space. */
  ghost predicate Placeable(e: Extent) {
    e.startVirt <= e.endVirt < WORD && e.startPhys % PAGE_SIZE == 0 && Canonical(e.startVirt) &&
    var n := Pages(e.endVirt - e.startVirt);
    && CanonicalRange(e.startVirt, n) && e.startVirt + n * PAGE_SIZE < WORD
    && (e.startVirt + n * PAGE_SIZE <= LINEAR_BASE || LINEAR_BASE + LINEAR_SIZE <= e.startVirt)
    && !(LINEAR_BASE <= e.startVirt < LINEAR_BASE + LINEAR_SIZE)
    && e.startPhys + n * PAGE_SIZE <= FRAMES_END
  }

  lemma PlaceableFits(e: Extent)
    requires Placeable(e)
    ensures e.startVirt <= e.endVirt && e.startVirt % PAGE_SIZE == 0 && e.endVirt - e.startVirt + PAGE_SIZE <= WORD
    ensures forall u: nat :: u == e.startVirt || InImage(e, u) ==>
      Canonical(u) && !(LINEAR_BASE <= u < LINEAR_BASE + LINEAR_SIZE)
  {
    hide Pages;
  }

  /** No large page is in the way of the image. */
  ghost predicate ImageFree(nodes: Nodes, root: nat, e: Extent)
    requires e.startVirt <= e.endVirt
  {
    forall u: nat :: u == e.startVirt || InImage(e, u) ==> HugeFree(nodes, root, 4, u)
  }

  /** `u` lies in one of the image's pages. */
  predicate InImage(e: Extent, u: nat)
    requires e.startVirt <= e.endVirt
  {
    e.startVirt <= u < e.startVirt + Pages(e.endVirt - e.startVirt) * PAGE_SIZE
  }

  /** The page that an image address is to have. */
  function ImagePage(pa: nat): Page {
    Page(pa, true, true, false, false, false)
  }

  /** What the early table has at `u`: the linear map, the image, and elsewhere what was
      there before. */
  function EarlyView(e: Extent, u: nat, before: Option<Page>): Option<Page>
    requires e.startVirt <= e.endVirt
  {
    if LINEAR_BASE <= u < LINEAR_BASE + LINEAR_SIZE then Some(Page(u - LINEAR_BASE, true, false, false, false, false))
    else if InImage(e, u) then Some(ImagePage(e.startPhys + (u - e.startVirt)))
    else before
  }

  /** All of the table `root`, where the table `root0` was before. */
  ghost predicate EarlySpace(nodes: Nodes, root: nat, e: Extent, nodes0: Nodes, root0: nat)
    requires e.startVirt <= e.endVirt
  {
    forall u: nat :: Canonical(u) ==> Translate(nodes, root, u) == EarlyView(e, u, Translate(nodes0, root0, u))
  }

  /** The two mappings send the linear map and the whole image to where they belong, and
      change nothing else. */
  lemma EarlyTableMaps(m: Mem, tag: map<nat, Tag>, root: nat, e: Extent, u: nat)
    requires MemOk(m, tag) && IsRoot(m.nodes, tag, root) && Placeable(e)
    requires ImageFree(m.nodes, root, e)
    requires Canonical(u)
    ensures var r := InitEarlySpec(m, root, e);
      && (r.Done? || r.Full?)
      && (r.Done? ==> Translate(r.mem.nodes, root, u) == EarlyView(e, u, Translate(m.nodes, root, u)))
  {
    hide MapSpec, HugeFree, Walk, Tree, Mapped, Pages, AlignUpToPage, Canonicalize, Prefix;
    PlaceableFits(e);
    CanonicalizeMeans(LINEAR_BASE);
    CanonicalizeMeans(e.startVirt);
    AlignedSizeTakesSamePages(e.endVirt - e.startVirt);
    LinearIndices();
    LinearMappable(m, tag, root);
    var n := Pages(e.endVirt - e.startVirt);
    var t1 := MapMaps(m, tag, root, LINEAR_BASE, 0, Pages(LINEAR_SIZE), ReadWriteKernel1GiB);
    var r1 := MapSpec(m, root, LINEAR_BASE, 0, Pages(LINEAR_SIZE), ReadWriteKernel1GiB);
    if r1.Done? {
      ImageStaysFree(m.nodes, r1.mem.nodes, root, e);
      ImageMappable(r1.mem, t1, root, e);
      var t2 := MapMaps(r1.mem, t1, root, e.startVirt, e.startPhys, n, ReadWriteExecuteKernel);
      MappedOver(e, u, Translate(m.nodes, root, u), Translate(r1.mem.nodes, root, u));
    }
  }

  /** One mapping over the other. */
  lemma MappedOver(e: Extent, u: nat, before: Option<Page>, between: Option<Page>)
    requires Placeable(e) && Canonical(u)
    requires between == Mapped(u, LINEAR_BASE, 0, Pages(LINEAR_SIZE), ReadWriteKernel, before)
    ensures Mapped(u, e.startVirt, e.startPhys, Pages(e.endVirt - e.startVirt), ReadWriteExecuteKernel, between)
         == EarlyView(e, u, before)
  {
    hide Mapped, Pages;
    LinearIndices();
    var n := Pages(e.endVirt - e.startVirt);
    if LINEAR_BASE <= u < LINEAR_BASE + LINEAR_SIZE {
      MappedIn(u, LINEAR_BASE, 0, Pages(LINEAR_SIZE), ReadWriteKernel, before);
    } else {
      MappedOut(u, LINEAR_BASE, 0, Pages(LINEAR_SIZE), ReadWriteKernel, before);
    }
    if InImage(e, u) {
      MappedIn(u, e.startVirt, e.startPhys, n, ReadWriteExecuteKernel, between);
    } else {
      MappedOut(u, e.startVirt, e.startPhys, n, ReadWriteExecuteKernel, between);
    }
  }

  lemma ImageStaysFree(nodes: Nodes, nodes': Nodes, root: nat, e: Extent)
    requires HugeFreeAfter(nodes, nodes', root, LINEAR_BASE, 0, Pages(LINEAR_SIZE), ReadWriteKernel1GiB)
    requires Placeable(e) && ImageFree(nodes, root, e)
    ensures ImageFree(nodes', root, e)
  {
    hide HugeFree, Prefix, Pages, Placeable;
    LinearIndices();
    PlaceableFits(e);
    forall u: nat | u == e.startVirt || InImage(e, u)
      ensures HugeFree(nodes', root, 4, u)
    {
      OutsideLinearMap(u);
    }
  }

  lemma ImageMappable(m: Mem, tag: map<nat, Tag>, root: nat, e: Extent)
    requires MemOk(m, tag) && IsRoot(m.nodes, tag, root) && Placeable(e) && ImageFree(m.nodes, root, e)
    ensures Mappable(m, tag, root, e.startVirt, e.startPhys, Pages(e.endVirt - e.startVirt), ReadWriteExecuteKernel)
  {
    hide HugeFree, Tree, Pages;
    var n := Pages(e.endVirt - e.startVirt);
    RangeIsShort(e.startVirt, n);
    forall k | 0 <= k < n
      ensures HugeFree(m.nodes, root, 4, e.startVirt + k * PAGE_SIZE)
    {
      assert InImage(e, e.startVirt + k * PAGE_SIZE);
    }
  }

  // ----- the copy of the root table -----

  /** The root table copied to address `frame`, all 512 entries. */
  function CopiedRoot(m: Mem, root: nat, frame: nat): Mem
    requires root in m.nodes
  {
    m.(nodes := m.nodes[frame := m.nodes[root]])
  }

  function EarlySpec(m: Mem, root: nat, frame: nat, e: Extent): MapResult
    requires root in m.nodes && Placeable(e)
  {
    InitEarlySpec(CopiedRoot(m, root, frame), frame, e)
  }

  lemma {:induction false} NewRootKeepsHugeFree(
    nodes: Nodes, tag: map<nat, Tag>, frame: nat, table: seq<nat>, node: nat, level: nat, v: nat)
    requires Tree(nodes, tag) && OnWay(nodes, tag, node, level, v) && frame !in nodes
    ensures HugeFree(nodes[frame := table], node, level, v) == HugeFree(nodes, node, level, v)
    decreases level
  {
    hide Present, Paddr, FrameOf, Leaf, Idx, Prefix, Writable, Executable, User;
    var e := nodes[node][Idx(v, level)];
    if Present(e) && !Leaf(level, e) {
      NextOnWay(nodes, tag, node, level, v);
      NewRootKeepsHugeFree(nodes, tag, frame, table, Paddr(e), level - 1, v);
    }
  }

  /** The copy fits into the tree of tables and translates as the original. */
  lemma CopiedRootOk(m: Mem, tag: map<nat, Tag>, root: nat, frame: nat)
    requires MemOk(m, tag) && IsRoot(m.nodes, tag, root) && frame !in m.nodes && Placed(m.heap, frame)
    ensures var m1 := CopiedRoot(m, root, frame);
      var tag1 := tag[frame := Tag(4, 0)];
      && MemOk(m1, tag1) && Extends(tag, tag1)
      && IsRoot(m1.nodes, tag1, root) && IsRoot(m1.nodes, tag1, frame)
      && (forall u :: Translate(m1.nodes, frame, u) == Translate(m.nodes, root, u))
      && (forall u :: HugeFree(m1.nodes, frame, 4, u) == HugeFree(m.nodes, root, 4, u))
  {
    hide Present, Paddr, FrameOf, Writable, Executable, User, Huge, Walk, HugeFree;
    var m1, tag1 := CopiedRoot(m, root, frame), tag[frame := Tag(4, 0)];
    forall b, j | b in m1.nodes && 0 <= j < 512 && Present(m1.nodes[b][j]) && !Leaf(tag1[b].level, m1.nodes[b][j])
      ensures ChildOk(m1.nodes, tag1, b, j)
    {
      assert ChildOk(m.nodes, tag, if b == frame then root else b, j);
    }
    forall u
      ensures Translate(m1.nodes, frame, u) == Translate(m.nodes, root, u)
      ensures HugeFree(m1.nodes, frame, 4, u) == HugeFree(m.nodes, root, 4, u)
    {
      RootOnWay(m.nodes, tag, root, u);
      TwinsAgree(m1.nodes, root, frame, u);
      SameWalk(m.nodes, m1.nodes, tag, root, 4, u, ALL);
      NewRootKeepsHugeFree(m.nodes, tag, frame, m.nodes[root], root, 4, u);
      SameTableSameHugeFree(m1.nodes, root, frame, u);
    }
  }

  lemma SameTableSameHugeFree(nodes: Nodes, a: nat, b: nat, u: nat)
    requires a in nodes && b in nodes && nodes[a] == nodes[b]
    ensures HugeFree(nodes, a, 4, u) == HugeFree(nodes, b, 4, u)
  {
    hide Present, Paddr, Leaf, Idx;
  }

  /** The two mappings into the copy: the tables still form a tree, the linear map and the
      image are mapped, everything else is as under the firmware's root table, and that
      table itself is left as it was. */
  lemma EarlyTableOk(m: Mem, tag: map<nat, Tag>, root: nat, frame: nat, e: Extent) returns (tag': map<nat, Tag>)
    requires MemOk(m, tag) && IsRoot(m.nodes, tag, root) && Placeable(e)
    requires frame !in m.nodes && Placed(m.heap, frame)
    requires ImageFree(m.nodes, root, e)
    ensures var r := EarlySpec(m, root, frame, e);
      && (r.Done? || r.Full?)
      && (r.Done? ==>
            && MemOk(r.mem, tag') && IsRoot(r.mem.nodes, tag', frame)
            && root in r.mem.nodes && r.mem.nodes[root] == m.nodes[root]
            && EarlySpace(r.mem.nodes, frame, e, m.nodes, root))
  {
    hide MapSpec, HugeFree, Walk, Tree, Mapped, Pages, AlignUpToPage, Canonicalize, Prefix, Present, Mappable, Placed;
    CopiedRootOk(m, tag, root, frame);
    var m1, t0 := CopiedRoot(m, root, frame), tag[frame := Tag(4, 0)];
    PlaceableFits(e);
    CanonicalizeMeans(LINEAR_BASE);
    CanonicalizeMeans(e.startVirt);
    AlignedSizeTakesSamePages(e.endVirt - e.startVirt);
    LinearMappable(m1, t0, frame);
    var n := Pages(e.endVirt - e.startVirt);
    var t1 := MapMaps(m1, t0, frame, LINEAR_BASE, 0, Pages(LINEAR_SIZE), ReadWriteKernel1GiB);
    MapKeepsRoots(m1, t0, frame, LINEAR_BASE, 0, Pages(LINEAR_SIZE), ReadWriteKernel1GiB, {frame});
    var r1 := MapSpec(m1, frame, LINEAR_BASE, 0, Pages(LINEAR_SIZE), ReadWriteKernel1GiB);
    tag' := t1;
    if r1.Done? {
      ImageStaysFree(m1.nodes, r1.mem.nodes, frame, e);
      ImageMappable(r1.mem, t1, frame, e);
      tag' := MapMaps(r1.mem, t1, frame, e.startVirt, e.startPhys, n, ReadWriteExecuteKernel);
      MapKeepsRoots(r1.mem, t1, frame, e.startVirt, e.startPhys, n, ReadWriteExecuteKernel, {frame});
      assert Extends(t0, t1) && t1[root].level == 4;
    }
    if EarlySpec(m, root, frame, e).Done? {
      forall u: nat | Canonical(u)
        ensures Translate(EarlySpec(m, root, frame, e).mem.nodes, frame, u)
             == EarlyView(e, u, Translate(m.nodes, root, u))
      {
        EarlyTableMaps(m1, t0, frame, e, u);
      }
    }
  }

  // ----- later writes -----

  lemma {:induction false} PermissionsOnlyShrink(nodes: Nodes, node: nat, level: nat, v: nat, rights: Rights)
    requires 1 <= level <= 4
    ensures var p := Walk(nodes, node, level, v, rights);
      p.Some? ==>
        && (p.value.writable ==> rights.writable) && (p.value.executable ==> rights.executable)
        && (p.value.user ==> rights.user)
    decreases level
  {
    hide Present, Paddr, FrameOf, Leaf, Idx, Writable, Executable, User, WriteThrough, CacheDisabled;
    if node in nodes && |nodes[node]| == 512 {
      var e := nodes[node][Idx(v, level)];
      if Present(e) && !Leaf(level, e) && level > 1 {
        PermissionsOnlyShrink(nodes, FrameOf(e), level - 1, v, Under(rights, e));
      }
    }
  }

  /** A root word that leads `u` to the image's byte at `pa`: present, writable,
      executable, and for a table that goes on to there. */
  predicate Leads(nodes: Nodes, e: nat, u: nat, pa: nat) {
    Present(e) && Writable(e) && Executable(e) &&
    Walk(nodes, FrameOf(e), 3, u, ALL.(user := User(e))) == Some(ImagePage(pa))
  }

  /** Whatever the root table holds, an image address is translated if and only if its
      root word leads there. */
  lemma RootWordExactlyWhen(nodes: Nodes, frame: nat, u: nat, pa: nat)
    requires frame in nodes && |nodes[frame]| == 512
    ensures Translate(nodes, frame, u) == Some(ImagePage(pa)) <==> Leads(nodes, nodes[frame][Idx(u, 4)], u, pa)
  {
    hide Present, Idx, FrameOf, Writable, Executable, User;
    var e := nodes[frame][Idx(u, 4)];
    PermissionsOnlyShrink(nodes, FrameOf(e), 3, u, Under(ALL, e));
  }

  /** An address goes on translating as it does while its root word and the tables below
      mean what they did, whatever else is written.  The processor may set accessed and
      dirty bits in all of them. */
  lemma KeptWordsKeepImage(nodes: Nodes, tag: map<nat, Tag>, frame: nat, nodes': Nodes, u: nat)
    requires Tree(nodes, tag) && IsRoot(nodes, tag, frame)
    requires frame in nodes' && |nodes'[frame]| == 512
    requires SameMeaning(4, nodes[frame][Idx(u, 4)], nodes'[frame][Idx(u, 4)])
    requires forall a :: a in nodes && tag[a].level < 4 ==> a in nodes' && |nodes'[a]| == 512
    requires forall a, i :: a in nodes && tag[a].level < 4 && 0 <= i < 512 ==>
      SameMeaning(tag[a].level, nodes[a][i], nodes'[a][i])
    ensures Translate(nodes', frame, u) == Translate(nodes, frame, u)
  {
    hide Walk, Idx, Prefix, Present, Leaf, SameMeaning;
    RootOnWay(nodes, tag, frame, u);
    SameWalk(nodes, nodes', tag, frame, 4, u, ALL);
  }

  // ----- an input at which the image is lost -----

  /** The early mappings succeed if there is room for their tables. */
  lemma EarlyHasRoom(m: Mem, tag: map<nat, Tag>, root: nat, frame: nat, e: Extent)
    requires MemOk(m, tag) && IsRoot(m.nodes, tag, root) && Placeable(e)
    requires frame !in m.nodes && Placed(m.heap, frame)
    requires ImageFree(m.nodes, root, e)
    requires Room(m.heap, Tables(e.startVirt, Pages(e.endVirt - e.startVirt)) + 1)
    ensures EarlySpec(m, root, frame, e).Done?
  {
    hide MapHuge, MapPages, HugeFree, Walk, Tree, Mapped, Pages, AlignUpToPage, Canonicalize, Prefix, Placed, Idx, Room, Tables, TableFor;
    CopiedRootOk(m, tag, root, frame);
    var m1, t0 := CopiedRoot(m, root, frame), tag[frame := Tag(4, 0)];
    PlaceableFits(e);
    CanonicalizeMeans(LINEAR_BASE);
    CanonicalizeMeans(e.startVirt);
    AlignedSizeTakesSamePages(e.endVirt - e.startVirt);
    LinearIndices();
    LinearMappable(m1, t0, frame);
    var n := Pages(e.endVirt - e.startVirt);
    var t1 := MapMaps(m1, t0, frame, LINEAR_BASE, 0, Pages(LINEAR_SIZE), ReadWriteKernel1GiB);
    TablesBound(e.startVirt, n);
    HugeHasRoom(m1, t0, frame, LINEAR_BASE, 0, 512, Tables(e.startVirt, n));
    var r1 := MapSpec(m1, frame, LINEAR_BASE, 0, Pages(LINEAR_SIZE), ReadWriteKernel1GiB);
    ImageStaysFree(m1.nodes, r1.mem.nodes, frame, e);
    ImageMappable(r1.mem, t1, frame, e);
    MapPagesHasRoom(r1.mem, t1, frame, e.startVirt, e.startPhys, n, ReadWriteExecuteKernel, 0);
  }

  /** With an empty firmware table and an image of one page: the image is mapped, and is
      not any more when the words of the copy are overwritten with zeros. */
  lemma OverwrittenFrameLosesImage()
    ensures var m := TwoRoots();
      var e := Extent(KERNEL_CODE_BASE, 0x10_0000, KERNEL_CODE_BASE + PAGE_SIZE);
      Placeable(e) &&
      var r := EarlySpec(m, 0x1000, 0x3000, e);
      && r.Done? && Translate(r.mem.nodes, 0x3000, KERNEL_CODE_BASE) == Some(ImagePage(0x10_0000))
      && Translate(r.mem.nodes[0x3000 := EmptyTable()], 0x3000, KERNEL_CODE_BASE) == None
  {
    hide HugeFree, Tree, Present, Idx, InitEarlySpec, CopiedRoot;
    TwoRootsOk();
    ZeroIsAbsent();
    var m, e := TwoRoots(), Extent(KERNEL_CODE_BASE, 0x10_0000, KERNEL_CODE_BASE + PAGE_SIZE);
    assert Pages(PAGE_SIZE) == 1;
    EarlyHasRoom(m, TwoTags(), 0x1000, 0x3000, e);
    var t := EarlyTableOk(m, TwoTags(), 0x1000, 0x3000, e);
    assert InImage(e, KERNEL_CODE_BASE);
  }

  // ----- in place -----

  /** Copies the root table that is in use and maps the linear map and the image into
      the copy. */
  method InitEarlyPaging(pt: PageTables, root: nat, frame: nat, e: Extent, ghost tag: map<nat, Tag>)
    returns (st: Status, ghost tag': map<nat, Tag>)
    requires MemOk(pt.Value(), tag) && IsRoot(pt.nodes, tag, root) && Placeable(e)
    requires frame !in pt.nodes && Placed(pt.allocator.Value(), frame)
    requires ImageFree(pt.nodes, root, e)
    modifies pt, pt.allocator
    ensures st == Success || st == NoMemory
    ensures Ended(st, pt.Value()) == EarlySpec(old(pt.Value()), root, frame, e)
    ensures st == Success ==>
      && MemOk(pt.Value(), tag') && IsRoot(pt.nodes, tag', frame)
      && root in pt.nodes && pt.nodes[root] == old(pt.nodes[root])
      && EarlySpace(pt.nodes, frame, e, old(pt.nodes), root)
  {
    hide MapSpec, HugeFree, Walk, Tree, Mapped, Pages, AlignUpToPage, Canonicalize, Prefix, Mappable, MemOk, Placed, EarlySpace;
    tag' := EarlyTableOk(pt.Value(), tag, root, frame, e);
    CopiedRootOk(pt.Value(), tag, root, frame);
    pt.nodes := pt.nodes[frame := pt.nodes[root]];
    ghost var t0 := tag[frame := Tag(4, 0)];
    PlaceableFits(e);
    CanonicalizeMeans(LINEAR_BASE);
    CanonicalizeMeans(e.startVirt);
    AlignedSizeTakesSamePages(e.endVirt - e.startVirt);
    LinearMappable(pt.Value(), t0, frame);
    ghost var t1 := MapMaps(pt.Value(), t0, frame, LINEAR_BASE, 0, Pages(LINEAR_SIZE), ReadWriteKernel1GiB);
    ghost var t;
    ghost var nodes := pt.nodes;
    st, t := pt.CreateMapping(frame, Canonicalize(LINEAR_BASE), 0, LINEAR_SIZE, ReadWriteKernel1GiB, t0);
    if st != Success {
      return;
    }
    ImageStaysFree(nodes, pt.nodes, frame, e);
    ImageMappable(pt.Value(), t1, frame, e);
    st, t := pt.CreateMapping(frame, Canonicalize(e.startVirt), e.startPhys,
                              AlignUpToPage(e.endVirt - e.startVirt), ReadWriteExecuteKernel, t1);
  }
}
