/** The kernel's own address space: what `init_paging` maps where. */
module KernelSpace {
  import opened Wrappers
  import opened Bits
  import opened MemLayout
  import opened PageEntry
  import opened PageTree
  import opened PageMap
  import opened PageHuge
  import opened PageTable
  import opened PageRoom

  // ----- ranges of addresses -----

  /** The addresses that the hardware accepts: bits 47 to 63 are all equal. */
  predicate Canonical(u: nat) {
    u < 0x8000_0000_0000 || 0xFFFF_8000_0000_0000 <= u < WORD
  }

  /** A range inside one half of the canonical addresses. */
  predicate CanonicalRange(v: nat, n: nat) {
    v % PAGE_SIZE == 0 &&
    (v + n * PAGE_SIZE <= 0x8000_0000_0000 || (0xFFFF_8000_0000_0000 <= v && v + n * PAGE_SIZE <= WORD))
  }

  lemma RangeIsShort(v: nat, n: nat)
    requires CanonicalRange(v, n)
    ensures n <= 0x8_0000_0000
  {
  }

  lemma InRange(u: nat, v: nat, n: nat)
    requires CanonicalRange(v, n) && v <= u < v + n * PAGE_SIZE
    ensures Dist(u, v) < n && Dist(u, v) * PAGE_SIZE + u % PAGE_SIZE == u - v
  {
    hide Prefix;
    var k := (u - v) / PAGE_SIZE;
    var o := (u - v) % PAGE_SIZE;
    RangeIsShort(v, n);
    AlignedPages(v, k);
    DivModUnique(u, PAGE_SIZE, v / PAGE_SIZE + k, o);
    SamePage(u, v + k * PAGE_SIZE);
    DistIs(u, v, k);
  }

  lemma SamePage(u: nat, v: nat)
    requires u / PAGE_SIZE == v / PAGE_SIZE
    ensures Prefix(u, 0) == Prefix(v, 0)
  {
    PageNumberIs(u);
    PageNumberIs(v);
  }

  lemma PageNumberIs(u: nat)
    ensures Prefix(u, 0) == u / PAGE_SIZE % PAGES
  {
    var q, w := u / ADDRESSES, u % ADDRESSES;
    DivModUnique(u, PAGE_SIZE, q * PAGES + w / PAGE_SIZE, w % PAGE_SIZE);
    DivModUnique(u / PAGE_SIZE, PAGES, q, w / PAGE_SIZE);
  }

  lemma OutOfRange(u: nat, v: nat, n: nat)
    requires CanonicalRange(v, n) && Canonical(u) && !(v <= u < v + n * PAGE_SIZE)
    ensures Dist(u, v) >= n
  {
    hide Prefix;
    if Dist(u, v) < n {
      var k := Dist(u, v);
      var x := v + k * PAGE_SIZE;
      RangeIsShort(v, n);
      DistIs(u, v, k);
      AlignedPages(v, k);
      PageNumberIs(u);
      PageNumberIs(x);
      CanonicalPages(u, x);
    }
  }

  lemma CanonicalPages(u: nat, x: nat)
    requires Canonical(u) && Canonical(x) && u / PAGE_SIZE % PAGES == x / PAGE_SIZE % PAGES
    ensures u / PAGE_SIZE == x / PAGE_SIZE
  {
    PageOfHalf(u);
    PageOfHalf(x);
  }

  /** Page numbers of canonical addresses lie in the first half of the first 2^36 or in
      the second half of the last. */
  lemma PageOfHalf(u: nat)
    requires Canonical(u)
    ensures var a, b := u / PAGE_SIZE, u / PAGE_SIZE % PAGES;
      a == if b < PAGES / 2 then b else b + 0xFFFF * PAGES
  {
    var a := u / PAGE_SIZE;
    if u < ADDRESSES {
      DivModUnique(a, PAGES, 0, a);
    } else {
      DivModUnique(a, PAGES, 0xFFFF, a - 0xFFFF * PAGES);
    }
  }

  // ----- init_paging -----

  /** Where the linker put the kernel. */
  datatype Sections = Sections(
    text: nat, textEnd: nat, rodata: nat, rodataEnd: nat, data: nat, bssEnd: nat)

  /** Sections start on pages, in order, in the kernel's code region, below the last
      page of the address space. */
  predicate Linked(s: Sections) {
    && s.text % PAGE_SIZE == 0 && s.rodata % PAGE_SIZE == 0 && s.data % PAGE_SIZE == 0
    && KERNEL_CODE_BASE <= s.text <= s.textEnd <= s.rodata <= s.rodataEnd <= s.data <= s.bssEnd
    && s.bssEnd + PAGE_SIZE < WORD
  }

  function Then(r: MapResult, root: nat, v: nat, p: nat, n: nat, attr: Attr): MapResult {
    if r.Done? then MapSpec(r.mem, root, v, p, n, attr) else r
  }

  function InitSpec(m: Mem, root: nat, s: Sections): MapResult
    requires Linked(s)
  {
    var r := MapSpec(m, root, LINEAR_BASE, 0, Pages(LINEAR_SIZE), ReadWriteKernel1GiB);
    if r.Done? then SectionsSpec(r.mem, root, s) else r
  }

  function SectionsSpec(m: Mem, root: nat, s: Sections): MapResult
    requires Linked(s)
  {
    var r2 := MapSpec(m, root, s.text, s.text - KERNEL_CODE_BASE, Pages(s.textEnd - s.text), ReadExecuteKernel);
    var r3 := Then(r2, root, s.rodata, s.rodata - KERNEL_CODE_BASE, Pages(s.rodataEnd - s.rodata), ReadKernel);
    var r4 := Then(r3, root, s.data, s.data - KERNEL_CODE_BASE, Pages(s.bssEnd - s.data), ReadWriteKernel);
    Then(r4, root, APIC_START, APIC_START, Pages(APIC_SIZE), ReadWriteKernelIO)
  }

  /** The address space that results, one mapping over the other. */
  function KernelView(s: Sections, u: nat): Option<Page>
    requires Linked(s)
  {
    Mapped(u, APIC_START, APIC_START, Pages(APIC_SIZE), ReadWriteKernelIO,
    Mapped(u, s.data, s.data - KERNEL_CODE_BASE, Pages(s.bssEnd - s.data), ReadWriteKernel,
    Mapped(u, s.rodata, s.rodata - KERNEL_CODE_BASE, Pages(s.rodataEnd - s.rodata), ReadKernel,
    Mapped(u, s.text, s.text - KERNEL_CODE_BASE, Pages(s.textEnd - s.text), ReadExecuteKernel,
    Mapped(u, LINEAR_BASE, 0, Pages(LINEAR_SIZE), ReadWriteKernel, None)))))
  }

  /** Outside the gigabytes of the linear map nothing stands in the way. */
  ghost predicate SmallPagesFree(nodes: Nodes, root: nat) {
    forall u :: !(0x2_2200 <= Prefix(u, 2) < 0x2_2400) ==> HugeFree(nodes, root, 4, u)
  }

  lemma EmptyRoot(m: Mem, tag: map<nat, Tag>)
    requires MemOk(m, tag)
    ensures var r := NewTable(m);
      r.Got? ==>
        var tag' := tag[r.node := Tag(4, 0)];
        && MemOk(r.mem, tag') && IsRoot(r.mem.nodes, tag', r.node) && Extends(tag, tag')
        && (forall u :: Translate(r.mem.nodes, r.node, u) == None)
        && (forall u :: HugeFree(r.mem.nodes, r.node, 4, u))
  {
    hide NewTable, Present, Leaf, Paddr, FrameOf, Writable, Executable, User, Idx;
    NewTableIsFresh(m, tag);
    ZeroIsAbsent();
    var r := NewTable(m);
    if r.Got? {
      var tag' := tag[r.node := Tag(4, 0)];
      var nodes' := r.mem.nodes;
      forall b, j | b in nodes' && 0 <= j < 512 && Present(nodes'[b][j]) && !Leaf(tag'[b].level, nodes'[b][j])
        ensures ChildOk(nodes', tag', b, j)
      {
        assert ChildOk(m.nodes, tag, b, j);
      }
    }
  }

  lemma LinearIndices()
    ensures LINEAR_BASE % GIB == 0 && Idx(LINEAR_BASE, 3) == 0 && Prefix(LINEAR_BASE, 2) == 0x2_2200
    ensures Pages(LINEAR_SIZE) == 512 * GIB_PAGES
    ensures UsesHuge(LINEAR_BASE, 0, Pages(LINEAR_SIZE), ReadWriteKernel1GiB)
  {
  }

  /** All canonical addresses outside the linear map lie outside those gigabytes. */
  lemma OutsideLinearMap(u: nat)
    requires Canonical(u) && !(LINEAR_BASE <= u < LINEAR_BASE + LINEAR_SIZE)
    ensures !(0x2_2200 <= Prefix(u, 2) < 0x2_2400)
  {
    var w := u % ADDRESSES;
    if u < ADDRESSES {
      DivModUnique(u, ADDRESSES, 0, u);
    } else {
      DivModUnique(u, ADDRESSES, 0xFFFF, u - 0xFFFF * ADDRESSES);
    }
  }

  lemma LinearStep(m: Mem, tag: map<nat, Tag>, root: nat) returns (tag': map<nat, Tag>)
    requires MemOk(m, tag) && IsRoot(m.nodes, tag, root)
    requires forall u :: Translate(m.nodes, root, u) == None && HugeFree(m.nodes, root, 4, u)
    ensures var r := MapSpec(m, root, LINEAR_BASE, 0, Pages(LINEAR_SIZE), ReadWriteKernel1GiB);
      && (r.Done? || r.Full?)
      && (r.Done? ==>
            && MemOk(r.mem, tag') && IsRoot(r.mem.nodes, tag', root) && Extends(tag, tag')
            && SmallPagesFree(r.mem.nodes, root)
            && (forall u :: Translate(r.mem.nodes, root, u)
                              == Mapped(u, LINEAR_BASE, 0, Pages(LINEAR_SIZE), ReadWriteKernel, None)))
  {
    hide HugeFree, Tree, Walk, Mapped, MapSpec, Idx, Prefix, Pages;
    LinearIndices();
    tag' := MapMaps(m, tag, root, LINEAR_BASE, 0, Pages(LINEAR_SIZE), ReadWriteKernel1GiB);
  }

  /** A range of small pages in the kernel's code region or of the interrupt
      controller. */
  ghost predicate SmallRange(v: nat, p: nat, n: nat, attr: Attr) {
    && v % PAGE_SIZE == 0 && p % PAGE_SIZE == 0 && attr != ReadWriteKernel1GiB
    && p + n * PAGE_SIZE <= FRAMES_END
    && ((KERNEL_CODE_BASE <= v && v + n * PAGE_SIZE < WORD)
        || (APIC_START <= v && v + n * PAGE_SIZE <= APIC_START + APIC_SIZE && 0 < n))
  }

  lemma SmallStep(m: Mem, tag: map<nat, Tag>, root: nat, v: nat, p: nat, n: nat, attr: Attr)
    returns (tag': map<nat, Tag>)
    requires MemOk(m, tag) && IsRoot(m.nodes, tag, root) && SmallPagesFree(m.nodes, root)
    requires SmallRange(v, p, n, attr)
    ensures Mappable(m, tag, root, v, p, n, attr)
    ensures var r := MapSpec(m, root, v, p, n, attr);
      && (r.Done? || r.Full?)
      && (r.Done? ==>
            && MemOk(r.mem, tag') && IsRoot(r.mem.nodes, tag', root) && Extends(tag, tag')
            && SmallPagesFree(r.mem.nodes, root)
            && (forall u :: Translate(r.mem.nodes, root, u)
                              == Mapped(u, v, p, n, attr, Translate(m.nodes, root, u))))
  {
    hide HugeFree, Tree, Walk, Mapped, MapSpec, Idx, Prefix;
    forall u | v <= u < v + n * PAGE_SIZE || u == v
      ensures HugeFree(m.nodes, root, 4, u)
    {
      OutsideLinearMap(u);
    }
    tag' := MapMaps(m, tag, root, v, p, n, attr);
  }

  /** The tables built by `init_paging` translate every address as the view says. */
  lemma InitMaps(m: Mem, tag: map<nat, Tag>, root: nat, s: Sections) returns (tag': map<nat, Tag>)
    requires MemOk(m, tag) && IsRoot(m.nodes, tag, root) && Linked(s)
    requires forall u :: Translate(m.nodes, root, u) == None && HugeFree(m.nodes, root, 4, u)
    ensures var r := InitSpec(m, root, s);
      && (r.Done? || r.Full?)
      && (r.Done? ==>
            && MemOk(r.mem, tag') && IsRoot(r.mem.nodes, tag', root)
            && forall u :: Translate(r.mem.nodes, root, u) == KernelView(s, u))
  {
    hide MapSpec, Mapped, Tree, Walk, HugeFree, SmallPagesFree, SectionsSpec;
    var t1 := LinearStep(m, tag, root);
    tag' := t1;
    var r1 := MapSpec(m, root, LINEAR_BASE, 0, Pages(LINEAR_SIZE), ReadWriteKernel1GiB);
    if r1.Done? {
      tag' := SectionsMap(r1.mem, t1, root, s);
    }
  }

  lemma SectionsMap(m: Mem, tag: map<nat, Tag>, root: nat, s: Sections) returns (tag': map<nat, Tag>)
    requires MemOk(m, tag) && IsRoot(m.nodes, tag, root) && Linked(s) && SmallPagesFree(m.nodes, root)
    requires forall u ::
      Translate(m.nodes, root, u) == Mapped(u, LINEAR_BASE, 0, Pages(LINEAR_SIZE), ReadWriteKernel, None)
    ensures var r := SectionsSpec(m, root, s);
      && (r.Done? || r.Full?)
      && (r.Done? ==>
            && MemOk(r.mem, tag') && IsRoot(r.mem.nodes, tag', root)
            && forall u :: Translate(r.mem.nodes, root, u) == KernelView(s, u))
  {
    hide MapSpec, Mapped, Tree, Walk, HugeFree, SmallPagesFree, SmallRange, Pages;
    RangesAreSmall(s);
    var k := KERNEL_CODE_BASE;
    tag' := SmallStep(m, tag, root, s.text, s.text - k, Pages(s.textEnd - s.text), ReadExecuteKernel);
    var r2 := MapSpec(m, root, s.text, s.text - k, Pages(s.textEnd - s.text), ReadExecuteKernel);
    if r2.Done? {
      tag' := SmallStep(r2.mem, tag', root, s.rodata, s.rodata - k, Pages(s.rodataEnd - s.rodata), ReadKernel);
      var r3 := MapSpec(r2.mem, root, s.rodata, s.rodata - k, Pages(s.rodataEnd - s.rodata), ReadKernel);
      if r3.Done? {
        tag' := SmallStep(r3.mem, tag', root, s.data, s.data - k, Pages(s.bssEnd - s.data), ReadWriteKernel);
        var r4 := MapSpec(r3.mem, root, s.data, s.data - k, Pages(s.bssEnd - s.data), ReadWriteKernel);
        if r4.Done? {
          tag' := SmallStep(r4.mem, tag', root, APIC_START, APIC_START, Pages(APIC_SIZE), ReadWriteKernelIO);
        }
      }
    }
  }

  lemma RangesAreSmall(s: Sections)
    requires Linked(s)
    ensures SmallRange(s.text, s.text - KERNEL_CODE_BASE, Pages(s.textEnd - s.text), ReadExecuteKernel)
    ensures SmallRange(s.rodata, s.rodata - KERNEL_CODE_BASE, Pages(s.rodataEnd - s.rodata), ReadKernel)
    ensures SmallRange(s.data, s.data - KERNEL_CODE_BASE, Pages(s.bssEnd - s.data), ReadWriteKernel)
    ensures SmallRange(APIC_START, APIC_START, Pages(APIC_SIZE), ReadWriteKernelIO)
  {
    hide SmallRange, Pages;
    SectionIsSmall(s.text, s.textEnd, ReadExecuteKernel);
    SectionIsSmall(s.rodata, s.rodataEnd, ReadKernel);
    SectionIsSmall(s.data, s.bssEnd, ReadWriteKernel);
    ApicIsSmall();
  }

  lemma SectionIsSmall(from: nat, to: nat, attr: Attr)
    requires KERNEL_CODE_BASE <= from <= to && from % PAGE_SIZE == 0 && to + PAGE_SIZE < WORD
    requires attr != ReadWriteKernel1GiB
    ensures SmallRange(from, from - KERNEL_CODE_BASE, Pages(to - from), attr)
  {
    hide Pages;
  }

  lemma ApicIsSmall()
    ensures SmallRange(APIC_START, APIC_START, Pages(APIC_SIZE), ReadWriteKernelIO)
  {
  }

  lemma LinearMappable(m: Mem, tag: map<nat, Tag>, root: nat)
    requires MemOk(m, tag) && IsRoot(m.nodes, tag, root)
    ensures Mappable(m, tag, root, LINEAR_BASE, 0, Pages(LINEAR_SIZE), ReadWriteKernel1GiB)
  {
    hide HugeFree, Tree, Idx, Pages;
    LinearIndices();
  }

  // ----- room for the tables -----

  /** The tables below the root that `init_paging` can need. */
  function KernelTables(s: Sections): int
    requires Linked(s)
  {
    1 + Tables(s.text, Pages(s.textEnd - s.text)) + Tables(s.rodata, Pages(s.rodataEnd - s.rodata))
      + Tables(s.data, Pages(s.bssEnd - s.data)) + Tables(APIC_START, Pages(APIC_SIZE))
  }

  lemma KernelTablesPositive(s: Sections)
    requires Linked(s)
    ensures 1 <= KernelTables(s)
  {
    hide Tables, Pages;
    TablesBound(s.text, Pages(s.textEnd - s.text));
    TablesBound(s.rodata, Pages(s.rodataEnd - s.rodata));
    TablesBound(s.data, Pages(s.bssEnd - s.data));
    TablesBound(APIC_START, Pages(APIC_SIZE));
  }

  lemma SmallHasRoom(m: Mem, tag: map<nat, Tag>, root: nat, v: nat, p: nat, n: nat, attr: Attr, k: nat)
    requires MemOk(m, tag) && IsRoot(m.nodes, tag, root) && SmallPagesFree(m.nodes, root)
    requires SmallRange(v, p, n, attr) && Room(m.heap, k + Tables(v, n))
    ensures var r := MapSpec(m, root, v, p, n, attr); r.Done? && Room(r.mem.heap, k)
  {
    hide HugeFree, Tree, Walk, MapPages, MapHuge, Room, Tables, TableFor, SmallPagesFree;
    var t := SmallStep(m, tag, root, v, p, n, attr);
    MapPagesHasRoom(m, tag, root, v, p, n, attr, k);
  }

  lemma SectionsHaveRoom(m: Mem, tag: map<nat, Tag>, root: nat, s: Sections, k: nat)
    requires MemOk(m, tag) && IsRoot(m.nodes, tag, root) && Linked(s) && SmallPagesFree(m.nodes, root)
    requires Room(m.heap, k + KernelTables(s) - 1)
    ensures var r := SectionsSpec(m, root, s); r.Done? && Room(r.mem.heap, k)
  {
    hide MapSpec, Mapped, MemOk, IsRoot, Walk, HugeFree, SmallPagesFree, SmallRange, Pages, Tables, Room, Mappable;
    RangesAreSmall(s);
    var c := KERNEL_CODE_BASE;
    var n2, n3, n4, n5 := Pages(s.textEnd - s.text), Pages(s.rodataEnd - s.rodata), Pages(s.bssEnd - s.data), Pages(APIC_SIZE);
    TablesBound(s.rodata, n3);
    TablesBound(s.data, n4);
    TablesBound(APIC_START, n5);
    var k4 := k + Tables(APIC_START, n5);
    var k3 := k4 + Tables(s.data, n4);
    SmallHasRoom(m, tag, root, s.text, s.text - c, n2, ReadExecuteKernel, k3 + Tables(s.rodata, n3));
    var t2 := SmallStep(m, tag, root, s.text, s.text - c, n2, ReadExecuteKernel);
    var m2 := MapSpec(m, root, s.text, s.text - c, n2, ReadExecuteKernel).mem;
    SmallHasRoom(m2, t2, root, s.rodata, s.rodata - c, n3, ReadKernel, k3);
    var t3 := SmallStep(m2, t2, root, s.rodata, s.rodata - c, n3, ReadKernel);
    var m3 := MapSpec(m2, root, s.rodata, s.rodata - c, n3, ReadKernel).mem;
    SmallHasRoom(m3, t3, root, s.data, s.data - c, n4, ReadWriteKernel, k4);
    var t4 := SmallStep(m3, t3, root, s.data, s.data - c, n4, ReadWriteKernel);
    var m4 := MapSpec(m3, root, s.data, s.data - c, n4, ReadWriteKernel).mem;
    SmallHasRoom(m4, t4, root, APIC_START, APIC_START, n5, ReadWriteKernelIO, k);
  }

  /** The kernel's address space is built if its tables fit on the heap. */
  lemma InitHasRoom(m: Mem, tag: map<nat, Tag>, root: nat, s: Sections, k: nat)
    requires MemOk(m, tag) && IsRoot(m.nodes, tag, root) && Linked(s)
    requires forall u :: Translate(m.nodes, root, u) == None && HugeFree(m.nodes, root, 4, u)
    requires Room(m.heap, k + KernelTables(s))
    ensures var r := InitSpec(m, root, s); r.Done? && Room(r.mem.heap, k)
  {
    hide MapHuge, MapPages, Mapped, Tree, Walk, HugeFree, SmallPagesFree, SectionsSpec, Room, KernelTables, Idx, Pages;
    KernelTablesPositive(s);
    LinearIndices();
    var t := LinearStep(m, tag, root);
    HugeHasRoom(m, tag, root, LINEAR_BASE, 0, 512, k + KernelTables(s) - 1);
    var m1 := MapSpec(m, root, LINEAR_BASE, 0, Pages(LINEAR_SIZE), ReadWriteKernel1GiB).mem;
    SectionsHaveRoom(m1, t, root, s, k);
  }

  /** One mapping of small pages. */
  method MapSection(
    pt: PageTables, root: nat, v: nat, p: nat, size: nat, attr: Attr, ghost tag: map<nat, Tag>)
    returns (st: Status, ghost tag': map<nat, Tag>)
    requires MemOk(pt.Value(), tag) && IsRoot(pt.nodes, tag, root) && SmallPagesFree(pt.nodes, root)
    requires SmallRange(v, p, Pages(size), attr)
    modifies pt, pt.allocator
    ensures st == Success || st == NoMemory
    ensures Ended(st, pt.Value()) == MapSpec(old(pt.Value()), root, v, p, Pages(size), attr)
    ensures st == Success ==>
      MemOk(pt.Value(), tag') && IsRoot(pt.nodes, tag', root) && SmallPagesFree(pt.nodes, root)
  {
    hide MapSpec, Mapped, Tree, Walk, HugeFree, SmallPagesFree, SmallRange, Mappable;
    tag' := SmallStep(pt.Value(), tag, root, v, p, Pages(size), attr);
    ghost var t;
    st, t := pt.CreateMapping(root, v, p, size, attr, tag);
  }

  /** Builds the kernel's address space in a fresh root table. */
  method InitPaging(pt: PageTables, s: Sections, ghost tag: map<nat, Tag>)
    returns (st: Status, root: nat, ghost tag': map<nat, Tag>)
    requires MemOk(pt.Value(), tag) && Linked(s)
    modifies pt, pt.allocator
    ensures st == Success || st == NoMemory
    ensures st == Success ==>
      && MemOk(pt.Value(), tag') && IsRoot(pt.nodes, tag', root)
      && forall u :: Translate(pt.nodes, root, u) == KernelView(s, u)
    ensures old(Room(pt.allocator.Value(), KernelTables(s) + 1)) ==> st == Success
  {
    hide MapSpec, Tree, Walk, HugeFree, SmallPagesFree, SectionsSpec, Pages, NewTable, KernelView, Mapped, MemOk, Room,
      KernelTables;
    EmptyRoot(pt.Value(), tag);
    if Room(pt.allocator.Value(), KernelTables(s) + 1) {
      KernelTablesPositive(s);
      NewTableHasRoom(pt.Value(), tag, KernelTables(s));
    }
    NewTableIsFresh(pt.Value(), tag);
    NextInWord(pt.Value(), tag);
    st, root := pt.New();
    tag' := tag[root := Tag(4, 0)];
    if st != Success {
      return;
    }
    ghost var final := InitMaps(pt.Value(), tag', root, s);
    if Room(pt.allocator.Value(), KernelTables(s)) {
      InitHasRoom(pt.Value(), tag', root, s, 0);
    }
    ghost var t := LinearStep(pt.Value(), tag', root);
    LinearMappable(pt.Value(), tag', root);
    st, tag' := pt.CreateMapping(root, LINEAR_BASE, 0, LINEAR_SIZE, ReadWriteKernel1GiB, tag');
    if st != Success {
      return;
    }
    st := MapSections(pt, root, s, t);
    tag' := final;
  }

  /** The sections and the interrupt controller, one after the other. */
  method MapSections(pt: PageTables, root: nat, s: Sections, ghost tag: map<nat, Tag>) returns (st: Status)
    requires MemOk(pt.Value(), tag) && IsRoot(pt.nodes, tag, root) && SmallPagesFree(pt.nodes, root) && Linked(s)
    modifies pt, pt.allocator
    ensures st == Success || st == NoMemory
    ensures Ended(st, pt.Value()) == SectionsSpec(old(pt.Value()), root, s)
  {
    hide MapSpec, Tree, Walk, HugeFree, SmallPagesFree, SmallRange, Pages, MemOk, IsRoot;
    RangesAreSmall(s);
    var k := KERNEL_CODE_BASE;
    ghost var tag' := tag;
    st, tag' := MapSection(pt, root, s.text, s.text - k, s.textEnd - s.text, ReadExecuteKernel, tag');
    if st != Success {
      return;
    }
    st, tag' := MapSection(pt, root, s.rodata, s.rodata - k, s.rodataEnd - s.rodata, ReadKernel, tag');
    if st != Success {
      return;
    }
    st, tag' := MapSection(pt, root, s.data, s.data - k, s.bssEnd - s.data, ReadWriteKernel, tag');
    if st != Success {
      return;
    }
    st, tag' := MapSection(pt, root, APIC_START, APIC_START, APIC_SIZE, ReadWriteKernelIO, tag');
  }

  // ----- what the address space promises -----

  lemma MappedIn(u: nat, v: nat, p: nat, n: nat, attr: Attr, before: Option<Page>)
    requires CanonicalRange(v, n) && v <= u < v + n * PAGE_SIZE && attr != NotPresent
    ensures var pr := Promise(p, attr);
      Mapped(u, v, p, n, attr, before)
        == Some(Page(p + (u - v), pr.writable, pr.executable, pr.writeThrough, pr.cacheDisabled, pr.user))
  {
    hide Dist;
    InRange(u, v, n);
  }

  lemma MappedOut(u: nat, v: nat, p: nat, n: nat, attr: Attr, before: Option<Page>)
    requires CanonicalRange(v, n) && Canonical(u) && !(v <= u < v + n * PAGE_SIZE)
    ensures Mapped(u, v, p, n, attr, before) == before
  {
    hide Dist;
    OutOfRange(u, v, n);
  }

  /** `u` lies in the pages that hold the bytes from `from` to `to`. */
  predicate Within(u: nat, from: nat, to: nat)
    requires from <= to
  {
    from <= u < from + Pages(to - from) * PAGE_SIZE
  }

  /** The address space, region by region: the linear map inverts `phys_to_virt`, the
      sections translate as `virt_to_phys` says, each with its own permissions, and
      there is nothing else. */
  lemma KernelRegions(s: Sections, u: nat)
    requires Linked(s) && Canonical(u)
    ensures KernelView(s, u) ==
      if LINEAR_BASE <= u < LINEAR_BASE + LINEAR_SIZE then Some(Page(u - LINEAR_BASE, true, false, false, false, false))
      else if Within(u, s.text, s.textEnd) then Some(Page(u - KERNEL_CODE_BASE, false, true, false, false, false))
      else if Within(u, s.rodata, s.rodataEnd) then Some(Page(u - KERNEL_CODE_BASE, false, false, false, false, false))
      else if Within(u, s.data, s.bssEnd) then Some(Page(u - KERNEL_CODE_BASE, true, false, false, false, false))
      else if APIC_START <= u < APIC_START + APIC_SIZE then Some(Page(u, true, false, true, true, false))
      else None
  {
    hide Mapped, Pages, CanonicalRange;
    CanonicalRegions(s);
    var k := KERNEL_CODE_BASE;
    var v0: Option<Page> := None;
    RegionStep(u, LINEAR_BASE, 0, Pages(LINEAR_SIZE), ReadWriteKernel, v0);
    var v1 := Mapped(u, LINEAR_BASE, 0, Pages(LINEAR_SIZE), ReadWriteKernel, v0);
    RegionStep(u, s.text, s.text - k, Pages(s.textEnd - s.text), ReadExecuteKernel, v1);
    var v2 := Mapped(u, s.text, s.text - k, Pages(s.textEnd - s.text), ReadExecuteKernel, v1);
    RegionStep(u, s.rodata, s.rodata - k, Pages(s.rodataEnd - s.rodata), ReadKernel, v2);
    var v3 := Mapped(u, s.rodata, s.rodata - k, Pages(s.rodataEnd - s.rodata), ReadKernel, v2);
    RegionStep(u, s.data, s.data - k, Pages(s.bssEnd - s.data), ReadWriteKernel, v3);
    var v4 := Mapped(u, s.data, s.data - k, Pages(s.bssEnd - s.data), ReadWriteKernel, v3);
    RegionStep(u, APIC_START, APIC_START, Pages(APIC_SIZE), ReadWriteKernelIO, v4);
  }

  lemma RegionStep(u: nat, v: nat, p: nat, n: nat, attr: Attr, before: Option<Page>)
    requires CanonicalRange(v, n) && Canonical(u) && attr != NotPresent
    ensures var pr := Promise(p, attr);
      Mapped(u, v, p, n, attr, before) ==
      if v <= u < v + n * PAGE_SIZE then
        Some(Page(p + (u - v), pr.writable, pr.executable, pr.writeThrough, pr.cacheDisabled, pr.user))
      else before
  {
    hide Mapped;
    if v <= u < v + n * PAGE_SIZE {
      MappedIn(u, v, p, n, attr, before);
    } else {
      MappedOut(u, v, p, n, attr, before);
    }
  }

  /** The regions are canonical ranges, and the pages of a section end before the next
      section starts. */
  lemma CanonicalRegions(s: Sections)
    requires Linked(s)
    ensures CanonicalRange(LINEAR_BASE, Pages(LINEAR_SIZE)) && Pages(LINEAR_SIZE) * PAGE_SIZE == LINEAR_SIZE
    ensures CanonicalRange(s.text, Pages(s.textEnd - s.text))
    ensures s.text + Pages(s.textEnd - s.text) * PAGE_SIZE <= s.rodata
    ensures CanonicalRange(s.rodata, Pages(s.rodataEnd - s.rodata))
    ensures s.rodata + Pages(s.rodataEnd - s.rodata) * PAGE_SIZE <= s.data
    ensures CanonicalRange(s.data, Pages(s.bssEnd - s.data))
    ensures CanonicalRange(APIC_START, Pages(APIC_SIZE)) && Pages(APIC_SIZE) == 1
  {
    hide Pages;
    PagesFit(s.text, s.textEnd, s.rodata);
    PagesFit(s.rodata, s.rodataEnd, s.data);
    LinearIndices();
    OnePage();
  }

  lemma OnePage()
    ensures Pages(APIC_SIZE) == 1
  {
  }

  lemma PagesFit(from: nat, to: nat, next: nat)
    requires from <= to <= next && from % PAGE_SIZE == 0 && next % PAGE_SIZE == 0
    ensures from + Pages(to - from) * PAGE_SIZE <= next
  {
  }

  /** The walk inverts `phys_to_virt` on all of the linear map. */
  lemma LinearMapInverts(s: Sections, p: nat)
    requires Linked(s) && p < LINEAR_SIZE
    ensures PhysToVirt(p).Some?
    ensures KernelView(s, PhysToVirt(p).value) == Some(Page(p, true, false, false, false, false))
  {
    hide KernelView, Within;
    KernelRegions(s, LINEAR_BASE + p);
  }

  /** The walk agrees with `virt_to_phys` on every mapped kernel address. */
  lemma WalkIsVirtToPhys(s: Sections, u: nat)
    requires Linked(s) && Canonical(u) && LINEAR_BASE <= u && KernelView(s, u).Some?
    ensures VirtToPhys(u) == Some(KernelView(s, u).value.pa)
  {
    hide KernelView, Pages;
    KernelRegions(s, u);
  }

  /** No address at all, canonical or not, is both writable and executable. */
  lemma WriteXorExecute(s: Sections, u: nat)
    requires Linked(s)
    ensures KernelView(s, u).Some? ==> !(KernelView(s, u).value.writable && KernelView(s, u).value.executable)
  {
    hide Dist, Pages;
  }

  /** No address at all is open to user mode. */
  lemma ClosedToUser(s: Sections, u: nat)
    requires Linked(s)
    ensures KernelView(s, u).Some? ==> !KernelView(s, u).value.user
  {
    hide Dist, Pages;
  }
}
