/** A new task's page table: a copy of the present top-level entries.  The tables
    below are shared, so the two address spaces stay the same as long as mappings go
    through top-level entries that were there when the copy was made. */
module KernelCopy {
  import opened Wrappers
  import opened MemLayout
  import opened PageEntry
  import opened PageTree
  import opened PageMap
  import opened PageHuge
  import opened PageTable
  import opened PageRoom
  import opened Allocator

  function CopyEntries(table: seq<nat>, n: nat): (copy: seq<nat>)
    requires n <= 512 <= |table|
    ensures |copy| == 512
    ensures forall i :: 0 <= i < 512 ==> copy[i] == if i < n && Present(table[i]) then table[i] else 0
  {
    seq(512, i requires 0 <= i < 512 => if i < n && Present(table[i]) then table[i] else 0)
  }

  function Duplicate(m: Mem, root: nat): Got {
    if root !in m.nodes || |m.nodes[root]| != 512 then Wild
    else
      var r := NewTable(m);
      if r.Got? then Got(r.node, r.mem.(nodes := r.mem.nodes[r.node := CopyEntries(m.nodes[root], 512)])) else r
  }

  /** Root tables that lead to the same tables. */
  ghost predicate Twins(nodes: Nodes, a: nat, b: nat) {
    && a in nodes && b in nodes && |nodes[a]| == 512 && |nodes[b]| == 512
    && forall i :: 0 <= i < 512 ==>
         (Present(nodes[a][i]) || Present(nodes[b][i]) ==> nodes[a][i] == nodes[b][i])
  }

  lemma TwinsAgree(nodes: Nodes, a: nat, b: nat, u: nat)
    requires Twins(nodes, a, b)
    ensures Translate(nodes, a, u) == Translate(nodes, b, u)
  {
    hide Present, Paddr, FrameOf, Writable, Executable, User, Idx;
  }

  /** The copy fits into the tree, translates as the original, and changes nothing. */
  lemma DuplicateTranslates(m: Mem, tag: map<nat, Tag>, root: nat)
    requires MemOk(m, tag) && IsRoot(m.nodes, tag, root)
    ensures var r := Duplicate(m, root);
      && !r.Wild?
      && (r.Got? ==>
            var tag' := tag[r.node := Tag(4, 0)];
            && MemOk(r.mem, tag') && Extends(tag, tag') && r.node !in m.nodes
            && IsRoot(r.mem.nodes, tag', root) && IsRoot(r.mem.nodes, tag', r.node)
            && Twins(r.mem.nodes, root, r.node)
            && (forall i :: 0 <= i < 512 && !Present(m.nodes[root][i]) ==> r.mem.nodes[r.node][i] == 0)
            && forall u :: Translate(r.mem.nodes, r.node, u) == Translate(m.nodes, root, u))
  {
    hide Present, Paddr, FrameOf, Writable, Executable, User, Huge, NewTable, Walk;
    NewTableIsFresh(m, tag);
    var r := Duplicate(m, root);
    if r.Got? {
      ZeroIsAbsent();
      var tag' := tag[r.node := Tag(4, 0)];
      var nodes' := r.mem.nodes;
      forall b, j | b in nodes' && 0 <= j < 512 && Present(nodes'[b][j]) && !Leaf(tag'[b].level, nodes'[b][j])
        ensures ChildOk(nodes', tag', b, j)
      {
        assert ChildOk(m.nodes, tag, if b == r.node then root else b, j);
      }
      forall u
        ensures Translate(nodes', r.node, u) == Translate(m.nodes, root, u)
      {
        TwinsAgree(nodes', root, r.node, u);
        RootOnWay(m.nodes, tag, root, u);
        SameWalk(m.nodes, nodes', tag, root, 4, u, ALL);
      }
    }
  }

  /** Copies the present entries into a new table. */
  method DuplicateKernel(pt: PageTables, root: nat, ghost tag: map<nat, Tag>) returns (s: Status, copy: nat)
    requires MemOk(pt.Value(), tag) && IsRoot(pt.nodes, tag, root)
    modifies pt, pt.allocator
    ensures Reached(s, copy, pt.Value()) == Duplicate(old(pt.Value()), root)
    ensures s == Success || s == NoMemory
    ensures s == Success ==>
      && Twins(pt.nodes, root, copy)
      && (forall i :: 0 <= i < 512 && !Present(pt.nodes[root][i]) ==> pt.nodes[copy][i] == 0)
      && forall u :: Translate(pt.nodes, copy, u) == old(Translate(pt.nodes, root, u))
  {
    hide Present, NewTable, Walk, Tree;
    DuplicateTranslates(pt.Value(), tag, root);
    NewTableIsFresh(pt.Value(), tag);
    var table := pt.nodes[root];
    s, copy := pt.New();
    if s != Success {
      return;
    }
    ghost var nodes := pt.nodes;
    assert CopyEntries(table, 0) == EmptyTable();
    for i := 0 to 512
      invariant pt.nodes == nodes[copy := CopyEntries(table, i)]
      invariant pt.allocator.Value() == NewTable(old(pt.Value())).mem.heap
    {
      if Present(table[i]) {
        pt.nodes := Write(pt.nodes, copy, i, table[i]);
      }
      assert pt.nodes[copy] == CopyEntries(table, i + 1);
    }
  }

  // ----- later mappings -----

  /** The root tables, except those in `but`, are untouched, and those keep their
      present entries. */
  ghost predicate RootsSame(nodes: Nodes, tag: map<nat, Tag>, nodes': Nodes, but: set<nat>) {
    forall a :: a in tag && a in nodes && tag[a].level == 4 ==>
      a in nodes' && if a in but then KeepsPresent(nodes[a], nodes'[a]) else nodes'[a] == nodes[a]
  }

  predicate KeepsPresent(table: seq<nat>, table': seq<nat>) {
    |table'| == |table| && forall i :: 0 <= i < |table| && Present(table[i]) ==> table'[i] == table[i]
  }

  lemma RootsSameAgain(n0: Nodes, t0: map<nat, Tag>, n1: Nodes, t1: map<nat, Tag>, n2: Nodes, but: set<nat>)
    requires t0.Keys == n0.Keys && t1.Keys == n1.Keys && Extends(t0, t1)
    requires RootsSame(n0, t0, n1, but) && RootsSame(n1, t1, n2, but)
    ensures RootsSame(n0, t0, n2, but)
  {
  }

  lemma GetOrAllocKeepsRoots(m: Mem, tag: map<nat, Tag>, node: nat, i: nat, but: set<nat>)
    requires MemOk(m, tag) && node in m.nodes && i < 512
    requires tag[node].level < 4 || Present(m.nodes[node][i]) || node in but
    ensures var r := GetOrAlloc(m, node, i); r.Got? ==> RootsSame(m.nodes, tag, r.mem.nodes, but)
  {
    hide Present, Paddr, FrameOf, NewTable, TableEntry;
    NewTableIsFresh(m, tag);
  }

  lemma {:induction false} EnsureKeepsRoots(m: Mem, tag: map<nat, Tag>, node: nat, level: nat, to: nat, v: nat, but: set<nat>)
    requires MemOk(m, tag) && OnWay(m.nodes, tag, node, level, v) && 1 <= to <= level
    requires to == 3 || HugeFree(m.nodes, node, level, v)
    requires level < 4 || Present(m.nodes[node][Idx(v, level)]) || node in but
    ensures var r := Ensure(m, node, level, to, v); r.Got? ==> RootsSame(m.nodes, tag, r.mem.nodes, but)
    decreases level
  {
    hide Walk, Present, Paddr, FrameOf, Huge, Prefix, Idx, GetOrAlloc;
    if level > to {
      GetOrAllocKeepsRoots(m, tag, node, Idx(v, level), but);
      var tag1 := GetOrAllocKeeps(m, tag, node, level, v);
      var r1 := GetOrAlloc(m, node, Idx(v, level));
      if r1.Got? {
        EnsureKeepsRoots(r1.mem, tag1, r1.node, level - 1, to, v, but);
        var r := Ensure(r1.mem, r1.node, level - 1, to, v);
        if r.Got? {
          RootsSameAgain(m.nodes, tag, r1.mem.nodes, tag1, r.mem.nodes, but);
        }
      }
    }
  }

  lemma PutKeepsRoots(m: Mem, tag: map<nat, Tag>, node: nat, i: nat, p: nat, attr: Attr, but: set<nat>)
    requires Tree(m.nodes, tag) && node in m.nodes && tag[node].level < 4
    ensures var r := Put(m, node, i, p, attr); r.Done? ==> RootsSame(m.nodes, tag, r.mem.nodes, but)
  {
    hide SetEntry, Present, Leaf;
  }

  lemma MapOneKeepsRoots(m: Mem, tag: map<nat, Tag>, root: nat, v: nat, p: nat, attr: Attr, but: set<nat>)
    requires MemOk(m, tag) && IsRoot(m.nodes, tag, root) && HugeFree(m.nodes, root, 4, v)
    requires Present(m.nodes[root][Idx(v, 4)]) || root in but
    ensures var r := MapOne(m, root, v, p, attr); r.Done? ==> RootsSame(m.nodes, tag, r.mem.nodes, but)
  {
    hide Walk, Present, Prefix, Idx, Ensure, HugeFree, TableFor, Put;
    RootOnWay(m.nodes, tag, root, v);
    EnsureKeepsRoots(m, tag, root, 4, 1, v, but);
    var tag1 := EnsureKeeps(m, tag, root, 4, 1, v);
    var r := Ensure(m, root, 4, 1, v);
    if r.Got? {
      RootStays(m, tag, r.mem, tag1, root);
      RootOnWay(r.mem.nodes, tag1, root, v);
      TableForOnWay(r.mem.nodes, tag1, root, 4, 1, v);
      PutKeepsRoots(r.mem, tag1, r.node, Idx(v, 1), p, attr, but);
      var q := Put(r.mem, r.node, Idx(v, 1), p, attr);
      if q.Done? {
        RootsSameAgain(m.nodes, tag, r.mem.nodes, tag1, q.mem.nodes, but);
      }
    }
  }

  /** The top-level entries that a range goes through are present. */
  ghost predicate SlotsPresent(table: seq<nat>, v: nat, n: nat) {
    && |table| == 512 && Present(table[Idx(v, 4)])
    && forall k :: 0 <= k < n ==> Present(table[Idx(v + k * PAGE_SIZE, 4)])
  }

  lemma {:induction false} MapPagesKeepsRoots(
    m: Mem, tag: map<nat, Tag>, root: nat, v: nat, p: nat, n: nat, attr: Attr, but: set<nat>)
    requires MemOk(m, tag) && IsRoot(m.nodes, tag, root)
    requires v % PAGE_SIZE == 0 && p % PAGE_SIZE == 0 && p + n * PAGE_SIZE <= FRAMES_END && n <= PAGES
    requires HugeFree(m.nodes, root, 4, v)
    requires forall k :: 0 <= k < n ==> HugeFree(m.nodes, root, 4, v + k * PAGE_SIZE)
    requires SlotsPresent(m.nodes[root], v, n) || root in but
    ensures var r := MapPages(m, root, v, p, n, attr); r.Done? ==> RootsSame(m.nodes, tag, r.mem.nodes, but)
    decreases n
  {
    hide Walk, Present, Prefix, Idx, Ensure, HugeFree, MapOne, Mapped, Tree;
    if n == 0 {
      RootOnWay(m.nodes, tag, root, v);
      EnsureKeepsRoots(m, tag, root, 4, 1, v, but);
    } else {
      MapPagesKeepsRoots(m, tag, root, v, p, n - 1, attr, but);
      var tag1 := MapPagesMaps(m, tag, root, v, p, n - 1, attr);
      var r1 := MapPages(m, root, v, p, n - 1, attr);
      if r1.Done? {
        RootStays(m, tag, r1.mem, tag1, root);
        var k := n - 1;
        MapOneKeepsRoots(r1.mem, tag1, root, v + k * PAGE_SIZE, p + k * PAGE_SIZE, attr, but);
        var r := MapOne(r1.mem, root, v + k * PAGE_SIZE, p + k * PAGE_SIZE, attr);
        if r.Done? {
          TreeKeys(m, tag);
          TreeKeys(r1.mem, tag1);
          RootsSameAgain(m.nodes, tag, r1.mem.nodes, tag1, r.mem.nodes, but);
        }
      }
    }
  }

  lemma TreeKeys(m: Mem, tag: map<nat, Tag>)
    requires MemOk(m, tag)
    ensures tag.Keys == m.nodes.Keys
  {
  }

  lemma {:induction false} PutHugeKeepsRoots(
    m: Mem, tag: map<nat, Tag>, root: nat, node: nat, v: nat, p: nat, count: nat, but: set<nat>)
    requires MemOk(m, tag) && IsRoot(m.nodes, tag, root) && TableFor(m.nodes, root, 4, 3, v) == Some(node)
    requires Idx(v, 3) + count <= 512 && p % GIB == 0 && p + count * GIB <= FRAMES_END
    ensures var r := PutHuge(m, node, Idx(v, 3), p, count); r.Done? && RootsSame(m.nodes, tag, r.mem.nodes, but)
    decreases count
  {
    hide Walk, Present, Prefix, Idx, HugeFree, Put, MappedHuge, TableFor, Leaf;
    if count > 0 {
      PutHugeKeepsRoots(m, tag, root, node, v, p, count - 1, but);
      PutHugeMaps(m, tag, root, node, v, p, count - 1);
      PutHugeMaps(m, tag, root, node, v, p, count);
      var r := PutHuge(m, node, Idx(v, 3), p, count - 1);
      RootStays(m, tag, r.mem, tag, root);
      RootOnWay(r.mem.nodes, tag, root, v);
      TableForOnWay(r.mem.nodes, tag, root, 4, 3, v);
      PutKeepsRoots(r.mem, tag, node, Idx(v, 3) + (count - 1), p + (count - 1) * GIB, ReadWriteKernel1GiB, but);
    }
  }

  lemma MapHugeKeepsRoots(m: Mem, tag: map<nat, Tag>, root: nat, v: nat, p: nat, count: nat, but: set<nat>)
    requires MemOk(m, tag) && IsRoot(m.nodes, tag, root)
    requires Idx(v, 3) + count <= 512 && p % GIB == 0 && p + count * GIB <= FRAMES_END
    requires Present(m.nodes[root][Idx(v, 4)]) || root in but
    ensures var r := MapHuge(m, root, v, p, count); r.Done? ==> RootsSame(m.nodes, tag, r.mem.nodes, but)
  {
    hide Walk, Present, Prefix, Idx, Ensure, HugeFree, TableFor, PutHuge, Tree;
    RootOnWay(m.nodes, tag, root, v);
    EnsureKeepsRoots(m, tag, root, 4, 3, v, but);
    var tag1 := EnsureKeeps(m, tag, root, 4, 3, v);
    var r := Ensure(m, root, 4, 3, v);
    if r.Got? {
      RootStays(m, tag, r.mem, tag1, root);
      PutHugeKeepsRoots(r.mem, tag1, root, r.node, v, p, count, but);
      TreeKeys(m, tag);
      TreeKeys(r.mem, tag1);
      RootsSameAgain(m.nodes, tag, r.mem.nodes, tag1, PutHuge(r.mem, r.node, Idx(v, 3), p, count).mem.nodes, but);
    }
  }

  /** Mapping writes no root table but its own, and not even that one if the range
      goes through present entries. */
  lemma MapKeepsRoots(m: Mem, tag: map<nat, Tag>, root: nat, v: nat, p: nat, n: nat, attr: Attr, but: set<nat>)
    requires Mappable(m, tag, root, v, p, n, attr) && (SlotsPresent(m.nodes[root], v, n) || root in but)
    ensures var r := MapSpec(m, root, v, p, n, attr); r.Done? ==> RootsSame(m.nodes, tag, r.mem.nodes, but)
  {
    hide Walk, Idx, HugeFree, MapPages, MapHuge, Tree, Present;
    if UsesHuge(v, p, n, attr) {
      MapHugeKeepsRoots(m, tag, root, v, p, n / GIB_PAGES, but);
    } else {
      MapPagesKeepsRoots(m, tag, root, v, p, n, attr, but);
    }
  }

  /** Under a present entry twins stay alike; under an absent one the other table
      keeps translating to nothing. */
  lemma TwinsAfterMap(
    m: Mem, tag: map<nat, Tag>, root: nat, copy: nat, v: nat, p: nat, n: nat, attr: Attr, u: nat)
    requires Mappable(m, tag, root, v, p, n, attr)
    requires IsRoot(m.nodes, tag, copy) && copy != root && Twins(m.nodes, root, copy)
    requires MapSpec(m, root, v, p, n, attr).Done?
    ensures var nodes' := MapSpec(m, root, v, p, n, attr).mem.nodes;
      if Present(m.nodes[root][Idx(u, 4)]) then Translate(nodes', root, u) == Translate(nodes', copy, u)
      else
        && Translate(nodes', copy, u) == None
        && Translate(nodes', root, u) == Mapped(u, v, p, n, Effective(v, p, n, attr), None)
  {
    hide MapSpec, HugeFreeAfter, Present, Idx, HugeFree, Leaf, Paddr, FrameOf, Mapped, Writable, Executable, User, PageAt;
    MapKeepsRoots(m, tag, root, v, p, n, attr, {root});
    var tag' := MapMaps(m, tag, root, v, p, n, attr);
  }

  /** One mapping into one of two twins leaves them alike if and only if it takes
      pages away, or each of its pages lies under a top-level entry that was present. */
  lemma AlikeExactlyWhen(
    m: Mem, tag: map<nat, Tag>, root: nat, copy: nat, v: nat, p: nat, n: nat, attr: Attr)
    requires Mappable(m, tag, root, v, p, n, attr)
    requires IsRoot(m.nodes, tag, copy) && copy != root && Twins(m.nodes, root, copy)
    requires MapSpec(m, root, v, p, n, attr).Done?
    ensures var nodes' := MapSpec(m, root, v, p, n, attr).mem.nodes;
      (forall u :: Translate(nodes', root, u) == Translate(nodes', copy, u)) <==>
      attr == NotPresent || forall k :: 0 <= k < n ==> Present(m.nodes[root][Idx(v + k * PAGE_SIZE, 4)])
  {
    hide MapSpec, Walk, Tree, HugeFree, Present, Idx, MemOk, Dist, Prefix, Promise;
    var nodes' := MapSpec(m, root, v, p, n, attr).mem.nodes;
    var table := m.nodes[root];
    if attr == NotPresent || forall k :: 0 <= k < n ==> Present(table[Idx(v + k * PAGE_SIZE, 4)]) {
      forall u
        ensures Translate(nodes', root, u) == Translate(nodes', copy, u)
      {
        TwinsAfterMap(m, tag, root, copy, v, p, n, attr, u);
        var k := Dist(u, v);
        if k < n {
          DistIs(u, v, k);
          SameIndices(u, v + k * PAGE_SIZE, 0, 4);
        }
      }
    } else {
      var k :| 0 <= k < n && !Present(table[Idx(v + k * PAGE_SIZE, 4)]);
      var u := v + k * PAGE_SIZE;
      TwinsAfterMap(m, tag, root, copy, v, p, n, attr, u);
      DistIs(u, v, k);
    }
  }

  /** Two empty root tables, and a heap of 16 pages. */
  function TwoRoots(): Mem {
    Mem(map[0x1000 := EmptyTable(), 0x2000 := EmptyTable()],
        Heap(LINEAR_BASE + 0x10000, LINEAR_BASE + 0x20000, LINEAR_BASE + 0x10000))
  }

  ghost function TwoTags(): map<nat, Tag> {
    map[0x1000 := Tag(4, 0), 0x2000 := Tag(4, 0)]
  }

  lemma TwoRootsOk()
    ensures MemOk(TwoRoots(), TwoTags()) && Twins(TwoRoots().nodes, 0x1000, 0x2000)
    ensures forall u :: HugeFree(TwoRoots().nodes, 0x1000, 4, u) && !Present(TwoRoots().nodes[0x1000][Idx(u, 4)])
  {
    hide Present, Idx, Leaf;
    ZeroIsAbsent();
  }

  /** There, mapping one page into the first table makes the two differ. */
  lemma TwinsPart()
    ensures var r := MapSpec(TwoRoots(), 0x1000, 0, 0, 1, ReadWriteKernel);
      && r.Done? && Twins(TwoRoots().nodes, 0x1000, 0x2000)
      && exists u :: Translate(r.mem.nodes, 0x1000, u) != Translate(r.mem.nodes, 0x2000, u)
  {
    hide Walk, HugeFree, MapPages, MapHuge, Tree, Present, Idx, Prefix, EmptyTable;
    TwoRootsOk();
    MapPagesHasRoom(TwoRoots(), TwoTags(), 0x1000, 0, 0, 1, ReadWriteKernel, 0);
    AlikeExactlyWhen(TwoRoots(), TwoTags(), 0x1000, 0x2000, 0, 0, 1, ReadWriteKernel);
    assert !Present(TwoRoots().nodes[0x1000][Idx(0 + 0 * PAGE_SIZE, 4)]);
  }

  /** A call of `map` on one of the two page tables. */
  datatype MapCall = MapCall(onCopy: bool, v: nat, p: nat, n: nat, attr: Attr)

  function RunMaps(m: Mem, root: nat, copy: nat, calls: seq<MapCall>): MapResult
    decreases |calls|
  {
    if calls == [] then Done(m)
    else
      var k := |calls| - 1;
      var r := RunMaps(m, root, copy, calls[..k]);
      var c := calls[k];
      if r.Done? then MapSpec(r.mem, if c.onCopy then copy else root, c.v, c.p, c.n, c.attr) else r
  }

  /** Each call is one that `map` allows at its time, for tables that form a tree, and
      goes through top-level entries present in `table`. */
  ghost predicate Allowed(m: Mem, tag: map<nat, Tag>, root: nat, copy: nat, table: seq<nat>, calls: seq<MapCall>) {
    forall k, tag', m' ::
      && 0 <= k < |calls| && RunMaps(m, root, copy, calls[..k]) == Done(m')
      && MemOk(m', tag') && Extends(tag, tag') ==>
        var c := calls[k];
        && Mappable(m', tag', if c.onCopy then copy else root, c.v, c.p, c.n, c.attr)
        && SlotsPresent(table, c.v, c.n)
  }

  /** After any sequence of such calls on either table the two still translate every
      address alike, and their top-level entries are what they were. */
  lemma {:induction false} TwinsStayAlike(
    m: Mem, tag: map<nat, Tag>, root: nat, copy: nat, calls: seq<MapCall>)
    returns (tag': map<nat, Tag>)
    requires MemOk(m, tag) && IsRoot(m.nodes, tag, root) && IsRoot(m.nodes, tag, copy)
    requires Twins(m.nodes, root, copy) && Allowed(m, tag, root, copy, m.nodes[root], calls)
    ensures var r := RunMaps(m, root, copy, calls);
      r.Done? ==>
        && MemOk(r.mem, tag') && Extends(tag, tag') && RootsSame(m.nodes, tag, r.mem.nodes, {})
        && Twins(r.mem.nodes, root, copy)
        && forall u :: Translate(r.mem.nodes, root, u) == Translate(r.mem.nodes, copy, u)
    decreases |calls|
  {
    hide MapSpec, Walk, Mappable, SlotsPresent, Tree, Mapped, HugeFreeAfter, Present;
    tag' := tag;
    if calls == [] {
    } else {
      var k := |calls| - 1;
      AllowedPrefix(m, tag, root, copy, calls, k);
      var tag1 := TwinsStayAlike(m, tag, root, copy, calls[..k]);
      var r1 := RunMaps(m, root, copy, calls[..k]);
      if r1.Done? {
        var c := calls[k];
        var target := if c.onCopy then copy else root;
        assert Mappable(r1.mem, tag1, target, c.v, c.p, c.n, c.attr) && SlotsPresent(m.nodes[root], c.v, c.n);
        SlotsOfTwin(m.nodes, r1.mem.nodes, root, copy, target, c.v, c.n);
        MapKeepsRoots(r1.mem, tag1, target, c.v, c.p, c.n, c.attr, {});
        tag' := MapMaps(r1.mem, tag1, target, c.v, c.p, c.n, c.attr);
        var r := MapSpec(r1.mem, target, c.v, c.p, c.n, c.attr);
        if r.Done? {
          TreeKeys(m, tag);
          TreeKeys(r1.mem, tag1);
          RootsSameAgain(m.nodes, tag, r1.mem.nodes, tag1, r.mem.nodes, {});
        }
      }
    }
    var r := RunMaps(m, root, copy, calls);
    if r.Done? {
      forall u
        ensures Translate(r.mem.nodes, root, u) == Translate(r.mem.nodes, copy, u)
      {
        TwinsAgree(r.mem.nodes, root, copy, u);
      }
    }
  }

  lemma AllowedPrefix(m: Mem, tag: map<nat, Tag>, root: nat, copy: nat, calls: seq<MapCall>, k: nat)
    requires k <= |calls| && root in m.nodes && Allowed(m, tag, root, copy, m.nodes[root], calls)
    ensures Allowed(m, tag, root, copy, m.nodes[root], calls[..k])
  {
    hide RunMaps, Mappable, SlotsPresent, MemOk;
    forall j | 0 <= j < k
      ensures calls[..k][..j] == calls[..j] && calls[..k][j] == calls[j]
    {
    }
  }

  lemma SlotsOfTwin(nodes: Nodes, nodes': Nodes, root: nat, copy: nat, target: nat, v: nat, n: nat)
    requires Twins(nodes, root, copy) && (target == root || target == copy)
    requires target in nodes' && nodes'[target] == nodes[target]
    requires SlotsPresent(nodes[root], v, n)
    ensures SlotsPresent(nodes'[target], v, n)
  {
    hide Present, Idx;
  }
}
