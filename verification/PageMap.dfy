/** Building mappings: tables allocated on the way, single pages and whole ranges, as
    functions on the memory that holds the tables. */
module PageMap {
  import opened Wrappers
  import opened Bits
  import opened MemLayout
  import opened PageEntry
  import opened PageTree
  import opened Allocator

  /** The tables and the heap that new ones come from; the heap lies in the linear
      map. */
  datatype Mem = Mem(nodes: Nodes, heap: Heap)

  /** `Wild`: the walk went through something that is no table. */
  datatype Got = Got(node: nat, mem: Mem) | OutOfMemory | Wild

  function NewTable(m: Mem): Got {
    match Serve(m.heap, Layout(PAGE_SIZE, 12))
    case (Overflow, _) => OutOfMemory
    case (Ptr(a), h) =>
      if a == 0 then OutOfMemory
      else
        match VirtToPhys(a)
        case None => OutOfMemory
        case Some(p) => Got(p, Mem(m.nodes[p := EmptyTable()], h))
  }

  function GetOrAlloc(m: Mem, node: nat, i: nat): Got {
    if node !in m.nodes || i >= |m.nodes[node]| then Wild
    else if Present(m.nodes[node][i]) then Got(Paddr(m.nodes[node][i]), m)
    else
      var r := NewTable(m);
      if !r.Got? then r
      else if node !in r.mem.nodes || i >= |r.mem.nodes[node]| then Wild
      else Got(r.node, r.mem.(nodes := Write(r.mem.nodes, node, i, TableEntry(r.node))))
  }

  /** Down from `node` at `level` to the table for `v` at level `to`. */
  function Ensure(m: Mem, node: nat, level: nat, to: nat, v: nat): Got
    requires 1 <= to <= level <= 4
    decreases level
  {
    if level == to then Got(node, m)
    else
      var r := GetOrAlloc(m, node, Idx(v, level));
      if r.Got? then Ensure(r.mem, r.node, level - 1, to, v) else r
  }

  // ----- what the tables keep -----

  ghost predicate Placed(heap: Heap, a: nat) {
    a % PAGE_SIZE == 0 && a < LINEAR_SIZE &&
    (a + PAGE_SIZE + LINEAR_BASE <= heap.next || heap.end <= a + LINEAR_BASE)
  }

  /** The tables form a tree, and none of them lies in the free part of the heap. */
  ghost predicate MemOk(m: Mem, tag: map<nat, Tag>) {
    && Tree(m.nodes, tag)
    && LINEAR_BASE <= m.heap.start <= m.heap.next <= m.heap.end <= LINEAR_BASE + LINEAR_SIZE
    && forall a :: a in m.nodes ==> Placed(m.heap, a)
  }

  /** No large page on the way to the page of `v`. */
  predicate HugeFree(nodes: Nodes, node: nat, level: nat, v: nat)
    requires 1 <= level <= 4
    decreases level
  {
    level == 1 || node !in nodes || |nodes[node]| != 512 ||
    var e := nodes[node][Idx(v, level)];
    Present(e) ==> !Leaf(level, e) && HugeFree(nodes, Paddr(e), level - 1, v)
  }

  /** From `nodes` to `nodes'`: tables stay in their places, present entries and all
      translations are the same. */
  ghost predicate Keeps(nodes: Nodes, tag: map<nat, Tag>, nodes': Nodes, tag': map<nat, Tag>) {
    && (forall a :: a in tag ==> a in tag' && tag'[a] == tag[a])
    && (forall a, i :: a in nodes && 0 <= i < |nodes[a]| && Present(nodes[a][i]) ==>
          a in nodes' && i < |nodes'[a]| && nodes'[a][i] == nodes[a][i])
    && (forall node, level, v, rights :: OnWay(nodes, tag, node, level, v) ==>
          Walk(nodes', node, level, v, rights) == Walk(nodes, node, level, v, rights))
    && (forall node, level, v :: OnWay(nodes, tag, node, level, v) ==>
          HugeFree(nodes', node, level, v) == HugeFree(nodes, node, level, v))
  }

  lemma KeepsTransitive(
    n0: Nodes, t0: map<nat, Tag>, n1: Nodes, t1: map<nat, Tag>, n2: Nodes, t2: map<nat, Tag>)
    requires Tree(n0, t0) && Tree(n1, t1) && Keeps(n0, t0, n1, t1) && Keeps(n1, t1, n2, t2)
    ensures Keeps(n0, t0, n2, t2)
  {
    hide Walk, HugeFree, Present, Prefix;
    forall node, level, v | OnWay(n0, t0, node, level, v)
      ensures OnWay(n1, t1, node, level, v)
    {
    }
  }

  lemma {:induction false} AttachKeepsHugeFree(
    nodes: Nodes, tag: map<nat, Tag>, a: nat, i: nat, n: nat, e: nat, node: nat, level: nat, v: nat)
    requires Attachable(nodes, tag, a, i, n, e) && OnWay(nodes, tag, node, level, v)
    ensures HugeFree(Attach(nodes, a, i, n, e), node, level, v) == HugeFree(nodes, node, level, v)
    decreases level
  {
    hide Present, Paddr, FrameOf, Writable, Executable, User, Huge, Idx, Prefix;
    ZeroIsAbsent();
    var e0 := nodes[node][Idx(v, level)];
    if Present(e0) && !Leaf(level, e0) {
      NextOnWay(nodes, tag, node, level, v);
      AttachKeepsHugeFree(nodes, tag, a, i, n, e, Paddr(e0), level - 1, v);
    }
  }

  lemma AttachKeeps(nodes: Nodes, tag: map<nat, Tag>, a: nat, i: nat, n: nat, e: nat)
    requires Attachable(nodes, tag, a, i, n, e)
    ensures Keeps(nodes, tag, Attach(nodes, a, i, n, e), AttachTag(tag, a, i, n))
  {
    hide Walk, HugeFree, Present, Prefix, Paddr, FrameOf, Writable, Executable, User, Huge;
    forall node, level, v | OnWay(nodes, tag, node, level, v)
      ensures HugeFree(Attach(nodes, a, i, n, e), node, level, v) == HugeFree(nodes, node, level, v)
    {
      AttachKeepsHugeFree(nodes, tag, a, i, n, e, node, level, v);
    }
    forall node, level, v, rights | OnWay(nodes, tag, node, level, v)
      ensures Walk(Attach(nodes, a, i, n, e), node, level, v, rights) == Walk(nodes, node, level, v, rights)
    {
      AttachKeepsWalk(nodes, tag, a, i, n, e, node, level, v, rights);
    }
  }

  /** New tables come from the allocator aligned and unused. */
  lemma NewTableIsFresh(m: Mem, tag: map<nat, Tag>)
    requires MemOk(m, tag)
    ensures var r := NewTable(m);
      && !r.Wild?
      && (r.Got? ==>
            && r.node !in m.nodes && r.mem.nodes == m.nodes[r.node := EmptyTable()]
            && r.mem.heap.start == m.heap.start && r.mem.heap.end == m.heap.end
            && m.heap.next <= r.mem.heap.next <= m.heap.end
            && Placed(r.mem.heap, r.node) && r.node % PAGE_SIZE == 0 && r.node < FRAMES_END
            && forall a :: a in m.nodes ==> Placed(r.mem.heap, a))
  {
    hide Serve, Tree, Pow2;
    Pow2Values();
    if Serve(m.heap, Layout(PAGE_SIZE, 12)).0.Ptr? {
      ServeMeaning(m.heap, Layout(PAGE_SIZE, 12));
    }
  }

  /** Going down one level: translations stay, and the way goes on. */
  lemma GetOrAllocKeeps(m: Mem, tag: map<nat, Tag>, node: nat, level: nat, v: nat) returns (tag': map<nat, Tag>)
    requires MemOk(m, tag) && OnWay(m.nodes, tag, node, level, v) && 1 < level
    requires var e := m.nodes[node][Idx(v, level)]; Present(e) ==> !Leaf(level, e)
    ensures var r := GetOrAlloc(m, node, Idx(v, level));
      && !r.Wild?
      && (r.Got? ==>
            && MemOk(r.mem, tag') && Keeps(m.nodes, tag, r.mem.nodes, tag')
            && OnWay(r.mem.nodes, tag', r.node, level - 1, v)
            && r.mem.heap.end == m.heap.end
            && node in r.mem.nodes && |r.mem.nodes[node]| == 512
            && var e := r.mem.nodes[node][Idx(v, level)];
               Present(e) && !Leaf(level, e) && Paddr(e) == r.node)
  {
    hide Walk, HugeFree, Present, Paddr, FrameOf, Writable, Executable, User, Huge, Prefix, Idx, NewTable, TableEntry;
    tag' := tag;
    var i := Idx(v, level);
    if Present(m.nodes[node][i]) {
      NextOnWay(m.nodes, tag, node, level, v);
      KeepsSelf(m.nodes, tag);
    } else {
      NewTableIsFresh(m, tag);
      var r := NewTable(m);
      if r.Got? {
        var e := TableEntry(r.node);
        TableEntryDecodes(r.node);
        tag' := AttachTag(tag, node, i, r.node);
        assert Write(r.mem.nodes, node, i, e) == Attach(m.nodes, node, i, r.node, e);
        AttachKeepsTree(m.nodes, tag, node, i, r.node, e);
        AttachKeeps(m.nodes, tag, node, i, r.node, e);
        PrefixStep(v, level);
      }
    }
  }

  lemma KeepsSelf(nodes: Nodes, tag: map<nat, Tag>)
    ensures Keeps(nodes, tag, nodes, tag)
  {
  }

  lemma TableEntryDecodes(p: nat)
    requires p % PAGE_SIZE == 0 && p < FRAMES_END
    ensures var e := TableEntry(p);
      && Present(e) && Paddr(e) == FrameOf(e) == p && Writable(e) && Executable(e) && !User(e) && !Huge(e)
      && e == p + PRESENT + WRITABLE
  {
    hide Present, Paddr, FrameOf, Writable, Executable, User, Huge, WriteThrough, CacheDisabled, Or;
    OrDecodes(p, ReadWriteExecuteKernel);
    AddressPlusBits(p, PRESENT + WRITABLE, false);
    var e := TableEntry(p);
    assert ViewOf(e).paddr == p;
    PaddrIs(e);
    PaddrIsFrameExactlyWhen(e);
  }

  /** The table for `v` at level `to`, when the way there is built. */
  function TableFor(nodes: Nodes, node: nat, level: nat, to: nat, v: nat): Option<nat>
    requires 1 <= to <= level <= 4
    decreases level
  {
    if level == to then Some(node)
    else if node !in nodes || |nodes[node]| != 512 then None
    else
      var e := nodes[node][Idx(v, level)];
      if !Present(e) || Leaf(level, e) then None
      else TableFor(nodes, Paddr(e), level - 1, to, v)
  }

  lemma {:induction false} TableForOnWay(
    nodes: Nodes, tag: map<nat, Tag>, node: nat, level: nat, to: nat, v: nat)
    requires Tree(nodes, tag) && OnWay(nodes, tag, node, level, v) && 1 <= to <= level
    requires TableFor(nodes, node, level, to, v).Some?
    ensures OnWay(nodes, tag, TableFor(nodes, node, level, to, v).value, to, v)
    decreases level
  {
    hide Present, Paddr, FrameOf, Leaf, Idx, Prefix, Writable, Executable, User;
    if level > to {
      NextOnWay(nodes, tag, node, level, v);
      TableForOnWay(nodes, tag, Paddr(nodes[node][Idx(v, level)]), level - 1, to, v);
    }
  }

  /** The walk passes through that table; only user access may be lost on the way. */
  lemma {:induction false} WalkThrough(
    nodes: Nodes, tag: map<nat, Tag>, node: nat, level: nat, to: nat, v: nat, rights: Rights)
    returns (user: bool)
    requires Tree(nodes, tag) && OnWay(nodes, tag, node, level, v) && 1 <= to <= level
    requires TableFor(nodes, node, level, to, v).Some?
    ensures Walk(nodes, node, level, v, rights)
         == Walk(nodes, TableFor(nodes, node, level, to, v).value, to, v, rights.(user := user))
    decreases level
  {
    hide Present, Paddr, FrameOf, Leaf, Idx, Prefix, Writable, Executable, User;
    user := rights.user;
    if level > to {
      NextOnWay(nodes, tag, node, level, v);
      var e := nodes[node][Idx(v, level)];
      user := WalkThrough(nodes, tag, Paddr(e), level - 1, to, v, Under(rights, e));
    }
  }

  /** Building the way keeps every translation and ends at the table for `v`. */
  lemma {:induction false} EnsureKeeps(m: Mem, tag: map<nat, Tag>, node: nat, level: nat, to: nat, v: nat)
    returns (tag': map<nat, Tag>)
    requires MemOk(m, tag) && OnWay(m.nodes, tag, node, level, v) && 1 <= to <= level
    requires to == 3 || HugeFree(m.nodes, node, level, v)
    ensures var r := Ensure(m, node, level, to, v);
      && !r.Wild?
      && (r.Got? ==>
            && MemOk(r.mem, tag') && Keeps(m.nodes, tag, r.mem.nodes, tag')
            && r.mem.heap.end == m.heap.end
            && TableFor(r.mem.nodes, node, level, to, v) == Some(r.node))
    decreases level
  {
    hide Walk, Present, Paddr, FrameOf, Huge, Prefix, Idx, GetOrAlloc;
    tag' := tag;
    if level == to {
      KeepsSelf(m.nodes, tag);
    } else {
      var tag1 := GetOrAllocKeeps(m, tag, node, level, v);
      var r1 := GetOrAlloc(m, node, Idx(v, level));
      if r1.Got? {
        tag' := EnsureKeeps(r1.mem, tag1, r1.node, level - 1, to, v);
        var r := Ensure(r1.mem, r1.node, level - 1, to, v);
        if r.Got? {
          KeepsTransitive(m.nodes, tag, r1.mem.nodes, tag1, r.mem.nodes, tag');
        }
      }
    }
  }

  // ----- one page -----

  /** `Misaligned` is the error of an entry that cannot hold the address, `Full` the
      panic when the heap is exhausted, `Astray` the use of something as a table. */
  datatype MapResult = Done(mem: Mem) | Misaligned | Full | Astray

  function Fail(r: Got): MapResult
    requires !r.Got?
  {
    if r.Wild? then Astray else Full
  }

  function Put(m: Mem, node: nat, i: nat, p: nat, attr: Attr): MapResult {
    if node !in m.nodes || i >= |m.nodes[node]| then Astray
    else
      match SetEntry(p, attr)
      case None => Misaligned
      case Some(e) => Done(m.(nodes := Write(m.nodes, node, i, e)))
  }

  /** One page, walking from the root. */
  function MapOne(m: Mem, root: nat, v: nat, p: nat, attr: Attr): MapResult {
    var r := Ensure(m, root, 4, 1, v);
    if r.Got? then Put(r.mem, r.node, Idx(v, 1), p, attr) else Fail(r)
  }

  ghost predicate IsRoot(nodes: Nodes, tag: map<nat, Tag>, root: nat) {
    root in nodes && root in tag && tag[root] == Tag(4, 0)
  }

  lemma RootOnWay(nodes: Nodes, tag: map<nat, Tag>, root: nat, v: nat)
    requires IsRoot(nodes, tag, root)
    ensures OnWay(nodes, tag, root, 4, v)
  {
    PrefixStep(v, 4);
  }

  /** What a page mapped to `p` with `attr` gives at address `u` in it. */
  function Expect(p: nat, attr: Attr, u: nat): Option<Page> {
    var pr := Promise(p, attr);
    if attr == NotPresent then None
    else Some(Page(p + u % PAGE_SIZE, pr.writable, pr.executable, pr.writeThrough, pr.cacheDisabled, pr.user))
  }

  lemma {:induction false} WriteLowKeepsHugeFree(
    nodes: Nodes, tag: map<nat, Tag>, a: nat, i: nat, e: nat, node: nat, level: nat, v: nat)
    requires Tree(nodes, tag) && a in nodes && i < 512 && tag[a].level == 1
    requires OnWay(nodes, tag, node, level, v)
    ensures HugeFree(Write(nodes, a, i, e), node, level, v) == HugeFree(nodes, node, level, v)
    decreases level
  {
    hide Present, Paddr, FrameOf, Leaf, Idx, Prefix, Writable, Executable, User;
    if level > 1 {
      var e0 := nodes[node][Idx(v, level)];
      if Present(e0) && !Leaf(level, e0) {
        NextOnWay(nodes, tag, node, level, v);
        WriteLowKeepsHugeFree(nodes, tag, a, i, e, Paddr(e0), level - 1, v);
      }
    }
  }

  lemma {:induction false} WriteLowKeepsTableFor(
    nodes: Nodes, tag: map<nat, Tag>, a: nat, i: nat, e: nat, node: nat, level: nat, v: nat)
    requires Tree(nodes, tag) && a in nodes && i < 512 && tag[a].level == 1
    requires OnWay(nodes, tag, node, level, v)
    ensures TableFor(Write(nodes, a, i, e), node, level, 1, v) == TableFor(nodes, node, level, 1, v)
    decreases level
  {
    hide Present, Paddr, FrameOf, Leaf, Idx, Prefix, Writable, Executable, User;
    if level > 1 {
      var e0 := nodes[node][Idx(v, level)];
      if Present(e0) && !Leaf(level, e0) {
        NextOnWay(nodes, tag, node, level, v);
        WriteLowKeepsTableFor(nodes, tag, a, i, e, Paddr(e0), level - 1, v);
      }
    }
  }

  /** A page entry read by the walk gives what was written. */
  lemma ReadsBack(nodes: Nodes, leaf: nat, p: nat, attr: Attr, e: nat, u: nat, user: bool)
    requires p % PAGE_SIZE == 0 && p < FRAMES_END && SetEntry(p, attr) == Some(e)
    requires leaf in nodes && |nodes[leaf]| == 512 && nodes[leaf][Idx(u, 1)] == e
    ensures Walk(nodes, leaf, 1, u, ALL.(user := user)) == Expect(p, attr, u)
  {
    hide SetEntry, Present, Paddr, FrameOf, Writable, Executable, User, Huge, WriteThrough, CacheDisabled, Idx, Pow2;
    Pow2Values();
    SetEntryDecodes(p, attr);
    SetEntryReachesExactlyWhen(p, attr);
    assert ViewOf(e) == Promise(p, attr);
  }

  lemma {:induction false} TableForSame(nodes: Nodes, node: nat, level: nat, to: nat, u: nat, v: nat)
    requires 1 <= to <= level <= 4 && Prefix(u, to) == Prefix(v, to)
    ensures TableFor(nodes, node, level, to, u) == TableFor(nodes, node, level, to, v)
    decreases level
  {
    hide Present, Paddr, FrameOf, Leaf, Idx, Prefix;
    if level > to {
      SameIndices(u, v, to, level);
      if node in nodes && |nodes[node]| == 512 {
        var e := nodes[node][Idx(v, level)];
        if Present(e) && !Leaf(level, e) {
          TableForSame(nodes, Paddr(e), level - 1, to, u, v);
        }
      }
    }
  }

  /** All translations outside page `pn` are the same, from every table on. */
  ghost predicate SameOutside(nodes: Nodes, tag: map<nat, Tag>, nodes': Nodes, pn: nat) {
    forall node, level, u, rights :: OnWay(nodes, tag, node, level, u) && Prefix(u, 0) != pn ==>
      Walk(nodes', node, level, u, rights) == Walk(nodes, node, level, u, rights)
  }

  ghost predicate SameHugeFree(nodes: Nodes, tag: map<nat, Tag>, nodes': Nodes) {
    forall node, level, u :: OnWay(nodes, tag, node, level, u) ==>
      HugeFree(nodes', node, level, u) == HugeFree(nodes, node, level, u)
  }

  /** Writing the page entry of `v` in the table the walk reaches. */
  lemma PutMaps(m: Mem, tag: map<nat, Tag>, root: nat, leaf: nat, v: nat, p: nat, attr: Attr)
    requires MemOk(m, tag) && IsRoot(m.nodes, tag, root)
    requires TableFor(m.nodes, root, 4, 1, v) == Some(leaf)
    requires p % PAGE_SIZE == 0 && p < FRAMES_END
    ensures var r := Put(m, leaf, Idx(v, 1), p, attr);
      && r.Done? && MemOk(r.mem, tag) && r.mem.heap == m.heap
      && SameOutside(m.nodes, tag, r.mem.nodes, Prefix(v, 0))
      && SameHugeFree(m.nodes, tag, r.mem.nodes)
      && (forall u :: Prefix(u, 0) == Prefix(v, 0) ==> Translate(r.mem.nodes, root, u) == Expect(p, attr, u))
      && (forall u :: TableFor(r.mem.nodes, root, 4, 1, u) == TableFor(m.nodes, root, 4, 1, u))
  {
    hide SetEntry, Present, Prefix, Idx, Walk, HugeFree, TableFor, Expect, Pow2;
    Pow2Values();
    SetEntryDecodes(p, attr);
    RootOnWay(m.nodes, tag, root, v);
    TableForOnWay(m.nodes, tag, root, 4, 1, v);
    var e := SetEntry(p, attr).value;
    var nodes' := Write(m.nodes, leaf, Idx(v, 1), e);
    PrefixStep(v, 1);
    WriteLeafKeepsTree(m.nodes, tag, leaf, Idx(v, 1), e);
    forall node, level, u, rights | OnWay(m.nodes, tag, node, level, u) && Prefix(u, 0) != Prefix(v, 0)
      ensures Walk(nodes', node, level, u, rights) == Walk(m.nodes, node, level, u, rights)
    {
      WriteLeafElsewhere(m.nodes, tag, leaf, Idx(v, 1), e, node, level, u, rights);
    }
    forall node, level, u | OnWay(m.nodes, tag, node, level, u)
      ensures HugeFree(nodes', node, level, u) == HugeFree(m.nodes, node, level, u)
    {
      WriteLowKeepsHugeFree(m.nodes, tag, leaf, Idx(v, 1), e, node, level, u);
    }
    forall u
      ensures TableFor(nodes', root, 4, 1, u) == TableFor(m.nodes, root, 4, 1, u)
    {
      RootOnWay(m.nodes, tag, root, u);
      WriteLowKeepsTableFor(m.nodes, tag, leaf, Idx(v, 1), e, root, 4, u);
    }
    forall u | Prefix(u, 0) == Prefix(v, 0)
      ensures Translate(nodes', root, u) == Expect(p, attr, u)
    {
      RootOnWay(nodes', tag, root, u);
      SameIndices(u, v, 0, 1);
      TableForSame(nodes', root, 4, 1, u, v);
      var user := WalkThrough(nodes', tag, root, 4, 1, u, ALL);
      ReadsBack(nodes', leaf, p, attr, e, u, user);
    }
  }

  ghost predicate Extends(tag: map<nat, Tag>, tag': map<nat, Tag>) {
    forall a :: a in tag ==> a in tag' && tag'[a] == tag[a]
  }

  /** One page mapped from the root: that page translates as asked, all others as
      before, under all the tables that had to be allocated. */
  lemma MapOneMaps(m: Mem, tag: map<nat, Tag>, root: nat, v: nat, p: nat, attr: Attr) returns (tag': map<nat, Tag>)
    requires MemOk(m, tag) && IsRoot(m.nodes, tag, root) && HugeFree(m.nodes, root, 4, v)
    requires p % PAGE_SIZE == 0 && p < FRAMES_END
    ensures var r := MapOne(m, root, v, p, attr);
      && (r.Done? || r.Full?)
      && (r.Done? ==>
            && MemOk(r.mem, tag') && Extends(tag, tag') && r.mem.heap.end == m.heap.end
            && (forall u :: HugeFree(r.mem.nodes, root, 4, u) == HugeFree(m.nodes, root, 4, u))
            && (forall u :: Translate(r.mem.nodes, root, u) ==
                  if Prefix(u, 0) == Prefix(v, 0) then Expect(p, attr, u) else Translate(m.nodes, root, u)))
  {
    hide Prefix, Walk, HugeFree, TableFor, Expect, Ensure, Put, Tree;
    RootOnWay(m.nodes, tag, root, v);
    tag' := EnsureKeeps(m, tag, root, 4, 1, v);
    var r := Ensure(m, root, 4, 1, v);
    if r.Got? {
      RootStays(m, tag, r.mem, tag', root);
      PutMaps(r.mem, tag', root, r.node, v, p, attr);
      forall u
        ensures OnWay(m.nodes, tag, root, 4, u) && OnWay(r.mem.nodes, tag', root, 4, u)
      {
        RootOnWay(m.nodes, tag, root, u);
        RootOnWay(r.mem.nodes, tag', root, u);
      }
    }
  }

  /** Its table is then the one that the way was built to. */
  lemma MapOneTable(m: Mem, tag: map<nat, Tag>, root: nat, v: nat, p: nat, attr: Attr)
    requires MemOk(m, tag) && IsRoot(m.nodes, tag, root) && HugeFree(m.nodes, root, 4, v)
    requires p % PAGE_SIZE == 0 && p < FRAMES_END
    ensures var r := Ensure(m, root, 4, 1, v);
      var q := MapOne(m, root, v, p, attr);
      q.Done? ==> r.Got? && TableFor(q.mem.nodes, root, 4, 1, v) == Some(r.node)
  {
    hide Ensure, HugeFree, TableFor, Tree, Put, Idx, Prefix, Walk, Expect;
    RootOnWay(m.nodes, tag, root, v);
    var tag' := EnsureKeeps(m, tag, root, 4, 1, v);
    var r := Ensure(m, root, 4, 1, v);
    if r.Got? {
      RootStays(m, tag, r.mem, tag', root);
      PutMaps(r.mem, tag', root, r.node, v, p, attr);
    }
  }

  lemma RootStays(m: Mem, tag: map<nat, Tag>, m': Mem, tag': map<nat, Tag>, root: nat)
    requires MemOk(m, tag) && MemOk(m', tag') && Extends(tag, tag') && IsRoot(m.nodes, tag, root)
    ensures IsRoot(m'.nodes, tag', root)
  {
  }

  // ----- a range of pages -----

  /** `n` single pages, one after the other, each walking from the root.  Even with
      none the way to the first is built. */
  function MapPages(m: Mem, root: nat, v: nat, p: nat, n: nat, attr: Attr): MapResult
    decreases n
  {
    if n == 0 then
      var r := Ensure(m, root, 4, 1, v);
      if r.Got? then Done(r.mem) else Fail(r)
    else
      var r := MapPages(m, root, v, p, n - 1, attr);
      if r.Done? then MapOne(r.mem, root, v + (n - 1) * PAGE_SIZE, p + (n - 1) * PAGE_SIZE, attr) else r
  }

  const PAGES := 0x10_0000_0000  // 2^36 page numbers

  /** How many pages `u` lies after `v`, around the address space. */
  function Dist(u: nat, v: nat): nat {
    (Prefix(u, 0) + PAGES - Prefix(v, 0)) % PAGES
  }

  lemma DistIs(u: nat, v: nat, k: nat)
    requires v % PAGE_SIZE == 0 && k < PAGES
    ensures Prefix(u, 0) == Prefix(v + k * PAGE_SIZE, 0) <==> Dist(u, v) == k
  {
    PageNumbers(u, v, k);
    var a, b, c := Prefix(u, 0), Prefix(v, 0), Prefix(v + k * PAGE_SIZE, 0);
    assert c == if b + k < PAGES then b + k else b + k - PAGES;
  }

  lemma PageNumbers(u: nat, v: nat, k: nat)
    requires v % PAGE_SIZE == 0 && k < PAGES
    ensures Prefix(u, 0) < PAGES && Prefix(v, 0) < PAGES
    ensures Prefix(v + k * PAGE_SIZE, 0) == (Prefix(v, 0) + k) % PAGES
  {
    var q, w := v / ADDRESSES, v % ADDRESSES;
    var pn := w / PAGE_SIZE;
    assert w == pn * PAGE_SIZE;
    var x := v + k * PAGE_SIZE;
    if pn + k < PAGES {
      DivModUnique(x, ADDRESSES, q, (pn + k) * PAGE_SIZE);
    } else {
      DivModUnique(x, ADDRESSES, q + 1, (pn + k - PAGES) * PAGE_SIZE);
    }
  }

  /** What address `u` translates to once `n` pages from `v` are mapped to `p`, where
      `before` is what it translated to. */
  function Mapped(u: nat, v: nat, p: nat, n: nat, attr: Attr, before: Option<Page>): Option<Page> {
    var k := Dist(u, v);
    if k < n then Expect(p + k * PAGE_SIZE, attr, u) else before
  }

  /** The whole range translates as asked, and everything outside it as before. */
  lemma {:induction false} MapPagesMaps(
    m: Mem, tag: map<nat, Tag>, root: nat, v: nat, p: nat, n: nat, attr: Attr)
    returns (tag': map<nat, Tag>)
    requires MemOk(m, tag) && IsRoot(m.nodes, tag, root)
    requires v % PAGE_SIZE == 0 && p % PAGE_SIZE == 0 && p + n * PAGE_SIZE <= FRAMES_END && n <= PAGES
    requires HugeFree(m.nodes, root, 4, v)
    requires forall k :: 0 <= k < n ==> HugeFree(m.nodes, root, 4, v + k * PAGE_SIZE)
    ensures var r := MapPages(m, root, v, p, n, attr);
      && (r.Done? || r.Full?)
      && (r.Done? ==>
            && MemOk(r.mem, tag') && Extends(tag, tag') && r.mem.heap.end == m.heap.end
            && (forall u :: HugeFree(r.mem.nodes, root, 4, u) == HugeFree(m.nodes, root, 4, u))
            && (forall u :: Translate(r.mem.nodes, root, u)
                              == Mapped(u, v, p, n, attr, Translate(m.nodes, root, u))))
    decreases n
  {
    hide Prefix, Walk, HugeFree, Expect, Ensure, MapOne, Tree;
    if n == 0 {
      RootOnWay(m.nodes, tag, root, v);
      tag' := EnsureKeeps(m, tag, root, 4, 1, v);
      forall u
        ensures OnWay(m.nodes, tag, root, 4, u)
      {
        RootOnWay(m.nodes, tag, root, u);
      }
    } else {
      var tag1 := MapPagesMaps(m, tag, root, v, p, n - 1, attr);
      var r1 := MapPages(m, root, v, p, n - 1, attr);
      tag' := tag1;
      if r1.Done? {
        var k := n - 1;
        RootStays(m, tag, r1.mem, tag1, root);
        tag' := MapOneMaps(r1.mem, tag1, root, v + k * PAGE_SIZE, p + k * PAGE_SIZE, attr);
        forall u
          ensures Prefix(u, 0) == Prefix(v + k * PAGE_SIZE, 0) <==> Dist(u, v) == k
        {
          DistIs(u, v, k);
        }
      }
    }
  }

  // ----- the cached table -----

  /** Where the way is built, building it again changes nothing. */
  lemma {:induction false} EnsureBuilt(m: Mem, node: nat, level: nat, to: nat, v: nat)
    requires 1 <= to <= level <= 4 && TableFor(m.nodes, node, level, to, v).Some?
    ensures Ensure(m, node, level, to, v) == Got(TableFor(m.nodes, node, level, to, v).value, m)
    decreases level
  {
    hide Present, Paddr, FrameOf, Leaf, Idx;
    if level > to {
      EnsureBuilt(m, Paddr(m.nodes[node][Idx(v, level)]), level - 1, to, v);
    }
  }

  /** Counting indices from the first page follows the addresses. */
  lemma IndexAdvances(v: nat, i: nat)
    requires v % PAGE_SIZE == 0
    ensures (Idx(v, 1) + i) % 512 == Idx(v + i * PAGE_SIZE, 1)
  {
    var q := v / PAGE_SIZE;
    DivModUnique(v + i * PAGE_SIZE, PAGE_SIZE, q + i, 0);
  }

  /** Pages after the first of a table have the same table as the page before. */
  lemma SameTable(v: nat, i: nat)
    requires v % PAGE_SIZE == 0 && 0 < i < PAGES && Idx(v + i * PAGE_SIZE, 1) != 0
    ensures Prefix(v + i * PAGE_SIZE, 1) == Prefix(v + (i - 1) * PAGE_SIZE, 1)
  {
    hide Idx, Prefix;
    var a, b := v + i * PAGE_SIZE, v + (i - 1) * PAGE_SIZE;
    PrefixStep(a, 1);
    PrefixStep(b, 1);
    AlignedPages(v, i - 1);
    PageNumbers(a, b, 1);
    if Prefix(b, 0) + 1 < PAGES {
      OneRepresentation(512, Prefix(a, 1), Idx(a, 1) - 1, Prefix(b, 1), Idx(b, 1));
    }
  }

  lemma AlignedPages(v: nat, k: nat)
    requires v % PAGE_SIZE == 0
    ensures (v + k * PAGE_SIZE) % PAGE_SIZE == 0
  {
    DivModUnique(v + k * PAGE_SIZE, PAGE_SIZE, v / PAGE_SIZE + k, 0);
  }
}
