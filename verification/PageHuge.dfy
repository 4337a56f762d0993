/** The 1 GiB path of `map`, and its agreement with mapping page by page. */
module PageHuge {
  import opened Wrappers
  import opened Bits
  import opened MemLayout
  import opened PageEntry
  import opened PageTree
  import opened PageMap

  const GIB := 0x4000_0000
  const GIB_PAGES := 0x4_0000

  /** `count` entries from index `i` on, in the table `node` at level 3. */
  function PutHuge(m: Mem, node: nat, i: nat, p: nat, count: nat): MapResult
    decreases count
  {
    if count == 0 then Done(m)
    else
      var r := PutHuge(m, node, i, p, count - 1);
      if r.Done? then Put(r.mem, node, i + (count - 1), p + (count - 1) * GIB, ReadWriteKernel1GiB) else r
  }

  function MapHuge(m: Mem, root: nat, v: nat, p: nat, count: nat): MapResult {
    var r := Ensure(m, root, 4, 3, v);
    if r.Got? then PutHuge(r.mem, r.node, Idx(v, 3), p, count) else Fail(r)
  }

  /** What a 1 GiB page at `p` gives at address `u` in it. */
  function ExpectHuge(p: nat, u: nat): Option<Page> {
    Some(Page(p + u % GIB, true, false, false, false, false))
  }

  lemma ReadsHugeBack(nodes: Nodes, node: nat, p: nat, e: nat, u: nat, user: bool)
    requires p % GIB == 0 && p < FRAMES_END && SetEntry(p, ReadWriteKernel1GiB) == Some(e)
    requires node in nodes && |nodes[node]| == 512 && nodes[node][Idx(u, 3)] == e
    ensures Walk(nodes, node, 3, u, ALL.(user := user)) == ExpectHuge(p, u)
  {
    hide SetEntry, Present, Paddr, FrameOf, Writable, Executable, User, Huge, WriteThrough, CacheDisabled, Idx, Pow2;
    Pow2Values();
    SetEntryDecodes(p, ReadWriteKernel1GiB);
    SetEntryReachesExactlyWhen(p, ReadWriteKernel1GiB);
    assert ViewOf(e) == Promise(p, ReadWriteKernel1GiB);
  }

  lemma {:induction false} WriteElsewhereKeepsHugeFree(
    nodes: Nodes, tag: map<nat, Tag>, a: nat, i: nat, e: nat, node: nat, level: nat, v: nat)
    requires Tree(nodes, tag) && a in nodes && i < 512 && OnWay(nodes, tag, node, level, v)
    requires Prefix(v, tag[a].level - 1) != tag[a].prefix * 512 + i
    ensures HugeFree(Write(nodes, a, i, e), node, level, v) == HugeFree(nodes, node, level, v)
    decreases level
  {
    hide Present, Paddr, FrameOf, Leaf, Idx, Prefix, Writable, Executable, User;
    PrefixStep(v, level);
    var e0 := nodes[node][Idx(v, level)];
    if Present(e0) && !Leaf(level, e0) {
      NextOnWay(nodes, tag, node, level, v);
      WriteElsewhereKeepsHugeFree(nodes, tag, a, i, e, Paddr(e0), level - 1, v);
    }
  }

  /** Everything outside gigabyte `gn` is the same, from the root on. */
  ghost predicate SameOutsideGib(nodes: Nodes, nodes': Nodes, root: nat, gn: nat) {
    forall u :: Prefix(u, 2) != gn ==>
      && Translate(nodes', root, u) == Translate(nodes, root, u)
      && HugeFree(nodes', root, 4, u) == HugeFree(nodes, root, 4, u)
  }

  lemma PutHugeOne(m: Mem, tag: map<nat, Tag>, root: nat, node: nat, v: nat, i: nat, p: nat)
    requires MemOk(m, tag) && IsRoot(m.nodes, tag, root)
    requires TableFor(m.nodes, root, 4, 3, v) == Some(node)
    requires i < 512 && p % GIB == 0 && p < FRAMES_END
    ensures var r := Put(m, node, i, p, ReadWriteKernel1GiB);
      && r.Done? && MemOk(r.mem, tag) && r.mem.heap == m.heap
      && TableFor(r.mem.nodes, root, 4, 3, v) == Some(node)
      && var gn := Prefix(v, 3) * 512 + i;
         && SameOutsideGib(m.nodes, r.mem.nodes, root, gn)
         && (forall u :: Prefix(u, 2) == gn ==> Translate(r.mem.nodes, root, u) == ExpectHuge(p, u))
  {
    hide SetEntry, Present, Prefix, Idx, Walk, HugeFree, TableFor, ExpectHuge, Pow2, Huge;
    Pow2Values();
    SetEntryDecodes(p, ReadWriteKernel1GiB);
    RootOnWay(m.nodes, tag, root, v);
    TableForOnWay(m.nodes, tag, root, 4, 3, v);
    var e := SetEntry(p, ReadWriteKernel1GiB).value;
    var nodes' := Write(m.nodes, node, i, e);
    assert ViewOf(e) == Promise(p, ReadWriteKernel1GiB);
    WriteLeafKeepsTree(m.nodes, tag, node, i, e);
    TableFor3Stays(m.nodes, tag, root, node, v, i, e);
    var gn := Prefix(v, 3) * 512 + i;
    forall u | Prefix(u, 2) != gn
      ensures Translate(nodes', root, u) == Translate(m.nodes, root, u)
      ensures HugeFree(nodes', root, 4, u) == HugeFree(m.nodes, root, 4, u)
    {
      RootOnWay(m.nodes, tag, root, u);
      WriteLeafElsewhere(m.nodes, tag, node, i, e, root, 4, u, ALL);
      WriteElsewhereKeepsHugeFree(m.nodes, tag, node, i, e, root, 4, u);
    }
    forall u | Prefix(u, 2) == gn
      ensures Translate(nodes', root, u) == ExpectHuge(p, u)
    {
      RootOnWay(nodes', tag, root, u);
      PrefixStep(u, 3);
      OneRepresentation(512, Prefix(u, 3), Idx(u, 3), Prefix(v, 3), i);
      TableForSame(nodes', root, 4, 3, u, v);
      var user := WalkThrough(nodes', tag, root, 4, 3, u, ALL);
      ReadsHugeBack(nodes', node, p, e, u, user);
    }
  }

  lemma TableFor3Stays(nodes: Nodes, tag: map<nat, Tag>, root: nat, node: nat, v: nat, i: nat, e: nat)
    requires Tree(nodes, tag) && IsRoot(nodes, tag, root) && TableFor(nodes, root, 4, 3, v) == Some(node)
    requires i < 512 && OnWay(nodes, tag, node, 3, v)
    ensures TableFor(Write(nodes, node, i, e), root, 4, 3, v) == Some(node)
  {
    hide Present, Paddr, FrameOf, Leaf, Idx, Prefix;
  }

  /** What address `u` translates to once `count` gigabytes from `v` are mapped. */
  function MappedHuge(u: nat, v: nat, p: nat, count: nat, before: Option<Page>): Option<Page> {
    var g, h := Prefix(u, 2), Prefix(v, 2);
    if h <= g < h + count then ExpectHuge(p + (g - h) * GIB, u) else before
  }

  ghost predicate SameHugeFreeOutside(nodes: Nodes, nodes': Nodes, root: nat, v: nat, count: nat) {
    forall u :: !(Prefix(v, 2) <= Prefix(u, 2) < Prefix(v, 2) + count) ==>
      HugeFree(nodes', root, 4, u) == HugeFree(nodes, root, 4, u)
  }

  lemma {:induction false} PutHugeMaps(
    m: Mem, tag: map<nat, Tag>, root: nat, node: nat, v: nat, p: nat, count: nat)
    requires MemOk(m, tag) && IsRoot(m.nodes, tag, root)
    requires TableFor(m.nodes, root, 4, 3, v) == Some(node)
    requires Idx(v, 3) + count <= 512 && p % GIB == 0 && p + count * GIB <= FRAMES_END
    ensures var r := PutHuge(m, node, Idx(v, 3), p, count);
      && r.Done? && MemOk(r.mem, tag) && r.mem.heap == m.heap
      && TableFor(r.mem.nodes, root, 4, 3, v) == Some(node)
      && SameHugeFreeOutside(m.nodes, r.mem.nodes, root, v, count)
      && (forall u :: Translate(r.mem.nodes, root, u)
                        == MappedHuge(u, v, p, count, Translate(m.nodes, root, u)))
    decreases count
  {
    hide Prefix, Idx, Walk, HugeFree, TableFor, ExpectHuge, Put, Tree;
    if count > 0 {
      PutHugeMaps(m, tag, root, node, v, p, count - 1);
      var r := PutHuge(m, node, Idx(v, 3), p, count - 1);
      AlignedSum(p, count - 1);
      RootStays(m, tag, r.mem, tag, root);
      PutHugeOne(r.mem, tag, root, node, v, Idx(v, 3) + (count - 1), p + (count - 1) * GIB);
      PrefixStep(v, 3);
    }
  }

  lemma AlignedSum(p: nat, k: nat)
    requires p % GIB == 0
    ensures (p + k * GIB) % GIB == 0
  {
    DivModUnique(p + k * GIB, GIB, p / GIB + k, 0);
  }

  /** The gigabyte, the page in it and the offset in the page. */
  lemma Splits(u: nat) returns (c: nat)
    ensures c < GIB_PAGES && Prefix(u, 0) == Prefix(u, 2) * GIB_PAGES + c && Prefix(u, 2) < 0x4_0000
    ensures u % GIB == c * PAGE_SIZE + u % PAGE_SIZE
  {
    var w := u % ADDRESSES;
    var g, r := w / GIB, w % GIB;
    c := r / PAGE_SIZE;
    var o := r % PAGE_SIZE;
    DivModUnique(w, PAGE_SIZE, g * GIB_PAGES + c, o);
    Remainders(u);
  }

  lemma Remainders(u: nat)
    ensures u % GIB == u % ADDRESSES % GIB && u % PAGE_SIZE == u % GIB % PAGE_SIZE
  {
    var q, w := u / ADDRESSES, u % ADDRESSES;
    DivModUnique(u, GIB, q * 0x4_0000 + w / GIB, w % GIB);
    var r := u % GIB;
    DivModUnique(u, PAGE_SIZE, u / GIB * GIB_PAGES + r / PAGE_SIZE, r % PAGE_SIZE);
  }

  /** The same gigabytes, seen as pages. */
  lemma GigabytesArePages(u: nat, v: nat, count: nat)
    requires v % GIB == 0 && Idx(v, 3) + count <= 512
    ensures var g, h := Prefix(u, 2), Prefix(v, 2);
      && (h <= g < h + count <==> Dist(u, v) < count * GIB_PAGES)
      && (h <= g < h + count ==> (g - h) * GIB + u % GIB == Dist(u, v) * PAGE_SIZE + u % PAGE_SIZE)
  {
    hide Prefix, Idx;
    var c := Splits(u);
    var d := Splits(v);
    assert d == 0;
    SlotEnd(v, count);
    var g, h := Prefix(u, 2), Prefix(v, 2);
    if h <= g {
      assert Dist(u, v) == (g - h) * GIB_PAGES + c;
    } else {
      assert Dist(u, v) == (g + 0x4_0000 - h) * GIB_PAGES + c;
    }
  }

  lemma SlotEnd(v: nat, count: nat)
    requires Idx(v, 3) + count <= 512
    ensures Prefix(v, 2) + count <= 0x4_0000
  {
    hide Prefix, Idx;
    PrefixStep(v, 3);
    PrefixStep(v, 4);
  }

  /** The 1 GiB path translates every address as mapping the same range page by page
      with 4 KiB pages would. */
  lemma MapHugeMaps(m: Mem, tag: map<nat, Tag>, root: nat, v: nat, p: nat, count: nat)
    returns (tag': map<nat, Tag>)
    requires MemOk(m, tag) && IsRoot(m.nodes, tag, root)
    requires v % GIB == 0 && p % GIB == 0 && Idx(v, 3) + count <= 512 && p + count * GIB <= FRAMES_END
    ensures var r := MapHuge(m, root, v, p, count);
      && (r.Done? || r.Full?)
      && (r.Done? ==>
            && MemOk(r.mem, tag') && Extends(tag, tag') && r.mem.heap.end == m.heap.end
            && SameHugeFreeOutside(m.nodes, r.mem.nodes, root, v, count)
            && (forall u :: Translate(r.mem.nodes, root, u)
                  == Mapped(u, v, p, count * GIB_PAGES, ReadWriteKernel, Translate(m.nodes, root, u))))
  {
    hide Prefix, Idx, Walk, HugeFree, TableFor, Ensure, PutHuge, Tree, Dist;
    RootOnWay(m.nodes, tag, root, v);
    tag' := EnsureKeeps(m, tag, root, 4, 3, v);
    var r := Ensure(m, root, 4, 3, v);
    if r.Got? {
      RootStays(m, tag, r.mem, tag', root);
      PutHugeMaps(r.mem, tag', root, r.node, v, p, count);
      forall u
        ensures OnWay(m.nodes, tag, root, 4, u)
        ensures MappedHuge(u, v, p, count, Translate(m.nodes, root, u))
             == Mapped(u, v, p, count * GIB_PAGES, ReadWriteKernel, Translate(m.nodes, root, u))
      {
        RootOnWay(m.nodes, tag, root, u);
        GigabytesArePages(u, v, count);
      }
    }
  }

  /** The two paths side by side. */
  lemma HugeAgreesWithPages(m: Mem, tag: map<nat, Tag>, root: nat, v: nat, p: nat, count: nat, u: nat)
    requires MemOk(m, tag) && IsRoot(m.nodes, tag, root)
    requires v % GIB == 0 && p % GIB == 0 && Idx(v, 3) + count <= 512 && p + count * GIB <= FRAMES_END
    requires HugeFree(m.nodes, root, 4, v)
    requires forall k :: 0 <= k < count * GIB_PAGES ==> HugeFree(m.nodes, root, 4, v + k * PAGE_SIZE)
    ensures var huge := MapHuge(m, root, v, p, count);
      var pages := MapPages(m, root, v, p, count * GIB_PAGES, ReadWriteKernel);
      huge.Done? && pages.Done? ==>
        Translate(huge.mem.nodes, root, u) == Translate(pages.mem.nodes, root, u)
  {
    hide Idx, Walk, HugeFree, MapHuge, MapPages, Tree, Dist;
    hide Prefix, Mapped, SameHugeFreeOutside;
    Remainders(v);
    Remainders(p);
    var t1 := MapHugeMaps(m, tag, root, v, p, count);
    var t2 := MapPagesMaps(m, tag, root, v, p, count * GIB_PAGES, ReadWriteKernel);
  }
}
