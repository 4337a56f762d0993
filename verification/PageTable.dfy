/** The page tables as an object whose operations write entries in place. */
module PageTable {
  import opened Wrappers
  import opened Bits
  import opened MemLayout
  import opened PageEntry
  import opened PageTree
  import opened PageMap
  import opened PageHuge
  import opened Allocator

  datatype Status = Success | Error | NoMemory | Stray

  /** The result of an operation that ended with status `s` and left `m` behind. */
  function Ended(s: Status, m: Mem): MapResult {
    match s
    case Success => Done(m)
    case Error => Misaligned
    case NoMemory => Full
    case Stray => Astray
  }

  function Reached(s: Status, node: nat, m: Mem): Got {
    match s
    case Success => Got(node, m)
    case Stray => Wild
    case _ => OutOfMemory
  }

  predicate UsesHuge(v: nat, p: nat, n: nat, attr: Attr) {
    attr == ReadWriteKernel1GiB && v % GIB == 0 && p % GIB == 0 && n % GIB_PAGES == 0
  }

  /** What `map` does to the memory. */
  function MapSpec(m: Mem, root: nat, v: nat, p: nat, n: nat, attr: Attr): MapResult {
    if UsesHuge(v, p, n, attr) then MapHuge(m, root, v, p, n / GIB_PAGES) else MapPages(m, root, v, p, n, attr)
  }

  class PageTables {
    var nodes: Nodes
    const allocator: LinerAllocator

    ghost function Value(): Mem
      reads this, allocator
    {
      Mem(nodes, allocator.Value())
    }

    constructor (allocator: LinerAllocator)
      ensures this.allocator == allocator && nodes == map[]
    {
      this.allocator := allocator;
      nodes := map[];
    }

    /** A zeroed table from the heap. */
    method New() returns (s: Status, node: nat)
      requires allocator.next < WORD
      modifies this, allocator
      ensures allocator.next < WORD
      ensures s != Error && Reached(s, node, Value()) == NewTable(old(Value()))
    {
      hide Serve;
      node := 0;
      var r := allocator.Alloc(Layout(PAGE_SIZE, 12));
      if r == Overflow || r.addr == 0 {
        return NoMemory, 0;
      }
      var p := VirtToPhys(r.addr);
      if p == None {
        return NoMemory, 0;
      }
      nodes := nodes[p.value := EmptyTable()];
      return Success, p.value;
    }

    method GetOrAllocNextLevelTable(node: nat, i: nat) returns (s: Status, next: nat)
      requires allocator.next < WORD
      modifies this, allocator
      ensures allocator.next < WORD
      ensures s != Error && Reached(s, next, Value()) == GetOrAlloc(old(Value()), node, i)
    {
      hide NewTable, Present, Paddr, TableEntry;
      if node !in nodes || i >= |nodes[node]| {
        return Stray, 0;
      }
      if !Present(nodes[node][i]) {
        s, next := New();
        if s != Success {
          return s, 0;
        }
        if node !in nodes || i >= |nodes[node]| {
          return Stray, 0;
        }
        nodes := Write(nodes, node, i, TableEntry(next));
        return Success, next;
      }
      return Success, Paddr(nodes[node][i]);
    }

    method SetEntryAt(node: nat, i: nat, p: nat, attr: Attr) returns (s: Status)
      modifies this
      ensures Ended(s, Value()) == Put(old(Value()), node, i, p, attr)
    {
      hide SetEntry;
      if node !in nodes || i >= |nodes[node]| {
        return Stray;
      }
      var e := SetEntry(p, attr);
      if e == None {
        return Error;
      }
      nodes := Write(nodes, node, i, e.value);
      return Success;
    }

    /** Walks from the root to the table for `v` at level `to`, building the way. */
    method Descend(root: nat, to: nat, v: nat) returns (s: Status, node: nat)
      requires 1 <= to <= 4 && allocator.next < WORD
      modifies this, allocator
      ensures allocator.next < WORD
      ensures s != Error && Reached(s, node, Value()) == Ensure(old(Value()), root, 4, to, v)
    {
      hide GetOrAlloc, Idx;
      node := root;
      var level := 4;
      while level > to
        invariant to <= level <= 4 && allocator.next < WORD
        invariant Ensure(Value(), node, level, to, v) == Ensure(old(Value()), root, 4, to, v)
      {
        IndexIs(v, level);
        s, node := GetOrAllocNextLevelTable(node, NthLevelTableIndex(v, level));
        if s != Success {
          return s, 0;
        }
        level := level - 1;
      }
      return Success, node;
    }

    /** The table of page `i`: the one of the page before, unless the index wraps. */
    method TableOfPage(root: nat, cached: nat, ghost v: nat, i: nat, vaddr: nat, index: nat)
      returns (s: Status, node: nat)
      requires allocator.next < WORD && i < PAGES
      requires v % PAGE_SIZE == 0 && vaddr == v + i * PAGE_SIZE && index == Idx(vaddr, 1)
      requires TableFor(nodes, root, 4, 1, if i == 0 then v else v + (i - 1) * PAGE_SIZE) == Some(cached)
      modifies this, allocator
      ensures allocator.next < WORD
      ensures s != Error && Reached(s, node, Value()) == Ensure(old(Value()), root, 4, 1, vaddr)
    {
      hide Ensure, TableFor, Idx, Prefix;
      if index == 0 && i != 0 {
        s, node := Descend(root, 1, vaddr);
      } else {
        if i != 0 {
          SameTable(v, i);
          TableForSame(nodes, root, 4, 1, vaddr, v + (i - 1) * PAGE_SIZE);
        }
        EnsureBuilt(Value(), root, 4, 1, vaddr);
        s, node := Success, cached;
      }
    }

    /** Page `i` of a range, in the table `cached` of the page before where it can be. */
    method MapPage(root: nat, cached: nat, ghost v: nat, i: nat, vaddr: nat, paddr: nat, index: nat, attr: Attr)
      returns (s: Status, node: nat)
      requires allocator.next < WORD && i < PAGES
      requires v % PAGE_SIZE == 0 && vaddr == v + i * PAGE_SIZE && index == Idx(vaddr, 1)
      requires TableFor(nodes, root, 4, 1, if i == 0 then v else v + (i - 1) * PAGE_SIZE) == Some(cached)
      modifies this, allocator
      ensures allocator.next < WORD
      ensures Ended(s, Value()) == MapOne(old(Value()), root, vaddr, paddr, attr)
      ensures s == Success ==>
        var r := Ensure(old(Value()), root, 4, 1, vaddr); r.Got? && node == r.node
    {
      hide Ensure, Put, TableFor, Idx;
      s, node := TableOfPage(root, cached, v, i, vaddr, index);
      if s == Success {
        s := SetEntryAt(node, index, paddr, attr);
      }
    }

    /** The 4 KiB path: the table of the current page is kept from page to page, and
        looked up again only where the index wraps. */
    method MapSmall(root: nat, v: nat, p: nat, n: nat, attr: Attr, ghost tag: map<nat, Tag>)
      returns (s: Status)
      requires MemOk(Value(), tag) && IsRoot(nodes, tag, root)
      requires v % PAGE_SIZE == 0 && p % PAGE_SIZE == 0 && n <= PAGES
      requires v + n * PAGE_SIZE < WORD && p + n * PAGE_SIZE <= FRAMES_END
      requires HugeFree(nodes, root, 4, v)
      requires forall k :: 0 <= k < n ==> HugeFree(nodes, root, 4, v + k * PAGE_SIZE)
      modifies this, allocator
      ensures Ended(s, Value()) == MapPages(old(Value()), root, v, p, n, attr)
    {
      hide Walk, HugeFree, Ensure, MapPages, MapOne, Put, TableFor, MemOk, Idx, Prefix, Expect, NthLevelTableIndex, IsRoot;
      NextInWord(Value(), tag);
      var node;
      s, node := Descend(root, 1, v);
      MapNone(old(Value()), root, v, p, attr);
      if s != Success {
        MapFails(old(Value()), root, v, p, 0, n, attr);
        return;
      }
      var vaddr, paddr := v, p;
      var startIndex := NthLevelTableIndex(v, 1);
      IndexIs(v, 1);
      EnsuredTable(old(Value()), tag, root, v);
      for i := 0 to n
        invariant vaddr == v + i * PAGE_SIZE && paddr == p + i * PAGE_SIZE
        invariant MapPages(old(Value()), root, v, p, i, attr) == Done(Value())
        invariant s == Success && allocator.next < WORD
        invariant TableFor(nodes, root, 4, 1, if i == 0 then v else v + (i - 1) * PAGE_SIZE) == Some(node)
      {
        var index := (startIndex + i) % 512;
        IndexAdvances(v, i);
        MapNext(old(Value()), root, v, p, i, attr);
        MapFails(old(Value()), root, v, p, i + 1, n, attr);
        TableStays(old(Value()), tag, root, v, p, i, n, attr);
        s, node := MapPage(root, node, v, i, vaddr, paddr, index, attr);
        if s != Success {
          return;
        }
        vaddr := vaddr + PAGE_SIZE;
        paddr := paddr + PAGE_SIZE;
      }
    }

    /** The 1 GiB path. */
    method MapLarge(root: nat, v: nat, p: nat, n: nat) returns (s: Status)
      requires n % GIB_PAGES == 0 && allocator.next < WORD && p + n * PAGE_SIZE <= FRAMES_END
      requires NthLevelTableIndex(v, 3) + n / GIB_PAGES <= 512
      modifies this, allocator
      ensures Ended(s, Value()) == MapHuge(old(Value()), root, v, p, n / GIB_PAGES)
    {
      hide Ensure, PutHuge, Put, Idx;
      IndexIs(v, 3);
      var node;
      s, node := Descend(root, 3, v);
      if s != Success {
        return;
      }
      var pdptIndex := NthLevelTableIndex(v, 3);
      ghost var start := Value();
      PutHugeNone(start, node, pdptIndex, p);
      for i := 0 to n / GIB_PAGES
        invariant s == Success && PutHuge(start, node, pdptIndex, p, i) == Done(Value())
      {
        PutHugeNext(start, node, pdptIndex, p, i);
        HugeFails(start, node, pdptIndex, p, i + 1, n / GIB_PAGES);
        s := SetEntryAt(node, pdptIndex + i, p + i * GIB, ReadWriteKernel1GiB);
        if s != Success {
          return;
        }
      }
    }

    /** Maps `n` pages from `v` to the physical pages from `p`: afterwards every
        address of the range translates to its place with the given attributes, and
        every other address as before. */
    method Map(root: nat, v: nat, p: nat, n: nat, attr: Attr, ghost tag: map<nat, Tag>)
      returns (s: Status, ghost tag': map<nat, Tag>)
      requires Mappable(Value(), tag, root, v, p, n, attr)
      modifies this, allocator
      ensures s == Success || s == NoMemory
      ensures Ended(s, Value()) == MapSpec(old(Value()), root, v, p, n, attr)
      ensures s == Success ==>
        && MemOk(Value(), tag') && Extends(tag, tag')
        && (forall u :: Translate(nodes, root, u)
              == Mapped(u, v, p, n, Effective(v, p, n, attr), old(Translate(nodes, root, u))))
    {
      hide Walk, HugeFree, MapPages, MapHuge, Tree, Idx, Mapped;
      tag' := MapMaps(Value(), tag, root, v, p, n, attr);
      if attr == ReadWriteKernel1GiB && v % GIB == 0 && p % GIB == 0 && n % GIB_PAGES == 0 {
        IndexIs(v, 3);
        s := MapLarge(root, v, p, n);
      } else {
        s := MapSmall(root, v, p, n, attr, tag);
      }
    }

    /** Rounds a size in bytes up to whole pages. */
    method CreateMapping(root: nat, v: nat, p: nat, size: nat, attr: Attr, ghost tag: map<nat, Tag>)
      returns (s: Status, ghost tag': map<nat, Tag>)
      requires Mappable(Value(), tag, root, v, p, Pages(size), attr)
      modifies this, allocator
      ensures s == Success || s == NoMemory
      ensures Ended(s, Value()) == MapSpec(old(Value()), root, v, p, Pages(size), attr)
      ensures s == Success ==>
        && MemOk(Value(), tag') && Extends(tag, tag')
        && (forall u :: Translate(nodes, root, u)
              == Mapped(u, v, p, Pages(size), Effective(v, p, Pages(size), attr), old(Translate(nodes, root, u))))
    {
      var numPages := (size + PAGE_SIZE - 1) / PAGE_SIZE;
      s, tag' := Map(root, v, p, numPages, attr, tag);
    }
  }

  /** The fewest pages that hold `size` bytes. */
  function Pages(size: nat): (n: nat)
    ensures (n - 1) * PAGE_SIZE < size <= n * PAGE_SIZE
  {
    (size + PAGE_SIZE - 1) / PAGE_SIZE
  }

  // ----- how the loops follow the specification -----

  lemma NextInWord(m: Mem, tag: map<nat, Tag>)
    requires MemOk(m, tag)
    ensures m.heap.next < WORD
  {
  }

  lemma MapNone(m: Mem, root: nat, v: nat, p: nat, attr: Attr)
    ensures var r := Ensure(m, root, 4, 1, v);
      MapPages(m, root, v, p, 0, attr) == if r.Got? then Done(r.mem) else Fail(r)
  {
    hide Ensure;
  }

  lemma MapNext(m: Mem, root: nat, v: nat, p: nat, i: nat, attr: Attr)
    requires MapPages(m, root, v, p, i, attr).Done?
    ensures var m1 := MapPages(m, root, v, p, i, attr).mem;
      MapPages(m, root, v, p, i + 1, attr) == MapOne(m1, root, v + i * PAGE_SIZE, p + i * PAGE_SIZE, attr)
  {
    hide MapOne;
  }

  /** A failure at some page is the result of the whole. */
  lemma {:induction false} MapFails(m: Mem, root: nat, v: nat, p: nat, i: nat, n: nat, attr: Attr)
    requires i <= n
    ensures !MapPages(m, root, v, p, i, attr).Done? ==>
      MapPages(m, root, v, p, n, attr) == MapPages(m, root, v, p, i, attr)
    decreases n
  {
    hide Ensure, MapOne;
    if i < n {
      MapFails(m, root, v, p, i, n - 1, attr);
    }
  }

  lemma EnsuredTable(m: Mem, tag: map<nat, Tag>, root: nat, v: nat)
    requires MemOk(m, tag) && IsRoot(m.nodes, tag, root) && HugeFree(m.nodes, root, 4, v)
    ensures var r := Ensure(m, root, 4, 1, v);
      r.Got? ==> TableFor(r.mem.nodes, root, 4, 1, v) == Some(r.node)
  {
    hide Ensure, HugeFree, TableFor, Tree;
    RootOnWay(m.nodes, tag, root, v);
    var tag' := EnsureKeeps(m, tag, root, 4, 1, v);
  }

  /** After the entry of page `i` is written, its table is still the one for it. */
  lemma TableStays(m0: Mem, tag0: map<nat, Tag>, root: nat, v: nat, p: nat, i: nat, n: nat, attr: Attr)
    requires MemOk(m0, tag0) && IsRoot(m0.nodes, tag0, root) && HugeFree(m0.nodes, root, 4, v)
    requires v % PAGE_SIZE == 0 && p % PAGE_SIZE == 0 && p + n * PAGE_SIZE <= FRAMES_END && i < n <= PAGES
    requires forall k :: 0 <= k < n ==> HugeFree(m0.nodes, root, 4, v + k * PAGE_SIZE)
    requires MapPages(m0, root, v, p, i, attr).Done?
    ensures var m := MapPages(m0, root, v, p, i, attr).mem;
      var r := Ensure(m, root, 4, 1, v + i * PAGE_SIZE);
      var q := MapOne(m, root, v + i * PAGE_SIZE, p + i * PAGE_SIZE, attr);
      q.Done? ==> r.Got? && TableFor(q.mem.nodes, root, 4, 1, v + i * PAGE_SIZE) == Some(r.node)
  {
    hide Ensure, HugeFree, TableFor, Tree, MapOne, Prefix, Walk, MapPages, Mapped;
    var tag := MapPagesMaps(m0, tag0, root, v, p, i, attr);
    var m := MapPages(m0, root, v, p, i, attr).mem;
    AlignedPages(p, i);
    RootStays(m0, tag0, m, tag, root);
    MapOneTable(m, tag, root, v + i * PAGE_SIZE, p + i * PAGE_SIZE, attr);
  }

  lemma PutHugeNone(m: Mem, node: nat, i: nat, p: nat)
    ensures PutHuge(m, node, i, p, 0) == Done(m)
  {
  }

  lemma PutHugeNext(m: Mem, node: nat, i: nat, p: nat, k: nat)
    requires PutHuge(m, node, i, p, k).Done?
    ensures PutHuge(m, node, i, p, k + 1)
         == Put(PutHuge(m, node, i, p, k).mem, node, i + k, p + k * GIB, ReadWriteKernel1GiB)
  {
    hide Put;
  }

  lemma {:induction false} HugeFails(m: Mem, node: nat, i: nat, p: nat, k: nat, count: nat)
    requires k <= count
    ensures !PutHuge(m, node, i, p, k).Done? ==> PutHuge(m, node, i, p, count) == PutHuge(m, node, i, p, k)
    decreases count
  {
    hide Put;
    if k < count {
      HugeFails(m, node, i, p, k, count - 1);
    }
  }

  /** The conditions under which a range may be mapped: its entries exist, its
      addresses fit, and no large page is in the way of a small one. */
  ghost predicate Mappable(m: Mem, tag: map<nat, Tag>, root: nat, v: nat, p: nat, n: nat, attr: Attr) {
    && MemOk(m, tag) && IsRoot(m.nodes, tag, root)
    && v % PAGE_SIZE == 0 && p % PAGE_SIZE == 0 && n <= PAGES
    && v + n * PAGE_SIZE < WORD && p + n * PAGE_SIZE <= FRAMES_END
    && if UsesHuge(v, p, n, attr) then Idx(v, 3) + n / GIB_PAGES <= 512
       else
         && HugeFree(m.nodes, root, 4, v)
         && forall k :: 0 <= k < n ==> HugeFree(m.nodes, root, 4, v + k * PAGE_SIZE)
  }

  /** The attribute that the pages of the range end up with. */
  function Effective(v: nat, p: nat, n: nat, attr: Attr): Attr {
    if UsesHuge(v, p, n, attr) then ReadWriteKernel else attr
  }

  /** Small pages put no large page in anyone's way; large ones only in their own. */
  ghost predicate HugeFreeAfter(nodes: Nodes, nodes': Nodes, root: nat, v: nat, p: nat, n: nat, attr: Attr) {
    if UsesHuge(v, p, n, attr) then SameHugeFreeOutside(nodes, nodes', root, v, n / GIB_PAGES)
    else forall u :: HugeFree(nodes', root, 4, u) == HugeFree(nodes, root, 4, u)
  }

  /** Both paths: the range translates as asked, everything else as before. */
  lemma MapMaps(m: Mem, tag: map<nat, Tag>, root: nat, v: nat, p: nat, n: nat, attr: Attr)
    returns (tag': map<nat, Tag>)
    requires Mappable(m, tag, root, v, p, n, attr)
    ensures var r := MapSpec(m, root, v, p, n, attr);
      && (r.Done? || r.Full?)
      && (r.Done? ==>
            && MemOk(r.mem, tag') && Extends(tag, tag') && IsRoot(r.mem.nodes, tag', root)
            && r.mem.heap.end == m.heap.end
            && HugeFreeAfter(m.nodes, r.mem.nodes, root, v, p, n, attr)
            && (forall u :: Translate(r.mem.nodes, root, u)
                  == Mapped(u, v, p, n, Effective(v, p, n, attr), Translate(m.nodes, root, u))))
  {
    hide HugeFree, Tree, Idx, Walk, MapPages, MapHuge, Mapped;
    if UsesHuge(v, p, n, attr) {
      tag' := MapHugeMaps(m, tag, root, v, p, n / GIB_PAGES);
    } else {
      tag' := MapPagesMaps(m, tag, root, v, p, n, attr);
    }
    var r := MapSpec(m, root, v, p, n, attr);
    if r.Done? {
      RootStays(m, tag, r.mem, tag', root);
    }
  }
}
