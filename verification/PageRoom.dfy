/** When mappings succeed: as long as the heap has room for the tables they need. */
module PageRoom {
  import opened Wrappers
  import opened Bits
  import opened MemLayout
  import opened PageEntry
  import opened PageTree
  import opened PageMap
  import opened PageHuge
  import opened Allocator

  /** `k` more tables fit on the heap. */
  ghost predicate Room(h: Heap, k: int) {
    h.next % PAGE_SIZE == 0 && h.next + k * PAGE_SIZE <= h.end
  }

  lemma NewTableHasRoom(m: Mem, tag: map<nat, Tag>, k: nat)
    requires MemOk(m, tag) && Room(m.heap, k + 1)
    ensures NewTable(m).Got? && Room(NewTable(m).mem.heap, k)
  {
    hide Tree, Pow2;
    Pow2Values();
    RoundUpIsLeast(m.heap.next, PAGE_SIZE);
  }

  lemma GetOrAllocHasRoom(m: Mem, tag: map<nat, Tag>, node: nat, level: nat, v: nat, k: nat)
    requires MemOk(m, tag) && OnWay(m.nodes, tag, node, level, v) && 1 < level && Room(m.heap, k + 1)
    ensures var r := GetOrAlloc(m, node, Idx(v, level)); r.Got? && Room(r.mem.heap, k)
  {
    hide Present, Paddr, NewTable, TableEntry, Idx;
    NewTableIsFresh(m, tag);
    NewTableHasRoom(m, tag, k);
  }

  /** Every level on the way takes at most one table. */
  lemma {:induction false} EnsureHasRoom(
    m: Mem, tag: map<nat, Tag>, node: nat, level: nat, to: nat, v: nat, k: nat)
    requires MemOk(m, tag) && OnWay(m.nodes, tag, node, level, v) && 1 <= to <= level
    requires to == 3 || HugeFree(m.nodes, node, level, v)
    requires Room(m.heap, k + (level - to))
    ensures var r := Ensure(m, node, level, to, v); r.Got? && Room(r.mem.heap, k)
    decreases level
  {
    hide Walk, Present, Paddr, FrameOf, Huge, Prefix, Idx, GetOrAlloc, Placed;
    if level > to {
      GetOrAllocHasRoom(m, tag, node, level, v, k + (level - 1 - to));
      var tag1 := GetOrAllocKeeps(m, tag, node, level, v);
      var r1 := GetOrAlloc(m, node, Idx(v, level));
      EnsureHasRoom(r1.mem, tag1, r1.node, level - 1, to, v, k);
    }
  }

  /** One table for the gigabytes of the large pages. */
  lemma HugeHasRoom(m: Mem, tag: map<nat, Tag>, root: nat, v: nat, p: nat, count: nat, k: nat)
    requires MemOk(m, tag) && IsRoot(m.nodes, tag, root) && Room(m.heap, k + 1)
    requires Idx(v, 3) + count <= 512 && p % GIB == 0 && p + count * GIB <= FRAMES_END
    ensures var r := MapHuge(m, root, v, p, count); r.Done? && Room(r.mem.heap, k)
  {
    hide Walk, HugeFree, Ensure, PutHuge, TableFor, Tree, Idx, Prefix, MappedHuge;
    RootOnWay(m.nodes, tag, root, v);
    EnsureHasRoom(m, tag, root, 4, 3, v, k);
    var t := EnsureKeeps(m, tag, root, 4, 3, v);
    var r := Ensure(m, root, 4, 3, v);
    RootStays(m, tag, r.mem, t, root);
    PutHugeMaps(r.mem, t, root, r.node, v, p, count);
  }

  // ----- how many tables a range needs -----

  /** How many new tables page `u` can need when the page before it is mapped: one for
      each level at which `u` is the first address of a table. */
  function NewTables(u: nat): nat {
    if u % Span(2) != 0 then 0 else if u % Span(3) != 0 then 1 else if u % Span(4) != 0 then 2 else 3
  }

  /** How many multiples of `span` lie among the pages after the first of `n` from `v`. */
  function Crossed(v: nat, n: nat, span: nat): int
    requires 0 < span
  {
    if n == 0 then 0 else (v + (n - 1) * PAGE_SIZE) / span - v / span
  }

  /** The tables that a range can need: three on the way to its first page, and one
      for each table border that it crosses. */
  function Tables(v: nat, n: nat): int {
    3 + Crossed(v, n, Span(2)) + Crossed(v, n, Span(3)) + Crossed(v, n, Span(4))
  }

  /** That is about one for every 512 pages. */
  lemma TablesBound(v: nat, n: nat)
    ensures 3 <= Tables(v, n) <= 6 + n / 0x200 + n / 0x4_0000 + n / 0x800_0000
  {
    CrossedBound(v, n, 0x200);
    CrossedBound(v, n, 0x4_0000);
    CrossedBound(v, n, 0x800_0000);
  }

  lemma CrossedBound(v: nat, n: nat, d: nat)
    requires 0 < d
    ensures 0 <= Crossed(v, n, d * PAGE_SIZE) <= n / d + 1
  {
    if n > 0 {
      CrossedAt(v, n - 1, d, d * PAGE_SIZE);
      OneMore(n - 1, d);
    }
  }

  lemma CrossedAt(v: nat, m: nat, d: nat, s: nat)
    requires 0 < d && s == d * PAGE_SIZE
    ensures m / d <= (v + m * PAGE_SIZE) / s - v / s <= m / d + 1
  {
    var a, b := m / d, m % d;
    MulStep(b, d, PAGE_SIZE);
    InPages(m, a, b, d);
    QuotientOfSum(v, a, b * PAGE_SIZE, s);
    assert v + m * PAGE_SIZE == v + (a * s + b * PAGE_SIZE);
  }

  lemma InPages(m: nat, a: nat, b: nat, d: nat)
    requires m == a * d + b
    ensures m * PAGE_SIZE == a * (d * PAGE_SIZE) + b * PAGE_SIZE
  {
  }

  lemma QuotientOfSum(v: nat, a: nat, b: nat, s: nat)
    requires b < s
    ensures a <= (v + (a * s + b)) / s - v / s <= a + 1
  {
    var q, r := v / s, v % s;
    assert v == q * s + r;
    assert (q + a) * s == q * s + a * s;
    if r + b < s {
      DivModUnique(v + (a * s + b), s, q + a, r + b);
    } else {
      assert (q + a + 1) * s == (q + a) * s + s;
      DivModUnique(v + (a * s + b), s, q + a + 1, r + b - s);
    }
  }

  lemma OneMore(m: nat, d: nat)
    requires 0 < d
    ensures m / d <= (m + 1) / d
  {
    var a, b := m / d, m % d;
    if b + 1 < d {
      DivModUnique(m + 1, d, a, b + 1);
    } else {
      DivModUnique(m + 1, d, a + 1, 0);
    }
  }

  /** One page down: the same block of `d` pages, unless `u` is the first of its block. */
  lemma PageDown(u: nat, d: nat)
    requires u % PAGE_SIZE == 0 && PAGE_SIZE <= u && 0 < d
    ensures var s := d * PAGE_SIZE; (u - PAGE_SIZE) / s == u / s - if u % s == 0 then 1 else 0
  {
    var s, page := d * PAGE_SIZE, u / PAGE_SIZE;
    var q, r := page / d, page % d;
    assert u == page * PAGE_SIZE && page * PAGE_SIZE == q * s + r * PAGE_SIZE;
    MulStep(r, d, PAGE_SIZE);
    DivModUnique(u, s, q, r * PAGE_SIZE);
    if r == 0 {
      assert (q - 1) * s + (s - PAGE_SIZE) == u - PAGE_SIZE;
      DivModUnique(u - PAGE_SIZE, s, q - 1, s - PAGE_SIZE);
    } else {
      DivModUnique(u - PAGE_SIZE, s, q, (r - 1) * PAGE_SIZE);
    }
  }

  lemma TablesNext(v: nat, n: nat)
    requires v % PAGE_SIZE == 0 && 0 < n
    ensures Tables(v, n + 1) == Tables(v, n) + NewTables(v + n * PAGE_SIZE)
  {
    AlignedPages(v, n);
    var u := v + n * PAGE_SIZE;
    CrossedNext(u);
  }

  lemma CrossedNext(u: nat)
    requires u % PAGE_SIZE == 0 && PAGE_SIZE <= u
    ensures u / Span(2) - (u - PAGE_SIZE) / Span(2) == if u % Span(2) == 0 then 1 else 0
    ensures u / Span(3) - (u - PAGE_SIZE) / Span(3) == if u % Span(3) == 0 then 1 else 0
    ensures u / Span(4) - (u - PAGE_SIZE) / Span(4) == if u % Span(4) == 0 then 1 else 0
    ensures u % Span(4) == 0 ==> u % Span(3) == 0
    ensures u % Span(3) == 0 ==> u % Span(2) == 0
  {
    PageDown(u, 0x200);
    PageDown(u, 0x4_0000);
    PageDown(u, 0x800_0000);
    MultipleOfPart(u, Span(3));
    MultipleOfPart(u, Span(2));
  }

  lemma MultipleOfPart(u: nat, a: nat)
    requires 0 < a
    ensures u % (512 * a) == 0 ==> u % a == 0
  {
    if u % (512 * a) == 0 {
      var k := u / (512 * a);
      assert u == k * (512 * a) == (512 * k) * a;
      DivModUnique(u, a, 512 * k, 0);
    }
  }

  // ----- the way that two neighbours share -----

  lemma SharedPrefix(u: nat, mid: nat)
    requires u % PAGE_SIZE == 0 && PAGE_SIZE <= u && mid == 1 + NewTables(u)
    ensures Prefix(u - PAGE_SIZE, mid) == Prefix(u, mid)
  {
    if mid == 1 {
      SameQuotient(u, 0x200, 0x800_0000);
    } else if mid == 2 {
      SameQuotient(u, 0x4_0000, 0x4_0000);
    } else if mid == 3 {
      SameQuotient(u, 0x800_0000, 0x200);
    } else {
      PrefixStep(u, 4);
      PrefixStep(u - PAGE_SIZE, 4);
    }
  }

  lemma SameQuotient(u: nat, d: nat, c: nat)
    requires u % PAGE_SIZE == 0 && PAGE_SIZE <= u && 0 < d && d * PAGE_SIZE * c == ADDRESSES
    requires u % (d * PAGE_SIZE) != 0
    ensures (u - PAGE_SIZE) % ADDRESSES / (d * PAGE_SIZE) == u % ADDRESSES / (d * PAGE_SIZE)
  {
    var s, q, w := d * PAGE_SIZE, u / ADDRESSES, u % ADDRESSES;
    assert u == q * ADDRESSES + w;
    RestIsAligned(u);
    if w % s == 0 {
      var k := w / s;
      assert u == (q * c + k) * s by {
        SpanTimesCount(q, s, c, k);
      }
      DivModUnique(u, s, q * c + k, 0);
    }
    DivModUnique(u - PAGE_SIZE, ADDRESSES, q, w - PAGE_SIZE);
    PageDown(w, d);
  }

  lemma RestIsAligned(u: nat)
    requires u % PAGE_SIZE == 0
    ensures u % ADDRESSES % PAGE_SIZE == 0
    ensures u % ADDRESSES == 0 || PAGE_SIZE <= u % ADDRESSES
  {
    var page, q := u / PAGE_SIZE, u / ADDRESSES;
    DivModUnique(u % ADDRESSES, PAGE_SIZE, page - q * PAGES, 0);
  }

  lemma {:induction false} TableForUp(nodes: Nodes, node: nat, level: nat, mid: nat, v: nat)
    requires 1 <= mid <= level <= 4 && TableFor(nodes, node, level, 1, v).Some?
    ensures TableFor(nodes, node, level, mid, v).Some?
    decreases level
  {
    hide Present, Paddr, Leaf, Idx;
    if level > mid {
      TableForUp(nodes, Paddr(nodes[node][Idx(v, level)]), level - 1, mid, v);
    }
  }

  /** Down to a table that is there, nothing is allocated. */
  lemma {:induction false} EnsureFrom(m: Mem, node: nat, level: nat, mid: nat, v: nat)
    requires 1 <= mid <= level <= 4 && TableFor(m.nodes, node, level, mid, v).Some?
    ensures Ensure(m, node, level, 1, v) == Ensure(m, TableFor(m.nodes, node, level, mid, v).value, mid, 1, v)
    decreases level
  {
    hide Present, Paddr, Leaf, Idx;
    if level > mid {
      EnsureFrom(m, Paddr(m.nodes[node][Idx(v, level)]), level - 1, mid, v);
    }
  }

  lemma {:induction false} HugeFreeBelow(nodes: Nodes, node: nat, level: nat, mid: nat, v: nat)
    requires 1 <= mid <= level <= 4 && HugeFree(nodes, node, level, v)
    requires TableFor(nodes, node, level, mid, v).Some?
    ensures HugeFree(nodes, TableFor(nodes, node, level, mid, v).value, mid, v)
    decreases level
  {
    hide Present, Paddr, Leaf, Idx;
    if level > mid {
      HugeFreeBelow(nodes, Paddr(nodes[node][Idx(v, level)]), level - 1, mid, v);
    }
  }

  /** One page, when the way is there down to level `mid`. */
  lemma MapOneHasRoom(
    m: Mem, tag: map<nat, Tag>, root: nat, v: nat, p: nat, attr: Attr, mid: nat, k: nat)
    requires MemOk(m, tag) && IsRoot(m.nodes, tag, root) && HugeFree(m.nodes, root, 4, v)
    requires 1 <= mid <= 4 && TableFor(m.nodes, root, 4, mid, v).Some?
    requires p % PAGE_SIZE == 0 && p < FRAMES_END && Room(m.heap, k + (mid - 1))
    ensures var r := MapOne(m, root, v, p, attr); r.Done? && Room(r.mem.heap, k)
  {
    hide Walk, HugeFree, Ensure, TableFor, Expect, SetEntry, Tree, Room, Prefix;
    RootOnWay(m.nodes, tag, root, v);
    TableForOnWay(m.nodes, tag, root, 4, mid, v);
    EnsureFrom(m, root, 4, mid, v);
    HugeFreeBelow(m.nodes, root, 4, mid, v);
    EnsureHasRoom(m, tag, TableFor(m.nodes, root, 4, mid, v).value, mid, 1, v, k);
    var t := MapOneMaps(m, tag, root, v, p, attr);
  }

  /** The last of `n` pages from `v`, or the first when there is none. */
  function Last(v: nat, n: nat): nat {
    if n == 0 then v else v + (n - 1) * PAGE_SIZE
  }

  /** A range is mapped if the tables it can need fit on the heap. */
  lemma {:induction false} MapPagesHasRoom(
    m: Mem, tag: map<nat, Tag>, root: nat, v: nat, p: nat, n: nat, attr: Attr, k: nat)
    requires MemOk(m, tag) && IsRoot(m.nodes, tag, root)
    requires v % PAGE_SIZE == 0 && p % PAGE_SIZE == 0 && p + n * PAGE_SIZE <= FRAMES_END && n <= PAGES
    requires HugeFree(m.nodes, root, 4, v)
    requires forall j :: 0 <= j < n ==> HugeFree(m.nodes, root, 4, v + j * PAGE_SIZE)
    requires Room(m.heap, k + Tables(v, n))
    ensures var r := MapPages(m, root, v, p, n, attr);
      r.Done? && Room(r.mem.heap, k) && TableFor(r.mem.nodes, root, 4, 1, Last(v, n)).Some?
    decreases n
  {
    hide Walk, HugeFree, Ensure, MapOne, Mapped, Tree, Room, TableFor, Tables, NewTables, Prefix;
    if n == 0 {
      NoTables(v);
      RootOnWay(m.nodes, tag, root, v);
      EnsureHasRoom(m, tag, root, 4, 1, v, k);
      var t := EnsureKeeps(m, tag, root, 4, 1, v);
    } else {
      var j := n - 1;
      var u := v + j * PAGE_SIZE;
      var new' := if j == 0 then 0 else NewTables(u);
      FewTables(v, j);
      MapPagesHasRoom(m, tag, root, v, p, j, attr, k + new');
      var tag1 := MapPagesMaps(m, tag, root, v, p, j, attr);
      var m1 := MapPages(m, root, v, p, j, attr).mem;
      RootStays(m, tag, m1, tag1, root);
      AlignedPages(p, j);
      SharedTable(m1.nodes, root, v, j, 1 + new');
      MapOneHasRoom(m1, tag1, root, u, p + j * PAGE_SIZE, attr, 1 + new', k);
      MapOneTable(m1, tag1, root, u, p + j * PAGE_SIZE, attr);
    }
  }

  lemma NoTables(v: nat)
    ensures Tables(v, 0) == 3
  {
  }

  lemma FewTables(v: nat, j: nat)
    requires v % PAGE_SIZE == 0
    ensures Tables(v, j + 1) == Tables(v, j) + if j == 0 then 0 else NewTables(v + j * PAGE_SIZE)
    ensures NewTables(v + j * PAGE_SIZE) <= 3
  {
    hide NewTables;
    if j > 0 {
      TablesNext(v, j);
    }
    AtMostThree(v + j * PAGE_SIZE);
  }

  lemma AtMostThree(u: nat)
    ensures NewTables(u) <= 3
  {
  }

  /** The tables on the way to page `j` that are there after the page before it. */
  lemma SharedTable(nodes: Nodes, root: nat, v: nat, j: nat, mid: nat)
    requires v % PAGE_SIZE == 0 && mid == 1 + (if j == 0 then 0 else NewTables(v + j * PAGE_SIZE)) && mid <= 4
    requires TableFor(nodes, root, 4, 1, Last(v, j)).Some?
    ensures TableFor(nodes, root, 4, mid, v + j * PAGE_SIZE).Some?
  {
    hide TableFor, NewTables, Prefix;
    if j > 0 {
      var u := v + j * PAGE_SIZE;
      AlignedPages(v, j);
      TableForUp(nodes, root, 4, mid, Last(v, j));
      SharedPrefix(u, mid);
      TableForSame(nodes, root, 4, mid, u, u - PAGE_SIZE);
    }
  }
}
