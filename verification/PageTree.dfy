/** Page tables in memory, the hardware's walk through them (four-level paging,
    section 4.5 of the Intel 64 Software Developer's Manual, volume 3A), and what a
    single write to an entry does to every translation. */
module PageTree {
  import opened Wrappers
  import opened Bits
  import opened PageEntry
  import opened MemLayout

  /** The tables in memory, by physical address; each holds 512 entries. */
  type Nodes = map<nat, seq<nat>>

  datatype Page = Page(
    pa: nat, writable: bool, executable: bool, writeThrough: bool, cacheDisabled: bool, user: bool)

  /** What the entries read so far allow. */
  datatype Rights = Rights(writable: bool, executable: bool, user: bool)

  const ALL := Rights(true, true, true)

  function Under(rights: Rights, e: nat): Rights {
    Rights(rights.writable && Writable(e), rights.executable && Executable(e), rights.user && User(e))
  }

  /** Entries that end the walk: at level 1, and large pages at levels 2 and 3. */
  predicate Leaf(level: nat, e: nat) {
    level == 1 || ((level == 2 || level == 3) && Huge(e))
  }

  function PageAt(level: nat, e: nat, v: nat, rights: Rights): Page
    requires 1 <= level <= 4
  {
    var all := Under(rights, e);
    Page(FrameOf(e) - FrameOf(e) % Span(level) + v % Span(level),
         all.writable, all.executable, WriteThrough(e), CacheDisabled(e), all.user)
  }

  /** Permissions are combined over all levels. */
  function Walk(nodes: Nodes, node: nat, level: nat, v: nat, rights: Rights): Option<Page>
    requires 1 <= level <= 4
    decreases level
  {
    if node !in nodes || |nodes[node]| != 512 then None
    else
      var e := nodes[node][Idx(v, level)];
      if !Present(e) then None
      else if Leaf(level, e) then Some(PageAt(level, e, v, rights))
      else if level == 1 then None
      else Walk(nodes, FrameOf(e), level - 1, v, Under(rights, e))
  }

  function Translate(nodes: Nodes, root: nat, v: nat): Option<Page> {
    Walk(nodes, root, 4, v, ALL)
  }

  // ----- tables that form a tree -----

  /** Where a table belongs: its level, and the indices on the way to it. */
  datatype Tag = Tag(level: nat, prefix: nat)

  ghost predicate ChildOk(nodes: Nodes, tag: map<nat, Tag>, a: nat, i: nat)
    requires tag.Keys == nodes.Keys && a in nodes && i < |nodes[a]|
  {
    var e := nodes[a][i];
    var c := Paddr(e);
    && c in nodes && 1 < tag[a].level && tag[c] == Tag(tag[a].level - 1, tag[a].prefix * 512 + i)
    && FrameOf(e) == c && Writable(e) && Executable(e)
  }

  /** Every entry that points at a table points at one that belongs there, for the
      code as for the processor, so no table is reached by two ways; and such entries
      restrict neither writing nor execution. */
  ghost predicate Tree(nodes: Nodes, tag: map<nat, Tag>) {
    && tag.Keys == nodes.Keys
    && (forall a :: a in nodes ==> |nodes[a]| == 512 && 1 <= tag[a].level <= 4)
    && (forall a, i :: a in nodes && 0 <= i < 512 && Present(nodes[a][i]) && !Leaf(tag[a].level, nodes[a][i]) ==>
          ChildOk(nodes, tag, a, i))
  }

  /** The table at `node` is the one that a walk for `v` meets at `level`. */
  ghost predicate OnWay(nodes: Nodes, tag: map<nat, Tag>, node: nat, level: nat, v: nat) {
    1 <= level <= 4 && node in nodes && node in tag && tag[node] == Tag(level, Prefix(v, level))
  }

  lemma NextOnWay(nodes: Nodes, tag: map<nat, Tag>, node: nat, level: nat, v: nat)
    requires Tree(nodes, tag) && OnWay(nodes, tag, node, level, v)
    requires var e := nodes[node][Idx(v, level)]; Present(e) && !Leaf(level, e)
    ensures var e := nodes[node][Idx(v, level)];
      1 < level && FrameOf(e) == Paddr(e) && Writable(e) && Executable(e) && OnWay(nodes, tag, Paddr(e), level - 1, v)
  {
    hide Present, Leaf, Paddr, FrameOf, Writable, Executable, User, Idx, Prefix;
    PrefixStep(v, level);
    assert ChildOk(nodes, tag, node, Idx(v, level));
  }

  /** Entries at a level that the walk makes no difference between: only the other bits
      differ, such as those that the processor sets on access. */
  predicate SameMeaning(level: nat, e: nat, e': nat) {
    && Present(e) == Present(e')
    && (Present(e) ==>
          && Leaf(level, e) == Leaf(level, e') && FrameOf(e) == FrameOf(e')
          && Writable(e) == Writable(e') && Executable(e) == Executable(e') && User(e) == User(e')
          && WriteThrough(e) == WriteThrough(e') && CacheDisabled(e) == CacheDisabled(e'))
  }

  /** A walk depends only on what the entries it reads mean. */
  lemma {:induction false} SameWalk(
    nodes: Nodes, nodes': Nodes, tag: map<nat, Tag>, node: nat, level: nat, v: nat, rights: Rights)
    requires Tree(nodes, tag) && OnWay(nodes, tag, node, level, v)
    requires forall a: nat, l: nat :: OnWay(nodes, tag, a, l, v) && (a == node || l < level) ==>
      a in nodes' && |nodes'[a]| == 512 && SameMeaning(l, nodes[a][Idx(v, l)], nodes'[a][Idx(v, l)])
    ensures Walk(nodes', node, level, v, rights) == Walk(nodes, node, level, v, rights)
    decreases level
  {
    hide Present, Leaf, Paddr, FrameOf, Writable, Executable, User, Idx, Prefix;
    var e := nodes[node][Idx(v, level)];
    if Present(e) && !Leaf(level, e) {
      NextOnWay(nodes, tag, node, level, v);
      SameWalk(nodes, nodes', tag, Paddr(e), level - 1, v, Under(rights, e));
    }
  }

  /** So the bits that the processor sets on access change no translation. */
  lemma AccessKeepsMeaning(level: nat, e: nat, bit: nat)
    requires e < WORD && (bit == ACCESSED || bit == DIRTY) && e / bit % 2 == 0
    ensures SameMeaning(level, e, e + bit)
  {
    hide Present, Writable, Executable, User, WriteThrough, CacheDisabled, Huge, Paddr, FrameOf, Pow2;
    Pow2Values();
    AccessKeepsView(e, bit);
    assert ViewOf(e) == ViewOf(e + bit);
  }

  // ----- writing an entry that ends the walk, or one that is absent -----

  function Write(nodes: Nodes, a: nat, i: nat, e: nat): Nodes
    requires a in nodes && i < |nodes[a]|
  {
    var table: seq<nat> := nodes[a][i := e];
    nodes[a := table]
  }

  lemma WriteLeafKeepsTree(nodes: Nodes, tag: map<nat, Tag>, a: nat, i: nat, e: nat)
    requires Tree(nodes, tag) && a in nodes && i < 512 && (Present(e) ==> Leaf(tag[a].level, e))
    ensures Tree(Write(nodes, a, i, e), tag)
  {
    hide Present, Leaf, Paddr, FrameOf, Writable, Executable, User;
    var nodes' := Write(nodes, a, i, e);
    forall b, j | b in nodes' && 0 <= j < 512 && Present(nodes'[b][j]) && !Leaf(tag[b].level, nodes'[b][j])
      ensures ChildOk(nodes', tag, b, j)
    {
      assert nodes'[b][j] == nodes[b][j];
      assert ChildOk(nodes, tag, b, j);
    }
  }

  /** It changes no translation but those that read it. */
  lemma WriteLeafElsewhere(
    nodes: Nodes, tag: map<nat, Tag>, a: nat, i: nat, e: nat, node: nat, level: nat, v: nat, rights: Rights)
    requires Tree(nodes, tag) && a in nodes && i < 512
    requires OnWay(nodes, tag, node, level, v)
    requires Prefix(v, tag[a].level - 1) != tag[a].prefix * 512 + i
    ensures Walk(Write(nodes, a, i, e), node, level, v, rights) == Walk(nodes, node, level, v, rights)
  {
    hide Idx, Prefix, Walk;
    forall b, l | OnWay(nodes, tag, b, l, v)
      ensures var nodes' := Write(nodes, a, i, e); nodes'[b][Idx(v, l)] == nodes[b][Idx(v, l)]
    {
      PrefixStep(v, l);
    }
    SameWalk(nodes, Write(nodes, a, i, e), tag, node, level, v, rights);
  }

  // ----- writing an entry for a fresh, empty table -----

  function EmptyTable(): (t: seq<nat>)
    ensures |t| == 512 && forall i :: 0 <= i < 512 ==> t[i] == 0
  {
    seq(512, _ => 0)
  }

  function Attach(nodes: Nodes, a: nat, i: nat, n: nat, e: nat): Nodes
    requires a in nodes && i < |nodes[a]|
  {
    Write(nodes, a, i, e)[n := EmptyTable()]
  }

  ghost function AttachTag(tag: map<nat, Tag>, a: nat, i: nat, n: nat): map<nat, Tag>
    requires a in tag && 1 < tag[a].level
  {
    tag[n := Tag(tag[a].level - 1, tag[a].prefix * 512 + i)]
  }

  /** A fresh table may be attached at an absent entry above level 1. */
  ghost predicate Attachable(nodes: Nodes, tag: map<nat, Tag>, a: nat, i: nat, n: nat, e: nat) {
    && Tree(nodes, tag) && a in nodes && i < 512 && 1 < tag[a].level && !Present(nodes[a][i]) && n !in nodes
    && Present(e) && Paddr(e) == FrameOf(e) == n && Writable(e) && Executable(e) && !Huge(e)
  }

  lemma AttachKeepsTree(nodes: Nodes, tag: map<nat, Tag>, a: nat, i: nat, n: nat, e: nat)
    requires Attachable(nodes, tag, a, i, n, e)
    ensures Tree(Attach(nodes, a, i, n, e), AttachTag(tag, a, i, n))
  {
    hide Present, Paddr, FrameOf, Writable, Executable, User, Huge;
    ZeroIsAbsent();
    var nodes', tag' := Attach(nodes, a, i, n, e), AttachTag(tag, a, i, n);
    forall b, j | b in nodes' && 0 <= j < 512 && Present(nodes'[b][j]) && !Leaf(tag'[b].level, nodes'[b][j])
      ensures ChildOk(nodes', tag', b, j)
    {
      if b != a || j != i {
        assert ChildOk(nodes, tag, b, j);
      }
    }
  }

  /** It changes no translation at all. */
  lemma {:induction false} AttachKeepsWalk(
    nodes: Nodes, tag: map<nat, Tag>, a: nat, i: nat, n: nat, e: nat, node: nat, level: nat, v: nat, rights: Rights)
    requires Attachable(nodes, tag, a, i, n, e) && OnWay(nodes, tag, node, level, v)
    ensures Walk(Attach(nodes, a, i, n, e), node, level, v, rights) == Walk(nodes, node, level, v, rights)
    decreases level
  {
    hide Present, Paddr, FrameOf, Writable, Executable, User, Huge, Idx, Prefix;
    ZeroIsAbsent();
    var e0 := nodes[node][Idx(v, level)];
    if Present(e0) && !Leaf(level, e0) {
      NextOnWay(nodes, tag, node, level, v);
      AttachKeepsWalk(nodes, tag, a, i, n, e, Paddr(e0), level - 1, v, Under(rights, e0));
    }
  }
}
