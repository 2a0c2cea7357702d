/** Page tables in physical memory as a tree, and the finite map of translations they stand for. */
module TableTree {
  import opened Outcomes
  import opened Arch

  /** A sequence of table indices, outermost first: the name of a table below the root. */
  datatype Path = Root | Step(parent: Path, index: Index)

  function Depth(p: Path): nat {
    if p.Root? then 0 else 1 + Depth(p.parent)
  }

  /** The path does not enter the reserved slot of the level-4 table. */
  predicate Outside(p: Path) {
    p.Root? || (if p.parent.Root? then p.index != RESERVED_SLOT else Outside(p.parent))
  }

  /** The path from the level-4 table to the table of `level` that serves `va`. */
  function TablePath(level: nat, va: VirtAddr): (p: Path)
    requires 1 <= level <= 4
    ensures Depth(p) == 4 - level
    ensures !Reserved(va) ==> Outside(p)
  {
    if level == 4 then Root
    else
      SlotIs(va);
      var p3 := Step(Root, PageIndex(4, va));
      assert Depth(p3) == 1 && (!Reserved(va) ==> Outside(p3));
      var p2 := Step(p3, PageIndex(3, va));
      assert Depth(p2) == 2 && (!Reserved(va) ==> Outside(p2));
      if level == 3 then p3 else if level == 2 then p2 else Step(p2, PageIndex(2, va))
  }

  /** Following a path through raw memory from `root`.  (A table that is not in memory ends the
      walk; `WalkStaysInMemory` shows that this never happens in a tree.) */
  function Walk(mem: Memory, root: PhysAddr, p: Path): (r: Option<PhysAddr>)
  {
    match p
    case Root => Some(root)
    case Step(q, i) =>
      match Walk(mem, root, q)
      case None => None
      case Some(f) =>
        if f !in mem || mem[f][i].IsUnused() then None else Some(mem[f][i].addr)
  }

  /** The level-1 entry that serves `va`, unused where the level-1 table does not exist. */
  function Leaf(mem: Memory, root: PhysAddr, va: VirtAddr): Entry {
    match Walk(mem, root, TablePath(1, va))
    case None => UNUSED
    case Some(f) => if f in mem then mem[f][PageIndex(1, va)] else UNUSED
  }

  /** What the page tables translate `va` to. */
  function Translation(mem: Memory, root: PhysAddr, va: VirtAddr): Option<nat> {
    var e := Leaf(mem, root, va);
    if e.IsUnused() then None else Some(e.addr + va % PAGE_SIZE)
  }

  /** The translations outside the reserved slot: page base to frame and flags. */
  type PageMap = map<VirtAddr, Entry>

  ghost function View(mem: Memory, root: PhysAddr): PageMap {
    map v: VirtAddr | 0 <= v < VIRT_LIMIT && Aligned(v) && !Reserved(v) && !Leaf(mem, root, v).IsUnused()
      :: Leaf(mem, root, v)
  }

  /** `view` is the view of the tables below `root`. */
  ghost predicate Represents(mem: Memory, root: PhysAddr, view: PageMap) {
    && (forall v: VirtAddr {:trigger Leaf(mem, root, v)} | Aligned(v) && !Reserved(v) ::
          && (v in view <==> !Leaf(mem, root, v).IsUnused())
          && (v in view ==> view[v] == Leaf(mem, root, v)))
    && (forall v: VirtAddr {:trigger Reserved(v)} | v in view :: Aligned(v) && !Reserved(v))
  }

  lemma ViewRepresents(mem: Memory, root: PhysAddr)
    ensures Represents(mem, root, View(mem, root))
  {
  }

  /** The view is the one map that represents the tables. */
  lemma RepresentsOnlyView(mem: Memory, root: PhysAddr, view: PageMap)
    requires Represents(mem, root, view)
    ensures view == View(mem, root)
  {
    var view' := View(mem, root);
    forall v: VirtAddr
      ensures v in view <==> v in view'
      ensures v in view ==> view[v] == view'[v]
    {
      var reserved, leaf := Reserved(v), Leaf(mem, root, v);
      assert v in view <==> Aligned(v) && !reserved && !leaf.IsUnused();
      assert v in view' <==> Aligned(v) && !reserved && !leaf.IsUnused();
    }
  }

  /** Storing a word for a page: the zero word means "not mapped". */
  ghost function Put(view: PageMap, page: VirtAddr, e: Entry): PageMap {
    if e.IsUnused() then view - {page} else view[page := e]
  }

  // ---------------------------------------------------------------- the invariant

  /** The tables a page table owns: path to frame. */
  type Tree = map<Path, PhysAddr>

  ghost predicate Placed(mem: Memory, tree: Tree) {
    forall p | p in tree :: Depth(p) <= 3 && tree[p] in mem && Aligned(tree[p])
  }

  /** Distinct paths lead to distinct frames. */
  ghost predicate Apart(tree: Tree, p: Path, q: Path)
    requires p in tree && q in tree
  {
    tree[p] == tree[q] ==> p == q
  }

  ghost predicate Separate(tree: Tree) {
    forall p, q {:trigger Apart(tree, p, q)} | p in tree && q in tree :: Apart(tree, p, q)
  }

  /** Below the root every table hangs in the slot its path names, linked read-write-execute. */
  ghost predicate Hangs(mem: Memory, tree: Tree, p: Path)
    requires Placed(mem, tree) && p in tree
  {
    p.Step? ==>
      && p.parent in tree
      && !(p.parent.Root? && p.index == RESERVED_SLOT)
      && mem[tree[p.parent]][p.index] == Entry(tree[p], FLAGS_RWX)
  }

  /** A slot above level 1 that holds no table is zero. */
  ghost predicate Vacant(mem: Memory, tree: Tree, p: Path, i: Index)
    requires Placed(mem, tree) && p in tree
  {
    Depth(p) < 3 && !(p.Root? && i == RESERVED_SLOT) && Step(p, i) !in tree ==> mem[tree[p]][i].IsUnused()
  }

  ghost predicate LeavesAligned(mem: Memory, tree: Tree)
    requires Placed(mem, tree)
  {
    forall p, i: Index | p in tree && Depth(p) == 3 :: Aligned(mem[tree[p]][i].addr)
  }

  /** `tree` names every table reachable from `root` outside the reserved slot.  Distinct paths lead
      to distinct aligned frames; every link is read-write-execute; every slot that is not a link is
      zero; the only back edge is the reserved slot of the root. */
  ghost predicate IsTree(mem: Memory, root: PhysAddr, tree: Tree) {
    && Root in tree && tree[Root] == root
    && Placed(mem, tree)
    && Separate(tree)
    && (forall p | p in tree :: Hangs(mem, tree, p))
    && (forall p, i: Index | p in tree :: Vacant(mem, tree, p, i))
    && mem[root][RESERVED_SLOT] == Entry(root, FLAGS_RW)
    && LeavesAligned(mem, tree)
  }

  /** In a tree, walking a path outside the reserved slot is looking it up. */
  lemma {:induction false} WalkIsLookup(mem: Memory, root: PhysAddr, tree: Tree, p: Path)
    requires IsTree(mem, root, tree) && Depth(p) <= 3 && Outside(p)
    ensures Walk(mem, root, p) == if p in tree then Some(tree[p]) else None
  {
    if p.Step? {
      WalkIsLookup(mem, root, tree, p.parent);
      assert p in tree ==> Hangs(mem, tree, p);
      if p.parent in tree && p !in tree {
        assert Vacant(mem, tree, p.parent, p.index);
      }
    }
  }

  /** The path that remains once leading passes through the reserved slot are dropped. */
  function Strip(p: Path): (s: Path)
    ensures Depth(s) <= Depth(p) && Outside(s)
  {
    if p.Root? then Root
    else
      var s := Strip(p.parent);
      if s.Root? && p.index == RESERVED_SLOT then Root else Step(s, p.index)
  }

  /** Passing through the reserved slot leads back to the root. */
  lemma {:induction false} WalkStripped(mem: Memory, root: PhysAddr, tree: Tree, p: Path)
    requires IsTree(mem, root, tree)
    ensures Walk(mem, root, p) == Walk(mem, root, Strip(p))
  {
    if p.Step? {
      WalkStripped(mem, root, tree, p.parent);
    }
  }

  /** Every walk of at most three links, through the reserved slot or not, ends at a table in memory
      that the tree names. */
  lemma WalkStaysInMemory(mem: Memory, root: PhysAddr, tree: Tree, p: Path)
    requires IsTree(mem, root, tree) && Depth(p) <= 3
    ensures Walk(mem, root, p) == if Strip(p) in tree then Some(tree[Strip(p)]) else None
    ensures Walk(mem, root, p).Some? ==> Walk(mem, root, p).value in mem
  {
    WalkStripped(mem, root, tree, p);
    WalkIsLookup(mem, root, tree, Strip(p));
  }

  /** A missing table ends the walk at every lower level too. */
  lemma {:induction false} MissingStaysMissing(mem: Memory, root: PhysAddr, va: VirtAddr, high: nat, low: nat)
    requires 1 <= low <= high <= 4
    requires Walk(mem, root, TablePath(high, va)) == None
    ensures Walk(mem, root, TablePath(low, va)) == None
    decreases high - low
  {
    if low < high {
      assert TablePath(high - 1, va) == Step(TablePath(high, va), PageIndex(high, va));
      MissingStaysMissing(mem, root, va, high - 1, low);
    }
  }

  /** The leaf of a page outside the reserved slot, read off the tree. */
  lemma LeafFromTree(mem: Memory, root: PhysAddr, tree: Tree, va: VirtAddr)
    requires IsTree(mem, root, tree) && !Reserved(va)
    ensures var p := TablePath(1, va);
      Leaf(mem, root, va) == if p in tree then mem[tree[p]][PageIndex(1, va)] else UNUSED
  {
    var p := TablePath(1, va);
    WalkIsLookup(mem, root, tree, p);
  }

  /** Two pages served by the same slot of the same level-1 table are one page. */
  lemma SameSlotSamePage(a: VirtAddr, b: VirtAddr)
    requires TablePath(1, a) == TablePath(1, b) && PageIndex(1, a) == PageIndex(1, b)
    ensures PageBase(a) == PageBase(b)
  {
    PageBaseIndices(a);
    PageBaseIndices(b);
    assert forall level {:trigger PageIndex(level, a)} | 1 <= level <= 4 ::
      PageIndex(level, a) == PageIndex(level, b);
    IndicesDetermineAddress(PageBase(a), PageBase(b));
  }

  /** An address and the base of its page share their leaf, and the view says what it is. */
  lemma LeafInView(mem: Memory, root: PhysAddr, view: PageMap, va: VirtAddr)
    requires Represents(mem, root, view) && !Reserved(va)
    ensures Leaf(mem, root, PageBase(va)) == Leaf(mem, root, va) && !Reserved(PageBase(va))
    ensures PageBase(va) in view <==> !Leaf(mem, root, va).IsUnused()
    ensures PageBase(va) in view ==> view[PageBase(va)] == Leaf(mem, root, va)
  {
    PageBaseIndices(va);
    assert TablePath(1, PageBase(va)) == TablePath(1, va);
  }

  /** Outside the reserved slot, the view says what an address translates to. */
  lemma TranslationInView(mem: Memory, root: PhysAddr, view: PageMap, va: VirtAddr)
    requires Represents(mem, root, view) && !Reserved(va)
    ensures Translation(mem, root, va) ==
      if PageBase(va) in view then Some(view[PageBase(va)].addr + va % PAGE_SIZE) else None
  {
    LeafInView(mem, root, view, va);
  }

  // ---------------------------------------------------------------- the two kinds of write

  ghost function Linked(mem: Memory, parent: PhysAddr, i: Index, f: PhysAddr): Memory
    requires parent in mem
  {
    mem[parent := mem[parent][i := Entry(f, FLAGS_RWX)]][f := ZeroTable()]
  }

  /** Hanging a fresh zeroed table into an empty slot keeps the tree and every translation. */
  lemma LinkTable(mem: Memory, root: PhysAddr, tree: Tree, view: PageMap, p: Path, i: Index, f: PhysAddr)
    requires IsTree(mem, root, tree) && Represents(mem, root, view)
    requires p in tree && Depth(p) < 3 && Step(p, i) !in tree && !(p.Root? && i == RESERVED_SLOT)
    requires f !in tree.Values && Aligned(f)
    ensures IsTree(Linked(mem, tree[p], i, f), root, tree[Step(p, i) := f])
    ensures Represents(Linked(mem, tree[p], i, f), root, view)
  {
    LinkKeepsTree(mem, root, tree, p, i, f);
    forall v: VirtAddr | Aligned(v) && !Reserved(v)
      ensures Leaf(Linked(mem, tree[p], i, f), root, v) == Leaf(mem, root, v)
    {
      LeafAfterLink(mem, root, tree, p, i, f, v);
    }
  }

  lemma LeafAfterLink(mem: Memory, root: PhysAddr, tree: Tree, p: Path, i: Index, f: PhysAddr, v: VirtAddr)
    requires IsTree(mem, root, tree)
    requires p in tree && Depth(p) < 3 && Step(p, i) !in tree && !(p.Root? && i == RESERVED_SLOT)
    requires f !in tree.Values && Aligned(f) && !Reserved(v)
    ensures Leaf(Linked(mem, tree[p], i, f), root, v) == Leaf(mem, root, v)
  {
    LinkKeepsTree(mem, root, tree, p, i, f);
    LeafFromTree(mem, root, tree, v);
    LeafFromTree(Linked(mem, tree[p], i, f), root, tree[Step(p, i) := f], v);
    if TablePath(1, v) in tree {
      LinkedSlot(mem, tree, p, i, f, TablePath(1, v), PageIndex(1, v));
    }
  }

  /** A link changes one slot of one table and adds a zero table. */
  lemma LinkedSlot(mem: Memory, tree: Tree, p: Path, i: Index, f: PhysAddr, q: Path, j: Index)
    requires Placed(mem, tree) && Separate(tree)
    requires p in tree && q in tree && f !in tree.Values
    ensures Linked(mem, tree[p], i, f)[tree[q]][j] == if q == p && j == i then Entry(f, FLAGS_RWX) else mem[tree[q]][j]
  {
    assert tree[q] in tree.Values && Apart(tree, p, q);
  }

  lemma LinkPlaced(mem: Memory, tree: Tree, p: Path, i: Index, f: PhysAddr)
    requires Placed(mem, tree) && Separate(tree)
    requires p in tree && Depth(p) < 3 && f !in tree.Values && Aligned(f)
    ensures Placed(Linked(mem, tree[p], i, f), tree[Step(p, i) := f])
    ensures Separate(tree[Step(p, i) := f])
  {
    var tree' := tree[Step(p, i) := f];
    assert forall q | q in tree :: tree[q] in tree.Values;
    forall q, r | q in tree' && r in tree'
      ensures Apart(tree', q, r)
    {
      assert q in tree && r in tree ==> Apart(tree, q, r);
    }
  }

  lemma LinkHangs(mem: Memory, tree: Tree, p: Path, i: Index, f: PhysAddr, q: Path)
    requires Placed(mem, tree) && Separate(tree)
    requires p in tree && Depth(p) < 3 && f !in tree.Values && Aligned(f)
    requires Step(p, i) !in tree && !(p.Root? && i == RESERVED_SLOT)
    requires q in tree ==> Hangs(mem, tree, q)
    requires q in tree || q == Step(p, i)
    ensures Placed(Linked(mem, tree[p], i, f), tree[Step(p, i) := f])
    ensures Hangs(Linked(mem, tree[p], i, f), tree[Step(p, i) := f], q)
  {
    LinkPlaced(mem, tree, p, i, f);
    if q.Step? {
      LinkedSlot(mem, tree, p, i, f, q.parent, q.index);
    }
  }

  lemma LinkSlots(mem: Memory, tree: Tree, p: Path, i: Index, f: PhysAddr, q: Path, j: Index)
    requires Placed(mem, tree) && Separate(tree)
    requires p in tree && Depth(p) < 3 && f !in tree.Values && Aligned(f)
    requires q in tree ==> Vacant(mem, tree, q, j) && (Depth(q) == 3 ==> Aligned(mem[tree[q]][j].addr))
    requires q in tree || q == Step(p, i)
    ensures Placed(Linked(mem, tree[p], i, f), tree[Step(p, i) := f])
    ensures Vacant(Linked(mem, tree[p], i, f), tree[Step(p, i) := f], q, j)
    ensures Depth(q) == 3 ==> Aligned(Linked(mem, tree[p], i, f)[tree[Step(p, i) := f][q]][j].addr)
  {
    LinkPlaced(mem, tree, p, i, f);
    if q != Step(p, i) {
      LinkedSlot(mem, tree, p, i, f, q, j);
    }
  }

  lemma LinkKeepsTree(mem: Memory, root: PhysAddr, tree: Tree, p: Path, i: Index, f: PhysAddr)
    requires IsTree(mem, root, tree)
    requires p in tree && Depth(p) < 3 && Step(p, i) !in tree && !(p.Root? && i == RESERVED_SLOT)
    requires f !in tree.Values && Aligned(f)
    ensures IsTree(Linked(mem, tree[p], i, f), root, tree[Step(p, i) := f])
  {
    var mem' := Linked(mem, tree[p], i, f);
    var tree' := tree[Step(p, i) := f];
    LinkPlaced(mem, tree, p, i, f);
    forall q | q in tree'
      ensures Hangs(mem', tree', q)
    {
      LinkHangs(mem, tree, p, i, f, q);
    }
    forall q, j: Index | q in tree'
      ensures Vacant(mem', tree', q, j)
      ensures Depth(q) == 3 ==> Aligned(mem'[tree'[q]][j].addr)
    {
      assert q in tree ==> Vacant(mem, tree, q, j);
      LinkSlots(mem, tree, p, i, f, q, j);
    }
    LinkedSlot(mem, tree, p, i, f, Root, RESERVED_SLOT);
  }

  ghost function LeafWritten(mem: Memory, f: PhysAddr, i: Index, e: Entry): Memory
    requires f in mem
  {
    mem[f := mem[f][i := e]]
  }

  lemma LeafWriteKeepsTree(mem: Memory, root: PhysAddr, tree: Tree, l1: Path, i: Index, e: Entry)
    requires IsTree(mem, root, tree) && l1 in tree && Depth(l1) == 3 && Aligned(e.addr)
    ensures IsTree(LeafWritten(mem, tree[l1], i, e), root, tree)
    ensures forall q, j: Index | q in tree ::
      LeafWritten(mem, tree[l1], i, e)[tree[q]][j] == if q == l1 && j == i then e else mem[tree[q]][j]
  {
    var mem' := LeafWritten(mem, tree[l1], i, e);
    assert Placed(mem', tree);
    forall q, j: Index | q in tree
      ensures mem'[tree[q]][j] == if q == l1 && j == i then e else mem[tree[q]][j]
    {
      assert Apart(tree, l1, q);
    }
    forall q | q in tree
      ensures Hangs(mem', tree, q)
    {
      assert Hangs(mem, tree, q);
    }
    forall q, j: Index | q in tree
      ensures Vacant(mem', tree, q, j)
    {
      assert Vacant(mem, tree, q, j);
    }
  }

  /** Writing one level-1 entry keeps the tree and changes exactly one page of the view. */
  lemma WriteLeaf(mem: Memory, root: PhysAddr, tree: Tree, view: PageMap, va: VirtAddr, e: Entry)
    requires IsTree(mem, root, tree) && Represents(mem, root, view) && !Reserved(va) && Aligned(e.addr)
    requires TablePath(1, va) in tree
    ensures var mem' := LeafWritten(mem, tree[TablePath(1, va)], PageIndex(1, va), e);
      && IsTree(mem', root, tree)
      && Represents(mem', root, Put(view, PageBase(va), e))
  {
    var mem' := LeafWritten(mem, tree[TablePath(1, va)], PageIndex(1, va), e);
    LeafWriteKeepsTree(mem, root, tree, TablePath(1, va), PageIndex(1, va), e);
    LeafInView(mem, root, view, va);
    forall v: VirtAddr | Aligned(v) && !Reserved(v)
      ensures Leaf(mem', root, v) == if v == PageBase(va) then e else Leaf(mem, root, v)
    {
      LeafAfterWrite(mem, root, tree, va, e, v);
    }
    RepresentsPut(mem, mem', root, view, PageBase(va), e);
  }

  lemma LeafAfterWrite(mem: Memory, root: PhysAddr, tree: Tree, va: VirtAddr, e: Entry, v: VirtAddr)
    requires IsTree(mem, root, tree) && !Reserved(va) && Aligned(e.addr) && TablePath(1, va) in tree
    requires Aligned(v) && !Reserved(v)
    ensures var mem' := LeafWritten(mem, tree[TablePath(1, va)], PageIndex(1, va), e);
      Leaf(mem', root, v) == if v == PageBase(va) then e else Leaf(mem, root, v)
  {
    var l1, i := TablePath(1, va), PageIndex(1, va);
    var mem' := LeafWritten(mem, tree[l1], i, e);
    LeafWriteKeepsTree(mem, root, tree, l1, i, e);
    LeafFromTree(mem, root, tree, v);
    LeafFromTree(mem', root, tree, v);
    if TablePath(1, v) == l1 && PageIndex(1, v) == i {
      SameSlotSamePage(v, va);
    } else if v == PageBase(va) {
      PageBaseIndices(va);
      assert false;
    }
  }

  /** If the leaves agree except at one page, so do the views. */
  lemma RepresentsPut(mem: Memory, mem': Memory, root: PhysAddr, view: PageMap, page: VirtAddr, e: Entry)
    requires Represents(mem, root, view) && Aligned(page) && !Reserved(page)
    requires forall v: VirtAddr {:trigger Leaf(mem', root, v)} | Aligned(v) && !Reserved(v) ::
      Leaf(mem', root, v) == if v == page then e else Leaf(mem, root, v)
    ensures Represents(mem', root, Put(view, page, e))
  {
  }

  /** The level-1 table, the leaf and the view of one address, side by side. */
  lemma LeafSummary(mem: Memory, root: PhysAddr, tree: Tree, view: PageMap, va: VirtAddr)
    requires IsTree(mem, root, tree) && Represents(mem, root, view) && !Reserved(va)
    ensures var table := Walk(mem, root, TablePath(1, va));
      && (table.Some? <==> TablePath(1, va) in tree)
      && (table.Some? ==> table.value == tree[TablePath(1, va)] && table.value in mem
                          && Leaf(mem, root, va) == mem[table.value][PageIndex(1, va)]
                          && Aligned(Leaf(mem, root, va).addr))
      && (table.None? ==> Leaf(mem, root, va).IsUnused())
    ensures PageBase(va) in view <==> !Leaf(mem, root, va).IsUnused()
    ensures PageBase(va) in view ==> view[PageBase(va)] == Leaf(mem, root, va)
  {
    WalkIsLookup(mem, root, tree, TablePath(1, va));
    LeafInView(mem, root, view, va);
  }
}
