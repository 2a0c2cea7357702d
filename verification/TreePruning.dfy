/** Detaching a table from the tree: what clearing a link does. */
module TreePruning {
  import opened Outcomes
  import opened Arch
  import opened TableTree

  /** `p` is `cut`, or runs through it. */
  predicate Below(cut: Path, p: Path) {
    p == cut || (p.Step? && Below(cut, p.parent))
  }

  /** The tree without the table at `cut` and the tables below it. */
  ghost function Pruned(tree: Tree, cut: Path): Tree {
    tree - set p | p in tree && Below(cut, p)
  }

  /** The page map without the pages that are served from there. */
  ghost function PrunedView(view: PageMap, cut: Path): PageMap {
    view - set v | v in view && Below(cut, TablePath(1, v))
  }

  /** Clearing the link to a table leaves the rest of the tree. */
  lemma PruneKeepsTree(mem: Memory, root: PhysAddr, tree: Tree, q: Path, i: Index)
    requires IsTree(mem, root, tree) && Step(q, i) in tree
    ensures q in tree && !(q.Root? && i == RESERVED_SLOT)
    ensures IsTree(LeafWritten(mem, tree[q], i, UNUSED), root, Pruned(tree, Step(q, i)))
  {
    var cut := Step(q, i);
    assert Hangs(mem, tree, cut);
    var mem', tree' := LeafWritten(mem, tree[q], i, UNUSED), Pruned(tree, cut);
    assert Placed(mem', tree');
    forall p, r | p in tree' && r in tree'
      ensures Apart(tree', p, r)
    {
      assert Apart(tree, p, r);
    }
    forall p, j: Index | p in tree
      ensures mem'[tree[p]][j] == if p == q && j == i then UNUSED else mem[tree[p]][j]
    {
      assert Apart(tree, p, q);
    }
    forall p | p in tree'
      ensures Hangs(mem', tree', p)
    {
      assert Hangs(mem, tree, p);
    }
    forall p, j: Index | p in tree'
      ensures Vacant(mem', tree', p, j)
    {
      assert Vacant(mem, tree, p, j);
    }
  }

  /** All pages served from below the cut are gone, and no other. */
  lemma PruneView(mem: Memory, root: PhysAddr, tree: Tree, view: PageMap, q: Path, i: Index)
    requires IsTree(mem, root, tree) && Represents(mem, root, view) && Step(q, i) in tree
    ensures q in tree
    ensures Represents(LeafWritten(mem, tree[q], i, UNUSED), root, PrunedView(view, Step(q, i)))
  {
    PruneKeepsTree(mem, root, tree, q, i);
    var mem', view' := LeafWritten(mem, tree[q], i, UNUSED), PrunedView(view, Step(q, i));
    forall v: VirtAddr | Aligned(v) && !Reserved(v)
      ensures Leaf(mem', root, v) == if Below(Step(q, i), TablePath(1, v)) then UNUSED else Leaf(mem, root, v)
    {
      LeafAfterPrune(mem, root, tree, q, i, v);
    }
    forall v: VirtAddr | Aligned(v) && !Reserved(v)
      ensures v in view' <==> !Leaf(mem', root, v).IsUnused()
      ensures v in view' ==> view'[v] == Leaf(mem', root, v)
    {
      var leaf := Leaf(mem, root, v);
    }
    forall v: VirtAddr | v in view'
      ensures Aligned(v) && !Reserved(v)
    {
      assert v in view;
    }
  }

  lemma LeafAfterPrune(mem: Memory, root: PhysAddr, tree: Tree, q: Path, i: Index, v: VirtAddr)
    requires IsTree(mem, root, tree) && Step(q, i) in tree && !Reserved(v)
    ensures q in tree
    ensures Leaf(LeafWritten(mem, tree[q], i, UNUSED), root, v) ==
      if Below(Step(q, i), TablePath(1, v)) then UNUSED else Leaf(mem, root, v)
  {
    PruneKeepsTree(mem, root, tree, q, i);
    LeafFromTree(mem, root, tree, v);
    LeafFromTree(LeafWritten(mem, tree[q], i, UNUSED), root, Pruned(tree, Step(q, i)), v);
    var l1 := TablePath(1, v);
    assert Depth(Step(q, i)) <= 3;
    if l1 in tree {
      assert Apart(tree, l1, q);
    }
  }

  // ---------------------------------------------------------------- the reserved slot

  /** The page whose four indices are all 510, through which the root maps itself. */
  predicate SelfMapPage(va: VirtAddr) {
    PageIndex(4, va) == PageIndex(3, va) == PageIndex(2, va) == PageIndex(1, va) == RESERVED_SLOT
  }

  lemma SelfMapPageIsReserved(va: VirtAddr)
    ensures SelfMapPage(va) ==> Reserved(va)
  {
    SlotIs(va);
  }

  /** The table that an address in the reserved slot maps. */
  function MappedTable(va: VirtAddr): Path {
    Strip(Step(TablePath(1, va), PageIndex(1, va)))
  }

  /** Inside the reserved slot, the entry of a mapped address is a link of the tree or the self map. */
  lemma ReservedLink(mem: Memory, root: PhysAddr, tree: Tree, va: VirtAddr)
    requires IsTree(mem, root, tree) && Reserved(va) && !Leaf(mem, root, va).IsUnused()
    ensures var q, i := Strip(TablePath(1, va)), PageIndex(1, va);
      && q in tree && Depth(q) < 3 && Walk(mem, root, TablePath(1, va)) == Some(tree[q])
      && (SelfMapPage(va) <==> q.Root? && i == RESERVED_SLOT)
      && (SelfMapPage(va) ==> Leaf(mem, root, va) == Entry(root, FLAGS_RW))
      && (!SelfMapPage(va) ==>
           && MappedTable(va) == Step(q, i) && Step(q, i) in tree
           && Leaf(mem, root, va) == Entry(tree[Step(q, i)], FLAGS_RWX))
  {
    var p, i := TablePath(1, va), PageIndex(1, va);
    var q := Strip(p);
    WalkStaysInMemory(mem, root, tree, p);
    assert Strip(p.parent.parent) == Root;
    if !SelfMapPage(va) {
      assert Vacant(mem, tree, q, i);
      assert Hangs(mem, tree, Step(q, i));
    }
  }

  /** Clearing a link through the reserved slot detaches the table it led to: every page that was served
      from there is gone, all other pages stay, and so do all other tables. */
  lemma ClearingDetachesTable(mem: Memory, root: PhysAddr, tree: Tree, view: PageMap, va: VirtAddr)
    requires IsTree(mem, root, tree) && Represents(mem, root, view)
    requires Reserved(va) && !SelfMapPage(va) && !Leaf(mem, root, va).IsUnused()
    ensures Walk(mem, root, TablePath(1, va)).Some? && Walk(mem, root, TablePath(1, va)).value in mem
    ensures MappedTable(va) in tree && Translation(mem, root, va) == Some(tree[MappedTable(va)] + va % PAGE_SIZE)
    ensures var mem' := LeafWritten(mem, Walk(mem, root, TablePath(1, va)).value, PageIndex(1, va), UNUSED);
      && IsTree(mem', root, Pruned(tree, MappedTable(va)))
      && Represents(mem', root, PrunedView(view, MappedTable(va)))
  {
    WalkStaysInMemory(mem, root, tree, TablePath(1, va));
    ReservedLink(mem, root, tree, va);
    PruneKeepsTree(mem, root, tree, Strip(TablePath(1, va)), PageIndex(1, va));
    PruneView(mem, root, tree, view, Strip(TablePath(1, va)), PageIndex(1, va));
  }

  /** A write into the table at `q` is not met on the way to a table that is no deeper. */
  lemma {:induction false} WalkMissesWrite(mem: Memory, root: PhysAddr, tree: Tree, q: Path, i: Index, e: Entry,
                                           p: Path)
    requires IsTree(mem, root, tree) && q in tree && p in tree && Depth(p) <= Depth(q)
    ensures Walk(LeafWritten(mem, tree[q], i, e), root, p) == Some(tree[p])
  {
    if p.Step? {
      assert Hangs(mem, tree, p);
      WalkMissesWrite(mem, root, tree, q, i, e, p.parent);
      assert Apart(tree, p.parent, q);
    }
  }

  /** No tables whatever make a tree of memory in which a slot above level 1 holds a word that is
      neither zero nor a link. */
  lemma NoTreeWithBadLink(mem: Memory, root: PhysAddr, tree: Tree, q: Path, i: Index, e: Entry, tree': Tree)
    requires IsTree(mem, root, tree) && q in tree && Depth(q) < 3
    requires if q.Root? && i == RESERVED_SLOT then e != Entry(root, FLAGS_RW) else !e.IsUnused() && e.flags != FLAGS_RWX
    ensures !IsTree(LeafWritten(mem, tree[q], i, e), root, tree')
  {
    var mem' := LeafWritten(mem, tree[q], i, e);
    if IsTree(mem', root, tree') {
      WalkMissesWrite(mem, root, tree, q, i, e, q);
      HangsOutside(mem, root, tree, q);
      WalkIsLookup(mem', root, tree', q);
      SlotAboveLeaf(mem', root, tree', q, i);
    }
  }

  /** In a tree such a slot is zero, or a link, or the self map. */
  lemma SlotAboveLeaf(mem: Memory, root: PhysAddr, tree: Tree, q: Path, i: Index)
    requires IsTree(mem, root, tree) && q in tree && Depth(q) < 3
    ensures var e := mem[tree[q]][i];
      if q.Root? && i == RESERVED_SLOT then e == Entry(root, FLAGS_RW) else e.IsUnused() || e.flags == FLAGS_RWX
  {
    assert Vacant(mem, tree, q, i);
    assert Step(q, i) in tree ==> Hangs(mem, tree, Step(q, i));
  }

  lemma {:induction false} HangsOutside(mem: Memory, root: PhysAddr, tree: Tree, p: Path)
    requires IsTree(mem, root, tree) && p in tree
    ensures Outside(p)
  {
    assert Hangs(mem, tree, p);
    if p.Step? && p.parent.Step? {
      HangsOutside(mem, root, tree, p.parent);
    }
  }
}
