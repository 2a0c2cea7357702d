/** What holds in every state whose page tables form a tree. */
module TreeTheorems {
  import opened Outcomes
  import opened Arch
  import opened TableTree
  import opened TreePruning

  // ---------------------------------------------------------------- the self map

  /** The address inside the reserved slot through which the table of `level` that serves `va`
      can be read. */
  function SelfMapAddress(level: nat, va: VirtAddr, offset: nat): VirtAddr
    requires 1 <= level <= 4 && offset < PAGE_SIZE
  {
    var i4, i3, i2 := PageIndex(4, va), PageIndex(3, va), PageIndex(2, va);
    if level == 1 then MakeAddress(RESERVED_SLOT, i4, i3, i2, offset)
    else if level == 2 then MakeAddress(RESERVED_SLOT, RESERVED_SLOT, i4, i3, offset)
    else if level == 3 then MakeAddress(RESERVED_SLOT, RESERVED_SLOT, RESERVED_SLOT, i4, offset)
    else MakeAddress(RESERVED_SLOT, RESERVED_SLOT, RESERVED_SLOT, RESERVED_SLOT, offset)
  }

  /** The path obtained by going once around the reserved slot first. */
  function Around(p: Path): Path {
    if p.Root? then Step(Root, RESERVED_SLOT) else Step(Around(p.parent), p.index)
  }

  /** `n` rounds through the reserved slot, then `p`. */
  function Rounds(n: nat, p: Path): Path {
    if n == 0 then p else Rounds(n - 1, Around(p))
  }

  /** The path of the level-1 entry that serves `va`. */
  function LeafPath(va: VirtAddr): Path {
    Step(TablePath(1, va), PageIndex(1, va))
  }

  lemma {:induction false} WalkAround(mem: Memory, root: PhysAddr, tree: Tree, p: Path)
    requires IsTree(mem, root, tree)
    ensures Walk(mem, root, Around(p)) == Walk(mem, root, p)
  {
    if p.Step? {
      WalkAround(mem, root, tree, p.parent);
    }
  }

  /** Going around the reserved slot first changes nothing. */
  lemma {:induction false} WalkRounds(mem: Memory, root: PhysAddr, tree: Tree, n: nat, p: Path)
    requires IsTree(mem, root, tree)
    ensures Walk(mem, root, Rounds(n, p)) == Walk(mem, root, p)
  {
    if n > 0 {
      WalkAround(mem, root, tree, p);
      WalkRounds(mem, root, tree, n - 1, Around(p));
    }
  }

  /** Translating is reading one more entry below the level-1 table. */
  lemma TranslationIsWalk(mem: Memory, root: PhysAddr, tree: Tree, va: VirtAddr)
    requires IsTree(mem, root, tree)
    ensures Translation(mem, root, va) ==
      match Walk(mem, root, LeafPath(va))
      case None => None
      case Some(f) => Some(f + va % PAGE_SIZE)
  {
    WalkStaysInMemory(mem, root, tree, TablePath(1, va));
  }

  /** The path that translating a self-map address follows: the path of the table, with as many
      rounds through the reserved slot in front as make it four steps long. */
  lemma SelfMapPath(level: nat, va: VirtAddr, offset: nat)
    requires 1 <= level <= 4 && offset < PAGE_SIZE
    ensures var at := SelfMapAddress(level, va, offset);
      && at % PAGE_SIZE == offset
      && LeafPath(at) == Rounds(level, TablePath(level, va))
  {
    var i4, i3, i2 := PageIndex(4, va), PageIndex(3, va), PageIndex(2, va);
    var p, r := TablePath(level, va), RESERVED_SLOT;
    var p1 := Step(Root, i4);
    var p2 := Step(p1, i3);
    assert Around(p1) == Step(Step(Root, r), i4) && Around(p2) == Step(Around(p1), i3);
    if level == 1 {
      MakeAddressIndices(r, i4, i3, i2, offset);
      assert Around(p) == Step(Around(p2), i2);
      assert Rounds(1, p) == Rounds(0, Around(p));
    } else if level == 2 {
      MakeAddressIndices(r, r, i4, i3, offset);
      assert Around(Around(p1)) == Step(Step(Step(Root, r), r), i4);
      assert Around(Around(p)) == Step(Around(Around(p1)), i3);
      assert Rounds(2, p) == Rounds(1, Around(p)) == Rounds(0, Around(Around(p)));
    } else if level == 3 {
      MakeAddressIndices(r, r, r, i4, offset);
      assert Around(Around(p)) == Step(Step(Step(Root, r), r), i4);
      assert Around(Around(Around(p))) == Step(Step(Step(Step(Root, r), r), r), i4);
      assert Rounds(3, p) == Rounds(1, Around(Around(p)));
    } else {
      MakeAddressIndices(r, r, r, r, offset);
      assert Around(Around(Around(p))) == Step(Step(Step(Root, r), r), r);
      assert Around(Around(Around(Around(p)))) == Step(Step(Step(Step(Root, r), r), r), r);
      assert Rounds(4, p) == Rounds(2, Around(Around(p)));
    }
  }

  /** Self-map theorem: the table of any level that serves any address is visible, byte for byte, at
      its self-map address, and that address is unmapped exactly when the table does not exist. */
  lemma SelfMap(mem: Memory, root: PhysAddr, tree: Tree, level: nat, va: VirtAddr, offset: nat)
    requires IsTree(mem, root, tree) && 1 <= level <= 4 && offset < PAGE_SIZE
    ensures Translation(mem, root, SelfMapAddress(level, va, offset)) ==
      match Walk(mem, root, TablePath(level, va))
      case None => None
      case Some(f) => Some(f + offset)
  {
    SelfMapPath(level, va, offset);
    TranslationIsWalk(mem, root, tree, SelfMapAddress(level, va, offset));
    WalkRounds(mem, root, tree, level, TablePath(level, va));
  }

  // ---------------------------------------------------------------- effective permissions

  /** The entry that the last step of a path reads. */
  function EntryAt(mem: Memory, root: PhysAddr, p: Path): Entry
    requires p.Step?
  {
    match Walk(mem, root, p.parent)
    case None => UNUSED
    case Some(f) => if f in mem then mem[f][p.index] else UNUSED
  }

  /** A permission bit the processor takes from all entries on the way (present, writable). */
  predicate AllGrant(mem: Memory, root: PhysAddr, p: Path, bit: nat) {
    p.Step? ==> bit in EntryAt(mem, root, p).flags && AllGrant(mem, root, p.parent, bit)
  }

  /** A restriction the processor takes from any entry on the way (no-execute). */
  predicate AnyForbids(mem: Memory, root: PhysAddr, p: Path, bit: nat) {
    p.Step? && (bit in EntryAt(mem, root, p).flags || AnyForbids(mem, root, p.parent, bit))
  }

  /** The links to an existing table grant everything and forbid nothing. */
  lemma {:induction false} LinksArePermissive(mem: Memory, root: PhysAddr, tree: Tree, p: Path)
    requires IsTree(mem, root, tree) && p in tree && Outside(p)
    ensures AllGrant(mem, root, p, 0) && AllGrant(mem, root, p, 1)
    ensures !AnyForbids(mem, root, p, 63)
  {
    if p.Step? {
      assert Hangs(mem, tree, p);
      WalkIsLookup(mem, root, tree, p.parent);
      LinksArePermissive(mem, root, tree, p.parent);
    }
  }

  /** What the processor permits at an address is what `flags` say: it is present if bit 0 is set in every
      entry on the way, writable if bit 1 is, and not executable if any of them has bit 63. */
  predicate Permits(mem: Memory, root: PhysAddr, va: VirtAddr, flags: Flags) {
    && (AllGrant(mem, root, LeafPath(va), 0) <==> 0 in flags)
    && (AllGrant(mem, root, LeafPath(va), 1) <==> 1 in flags)
    && (AnyForbids(mem, root, LeafPath(va), 63) <==> 63 in flags)
  }

  /** Effective permissions of a mapped page are exactly those its own entry asks for. */
  lemma EffectivePermissions(mem: Memory, root: PhysAddr, tree: Tree, view: PageMap, va: VirtAddr)
    requires IsTree(mem, root, tree) && Represents(mem, root, view) && !Reserved(va) && PageBase(va) in view
    ensures var flags := view[PageBase(va)].flags;
      && (AllGrant(mem, root, LeafPath(va), WRITABLE) <==> WRITABLE in flags)
      && (AllGrant(mem, root, LeafPath(va), PRESENT) <==> PRESENT in flags)
      && (AnyForbids(mem, root, LeafPath(va), NO_EXECUTE) <==> NO_EXECUTE in flags)
      && Permits(mem, root, va, flags)
  {
    LeafSummary(mem, root, tree, view, va);
    LinksArePermissive(mem, root, tree, TablePath(1, va));
  }

  /** Tables seen through the reserved slot may be read and written, but not executed. */
  lemma SlotPermissions(mem: Memory, root: PhysAddr, tree: Tree, va: VirtAddr)
    requires IsTree(mem, root, tree) && Reserved(va) && !Leaf(mem, root, va).IsUnused()
    ensures Permits(mem, root, va, {0, 1, 63})
  {
    ReservedLink(mem, root, tree, va);
    var p := TablePath(1, va);
    assert Depth(p) == 3;
    GrantedOnTheWay(mem, root, tree, p);
    SlotAboveLeaf(mem, root, tree, Strip(p), PageIndex(1, va));
    SlotIs(va);
    assert AnyForbids(mem, root, p.parent.parent, 63);
    assert AnyForbids(mem, root, p.parent, 63);
  }

  /** A walk to a table, through the reserved slot or not, is granted reading and writing. */
  lemma {:induction false} GrantedOnTheWay(mem: Memory, root: PhysAddr, tree: Tree, p: Path)
    requires IsTree(mem, root, tree) && Depth(p) <= 3 && Walk(mem, root, p).Some?
    ensures AllGrant(mem, root, p, 0) && AllGrant(mem, root, p, 1)
  {
    if p.Step? {
      GrantedOnTheWay(mem, root, tree, p.parent);
      WalkStaysInMemory(mem, root, tree, p.parent);
      SlotAboveLeaf(mem, root, tree, Strip(p.parent), p.index);
    }
  }

  // ---------------------------------------------------------------- writes through the reserved slot

  ghost predicate SomeTree(mem: Memory, root: PhysAddr) {
    exists tree :: IsTree(mem, root, tree)
  }

  /** What the code may write into the entry of a mapped address is zero, or the same frame with other
      flags.  The tables are a tree afterwards exactly when nothing changes, or the address is outside
      the reserved slot, or a link other than the self map is cleared. */
  lemma WritingKeepsTreeIff(mem: Memory, root: PhysAddr, tree: Tree, va: VirtAddr, e: Entry)
    requires IsTree(mem, root, tree) && !Leaf(mem, root, va).IsUnused()
    requires e.IsUnused() || e.addr == Leaf(mem, root, va).addr
    ensures Walk(mem, root, TablePath(1, va)).Some? && Walk(mem, root, TablePath(1, va)).value in mem
    ensures var f := Walk(mem, root, TablePath(1, va)).value;
      SomeTree(LeafWritten(mem, f, PageIndex(1, va), e), root) <==>
        e == Leaf(mem, root, va) || !Reserved(va) || (e.IsUnused() && !SelfMapPage(va))
  {
    var p, i := TablePath(1, va), PageIndex(1, va);
    WalkStaysInMemory(mem, root, tree, p);
    var f := Walk(mem, root, p).value;
    var mem' := LeafWritten(mem, f, i, e);
    if e == Leaf(mem, root, va) {
      assert mem[f][i := e] == mem[f];
      assert mem' == mem;
      assert IsTree(mem', root, tree);
    } else if !Reserved(va) {
      WalkIsLookup(mem, root, tree, p);
      LeafWriteKeepsTree(mem, root, tree, p, i, e);
      assert IsTree(mem', root, tree);
    } else {
      ReservedLink(mem, root, tree, va);
      if e.IsUnused() && !SelfMapPage(va) {
        PruneKeepsTree(mem, root, tree, Strip(p), i);
        assert IsTree(mem', root, Pruned(tree, Step(Strip(p), i)));
      } else {
        forall tree'
          ensures !IsTree(mem', root, tree')
        {
          NoTreeWithBadLink(mem, root, tree, Strip(p), i, e, tree');
        }
      }
    }
  }

  /** In particular, clearing a mapped entry leaves a tree unless it is the self map. */
  lemma ClearingKeepsTreeIff(mem: Memory, root: PhysAddr, tree: Tree, va: VirtAddr)
    requires IsTree(mem, root, tree) && !Leaf(mem, root, va).IsUnused()
    ensures Walk(mem, root, TablePath(1, va)).Some? && Walk(mem, root, TablePath(1, va)).value in mem
    ensures var f := Walk(mem, root, TablePath(1, va)).value;
      SomeTree(LeafWritten(mem, f, PageIndex(1, va), UNUSED), root) <==> !SelfMapPage(va)
  {
    WritingKeepsTreeIff(mem, root, tree, va, UNUSED);
    assert SelfMapPage(va) ==> Reserved(va);
    if SelfMapPage(va) {
      ReservedLink(mem, root, tree, va);
    }
  }

  /** And new flags leave one exactly outside the reserved slot, or when they are the old ones.  (Without
      any flag, a link to frame 0 is the zero word, and is cleared.) */
  lemma ReflaggingKeepsTreeIff(mem: Memory, root: PhysAddr, tree: Tree, va: VirtAddr, flags: Flags)
    requires IsTree(mem, root, tree) && !Leaf(mem, root, va).IsUnused()
    ensures Walk(mem, root, TablePath(1, va)).Some? && Walk(mem, root, TablePath(1, va)).value in mem
    ensures var f, leaf := Walk(mem, root, TablePath(1, va)).value, Leaf(mem, root, va);
      SomeTree(LeafWritten(mem, f, PageIndex(1, va), leaf.(flags := flags)), root) <==>
        !Reserved(va) || flags == leaf.flags || (flags == {} && leaf.addr == 0 && !SelfMapPage(va))
  {
    WritingKeepsTreeIff(mem, root, tree, va, Leaf(mem, root, va).(flags := flags));
  }

  /** The self-map page is mapped in every state, and no tables make a tree once it is cleared. */
  lemma ClearingSelfMapBreaksTree(mem: Memory, root: PhysAddr, tree: Tree)
    requires IsTree(mem, root, tree)
    ensures var va := MakeAddress(510, 510, 510, 510, 0);
      && Translation(mem, root, va) == Some(root) && SelfMapPage(va)
      && Walk(mem, root, TablePath(1, va)) == Some(root) && root in mem
      && !SomeTree(LeafWritten(mem, root, PageIndex(1, va), UNUSED), root)
  {
    var va := MakeAddress(510, 510, 510, 510, 0);
    MakeAddressIndices(510, 510, 510, 510, 0);
    SelfMap(mem, root, tree, 4, va, 0);
    assert Strip(TablePath(1, va)) == Root by {
      assert Strip(Step(Root, RESERVED_SLOT)) == Root;
      assert Strip(Step(Step(Root, RESERVED_SLOT), RESERVED_SLOT)) == Root;
    }
    WalkStripped(mem, root, tree, TablePath(1, va));
    ClearingKeepsTreeIff(mem, root, tree, va);
  }
}
