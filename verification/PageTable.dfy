/** The recursive page table: the operations that write the tables in place. */
module PageTable {
  import opened Outcomes
  import opened Arch
  import opened FrameAllocation
  import opened TableTree
  import opened TreePruning
  import opened PageBlocks

  class RecursivePageTable {
    var lvl4: PhysAddr
    var memory: Memory
    ghost var spec: Spec

    ghost predicate Valid()
      reads this
    {
      Realizes(memory, lvl4, spec)
    }

    /** The allocator is sound and accounts for every table. */
    ghost predicate Serves(fa: FrameAllocator)
      reads this, fa
    {
      match spec
      case Spec(tree, _) => Valid() && fa.Valid() && tree.Values <= fa.issued
    }

    /** The frames granted for anything but page tables. */
    ghost function Others(fa: FrameAllocator): set<PhysAddr>
      reads this, fa
    {
      fa.issued - spec.tree.Values
    }

    /** A zeroed level-4 table in `frame`, its reserved slot pointing to itself. */
    constructor (frame: PhysAddr, ram: Memory)
      requires Aligned(frame)
      ensures Valid() && spec.view == map[] && spec.tree == map[Root := frame] && lvl4 == frame
    {
      lvl4 := frame;
      memory := ram[frame := ZeroTable()[RESERVED_SLOT := Entry(frame, FLAGS_RW)]];
      spec := Spec(map[Root := frame], map[]);
      new;
      FreshRootIsTree(memory, lvl4, spec.tree);
    }

    /** The table of `targetLevel` that serves `to`, following the entries from the root. */
    method GetPageTable(targetLevel: nat, to: VirtAddr) returns (r: Option<PhysAddr>)
      requires Valid() || (SelfMapCleared(memory, lvl4) && Reserved(to))
      requires 1 <= targetLevel <= 4
      ensures r == Walk(memory, lvl4, TablePath(targetLevel, to))
      ensures r.Some? ==> r.value in memory
    {
      var currentTable := lvl4;
      for level := 0 to 4 - targetLevel
        invariant Walk(memory, lvl4, TablePath(4 - level, to)) == Some(currentTable)
        invariant currentTable in memory && (Valid() || level == 0)
      {
        var entry := memory[currentTable][PageIndex(4 - level, to)];
        assert TablePath(3 - level, to) == Step(TablePath(4 - level, to), PageIndex(4 - level, to));
        if entry.IsUnused() {
          MissingStaysMissing(memory, lvl4, to, 3 - level, targetLevel);
          return None;
        }
        currentTable := entry.addr;
        WalkStaysInMemory(memory, lvl4, spec.tree, TablePath(3 - level, to));
      }
      return Some(currentTable);
    }

    /** Maps the page of `to` to the frame at `from`.

        A granted frame always becomes a table of the tree, whatever the outcome; only success
        touches the view, and then at one page.  Every outcome holds exactly under its own condition:
        reserved slot; already mapped; a request for a missing table refused; a halt, because the
        linear allocator runs off the end of physical memory or `from` is misaligned; success. */
    method Map(from: PhysAddr, to: VirtAddr, flags: Flags, fa: FrameAllocator) returns (r: PagingResult)
      requires Serves(fa)
      modifies this`memory, this`spec, fa
      ensures Serves(fa)
      ensures Others(fa) == old(Others(fa)) && Advanced(old(fa.backend), fa.backend, 3)
      ensures r.Ok? ==> !Reserved(to) && PageBase(to) !in old(spec.view)
      ensures r.Ok? ==> spec.view == Put(old(spec.view), PageBase(to), Entry(from, flags))
      ensures !r.Ok? ==> spec.view == old(spec.view)
      ensures r == Err(AttemptedMappingToReserved(to)) <==> Reserved(to)
      ensures r == Err(AlreadyMapped(to)) <==> !Reserved(to) && PageBase(to) in old(spec.view)
      ensures r == Err(TableAllocationFailed) <==>
        !Reserved(to) && fa.backend.Scripted? && !CanGrant(old(fa.backend), old(MissingTables(spec.tree, to)))
      ensures r.Panic? <==>
        && !Reserved(to) && PageBase(to) !in old(spec.view)
        && if CanGrant(old(fa.backend), old(MissingTables(spec.tree, to))) then !Aligned(from) else fa.backend.Linear?
      ensures r.Err? ==> r.error in {AttemptedMappingToReserved(to), AlreadyMapped(to), TableAllocationFailed}
    {
      SlotIs(to);
      if PageIndex(4, to) == RESERVED_SLOT {
        return Err(AttemptedMappingToReserved(to));
      }
      ghost var top := TablePath(4, to);
      for level := 1 to 5
        invariant Valid() && fa.Valid() && spec.tree == old(spec.tree) && spec.view == old(spec.view)
        invariant fa.issued == old(fa.issued) && fa.backend == old(fa.backend)
        invariant forall l | 1 <= l < level :: TablePath(l, to) !in spec.tree
      {
        var found := GetPageTable(level, to);
        WalkIsLookup(memory, lvl4, spec.tree, TablePath(level, to));
        if found.Some? {
          r := MapFrom(level, found.value, from, to, flags, fa);
          return;
        }
      }
      assert false;  // the `unreachable!` in `map`: the root always exists
    }

    /** Creates the levels below the lowest existing one and writes the leaf. */
    method MapFrom(level: nat, found: PhysAddr, from: PhysAddr, to: VirtAddr, flags: Flags, fa: FrameAllocator)
      returns (r: PagingResult)
      requires Serves(fa)
      requires 1 <= level <= 4 && !Reserved(to)
      requires TablePath(level, to) in spec.tree && spec.tree[TablePath(level, to)] == found
      requires forall l | 1 <= l < level :: TablePath(l, to) !in spec.tree
      modifies this`memory, this`spec, fa
      ensures Serves(fa)
      ensures Others(fa) == old(Others(fa)) && Advanced(old(fa.backend), fa.backend, 3)
      ensures r.Ok? ==> PageBase(to) !in old(spec.view)
      ensures r.Ok? ==> spec.view == Put(old(spec.view), PageBase(to), Entry(from, flags))
      ensures !r.Ok? ==> spec.view == old(spec.view)
      ensures r == Err(AlreadyMapped(to)) <==> PageBase(to) in old(spec.view)
      ensures r == Err(TableAllocationFailed) <==> fa.backend.Scripted? && !CanGrant(old(fa.backend), level - 1)
      ensures r.Panic? <==>
        && PageBase(to) !in old(spec.view)
        && if CanGrant(old(fa.backend), level - 1) then !Aligned(from) else fa.backend.Linear?
      ensures r.Err? ==> r.error in {AlreadyMapped(to), TableAllocationFailed}
    {
      LeafSummary(memory, lvl4, spec.tree, spec.view, to);
      var created := CreateLevels(level, found, to, fa);
      if !created.Ok? {
        return if created.Panic? then Panic else Err(created.error);
      }
      var table, i := created.value, PageIndex(1, to);
      LeafSummary(memory, lvl4, spec.tree, spec.view, to);
      if !memory[table][i].IsUnused() {
        return Err(AlreadyMapped(to));
      }
      if !Aligned(from) {
        return Panic;
      }
      WriteLeaf(memory, lvl4, spec.tree, spec.view, to, Entry(from, flags));
      spec := spec.(view := Put(spec.view, PageBase(to), Entry(from, flags)));
      memory := memory[table := memory[table][i := Entry(from, flags)]];
      return Ok(Unit);
    }

    /** The inner loop of `Map`: from the lowest existing table down to level 1. */
    method CreateLevels(level: nat, found: PhysAddr, to: VirtAddr, fa: FrameAllocator)
      returns (r: Outcome<PhysAddr, PagingError>)
      requires Serves(fa)
      requires 1 <= level <= 4 && !Reserved(to)
      requires TablePath(level, to) in spec.tree && spec.tree[TablePath(level, to)] == found
      requires forall l | 1 <= l < level :: TablePath(l, to) !in spec.tree
      modifies this`memory, this`spec, fa
      ensures Serves(fa) && spec.view == old(spec.view)
      ensures Others(fa) == old(Others(fa)) && Advanced(old(fa.backend), fa.backend, level - 1)
      ensures r.Ok? ==> TablePath(1, to) in spec.tree && spec.tree[TablePath(1, to)] == r.value
      ensures r.Ok? <==> CanGrant(old(fa.backend), level - 1)
      ensures r.Err? ==> r.error == TableAllocationFailed && fa.backend.Scripted?
      ensures r.Panic? ==> fa.backend.Linear?
    {
      var currentTable := found;
      var newLevel := level;
      while newLevel >= 2
        invariant 1 <= newLevel <= level
        invariant Serves(fa) && spec.view == old(spec.view)
        invariant Others(fa) == old(Others(fa)) && Advanced(old(fa.backend), fa.backend, level - newLevel)
        invariant CanGrant(old(fa.backend), level - 1) <==> CanGrant(fa.backend, newLevel - 1)
        invariant TablePath(newLevel, to) in spec.tree && spec.tree[TablePath(newLevel, to)] == currentTable
        invariant forall l | 1 <= l < newLevel :: TablePath(l, to) !in spec.tree
      {
        CanGrantNext(fa.backend, newLevel - 2);
        var next := AddLevel(newLevel, currentTable, to, fa);
        if !next.Ok? {
          return next;
        }
        currentTable := next.value;
        newLevel := newLevel - 1;
      }
      return Ok(currentTable);
    }

    /** One round of that loop: a fresh zeroed table in an entry that is certain to be unused. */
    method AddLevel(newLevel: nat, currentTable: PhysAddr, to: VirtAddr, fa: FrameAllocator)
      returns (r: Outcome<PhysAddr, PagingError>)
      requires Serves(fa)
      requires 2 <= newLevel <= 4 && !Reserved(to)
      requires TablePath(newLevel, to) in spec.tree && spec.tree[TablePath(newLevel, to)] == currentTable
      requires TablePath(newLevel - 1, to) !in spec.tree
      modifies this`memory, this`spec, fa
      ensures Serves(fa) && spec.view == old(spec.view)
      ensures Others(fa) == old(Others(fa)) && Advanced(old(fa.backend), fa.backend, 1)
      ensures r.Ok? ==> spec.tree == old(spec.tree)[TablePath(newLevel - 1, to) := r.value]
      ensures !r.Ok? ==> spec.tree == old(spec.tree)
      ensures fa.backend == Asked(old(fa.backend)) && (r.Ok? <==> CanGrant(old(fa.backend), 1))
      ensures r.Err? ==> r.error == TableAllocationFailed && fa.backend.Scripted?
      ensures r.Panic? ==> fa.backend.Linear?
    {
      var i := PageIndex(newLevel, to);
      ghost var p := TablePath(newLevel, to);
      assert Step(p, i) == TablePath(newLevel - 1, to);
      assert Vacant(memory, spec.tree, p, i);
      assert memory[currentTable][i].IsUnused();  // the `assert!` in `map`
      var frame := fa.Alloc();
      if frame.Err? {
        return Err(TableAllocationFailed);
      }
      if frame.Panic? {
        return Panic;
      }
      LinkTable(memory, lvl4, spec.tree, spec.view, p, i, frame.value);
      LinkValues(spec.tree, Step(p, i), frame.value);
      memory := memory[currentTable := memory[currentTable][i := Entry(frame.value, FLAGS_RWX)]];
      memory := memory[frame.value := ZeroTable()];
      spec := spec.(tree := spec.tree[Step(p, i) := frame.value]);
      return Ok(frame.value);
    }

    /** Replaces the flags of a page and keeps its frame.  An address without a level-1 table is
        accepted silently. */
    method UpdateFlags(to: VirtAddr, flags: Flags) returns (r: PagingResult)
      requires Valid()
      modifies this`memory, this`spec
      ensures !Reserved(to) ==> Valid()
      ensures spec.tree == old(spec.tree)
      ensures !Reserved(to) && PageBase(to) in old(spec.view) ==>
        spec.view == Put(old(spec.view), PageBase(to), old(spec.view)[PageBase(to)].(flags := flags))
      ensures !Reserved(to) && PageBase(to) !in old(spec.view) ==> spec.view == old(spec.view)
      ensures r == if old(Walk(memory, lvl4, TablePath(1, to))).Some? && old(Leaf(memory, lvl4, to)).IsUnused()
                   then Err(NotMapped(to)) else Ok(Unit)
      ensures old(Leaf(memory, lvl4, to)).IsUnused() ==> memory == old(memory)
      ensures !old(Leaf(memory, lvl4, to)).IsUnused() ==>
        memory == LeafWritten(old(memory), old(Walk(memory, lvl4, TablePath(1, to))).value, PageIndex(1, to),
                              old(Leaf(memory, lvl4, to)).(flags := flags))
    {
      var table := GetPageTable(1, to);
      WalkStaysInMemory(memory, lvl4, spec.tree, TablePath(1, to));
      if !Reserved(to) {
        LeafSummary(memory, lvl4, spec.tree, spec.view, to);
      }
      if table.Some? {
        var i := PageIndex(1, to);
        var entry := memory[table.value][i];
        if entry.IsUnused() {
          return Err(NotMapped(to));
        }
        if !Reserved(to) {
          WriteLeaf(memory, lvl4, spec.tree, spec.view, to, entry.(flags := flags));
          spec := spec.(view := Put(spec.view, PageBase(to), entry.(flags := flags)));
        }
        memory := memory[table.value := memory[table.value][i := entry.(flags := flags)]];
      }
      return Ok(Unit);
    }

    /** Clears the entry of one page.  Tables that become empty are kept.  Through the reserved slot it
        clears the link to a table, and the tree loses that table and all below it; no tables are a tree
        once it cleared the self map. */
    method Unmap(address: VirtAddr) returns (r: PagingResult)
      requires Valid() || (SelfMapCleared(memory, lvl4) && Reserved(address))
      modifies this`memory, this`spec
      ensures r == if old(Leaf(memory, lvl4, address)).IsUnused() then Err(NotMapped(address)) else Ok(Unit)
      ensures r.Err? ==> memory == old(memory) && spec == old(spec)
      ensures r.Ok? ==>
        && memory == LeafWritten(old(memory), old(Walk(memory, lvl4, TablePath(1, address))).value,
                                 PageIndex(1, address), UNUSED)
        && spec == Unmapped(old(spec), address)
      ensures r.Ok? ==> old(Valid())
      ensures old(Valid()) && !SelfMapPage(address) ==> Valid()
      ensures r.Ok? && SelfMapPage(address) ==> SelfMapCleared(memory, lvl4)
      ensures old(Valid()) && !Reserved(address) ==> (r.Ok? <==> PageBase(address) in old(spec.view))
    {
      var table := GetPageTable(1, address);
      UnmapCases(address);
      if table.Some? {
        var i := PageIndex(1, address);
        if memory[table.value][i].IsUnused() {
          return Err(NotMapped(address));
        }
        memory := memory[table.value := memory[table.value][i := UNUSED]];
        spec := Unmapped(spec, address);
        return Ok(Unit);
      }
      return Err(NotMapped(address));
    }

    /** What clearing the entry does, from the state before. */
    lemma UnmapCases(va: VirtAddr)
      requires Valid() || (SelfMapCleared(memory, lvl4) && Reserved(va))
      ensures Valid() && !Reserved(va) ==> (PageBase(va) in spec.view <==> !Leaf(memory, lvl4, va).IsUnused())
      ensures var table := Walk(memory, lvl4, TablePath(1, va));
        Leaf(memory, lvl4, va).IsUnused() || (
          && Valid() && table.Some? && table.value in memory
          && var memory' := LeafWritten(memory, table.value, PageIndex(1, va), UNUSED);
            && (!SelfMapPage(va) ==>
                 IsTree(memory', lvl4, Unmapped(spec, va).tree) && Represents(memory', lvl4, Unmapped(spec, va).view))
            && (SelfMapPage(va) ==> lvl4 in memory' && memory'[lvl4][RESERVED_SLOT].IsUnused()))
    {
      if !Valid() {
        MissingStaysMissing(memory, lvl4, va, 3, 1);
      } else if !Reserved(va) {
        SelfMapPageIsReserved(va);
        LeafSummary(memory, lvl4, spec.tree, spec.view, va);
        if !Leaf(memory, lvl4, va).IsUnused() {
          WriteLeaf(memory, lvl4, spec.tree, spec.view, va, UNUSED);
        }
      } else if !Leaf(memory, lvl4, va).IsUnused() {
        ReservedLink(memory, lvl4, spec.tree, va);
        if !SelfMapPage(va) {
          ClearingDetachesTable(memory, lvl4, spec.tree, spec.view, va);
        }
      }
    }

    /** The physical address behind a virtual one. */
    method Translate(from: VirtAddr) returns (r: Option<nat>)
      requires Valid()
      ensures r == Translation(memory, lvl4, from)
      ensures !Reserved(from) && PageBase(from) in spec.view ==>
        r == Some(spec.view[PageBase(from)].addr + from % PAGE_SIZE)
      ensures !Reserved(from) && PageBase(from) !in spec.view ==> r == None
    {
      var table := GetPageTable(1, from);
      if !Reserved(from) {
        LeafInView(memory, lvl4, spec.view, from);
      }
      if table.Some? {
        var entry := memory[table.value][PageIndex(1, from)];
        if entry.IsUnused() {
          return None;
        }
        return Some(entry.addr + from % PAGE_SIZE);
      }
      return None;
    }

    /** Maps `pages` consecutive pages to consecutive frames, one by one; `mapped` is how many of them
        succeeded, and exactly those are in the view, whatever the outcome. */
    method MapContiguous(pages: nat, from: PhysAddr, to: VirtAddr, flags: Flags, fa: FrameAllocator)
      returns (r: PagingResult, mapped: nat)
      requires Serves(fa)
      modifies this`memory, this`spec, fa
      ensures Serves(fa) && Others(fa) == old(Others(fa))
      ensures BlockMapping(r, Change(old(spec.view), spec.view), pages, mapped, from, to, flags,
                           old(fa.backend), fa.backend)
    {
      if Bytes(pages) >= VIRT_LIMIT {
        NothingMapped(spec.view, pages, from, to, flags, fa.backend);
        return Panic, 0;
      }
      r, mapped := MapBlock(pages, from, to, flags, fa);
      BlockEnds(r, Change(old(spec.view), spec.view), pages, mapped, from, to, flags, old(fa.backend), fa.backend);
    }

    /** The loop of `MapContiguous`. */
    method MapBlock(pages: nat, from: PhysAddr, to: VirtAddr, flags: Flags, fa: FrameAllocator)
      returns (r: PagingResult, mapped: nat)
      requires Serves(fa)
      modifies this`memory, this`spec, fa
      ensures Serves(fa) && Others(fa) == old(Others(fa))
      ensures if r.Ok? then mapped == pages else mapped < pages
      ensures EndedAfter(r, Change(old(spec.view), spec.view), mapped, from, to, flags, old(fa.backend), fa.backend)
    {
      r, mapped := Ok(Unit), 0;
      NoProgress(spec.view, from, to, flags, fa.backend);
      while mapped < pages
        invariant mapped <= pages && (mapped > 0 ==> Bytes(mapped - 1) < Bytes(pages))
        invariant Serves(fa) && Others(fa) == old(Others(fa))
        invariant Progress(Change(old(spec.view), spec.view), mapped, from, to, flags, old(fa.backend), fa.backend)
        invariant r.Ok?
      {
        ghost var view, backend := spec.view, fa.backend;
        r := MapNth(mapped, from, to, flags, fa);
        ProgressNext(r, old(spec.view), view, spec.view, mapped, from, to, flags,
                     old(fa.backend), backend, fa.backend);
        if !r.Ok? {
          break;
        }
        mapped := mapped + 1;
      }
    }

    /** One round of that loop: page `k` of the block. */
    method MapNth(k: nat, from: PhysAddr, to: VirtAddr, flags: Flags, fa: FrameAllocator) returns (r: PagingResult)
      requires Serves(fa) && InRange(k, from, to)
      modifies this`memory, this`spec, fa
      ensures Serves(fa) && Others(fa) == old(Others(fa)) && Advanced(old(fa.backend), fa.backend, 3)
      ensures NthMapped(r, Change(old(spec.view), spec.view), k, from, to, flags, old(fa.backend))
    {
      if from + Bytes(k) >= PHYS_LIMIT || !Canonical(to + Bytes(k)) {
        LeavesRange(k, from, to);
        return Panic;
      }
      StaysInRange(k, from, to);
      AlignedStep(from, k);
      NthPageBase(to, k);
      r := Map(from + Bytes(k), Nth(to, k), flags, fa);
      LinearRoom(old(fa.backend), old(MissingTables(spec.tree, Nth(to, k))));
    }

    /** Unmaps `pages` consecutive pages one by one, stopping at the first that is not mapped. */
    method UnmapContiguous(pages: nat, address: VirtAddr) returns (r: PagingResult, unmapped: nat)
      requires Valid()
      modifies this`memory, this`spec
      ensures unmapped <= pages && (r.Ok? <==> unmapped == pages)
      ensures Bytes(pages) >= VIRT_LIMIT ==> r.Panic? && unmapped == 0 && Valid() && spec == old(spec)
      ensures Bytes(pages) < VIRT_LIMIT ==> UnmapEnded(r, old(spec), spec, memory, lvl4, unmapped, address)
    {
      if Bytes(pages) >= VIRT_LIMIT {
        return Panic, 0;
      }
      r, unmapped := UnmapBlock(pages, address);
    }

    /** The loop of `UnmapContiguous`. */
    method UnmapBlock(pages: nat, address: VirtAddr) returns (r: PagingResult, unmapped: nat)
      requires Valid()
      modifies this`memory, this`spec
      ensures unmapped <= pages && (r.Ok? <==> unmapped == pages)
      ensures UnmapEnded(r, old(spec), spec, memory, lvl4, unmapped, address)
    {
      r, unmapped := Ok(Unit), 0;
      NothingUnmapped(spec, memory, lvl4, address);
      while unmapped < pages
        invariant unmapped <= pages && (unmapped > 0 ==> Bytes(unmapped - 1) < Bytes(pages))
        invariant UnmapProgress(old(spec), spec, memory, lvl4, unmapped, address)
        invariant r.Ok?
      {
        ghost var before, mem := spec, memory;
        r := UnmapNth(unmapped, address);
        UnmapProgressNext(r, old(spec), before, spec, mem, memory, lvl4, unmapped, address);
        if !r.Ok? {
          break;
        }
        unmapped := unmapped + 1;
      }
    }

    /** One round of that loop: page `k` of the block.  (After the self map the block goes on in the
        reserved slot, where nothing is mapped any more.) */
    method UnmapNth(k: nat, address: VirtAddr) returns (r: PagingResult)
      requires VirtBlock(k, address) && ClearedUpTo(memory, lvl4, spec, k, address)
      modifies this`memory, this`spec
      ensures NthUnmapped(r, old(spec), spec, memory, lvl4, k, address)
    {
      if !Canonical(address + Bytes(k)) {
        LeavesRange(k, 0, address);
        return Panic;
      }
      StaysInRange(k, 0, address);
      NthPageBase(address, k);
      if k > 0 {
        SlotGoesOn(address, k);
      }
      r := Unmap(Nth(address, k));
    }
  }

  lemma FreshRootIsTree(mem: Memory, root: PhysAddr, tree: Tree)
    requires Aligned(root) && tree == map[Root := root]
    requires root in mem && mem[root] == ZeroTable()[RESERVED_SLOT := Entry(root, FLAGS_RW)]
    ensures IsTree(mem, root, tree) && Represents(mem, root, map[])
  {
    assert Placed(mem, tree);
    assert IsTree(mem, root, tree);
    forall v: VirtAddr | Aligned(v) && !Reserved(v)
      ensures Leaf(mem, root, v).IsUnused()
    {
      LeafFromTree(mem, root, tree, v);
    }
  }

  lemma LinkValues(tree: Tree, p: Path, f: PhysAddr)
    requires p !in tree
    ensures tree[p := f].Values == tree.Values + {f}
  {
    var tree' := tree[p := f];
    assert tree'[p] == f;
    forall q | q in tree
      ensures tree[q] in tree'.Values
    {
      assert tree'[q] == tree[q];
    }
  }
}
