/** Blocks of consecutive pages, and what mapping and unmapping them makes of a page map. */
module PageBlocks {
  import opened Outcomes
  import opened Arch
  import opened FrameAllocation
  import opened TableTree
  import opened TreePruning

  datatype PagingError =
    | AttemptedMappingToReserved(addr: VirtAddr)
    | NotMapped(addr: VirtAddr)
    | AlreadyMapped(addr: VirtAddr)
    | TableAllocationFailed

  type PagingResult = Outcome<Unit, PagingError>

  /** How many tables are missing between the root and the level-1 table that serves `va`. */
  ghost function MissingTables(tree: Tree, va: VirtAddr): (n: nat)
    ensures n <= 3
  {
    if TablePath(1, va) in tree then 0
    else if TablePath(2, va) in tree then 1
    else if TablePath(3, va) in tree then 2
    else 3
  }

  /** An allocator stays of its kind, and a linear one moves on by at most `frames` frames. */
  predicate Advanced(before: Backend, after: Backend, frames: nat) {
    match before
    case Linear(next) => after.Linear? && next <= after.next <= next + Bytes(frames)
    case Scripted(_) => after.Scripted?
  }

  /** `pages` page steps from `to` stay canonical: the last one is in the half `to` is in. */
  predicate VirtBlock(pages: nat, to: VirtAddr) {
    pages == 0 || to + Bytes(pages - 1) < if to < LOW_HALF_END then LOW_HALF_END else VIRT_LIMIT
  }

  /** No address of the two blocks leaves its address space. */
  predicate InRange(pages: nat, from: PhysAddr, to: VirtAddr) {
    VirtBlock(pages, to) && (pages == 0 || from + Bytes(pages - 1) < PHYS_LIMIT)
  }

  /** The address `i` pages after `to`. */
  function Nth(to: VirtAddr, i: nat): VirtAddr
    requires VirtBlock(i + 1, to)
  {
    assert Canonical(to);
    to + Bytes(i)
  }

  /** The base of the page `i` pages after that of `to`. */
  function NthPage(to: VirtAddr, i: nat): VirtAddr
    requires VirtBlock(i + 1, to)
  {
    assert Canonical(to);
    PageBase(to) + Bytes(i)
  }

  lemma NthPageBase(to: VirtAddr, i: nat)
    requires VirtBlock(i + 1, to)
    ensures PageBase(Nth(to, i)) == NthPage(to, i)
  {
  }

  /** The page map that maps `pages` consecutive pages from `to` to consecutive frames from `from`. */
  ghost function Pages(pages: nat, from: PhysAddr, to: VirtAddr, flags: Flags): PageMap
    requires InRange(pages, from, to)
  {
    if pages == 0 then map[]
    else
      var i := pages - 1;
      Put(Pages(i, from, to, flags), NthPage(to, i), Entry(from + Bytes(i), flags))
  }

  /** `view` after mapping the first `pages` pages of a block one by one, provided that each of them
      was unmapped when its turn came. */
  ghost function MapPages(view: PageMap, pages: nat, from: PhysAddr, to: VirtAddr, flags: Flags): Option<PageMap>
    requires InRange(pages, from, to)
  {
    if pages == 0 then Some(view)
    else
      var i := pages - 1;
      MapNext(MapPages(view, i, from, to, flags), NthPage(to, i), Entry(from + Bytes(i), flags))
  }

  ghost function MapNext(view: Option<PageMap>, page: VirtAddr, e: Entry): Option<PageMap> {
    if view.None? || page in view.value then None else Some(Put(view.value, page, e))
  }

  /** No address of the block lies in the reserved slot. */
  predicate NoneReserved(pages: nat, to: VirtAddr) {
    pages == 0 || (NoneReserved(pages - 1, to) && (VirtBlock(pages, to) ==> !Reserved(Nth(to, pages - 1))))
  }

  lemma {:induction false} BlockOutsideSlot(pages: nat, to: VirtAddr)
    requires to + Bytes(pages) <= SLOT_LOW || SLOT_HIGH <= to
    ensures NoneReserved(pages, to)
  {
    if pages > 0 {
      BlockOutsideSlot(pages - 1, to);
    }
  }

  lemma {:induction false} FewerReserved(pages: nat, k: nat, to: VirtAddr)
    requires NoneReserved(pages, to) && k <= pages
    ensures NoneReserved(k, to)
  {
    if k < pages {
      FewerReserved(pages - 1, k, to);
    }
  }

  /** `view'` is what mapping the first `pages` pages of the block, none of them reserved, makes of `view`. */
  ghost predicate Mapping(view: PageMap, pages: nat, from: PhysAddr, to: VirtAddr, flags: Flags, view': PageMap)
    requires InRange(pages, from, to)
  {
    match MapPages(view, pages, from, to, flags)
    case None => false
    case Some(v) => v == view' && NoneReserved(pages, to)
  }

  lemma MappingNext(view0: PageMap, view: PageMap, view': PageMap, k: nat, from: PhysAddr, to: VirtAddr, flags: Flags)
    requires InRange(k + 1, from, to) && Mapping(view0, k, from, to, flags, view)
    requires !Reserved(Nth(to, k)) && NthPage(to, k) !in view
    requires view' == Put(view, NthPage(to, k), Entry(from + Bytes(k), flags))
    ensures Mapping(view0, k + 1, from, to, flags, view')
  {
  }

  /** `view` after unmapping the first `pages` pages of a block one by one, provided that each of them
      was mapped when its turn came. */
  ghost function UnmapPages(view: PageMap, pages: nat, to: VirtAddr): Option<PageMap>
    requires VirtBlock(pages, to)
  {
    if pages == 0 then Some(view) else UnmapNext(UnmapPages(view, pages - 1, to), NthPage(to, pages - 1))
  }

  ghost function UnmapNext(view: Option<PageMap>, page: VirtAddr): Option<PageMap> {
    if view.None? || page !in view.value then None else Some(view.value - {page})
  }

  /** The bases of `pages` consecutive pages from `to`. */
  ghost function PageBases(pages: nat, to: VirtAddr): set<VirtAddr>
    requires VirtBlock(pages, to)
  {
    if pages == 0 then {} else PageBases(pages - 1, to) + {NthPage(to, pages - 1)}
  }

  ghost predicate AllMapped(view: PageMap, pages: nat, to: VirtAddr) {
    VirtBlock(pages, to) && forall i: nat | i < pages :: NthPage(to, i) in view
  }

  ghost predicate NoneMapped(view: PageMap, pages: nat, to: VirtAddr) {
    VirtBlock(pages, to) && forall i: nat | i < pages :: NthPage(to, i) !in view
  }

  /** What the tables stand for: their tree, and their translations outside the reserved slot. */
  datatype Spec = Spec(tree: Tree, view: PageMap)

  /** The memory below the root is a tree whose translations outside the reserved slot are the view. */
  ghost predicate Realizes(mem: Memory, root: PhysAddr, spec: Spec) {
    match spec
    case Spec(tree, view) => IsTree(mem, root, tree) && Represents(mem, root, view)
  }

  /** The self map is cleared: nothing is left of the reserved slot. */
  ghost predicate SelfMapCleared(mem: Memory, root: PhysAddr) {
    root in mem && mem[root][RESERVED_SLOT].IsUnused()
  }

  /** The tables are a tree, unless the last of `k` pages that were cleared was the self map. */
  ghost predicate ClearedUpTo(mem: Memory, root: PhysAddr, spec: Spec, k: nat, to: VirtAddr) {
    Realizes(mem, root, spec) || (k > 0 && VirtBlock(k, to) && SelfMapPage(Nth(to, k - 1)) && SelfMapCleared(mem, root))
  }

  /** Outside the reserved slot, they are. */
  lemma NoSelfMapCleared(mem: Memory, root: PhysAddr, spec: Spec, k: nat, to: VirtAddr)
    requires ClearedUpTo(mem, root, spec, k, to) && NoneReserved(k, to)
    ensures Realizes(mem, root, spec)
  {
    if k > 0 && VirtBlock(k, to) {
      SelfMapPageIsReserved(Nth(to, k - 1));
    }
  }

  /** Why unmapping page `k` of a block ended with `r`, if not well: the page is not mapped, or leaves
      the address space. */
  ghost predicate UnmapStopped(r: PagingResult, k: nat, to: VirtAddr, mem: Memory, root: PhysAddr, view: PageMap) {
    match r
    case Ok(_) => true
    case Err(error) =>
      && VirtBlock(k + 1, to)
      && error == NotMapped(Nth(to, k)) && Leaf(mem, root, Nth(to, k)).IsUnused()
      && (!Reserved(Nth(to, k)) ==> NthPage(to, k) !in view)
    case Panic => !VirtBlock(k + 1, to)
  }

  /** What clearing the entry of a mapped address makes of it.  Inside the reserved slot a table is
      detached, with every page it serves. */
  ghost function Unmapped(spec: Spec, va: VirtAddr): Spec {
    if !Reserved(va) then spec.(view := spec.view - {PageBase(va)})
    else if SelfMapPage(va) then spec
    else Spec(Pruned(spec.tree, MappedTable(va)), PrunedView(spec.view, MappedTable(va)))
  }

  /** The same for the first `pages` pages of a block. */
  ghost function UnmappedBlock(spec: Spec, pages: nat, to: VirtAddr): Spec
    requires VirtBlock(pages, to)
  {
    if pages == 0 then spec else Unmapped(UnmappedBlock(spec, pages - 1, to), Nth(to, pages - 1))
  }

  /** Why mapping page `k` of a block ended with `r`, if not well: the page is reserved, or already in
      the view; a table was refused; or a halt, because `from` is misaligned, page or frame leave their
      address space, or the linear allocator, in state `backend`, has no room for `frames` more. */
  ghost predicate Stopped(r: PagingResult, k: nat, from: PhysAddr, to: VirtAddr, view: PageMap,
                          backend: Backend, frames: nat)
  {
    match r
    case Ok(_) => true
    case Err(TableAllocationFailed) => backend.Scripted?
    case Err(error) =>
      && VirtBlock(k + 1, to)
      && if Reserved(Nth(to, k)) then error == AttemptedMappingToReserved(Nth(to, k))
         else error == AlreadyMapped(Nth(to, k)) && NthPage(to, k) in view
    case Panic => !Aligned(from) || !InRange(k + 1, from, to) || (backend.Linear? && !CanGrant(backend, frames))
  }

  /** A page map before and after a step. */
  datatype Change = Change(before: PageMap, after: PageMap)

  /** What mapping page `k` of a block does: it puts that page in, or stops and changes nothing. */
  ghost predicate NthMapped(r: PagingResult, change: Change, k: nat, from: PhysAddr, to: VirtAddr, flags: Flags,
                            backend: Backend)
  {
    match r
    case Ok(_) =>
      && InRange(k + 1, from, to)
      && !Reserved(Nth(to, k)) && NthPage(to, k) !in change.before
      && change.after == Put(change.before, NthPage(to, k), Entry(from + Bytes(k), flags))
    case _ => change.after == change.before && Stopped(r, k, from, to, change.after, backend, 3)
  }

  /** The first `k` pages of a block are mapped, with at most three frames for each. */
  ghost predicate Progress(change: Change, k: nat, from: PhysAddr, to: VirtAddr, flags: Flags,
                           first: Backend, now: Backend)
  {
    match change
    case Change(view, view') =>
      InRange(k, from, to) && Mapping(view, k, from, to, flags, view') && Advanced(first, now, 3 * k)
  }

  /** Mapping the first pages of a block ended with `r` after `k` of them; if it stopped, it had a cause. */
  ghost predicate EndedAfter(r: PagingResult, change: Change, k: nat, from: PhysAddr, to: VirtAddr, flags: Flags,
                             first: Backend, now: Backend)
  {
    match change
    case Change(view, view') =>
      && InRange(k, from, to) && Mapping(view, k, from, to, flags, view')
      && Advanced(first, now, if r.Ok? then 3 * k else 3 * (k + 1))
      && Stopped(r, k, from, to, view', first, 3 * (k + 1))
  }

  /** What mapping `pages` pages of a block comes to: the first `mapped` of them are in, which is all of
      them exactly on success, and where it stops there is a cause. */
  ghost predicate BlockMapping(r: PagingResult, change: Change, pages: nat, mapped: nat, from: PhysAddr, to: VirtAddr,
                               flags: Flags, first: Backend, now: Backend)
  {
    match r
    case Ok(_) =>
      && mapped == pages && InRange(mapped, from, to) && Mapping(change.before, mapped, from, to, flags, change.after)
      && Advanced(first, now, 3 * pages) && Bytes(pages) < VIRT_LIMIT
    case _ =>
      && mapped < pages && InRange(mapped, from, to) && Mapping(change.before, mapped, from, to, flags, change.after)
      && Advanced(first, now, 3 * pages)
      && if Bytes(pages) >= VIRT_LIMIT then r.Panic? && mapped == 0
         else Stopped(r, mapped, from, to, change.after, first, 3 * (mapped + 1))
  }

  lemma NothingMapped(view: PageMap, pages: nat, from: PhysAddr, to: VirtAddr, flags: Flags, backend: Backend)
    requires Bytes(pages) >= VIRT_LIMIT
    ensures BlockMapping(Panic, Change(view, view), pages, 0, from, to, flags, backend, backend)
  {
  }

  lemma BlockEnds(r: PagingResult, change: Change, pages: nat, mapped: nat, from: PhysAddr, to: VirtAddr,
                  flags: Flags, first: Backend, now: Backend)
    requires Bytes(pages) < VIRT_LIMIT && (if r.Ok? then mapped == pages else mapped < pages)
    requires EndedAfter(r, change, mapped, from, to, flags, first, now)
    ensures BlockMapping(r, change, pages, mapped, from, to, flags, first, now)
  {
  }

  lemma NoProgress(view: PageMap, from: PhysAddr, to: VirtAddr, flags: Flags, backend: Backend)
    ensures Progress(Change(view, view), 0, from, to, flags, backend, backend)
  {
  }

  /** One more page, or the end. */
  lemma ProgressNext(r: PagingResult, view0: PageMap, view: PageMap, view': PageMap, k: nat, from: PhysAddr,
                     to: VirtAddr, flags: Flags, first: Backend, before: Backend, after: Backend)
    requires Progress(Change(view0, view), k, from, to, flags, first, before)
    requires NthMapped(r, Change(view, view'), k, from, to, flags, before) && Advanced(before, after, 3)
    ensures r.Ok? ==> Progress(Change(view0, view'), k + 1, from, to, flags, first, after)
    ensures !r.Ok? ==> EndedAfter(r, Change(view0, view'), k, from, to, flags, first, after)
  {
    if r.Ok? {
      MappingNext(view0, view, view', k, from, to, flags);
    }
  }

  /** `spec'` is what unmapping the first `pages` pages of a block, all of them mapped, makes of `spec`;
      outside the reserved slot, just these pages leave the view. */
  ghost predicate Unmapping(spec: Spec, pages: nat, to: VirtAddr, spec': Spec) {
    match spec
    case Spec(tree, view) =>
      && VirtBlock(pages, to) && spec' == UnmappedBlock(spec, pages, to)
      && (NoneReserved(pages, to) ==> spec'.tree == tree && UnmapPages(view, pages, to) == Some(spec'.view))
  }

  /** The first `k` pages of a block are unmapped. */
  ghost predicate UnmapProgress(spec0: Spec, spec: Spec, mem: Memory, root: PhysAddr, k: nat, to: VirtAddr) {
    Unmapping(spec0, k, to, spec) && ClearedUpTo(mem, root, spec, k, to)
  }

  /** What unmapping page `k` of a block does. */
  ghost predicate NthUnmapped(r: PagingResult, spec: Spec, spec': Spec, mem: Memory, root: PhysAddr,
                              k: nat, to: VirtAddr)
  {
    match r
    case Ok(_) =>
      && VirtBlock(k + 1, to) && ClearedUpTo(mem, root, spec', k + 1, to)
      && spec' == Unmapped(spec, Nth(to, k))
      && (!Reserved(Nth(to, k)) ==> NthPage(to, k) in spec.view)
    case _ =>
      && spec' == spec && ClearedUpTo(mem, root, spec, k, to)
      && UnmapStopped(r, k, to, mem, root, spec.view)
  }

  /** Unmapping the first pages of a block ended with `r` after `k` of them; if it stopped, it had a cause. */
  ghost predicate UnmapEnded(r: PagingResult, spec0: Spec, spec: Spec, mem: Memory, root: PhysAddr,
                             k: nat, to: VirtAddr)
  {
    UnmapProgress(spec0, spec, mem, root, k, to) && UnmapStopped(r, k, to, mem, root, spec.view)
  }

  lemma NothingUnmapped(spec: Spec, mem: Memory, root: PhysAddr, to: VirtAddr)
    requires Realizes(mem, root, spec)
    ensures UnmapProgress(spec, spec, mem, root, 0, to)
  {
  }

  /** One more page, or the end. */
  lemma UnmapProgressNext(r: PagingResult, spec0: Spec, spec: Spec, spec': Spec, mem: Memory, mem': Memory,
                          root: PhysAddr, k: nat, to: VirtAddr)
    requires UnmapProgress(spec0, spec, mem, root, k, to) && NthUnmapped(r, spec, spec', mem', root, k, to)
    ensures r.Ok? ==> UnmapProgress(spec0, spec', mem', root, k + 1, to)
    ensures !r.Ok? ==> UnmapEnded(r, spec0, spec', mem', root, k, to)
  {
    if r.Ok? {
      NthPageBase(to, k);
    }
  }

  /** The page after the self map is in the reserved slot too. */
  lemma SlotGoesOn(address: VirtAddr, k: nat)
    requires k > 0 && VirtBlock(k + 1, address)
    ensures SelfMapPage(Nth(address, k - 1)) ==> Reserved(Nth(address, k))
  {
    if SelfMapPage(Nth(address, k - 1)) {
      SelfMapPageIs(Nth(address, k - 1));
      SlotIs(Nth(address, k));
    }
  }

  lemma SelfMapPageIs(va: VirtAddr)
    requires SelfMapPage(va)
    ensures 0xFFFF_FF7F_BFDF_E000 <= va < 0xFFFF_FF7F_BFDF_F000
  {
    MakeAddressInverse(va);
  }

  lemma LinearRoom(backend: Backend, frames: nat)
    requires frames <= 3
    ensures backend.Linear? && CanGrant(backend, 3) ==> CanGrant(backend, frames)
  {
  }

  /** Mapping a block page by page adds exactly its pages, none of which was mapped. */
  lemma {:induction false} BlockMapped(view: PageMap, pages: nat, from: PhysAddr, to: VirtAddr, flags: Flags)
    requires InRange(pages, from, to) && MapPages(view, pages, from, to, flags).Some?
    ensures MapPages(view, pages, from, to, flags) == Some(view + Pages(pages, from, to, flags))
    ensures NoneMapped(view, pages, to)
  {
    if pages == 0 {
      assert view + map[] == view;
    } else {
      var i := pages - 1;
      MapPagesStep(view, i, from, to, flags);
      BlockMapped(view, i, from, to, flags);
      MapIntoUnion(view, Pages(i, from, to, flags), NthPage(to, i), Entry(from + Bytes(i), flags));
      NoneMappedNext(view, i, to);
    }
  }

  /** One step of either recursion over the pages of a block. */
  lemma MapPagesStep(view: PageMap, k: nat, from: PhysAddr, to: VirtAddr, flags: Flags)
    requires InRange(k + 1, from, to)
    ensures var page, e := NthPage(to, k), Entry(from + Bytes(k), flags);
      && MapPages(view, k + 1, from, to, flags) == MapNext(MapPages(view, k, from, to, flags), page, e)
      && Pages(k + 1, from, to, flags) == Put(Pages(k, from, to, flags), page, e)
  {
  }

  lemma MapIntoUnion(view: PageMap, added: PageMap, page: VirtAddr, e: Entry)
    requires MapNext(Some(view + added), page, e).Some?
    ensures MapNext(Some(view + added), page, e) == Some(view + Put(added, page, e))
    ensures page !in view
  {
    assert Put(view + added, page, e) == view + Put(added, page, e);
  }

  lemma NoneMappedNext(view: PageMap, k: nat, to: VirtAddr)
    requires VirtBlock(k + 1, to) && NoneMapped(view, k, to) && NthPage(to, k) !in view
    ensures NoneMapped(view, k + 1, to)
  {
  }

  /** Unmapping a block succeeds exactly when all its pages are mapped, and removes exactly them. */
  lemma {:induction false} BlockUnmapped(view: PageMap, pages: nat, to: VirtAddr)
    requires VirtBlock(pages, to)
    ensures UnmapPages(view, pages, to).Some? <==> AllMapped(view, pages, to)
    ensures UnmapPages(view, pages, to).Some? ==> UnmapPages(view, pages, to).value == view - PageBases(pages, to)
  {
    if pages == 0 {
      assert view - {} == view;
    } else {
      BlockUnmapped(view, pages - 1, to);
      LaterPageNotAmong(pages - 1, to);
      var rest, page := UnmapPages(view, pages - 1, to), NthPage(to, pages - 1);
      assert UnmapPages(view, pages, to) == UnmapNext(rest, page);
      if rest.Some? {
        assert rest.value - {page} == view - PageBases(pages, to);
      }
    }
  }

  lemma StaysInRange(k: nat, from: PhysAddr, to: VirtAddr)
    requires VirtBlock(k, to) && Canonical(to + Bytes(k))
    ensures VirtBlock(k + 1, to)
    ensures InRange(k, from, to) && from + Bytes(k) < PHYS_LIMIT ==> InRange(k + 1, from, to)
  {
    assert Canonical(to);
  }

  lemma LeavesRange(k: nat, from: PhysAddr, to: VirtAddr)
    requires from + Bytes(k) >= PHYS_LIMIT || !Canonical(to + Bytes(k))
    ensures !InRange(k + 1, from, to)
    ensures !Canonical(to + Bytes(k)) ==> !VirtBlock(k + 1, to)
  {
    assert Canonical(to);
  }

  lemma AlignedStep(from: nat, k: nat)
    ensures Aligned(from + Bytes(k)) <==> Aligned(from)
  {
  }

  /** Page k of a block is none of the first k. */
  lemma LaterPageNotAmong(k: nat, to: VirtAddr)
    requires VirtBlock(k + 1, to)
    ensures NthPage(to, k) !in PageBases(k, to)
  {
    PageBasesAre(k, to, NthPage(to, k));
  }

  lemma {:induction false} PageBasesAre(pages: nat, to: VirtAddr, page: VirtAddr)
    requires VirtBlock(pages, to)
    ensures page in PageBases(pages, to) <==> exists i: nat :: i < pages && page == NthPage(to, i)
  {
    if pages > 0 {
      PageBasesAre(pages - 1, to, page);
    }
  }
}
