/** Whole runs of page-table operations, and what a mapped block looks like. */
module PageTableRuns {
  import opened Outcomes
  import opened Arch
  import opened FrameAllocation
  import opened TableTree
  import opened PageBlocks
  import opened PageTable

  /** Page `i` of a mapped block leads to frame `i`.  (A zero word leaves its page unmapped.) */
  lemma {:induction false} PagesAt(pages: nat, from: PhysAddr, to: VirtAddr, flags: Flags, i: nat)
    requires InRange(pages, from, to) && i < pages
    ensures var e := Entry(from + Bytes(i), flags);
      && (NthPage(to, i) in Pages(pages, from, to, flags) <==> !e.IsUnused())
      && (!e.IsUnused() ==> Pages(pages, from, to, flags)[NthPage(to, i)] == e)
  {
    if i < pages - 1 {
      PagesAt(pages - 1, from, to, flags, i);
    } else if NthPage(to, i) in Pages(i, from, to, flags) {
      PagesOnly(i, from, to, flags, NthPage(to, i));
    }
  }

  /** A mapped block holds nothing but its own pages. */
  lemma {:induction false} PagesOnly(pages: nat, from: PhysAddr, to: VirtAddr, flags: Flags, page: VirtAddr)
    requires InRange(pages, from, to) && page in Pages(pages, from, to, flags)
    ensures exists i: nat :: i < pages && page == NthPage(to, i)
  {
    if page != NthPage(to, pages - 1) {
      PagesOnly(pages - 1, from, to, flags, page);
    }
  }

  /** After a block was added to a view, all its pages are mapped, unless its first word is zero. */
  lemma BlockIsMapped(view: PageMap, pages: nat, from: PhysAddr, to: VirtAddr, flags: Flags)
    requires InRange(pages, from, to) && NoneMapped(view, pages, to)
    ensures AllMapped(view + Pages(pages, from, to, flags), pages, to) <==> pages == 0 || !Entry(from, flags).IsUnused()
  {
    forall i: nat | i < pages
      ensures NthPage(to, i) in view + Pages(pages, from, to, flags) <==> !Entry(from + Bytes(i), flags).IsUnused()
    {
      PagesAt(pages, from, to, flags, i);
    }
    if pages > 0 && Entry(from, flags).IsUnused() {
      assert NthPage(to, 0) !in view + Pages(pages, from, to, flags);
    }
  }

  /** Taking the pages of a block away again restores the view it was added to. */
  lemma BlockRemoved(view: PageMap, pages: nat, from: PhysAddr, to: VirtAddr, flags: Flags)
    requires InRange(pages, from, to) && NoneMapped(view, pages, to)
    ensures (view + Pages(pages, from, to, flags)) - PageBases(pages, to) == view
  {
    var bases, added := PageBases(pages, to), Pages(pages, from, to, flags);
    forall page: VirtAddr
      ensures page in view ==> page !in bases
      ensures page in added ==> page in bases
    {
      PageBasesAre(pages, to, page);
      if page in added {
        PagesOnly(pages, from, to, flags, page);
      }
    }
  }

  /** While pages of a fully mapped block remain, the next one to unmap is there. */
  lemma NextIsMapped(view: PageMap, pages: nat, to: VirtAddr, k: nat)
    requires AllMapped(view, pages, to) && k < pages
    ensures VirtBlock(k + 1, to)
    ensures UnmapPages(view, k, to).Some? ==> NthPage(to, k) in UnmapPages(view, k, to).value
  {
    BlockUnmapped(view, k, to);
    LaterPageNotAmong(k, to);
  }

  lemma BlockBytes(pages: nat, to: VirtAddr)
    requires VirtBlock(pages, to)
    ensures Bytes(pages) < VIRT_LIMIT
  {
    assert Canonical(to);
  }

  /** Mapping a block, then unmapping it up to the first page that is not mapped, comes back to the same
      page map, unless the first word of the block is zero. */
  lemma RoundTrip(view: PageMap, spec: Spec, pages: nat, from: PhysAddr, to: VirtAddr, flags: Flags,
                  unmapped: nat, spec': Spec)
    requires InRange(pages, from, to) && Mapping(view, pages, from, to, flags, spec.view)
    requires unmapped <= pages && Unmapping(spec, unmapped, to, spec')
    requires unmapped < pages ==> NthPage(to, unmapped) !in spec'.view
    ensures unmapped == pages <==> pages == 0 || !Entry(from, flags).IsUnused()
    ensures unmapped == pages ==> spec'.view == view
  {
    BlockMapped(view, pages, from, to, flags);
    BlockIsMapped(view, pages, from, to, flags);
    BlockRemoved(view, pages, from, to, flags);
    FewerReserved(pages, unmapped, to);
    if unmapped < pages && AllMapped(spec.view, pages, to) {
      NextIsMapped(spec.view, pages, to, unmapped);
    }
    BlockUnmapped(spec.view, pages, to);
  }

  /** `map_contiguous` followed by `unmap_contiguous` of the same block restores the page map, unless
      the first word of the block is zero (frame 0 without flags): such a page counts as unmapped, and
      then the second call fails. */
  method MapThenUnmap(pt: RecursivePageTable, pages: nat, from: PhysAddr, to: VirtAddr, flags: Flags,
                      fa: FrameAllocator)
    returns (mapping: PagingResult, unmapping: PagingResult)
    requires pt.Serves(fa)
    modifies pt`memory, pt`spec, fa
    ensures pt.Valid()
    ensures mapping.Ok? ==> (unmapping.Ok? <==> pages == 0 || !Entry(from, flags).IsUnused())
    ensures mapping.Ok? && unmapping.Ok? ==> pt.spec.view == old(pt.spec.view)
  {
    var mapped, unmapped;
    mapping, mapped := pt.MapContiguous(pages, from, to, flags, fa);
    unmapping := Ok(Unit);
    if mapping.Ok? {
      ghost var spec := pt.spec;
      unmapping, unmapped := UnmapOutside(pt, pages, to);
      RoundTrip(old(pt.spec.view), spec, pages, from, to, flags, unmapped, pt.spec);
    }
  }

  /** `unmap_contiguous` of a block outside the reserved slot. */
  method UnmapOutside(pt: RecursivePageTable, pages: nat, to: VirtAddr) returns (r: PagingResult, unmapped: nat)
    requires pt.Valid() && VirtBlock(pages, to) && NoneReserved(pages, to)
    modifies pt`memory, pt`spec
    ensures pt.Valid() && unmapped <= pages
    ensures Unmapping(old(pt.spec), unmapped, to, pt.spec)
    ensures r.Ok? <==> unmapped == pages
    ensures unmapped < pages ==> NthPage(to, unmapped) !in pt.spec.view
  {
    BlockBytes(pages, to);
    r, unmapped := pt.UnmapContiguous(pages, to);
    FewerReserved(pages, unmapped, to);
    NoSelfMapCleared(pt.memory, pt.lvl4, pt.spec, unmapped, to);
    if unmapped < pages {
      FewerReserved(pages, unmapped + 1, to);
    }
  }

  /** A new page table in a frame of its own; running out of frames halts. */
  method NewPageTable(fa: FrameAllocator, ram: Memory) returns (r: Outcome<RecursivePageTable, Unit>)
    requires fa.Valid()
    modifies fa
    ensures r.Ok? ==>
      && fresh(r.value) && r.value.Serves(fa)
      && r.value.spec.view == map[] && r.value.Others(fa) == old(fa.issued)
      && r.value.spec.tree.Keys == {Root}
    ensures !r.Err? && fa.Valid() && Advanced(old(fa.backend), fa.backend, 1)
    ensures r.Ok? <==> CanGrant(old(fa.backend), 1)
  {
    var frame := fa.Alloc();
    if !frame.Ok? {
      return Panic;
    }
    var pt := new RecursivePageTable(frame.value, ram);
    assert pt.spec.tree.Values == {frame.value} by {
      assert pt.spec.tree[Root] == frame.value;
    }
    return Ok(pt);
  }

  // ---------------------------------------------------------------- runs

  datatype Operation =
    | DoMap(from: PhysAddr, to: VirtAddr, flags: Flags)
    | DoMapContiguous(pages: nat, from: PhysAddr, to: VirtAddr, flags: Flags)
    | DoUpdateFlags(to: VirtAddr, flags: Flags)
    | DoUnmap(to: VirtAddr)
    | DoUnmapContiguous(pages: nat, to: VirtAddr)

  /** `map` guards the reserved slot itself; the others leave that to the caller. */
  predicate KeepsOut(op: Operation) {
    match op
    case DoUpdateFlags(to, _) => !Reserved(to)
    case DoUnmap(to) => !Reserved(to)
    case DoUnmapContiguous(pages, to) => NoneReserved(pages, to)
    case _ => true
  }

  /** What an operation with outcome `r`, after `count` pages of a block, does to the page map. */
  ghost predicate Effect(op: Operation, r: PagingResult, count: nat, view: PageMap, view': PageMap) {
    match op
    case DoMap(from, to, flags) =>
      if r.Ok? then PageBase(to) !in view && view' == Put(view, PageBase(to), Entry(from, flags)) else view' == view
    case DoMapContiguous(pages, from, to, flags) =>
      count <= pages && (r.Ok? ==> count == pages) && InRange(count, from, to)
      && Mapping(view, count, from, to, flags, view')
    case DoUpdateFlags(to, flags) =>
      if PageBase(to) in view then view' == Put(view, PageBase(to), view[PageBase(to)].(flags := flags))
      else view' == view
    case DoUnmap(to) =>
      view' == view - {PageBase(to)} && (r.Ok? <==> PageBase(to) in view)
    case DoUnmapContiguous(pages, to) =>
      count <= pages && (r.Ok? ==> count == pages) && VirtBlock(count, to)
      && UnmapPages(view, count, to) == Some(view')
  }

  method Perform(pt: RecursivePageTable, fa: FrameAllocator, op: Operation) returns (r: PagingResult, count: nat)
    requires pt.Serves(fa) && KeepsOut(op)
    modifies pt`memory, pt`spec, fa
    ensures pt.Serves(fa) && pt.Others(fa) == old(pt.Others(fa))
    ensures Effect(op, r, count, old(pt.spec.view), pt.spec.view)
  {
    count := 0;
    match op
    case DoMap(from, to, flags) => r := pt.Map(from, to, flags, fa);
    case DoMapContiguous(pages, from, to, flags) => r, count := pt.MapContiguous(pages, from, to, flags, fa);
    case DoUpdateFlags(to, flags) => r := pt.UpdateFlags(to, flags);
    case DoUnmap(to) => r := pt.Unmap(to);
    case DoUnmapContiguous(pages, to) =>
      r, count := pt.UnmapContiguous(pages, to);
      FewerReserved(pages, count, to);
      NoSelfMapCleared(pt.memory, pt.lvl4, pt.spec, count, to);
  }

  /** Every run of operations, on any allocator, until the first halt: the tables stay a tree whose
      frames the allocator granted, no granted frame is lost, and the page map changes exactly as the
      operations and their outcomes say. */
  method Run(pt: RecursivePageTable, fa: FrameAllocator, ops: seq<Operation>)
    returns (outcomes: seq<PagingResult>, counts: seq<nat>, ghost views: seq<PageMap>)
    requires pt.Serves(fa) && forall op | op in ops :: KeepsOut(op)
    modifies pt`memory, pt`spec, fa
    ensures pt.Serves(fa) && pt.Others(fa) == old(pt.Others(fa))
    ensures |outcomes| == |counts| <= |ops| && |views| == |outcomes| + 1
    ensures |outcomes| < |ops| ==> |outcomes| > 0 && outcomes[|outcomes| - 1].Panic?
    ensures views[0] == old(pt.spec.view) && views[|outcomes|] == pt.spec.view
    ensures forall i | 0 <= i < |outcomes| :: Effect(ops[i], outcomes[i], counts[i], views[i], views[i + 1])
  {
    outcomes, counts, views := [], [], [pt.spec.view];
    while |outcomes| < |ops|
      invariant pt.Serves(fa) && pt.Others(fa) == old(pt.Others(fa))
      invariant |outcomes| == |counts| <= |ops| && |views| == |outcomes| + 1
      invariant views[0] == old(pt.spec.view) && views[|outcomes|] == pt.spec.view
      invariant forall i | 0 <= i < |outcomes| :: Effect(ops[i], outcomes[i], counts[i], views[i], views[i + 1])
    {
      assert ops[|outcomes|] in ops;
      var r, count := Perform(pt, fa, ops[|outcomes|]);
      outcomes, counts, views := outcomes + [r], counts + [count], views + [pt.spec.view];
      if r.Panic? {
        break;
      }
    }
  }
}
