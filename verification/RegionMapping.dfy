/** Mapping the other regions that are needed after boot, and the two steps together. */
module RegionMapping {
  import opened Outcomes
  import opened Arch
  import opened FrameAllocation
  import opened TableTree
  import opened PageBlocks
  import opened PageTable
  import opened Blocks
  import opened KernelMapping

  datatype RegionType =
    | Usable | Reserved | AcpiReclaimable | AcpiNvs | BadMemory
    | BootloaderReclaimable | ExecutableAndModules | Framebuffer | AcpiTables

  datatype Region = Region(base: nat, length: nat, kind: RegionType)

  predicate MappedKind(kind: RegionType) {
    kind in {Framebuffer, AcpiNvs, AcpiReclaimable, AcpiTables, BootloaderReclaimable}
  }

  /** How a region should be visible at its offset address. */
  function OffsetBlock(region: Region, offset: nat): Block {
    Block(region.base + offset, region.base + offset + region.length, offset, FLAGS_RWX)
  }

  function RegionPlace(region: Region, offset: nat): Interval {
    Cover(region.base + offset, region.base + offset + region.length)
  }

  /** The places of the regions that get mapped. */
  function MiscPlaces(regions: seq<Region>, offset: nat): seq<Interval> {
    if regions == [] then []
    else
      var last := regions[|regions| - 1];
      MiscPlaces(regions[..|regions| - 1], offset) + if MappedKind(last.kind) then [RegionPlace(last, offset)] else []
  }

  /** All regions that are needed later, as far as they start at a page, are offset-mapped. */
  ghost predicate MiscMapped(view: PageMap, regions: seq<Region>, offset: nat) {
    forall i | 0 <= i < |regions| && MappedKind(regions[i].kind) && Aligned(regions[i].base + offset) ::
      Shifted(view, OffsetBlock(regions[i], offset))
  }

  /** Framebuffer, ACPI and boot loader regions get a place at their offset, the others none. */
  lemma PlacesByKind(regions: seq<Region>, region: Region, offset: nat)
    ensures MiscPlaces(regions + [region], offset) == MiscPlaces(regions, offset) +
      match region.kind
      case Framebuffer | AcpiNvs | AcpiReclaimable | AcpiTables | BootloaderReclaimable =>
        [Cover(region.base + offset, region.base + offset + region.length)]
      case Usable | Reserved | BadMemory | ExecutableAndModules => []
  {
    assert (regions + [region])[..|regions|] == regions;
  }

  /** The kinds of region that are needed after boot. */
  predicate NeededKind(kind: RegionType) {
    || kind.Framebuffer? || kind.AcpiNvs? || kind.AcpiReclaimable? || kind.AcpiTables? || kind.BootloaderReclaimable?
  }

  /** After a successful run, every page of a region of one of these kinds leads to its frame, and may be
      read, written and executed. */
  lemma NeededRegionMapped(change: Change, regions: seq<Region>, offset: nat, backend: Backend, j: nat, page: VirtAddr)
    requires RegionsMapped(Ok(Unit), change, regions, offset, backend)
    requires j < |regions| && NeededKind(regions[j].kind)
    requires Aligned(regions[j].base + offset) && Aligned(page)
    requires regions[j].base + offset <= page < regions[j].base + offset + regions[j].length
    ensures page in change.after && change.after[page] == Entry(page - offset, {0, 1})
  {
    ShiftedPage(change.after, OffsetBlock(regions[j], offset), page);
  }

  /** The pages of the regions from number `k` on that get mapped. */
  function MiscPages(regions: seq<Region>, k: nat): nat
    requires k <= |regions|
    decreases |regions| - k
  {
    if k == |regions| then 0 else RegionPages(regions[k]) + MiscPages(regions, k + 1)
  }

  function RegionPages(region: Region): nat {
    if MappedKind(region.kind) then SizeInPages(region.length) else 0
  }

  /** The region, if it gets mapped, can be, and nothing is in its way. */
  ghost predicate RegionClear(view: PageMap, region: Region, offset: nat) {
    MappedKind(region.kind) ==>
      Mappable(region.base, region.base + offset, region.length) && Clear(view, RegionPlace(region, offset))
  }

  predicate RegionsDisjoint(a: Region, b: Region, offset: nat) {
    MappedKind(a.kind) && MappedKind(b.kind) ==> Disjoint(RegionPlace(a, offset), RegionPlace(b, offset))
  }

  /** The regions from number `k` on can all be mapped, one after the other. */
  ghost predicate MiscClear(view: PageMap, regions: seq<Region>, k: nat, offset: nat) {
    && (forall i | k <= i < |regions| :: RegionClear(view, regions[i], offset))
    && forall i, j | k <= i < j < |regions| :: RegionsDisjoint(regions[i], regions[j], offset)
  }

  /** What the loop of `MapMisc` has achieved after the regions seen so far. */
  ghost predicate MiscDone(change: Change, regions: seq<Region>, offset: nat) {
    match change
    case Change(view, view') => Adds(change, MiscPlaces(regions, offset)) && MiscMapped(view', regions, offset)
  }

  /** Why mapping the regions failed: one of them could not be mapped, with the allocator in some state. */
  ghost predicate MiscStopped(r: PagingResult, regions: seq<Region>, offset: nat, view: PageMap) {
    exists k: nat, backend: Backend :: k < |regions| && RegionStopped(r, regions[k], offset, view, backend)
  }

  ghost predicate RegionStopped(r: PagingResult, region: Region, offset: nat, view: PageMap, backend: Backend) {
    MappedKind(region.kind) && BytesStopped(r, region.length, region.base, region.base + offset, view, backend)
  }

  /** What mapping the regions does to a page map; if it fails, they were not clear or there was no room
      for their tables. */
  ghost predicate RegionsMapped(r: PagingResult, change: Change, regions: seq<Region>, offset: nat, backend: Backend) {
    match r
    case Ok(_) => MiscDone(change, regions, offset)
    case _ =>
      && Extends(change.before, change.after) && MiscStopped(r, regions, offset, change.after)
      && !(MiscClear(change.before, regions, 0, offset) && Room(backend, 3 * MiscPages(regions, 0)))
  }

  /** The promise of the loop: what was clear and had room at the start still is and has. */
  ghost predicate StillClear(change: Change, regions: seq<Region>, k: nat, offset: nat, first: Backend, now: Backend)
    requires k <= |regions|
  {
    match change
    case Change(view, view') =>
      && Budget(first, now, 3 * MiscPages(regions, 0), 3 * MiscPages(regions, k))
      && (MiscClear(view, regions, 0, offset) ==> MiscClear(view', regions, k, offset))
  }

  /** Offset-maps the regions that are needed later, skipping the others. */
  method MapMisc(pt: RecursivePageTable, fa: FrameAllocator, regions: seq<Region>, offset: nat)
    returns (r: PagingResult)
    requires pt.Serves(fa)
    modifies pt`memory, pt`spec, fa
    ensures pt.Serves(fa) && pt.Others(fa) == old(pt.Others(fa))
    ensures Advanced(old(fa.backend), fa.backend, 3 * MiscPages(regions, 0))
    ensures RegionsMapped(r, Change(old(pt.spec.view), pt.spec.view), regions, offset, old(fa.backend))
  {
    r := Ok(Unit);
    for k := 0 to |regions|
      invariant pt.Serves(fa) && pt.Others(fa) == old(pt.Others(fa))
      invariant MiscDone(Change(old(pt.spec.view), pt.spec.view), regions[..k], offset)
      invariant StillClear(Change(old(pt.spec.view), pt.spec.view), regions, k, offset, old(fa.backend), fa.backend)
      invariant r.Ok?
    {
      ghost var view, backend := pt.spec.view, fa.backend;
      r := MapRegion(pt, fa, regions[k], offset);
      if !r.Ok? {
        RegionFailed(r, old(pt.spec.view), view, pt.spec.view, regions, k, offset,
                     old(fa.backend), backend, fa.backend);
        return;
      }
      StillClearNext(r, old(pt.spec.view), view, pt.spec.view, regions, k, offset,
                     old(fa.backend), backend, fa.backend);
      MiscDoneNext(r, old(pt.spec.view), view, pt.spec.view, regions, k, offset, backend);
    }
    assert regions[..|regions|] == regions;
    BudgetMeans(old(fa.backend), fa.backend, 3 * MiscPages(regions, 0), 0);
  }

  /** One round of that loop. */
  lemma StillClearNext(r: PagingResult, view0: PageMap, view: PageMap, view': PageMap, regions: seq<Region>, k: nat,
                       offset: nat, first: Backend, before: Backend, after: Backend)
    requires r.Ok? && k < |regions| && StillClear(Change(view0, view), regions, k, offset, first, before)
    requires RegionStep(r, Change(view, view'), regions[k], offset, before)
    requires Advanced(before, after, 3 * RegionPages(regions[k]))
    ensures StillClear(Change(view0, view'), regions, k + 1, offset, first, after)
  {
    BudgetNext(first, before, after, 3 * MiscPages(regions, 0), 3 * RegionPages(regions[k]),
               3 * MiscPages(regions, k + 1));
    if MiscClear(view, regions, k, offset) {
      OthersStayClear(view, view', regions, k, offset);
    }
  }

  /** A round that fails ends it, with a cause: not everything was clear, or there was no room. */
  lemma RegionFailed(r: PagingResult, view0: PageMap, view: PageMap, view': PageMap, regions: seq<Region>, k: nat,
                     offset: nat, first: Backend, before: Backend, after: Backend)
    requires !r.Ok? && k < |regions| && Extends(view0, view)
    requires StillClear(Change(view0, view), regions, k, offset, first, before)
    requires RegionStep(r, Change(view, view'), regions[k], offset, before)
    requires Advanced(before, after, 3 * RegionPages(regions[k]))
    ensures RegionsMapped(r, Change(view0, view'), regions, offset, first)
    ensures Advanced(first, after, 3 * MiscPages(regions, 0))
  {
    BudgetMeans(first, before, 3 * MiscPages(regions, 0), 3 * MiscPages(regions, k));
    BudgetNext(first, before, after, 3 * MiscPages(regions, 0), 3 * RegionPages(regions[k]),
               3 * MiscPages(regions, k + 1));
    BudgetMeans(first, after, 3 * MiscPages(regions, 0), 3 * MiscPages(regions, k + 1));
    RegionNotReady(r, view, view', regions[k], offset, before);
    ExtendsTransitive(view0, view, view');
    RoomFor(before, RegionPages(regions[k]), MiscPages(regions, k));
    if MiscClear(view0, regions, 0, offset) {
      assert RegionClear(view, regions[k], offset);
    }
  }

  lemma RegionNotReady(r: PagingResult, view: PageMap, view': PageMap, region: Region, offset: nat, backend: Backend)
    requires !r.Ok? && RegionStep(r, Change(view, view'), region, offset, backend)
    ensures Extends(view, view') && RegionStopped(r, region, offset, view', backend)
    ensures !(RegionClear(view, region, offset) && Room(backend, 3 * RegionPages(region)))
  {
  }

  /** What one round does: nothing, or the region is mapped. */
  ghost predicate RegionStep(r: PagingResult, change: Change, region: Region, offset: nat, backend: Backend) {
    match region
    case Region(base, length, kind) =>
      if MappedKind(kind) then BytesMapped(r, change, length, base, base + offset, FLAGS_RWX, backend)
      else r.Ok? && change.after == change.before
  }

  lemma OthersStayClear(view: PageMap, view': PageMap, regions: seq<Region>, k: nat, offset: nat)
    requires k < |regions| && MiscClear(view, regions, k, offset)
    requires if MappedKind(regions[k].kind) then Adds(Change(view, view'), [RegionPlace(regions[k], offset)])
             else view' == view
    ensures MiscClear(view', regions, k + 1, offset)
  {
    forall i | k + 1 <= i < |regions|
      ensures RegionClear(view', regions[i], offset)
    {
      assert RegionClear(view, regions[i], offset) && RegionsDisjoint(regions[k], regions[i], offset);
      if MappedKind(regions[k].kind) && MappedKind(regions[i].kind) {
        ClearKept(view, view', [RegionPlace(regions[k], offset)], RegionPlace(regions[i], offset));
      }
    }
  }

  lemma MiscDoneNext(r: PagingResult, view0: PageMap, view: PageMap, view': PageMap, regions: seq<Region>, k: nat,
                     offset: nat, backend: Backend)
    requires r.Ok? && k < |regions| && MiscDone(Change(view0, view), regions[..k], offset)
    requires RegionStep(r, Change(view, view'), regions[k], offset, backend)
    ensures MiscDone(Change(view0, view'), regions[..k + 1], offset)
  {
    MiscPlacesNext(regions, k, offset);
    if MappedKind(regions[k].kind) {
      AddsTransitive(view0, view, view', MiscPlaces(regions[..k], offset), [RegionPlace(regions[k], offset)]);
    }
    MiscMappedNext(view, view', regions, k, offset);
  }

  lemma MiscPlacesNext(regions: seq<Region>, k: nat, offset: nat)
    requires k < |regions|
    ensures MiscPlaces(regions[..k + 1], offset) ==
      if MappedKind(regions[k].kind) then MiscPlaces(regions[..k], offset) + [RegionPlace(regions[k], offset)]
      else MiscPlaces(regions[..k], offset)
  {
    assert regions[..k + 1][..k] == regions[..k];
  }

  lemma MiscMappedNext(view: PageMap, view': PageMap, regions: seq<Region>, k: nat, offset: nat)
    requires k < |regions| && Extends(view, view') && MiscMapped(view, regions[..k], offset)
    requires MappedKind(regions[k].kind) && Aligned(regions[k].base + offset) ==>
      Shifted(view', OffsetBlock(regions[k], offset))
    ensures MiscMapped(view', regions[..k + 1], offset)
  {
    var more := regions[..k + 1];
    forall i | 0 <= i < |more| && MappedKind(more[i].kind) && Aligned(more[i].base + offset)
      ensures Shifted(view', OffsetBlock(more[i], offset))
    {
      if i < k {
        assert more[i] == regions[..k][i];
        ShiftedKept(view, view', OffsetBlock(more[i], offset));
      }
    }
  }

  /** One region: mapped or skipped. */
  method MapRegion(pt: RecursivePageTable, fa: FrameAllocator, region: Region, offset: nat) returns (r: PagingResult)
    requires pt.Serves(fa)
    modifies pt`memory, pt`spec, fa
    ensures pt.Serves(fa) && pt.Others(fa) == old(pt.Others(fa))
    ensures Advanced(old(fa.backend), fa.backend, 3 * RegionPages(region))
    ensures RegionStep(r, Change(old(pt.spec.view), pt.spec.view), region, offset, old(fa.backend))
  {
    if !MappedKind(region.kind) {
      return Ok(Unit);
    }
    r := MapBytes(pt, fa, region.length, region.base, region.base + offset, FLAGS_RWX);
  }

  // ---------------------------------------------------------------- both steps

  function BootPlaces(layout: Layout, regionLength: nat, regions: seq<Region>, offset: nat): seq<Interval> {
    KernelPlaces(layout, regionLength) + MiscPlaces(regions, offset)
  }

  /** Kernel and regions can be mapped, they do not overlap, and nothing is in their way. */
  ghost predicate BootClear(view: PageMap, layout: Layout, regionLength: nat, regions: seq<Region>, offset: nat) {
    && KernelClear(view, layout, regionLength) && MiscClear(view, regions, 0, offset)
    && forall i | 0 <= i < |regions| && MappedKind(regions[i].kind) ::
      Disjoint(Cover(layout.reqsStart, layout.reqsStart + regionLength), RegionPlace(regions[i], offset))
  }

  function BootPages(layout: Layout, regionLength: nat, regions: seq<Region>): nat {
    KernelPages(layout, regionLength) + MiscPages(regions, 0)
  }

  /** Every page of the image leads to its place in physical memory with the flags of its section, the
      regions needed later are offset-mapped, what was mapped before still is, and nothing else is new. */
  ghost predicate BootDone(change: Change, layout: Layout, regionLength: nat, regions: seq<Region>, offset: nat) {
    match change
    case Change(view, view') =>
      && Adds(change, BootPlaces(layout, regionLength, regions, offset)) && MiscMapped(view', regions, offset)
      && (layout.WellFormed() ==> ImageMapped(view', layout) && Shifted(view', Rest(layout, regionLength)))
  }

  /** What both steps do to a page map. */
  ghost predicate BothMapped(r: PagingResult, change: Change, layout: Layout, regionLength: nat,
                             regions: seq<Region>, offset: nat, backend: Backend)
  {
    match r
    case Ok(_) => BootDone(change, layout, regionLength, regions, offset)
    case _ =>
      && Extends(change.before, change.after)
      && (KernelStopped(r, layout, regionLength, change.after) || MiscStopped(r, regions, offset, change.after))
      && !(BootClear(change.before, layout, regionLength, regions, offset)
           && Room(backend, 3 * BootPages(layout, regionLength, regions)))
  }

  /** Both steps of boot. */
  method MapKernelThenMisc(pt: RecursivePageTable, fa: FrameAllocator, layout: Layout, regionLength: nat,
                           regions: seq<Region>, offset: nat)
    returns (r: PagingResult)
    requires pt.Serves(fa)
    modifies pt`memory, pt`spec, fa
    ensures pt.Serves(fa) && pt.Others(fa) == old(pt.Others(fa))
    ensures Advanced(old(fa.backend), fa.backend, 3 * BootPages(layout, regionLength, regions))
    ensures BothMapped(r, Change(old(pt.spec.view), pt.spec.view), layout, regionLength, regions, offset,
                       old(fa.backend))
  {
    r := MapKernel(pt, fa, layout, regionLength);
    ghost var view, backend := pt.spec.view, fa.backend;
    if !r.Ok? {
      AdvancedTwice(old(fa.backend), backend, backend, 3 * KernelPages(layout, regionLength),
                    3 * MiscPages(regions, 0));
      return;
    }
    r := MapMisc(pt, fa, regions, offset);
    AdvancedTwice(old(fa.backend), backend, fa.backend, 3 * KernelPages(layout, regionLength),
                  3 * MiscPages(regions, 0));
    RegionsOnKernel(r, old(pt.spec.view), view, pt.spec.view, layout, regionLength, regions, offset,
                    old(fa.backend), backend);
  }

  lemma RegionsOnKernel(r: PagingResult, view0: PageMap, view1: PageMap, view2: PageMap, layout: Layout,
                        regionLength: nat, regions: seq<Region>, offset: nat, backend0: Backend, backend1: Backend)
    requires KernelMapped(Ok(Unit), Change(view0, view1), layout, regionLength, backend0)
    requires RegionsMapped(r, Change(view1, view2), regions, offset, backend1)
    requires Advanced(backend0, backend1, 3 * KernelPages(layout, regionLength))
    ensures BothMapped(r, Change(view0, view2), layout, regionLength, regions, offset, backend0)
  {
    ExtendsTransitive(view0, view1, view2);
    if r.Ok? {
      AddsTransitive(view0, view1, view2, KernelPlaces(layout, regionLength), MiscPlaces(regions, offset));
      ImageKept(view1, view2, layout);
      if layout.WellFormed() {
        ShiftedKept(view1, view2, Rest(layout, regionLength));
      }
    } else if BootClear(view0, layout, regionLength, regions, offset) {
      RegionsStayClear(view0, view1, layout, regionLength, regions, offset);
      RoomLeft(backend0, backend1, 3 * KernelPages(layout, regionLength), 3 * MiscPages(regions, 0));
    }
  }

  lemma RegionsStayClear(view: PageMap, view': PageMap, layout: Layout, regionLength: nat,
                         regions: seq<Region>, offset: nat)
    requires BootClear(view, layout, regionLength, regions, offset)
    requires Adds(Change(view, view'), KernelPlaces(layout, regionLength))
    ensures MiscClear(view', regions, 0, offset)
  {
    forall i | 0 <= i < |regions|
      ensures RegionClear(view', regions[i], offset)
    {
      assert RegionClear(view, regions[i], offset);
      if MappedKind(regions[i].kind) {
        KernelPlacesInside(layout, regionLength);
        ClearKept(view, view', KernelPlaces(layout, regionLength), RegionPlace(regions[i], offset));
      }
    }
  }

  lemma KernelPlacesInside(layout: Layout, regionLength: nat)
    requires layout.WellFormed() && layout.elfEnd <= layout.reqsStart + regionLength
    ensures var whole, places := Cover(layout.reqsStart, layout.reqsStart + regionLength),
                                 KernelPlaces(layout, regionLength);
      forall i | 0 <= i < |places| :: whole.low <= places[i].low && places[i].high <= whole.high
  {
    ImagePlacesBelow(layout);
  }
}
