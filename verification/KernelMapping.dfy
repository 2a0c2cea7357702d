/** Boot-time mappings: the sections of the kernel image and the regions it will need later. */
module KernelMapping {
  import opened Outcomes
  import opened Arch
  import opened FrameAllocation
  import opened TableTree
  import opened TreeTheorems
  import opened PageBlocks
  import opened PageTable
  import opened Blocks

  /** The symbols of the linker script and the bases the boot loader reports. */
  datatype Layout = Layout(
    reqsStart: nat, textStart: nat, rodataStart: nat, dataStart: nat, elfEnd: nat,
    virtualBase: nat, physicalBase: nat)
  {
    /** Where the image lies in physical memory. */
    function Physical(a: int): int {
      a - virtualBase + physicalBase
    }

    /** Page-aligned symbols in the order of the script. */
    predicate WellFormed() {
      && Aligned(reqsStart) && Aligned(textStart) && Aligned(rodataStart) && Aligned(dataStart) && Aligned(elfEnd)
      && reqsStart <= textStart <= rodataStart <= dataStart <= elfEnd
    }

    /** How a section should be mapped: to where it lies in physical memory, and global. */
    function Section(start: nat, end: nat, flags: Flags): Block {
      Block(start, end, virtualBase - physicalBase, flags + {GLOBAL})
    }

    /** The flags of the section that holds address `a`. */
    function SectionFlags(a: int): Flags {
      if a < textStart then FLAGS_R
      else if a < rodataStart then FLAGS_RX
      else if a < dataStart then FLAGS_R
      else FLAGS_RW
    }
  }

  // ---------------------------------------------------------------- the kernel image

  /** The pages of [start, end). */
  function Span(start: nat, end: nat): nat {
    if start < end then SizeInPages(end - start) else 0
  }

  /** The section, unless it is empty, can be mapped, and nothing is in its way. */
  ghost predicate SectionClear(view: PageMap, layout: Layout, start: nat, end: nat) {
    start < end ==>
      && layout.virtualBase <= start
      && Mappable(layout.Physical(start), start, end - start) && Clear(view, Cover(start, end))
  }

  /** Why mapping [start, end) failed: it lies below the virtual base, or one of its pages could not be
      mapped with the allocator in state `backend`. */
  ghost predicate PartStopped(r: PagingResult, layout: Layout, start: nat, end: nat, view: PageMap, backend: Backend) {
    start <= end &&
    if start < layout.virtualBase then r.Panic?
    else BytesStopped(r, end - start, layout.Physical(start), start, view, backend)
  }

  ghost predicate Stops(r: PagingResult, layout: Layout, start: nat, end: nat, view: PageMap) {
    exists backend: Backend :: PartStopped(r, layout, start, end, view, backend)
  }

  /** What mapping a section does to a page map.  Failure has a cause, and the section was not clear or
      there was no room for its tables. */
  ghost predicate SectionMapped(r: PagingResult, change: Change, layout: Layout, start: nat, end: nat, flags: Flags,
                                backend: Backend)
  {
    match r
    case Ok(_) =>
      && Adds(change, [Cover(start, end)])
      && (Aligned(start) ==> Shifted(change.after, layout.Section(start, end, flags)))
    case _ =>
      && Adds(change, [Cover(start, end)])
      && PartStopped(r, layout, start, end, change.after, backend)
      && !(SectionClear(change.before, layout, start, end) && Room(backend, 3 * Span(start, end)))
  }

  /** Maps the pages of [start, end) to where the image lies in physical memory. */
  method MapKernelSection(pt: RecursivePageTable, fa: FrameAllocator, layout: Layout,
                          start: nat, end: nat, flags: Flags)
    returns (r: PagingResult)
    requires pt.Serves(fa)
    modifies pt`memory, pt`spec, fa
    ensures pt.Serves(fa) && pt.Others(fa) == old(pt.Others(fa))
    ensures Advanced(old(fa.backend), fa.backend, 3 * Span(start, end))
    ensures SectionMapped(r, Change(old(pt.spec.view), pt.spec.view), layout, start, end, flags, old(fa.backend))
  {
    if start >= end {
      return Ok(Unit);
    }
    var phys := layout.Physical(start);
    if start < layout.virtualBase || !Canonical(start) || phys >= PHYS_LIMIT {
      return Panic;
    }
    var pages;
    r, pages := MapSectionPages(pt, fa, phys, start, end, flags + {GLOBAL});
    SectionOutcome(r, pages, layout, start, end, flags, old(pt.spec.view), pt.spec.view, old(fa.backend), fa.backend);
  }

  /** The loop of `MapKernelSection`: `pages` counts the pages it mapped. */
  method MapSectionPages(pt: RecursivePageTable, fa: FrameAllocator, phys: PhysAddr,
                         start: VirtAddr, end: nat, flags: Flags)
    returns (r: PagingResult, pages: nat)
    requires pt.Serves(fa) && start < end
    modifies pt`memory, pt`spec, fa
    ensures pt.Serves(fa) && pt.Others(fa) == old(pt.Others(fa))
    ensures EndedAfter(r, Change(old(pt.spec.view), pt.spec.view), pages, phys, start, flags,
                       old(fa.backend), fa.backend)
    ensures r.Ok? <==> end <= start + Bytes(pages)
    ensures pages > 0 ==> start + Bytes(pages - 1) < end
  {
    var page: nat := start;
    r, pages := Ok(Unit), 0;
    NoProgress(pt.spec.view, phys, start, flags, fa.backend);
    while page < end
      invariant pt.Serves(fa) && pt.Others(fa) == old(pt.Others(fa))
      invariant Progress(Change(old(pt.spec.view), pt.spec.view), pages, phys, start, flags,
                         old(fa.backend), fa.backend)
      invariant page == start + Bytes(pages) && (pages > 0 ==> start + Bytes(pages - 1) < end)
      invariant r.Ok?
      decreases end - page
    {
      ghost var view, backend := pt.spec.view, fa.backend;
      r := pt.MapNth(pages, phys, start, flags, fa);
      ProgressNext(r, old(pt.spec.view), view, pt.spec.view, pages, phys, start, flags,
                   old(fa.backend), backend, fa.backend);
      if !r.Ok? {
        break;
      }
      page, pages := page + PAGE_SIZE, pages + 1;
    }
  }

  /** Pages that start before the end of a section are pages of it. */
  lemma SectionFrames(before: Backend, after: Backend, bytes: nat, pages: nat)
    requires Advanced(before, after, 3 * pages) && (pages > 0 ==> Bytes(pages - 1) < bytes)
    ensures Advanced(before, after, 3 * SizeInPages(bytes))
  {
    assert pages <= SizeInPages(bytes);
  }

  /** What the loop says about its result, in terms of the section. */
  lemma SectionOutcome(r: PagingResult, pages: nat, layout: Layout, start: VirtAddr, end: nat, flags: Flags,
                       view: PageMap, view': PageMap, before: Backend, after: Backend)
    requires layout.virtualBase <= start < end && layout.Physical(start) < PHYS_LIMIT
    requires EndedAfter(r, Change(view, view'), pages, layout.Physical(start), start, flags + {GLOBAL}, before, after)
    requires (r.Ok? <==> end <= start + Bytes(pages)) && (pages > 0 ==> start + Bytes(pages - 1) < end)
    ensures SectionMapped(r, Change(view, view'), layout, start, end, flags, before)
    ensures Advanced(before, after, 3 * Span(start, end))
  {
    var phys, bytes := layout.Physical(start), end - start;
    SectionFrames(before, after, bytes, if r.Ok? then pages else pages + 1);
    BlockShifted(view, view', pages, phys, start, flags + {GLOBAL}, end);
    if !r.Ok? {
      assert pages < SizeInPages(bytes);
      assert StoppedAt(r, pages, phys, start, view', before);
      if SectionClear(view, layout, start, end) && Room(before, 3 * Span(start, end)) {
        BlockSucceeds(r, pages, bytes, phys, start, flags + {GLOBAL}, view, view', before);
      }
    }
  }

  /** Every page of the image, section by section. */
  ghost predicate ImageMapped(view: PageMap, layout: Layout) {
    forall v: VirtAddr {:trigger v in view} | layout.reqsStart <= v < layout.elfEnd && Aligned(v) ::
      && v in view
      && view[v].addr == layout.Physical(v)
      && view[v].flags == layout.SectionFlags(v) + {GLOBAL}
  }

  /** The kernel's memory region beyond the image: it is mapped read only. */
  function Rest(layout: Layout, regionLength: nat): Block {
    layout.Section(layout.elfEnd, layout.reqsStart + regionLength, FLAGS_R)
  }

  /** Two neighbouring sections. */
  function TwoPlaces(start: nat, middle: nat, end: nat): seq<Interval> {
    [Cover(start, middle)] + [Cover(middle, end)]
  }

  function ImagePlaces(layout: Layout): seq<Interval> {
    TwoPlaces(layout.reqsStart, layout.textStart, layout.rodataStart)
    + TwoPlaces(layout.rodataStart, layout.dataStart, layout.elfEnd)
  }

  function KernelPlaces(layout: Layout, regionLength: nat): seq<Interval> {
    ImagePlaces(layout) + [Cover(layout.elfEnd, layout.reqsStart + regionLength)]
  }

  function ImagePages(layout: Layout): nat {
    Span(layout.reqsStart, layout.textStart) + Span(layout.textStart, layout.rodataStart)
    + (Span(layout.rodataStart, layout.dataStart) + Span(layout.dataStart, layout.elfEnd))
  }

  function KernelPages(layout: Layout, regionLength: nat): nat {
    ImagePages(layout) + Span(layout.elfEnd, layout.reqsStart + regionLength)
  }

  /** The kernel's region, image included, can be mapped as a whole, and nothing is in its way. */
  ghost predicate KernelClear(view: PageMap, layout: Layout, regionLength: nat) {
    && layout.WellFormed() && layout.virtualBase <= layout.reqsStart
    && layout.elfEnd <= layout.reqsStart + regionLength
    && Mappable(layout.Physical(layout.reqsStart), layout.reqsStart, regionLength)
    && Clear(view, Cover(layout.reqsStart, layout.reqsStart + regionLength))
  }

  /** Why mapping the kernel failed: one of its parts could not be mapped, or does not fit the region. */
  ghost predicate KernelStopped(r: PagingResult, layout: Layout, regionLength: nat, view: PageMap) {
    ImageStopped(r, layout, view) || RestStopped(r, layout, regionLength, view)
  }

  /** What mapping the kernel does to a page map; if it fails, the kernel's region was not clear or there
      was no room for its tables. */
  ghost predicate KernelMapped(r: PagingResult, change: Change, layout: Layout, regionLength: nat, backend: Backend) {
    match r
    case Ok(_) =>
      && Adds(change, KernelPlaces(layout, regionLength))
      && (layout.WellFormed() ==>
           ImageMapped(change.after, layout) && Shifted(change.after, Rest(layout, regionLength)))
    case _ =>
      && Adds(change, KernelPlaces(layout, regionLength)) && KernelStopped(r, layout, regionLength, change.after)
      && !(KernelClear(change.before, layout, regionLength) && Room(backend, 3 * KernelPages(layout, regionLength)))
  }

  /** Maps the four sections, then the rest of the kernel's memory region. */
  method MapKernel(pt: RecursivePageTable, fa: FrameAllocator, layout: Layout, regionLength: nat)
    returns (r: PagingResult)
    requires pt.Serves(fa)
    modifies pt`memory, pt`spec, fa
    ensures pt.Serves(fa) && pt.Others(fa) == old(pt.Others(fa))
    ensures Advanced(old(fa.backend), fa.backend, 3 * KernelPages(layout, regionLength))
    ensures KernelMapped(r, Change(old(pt.spec.view), pt.spec.view), layout, regionLength, old(fa.backend))
  {
    r := MapImage(pt, fa, layout);
    ghost var view, backend := pt.spec.view, fa.backend;
    if !r.Ok? {
      ImageFailed(r, old(pt.spec.view), view, layout, regionLength, old(fa.backend));
      AdvancedTwice(old(fa.backend), backend, backend, 3 * ImagePages(layout),
                    3 * Span(layout.elfEnd, layout.reqsStart + regionLength));
      return;
    }
    r := MapRest(pt, fa, layout, regionLength);
    AdvancedTwice(old(fa.backend), backend, fa.backend, 3 * ImagePages(layout),
                  3 * Span(layout.elfEnd, layout.reqsStart + regionLength));
    RestOnImage(r, old(pt.spec.view), view, pt.spec.view, layout, regionLength, old(fa.backend), backend);
  }

  lemma ImageFailed(r: PagingResult, view: PageMap, view': PageMap, layout: Layout, regionLength: nat, backend: Backend)
    requires !r.Ok? && MappedImage(r, Change(view, view'), layout, backend)
    ensures KernelMapped(r, Change(view, view'), layout, regionLength, backend)
  {
    AddsPrefix(view, view', ImagePlaces(layout), KernelPlaces(layout, regionLength));
    if KernelClear(view, layout, regionLength) {
      SectionsClear(view, layout, regionLength);
    }
  }

  /** The parts of a region that can be mapped as a whole can be mapped. */
  lemma SectionsClear(view: PageMap, layout: Layout, regionLength: nat)
    requires KernelClear(view, layout, regionLength)
    ensures ImageClear(view, layout) && RestClear(view, layout, regionLength)
  {
    PartClear(view, layout, regionLength, layout.reqsStart, layout.textStart);
    PartClear(view, layout, regionLength, layout.textStart, layout.rodataStart);
    PartClear(view, layout, regionLength, layout.rodataStart, layout.dataStart);
    PartClear(view, layout, regionLength, layout.dataStart, layout.elfEnd);
    PartClear(view, layout, regionLength, layout.elfEnd, layout.reqsStart + regionLength);
  }

  lemma PartClear(view: PageMap, layout: Layout, regionLength: nat, start: nat, end: nat)
    requires KernelClear(view, layout, regionLength) && Aligned(start)
    requires layout.reqsStart <= start <= end <= layout.reqsStart + regionLength
    ensures Mappable(layout.Physical(start), start, end - start) && Clear(view, Cover(start, end))
  {
    ClearPart(view, Cover(layout.reqsStart, layout.reqsStart + regionLength), Cover(start, end));
  }

  /** The rest on top of the image. */
  lemma RestOnImage(r: PagingResult, view0: PageMap, view1: PageMap, view2: PageMap, layout: Layout, regionLength: nat,
                    backend0: Backend, backend1: Backend)
    requires MappedImage(Ok(Unit), Change(view0, view1), layout, backend0)
    requires MappedRest(r, Change(view1, view2), layout, regionLength, backend1)
    requires Advanced(backend0, backend1, 3 * ImagePages(layout))
    ensures KernelMapped(r, Change(view0, view2), layout, regionLength, backend0)
  {
    AddsTransitive(view0, view1, view2, ImagePlaces(layout), [Cover(layout.elfEnd, layout.reqsStart + regionLength)]);
    if r.Ok? {
      ImageKept(view1, view2, layout);
    } else {
      RestNotReady(r, view0, view1, view2, layout, regionLength, backend0, backend1);
    }
  }

  lemma RestNotReady(r: PagingResult, view0: PageMap, view1: PageMap, view2: PageMap, layout: Layout,
                     regionLength: nat, backend0: Backend, backend1: Backend)
    requires !r.Ok? && Adds(Change(view0, view1), ImagePlaces(layout))
    requires MappedRest(r, Change(view1, view2), layout, regionLength, backend1)
    requires Advanced(backend0, backend1, 3 * ImagePages(layout))
    ensures !(KernelClear(view0, layout, regionLength) && Room(backend0, 3 * KernelPages(layout, regionLength)))
  {
    if KernelClear(view0, layout, regionLength) {
      RoomLeft(backend0, backend1, 3 * ImagePages(layout), 3 * Span(layout.elfEnd, layout.reqsStart + regionLength));
      RestStaysClear(view0, view1, layout, regionLength);
    }
  }

  lemma RestStaysClear(view: PageMap, view': PageMap, layout: Layout, regionLength: nat)
    requires KernelClear(view, layout, regionLength) && Adds(Change(view, view'), ImagePlaces(layout))
    ensures RestClear(view', layout, regionLength)
  {
    SectionsClear(view, layout, regionLength);
    ImagePlacesBelow(layout);
    ClearKept(view, view', ImagePlaces(layout), Cover(layout.elfEnd, layout.reqsStart + regionLength));
  }

  lemma ImagePlacesBelow(layout: Layout)
    requires layout.WellFormed()
    ensures forall i | 0 <= i < |ImagePlaces(layout)| ::
      layout.reqsStart <= ImagePlaces(layout)[i].low && ImagePlaces(layout)[i].high <= layout.elfEnd
  {
  }

  /** The rest of the region can be mapped, and nothing is in its way. */
  ghost predicate RestClear(view: PageMap, layout: Layout, regionLength: nat) {
    var end := layout.reqsStart + regionLength;
    && layout.reqsStart <= layout.elfEnd <= end && layout.virtualBase <= layout.elfEnd
    && Mappable(layout.Physical(layout.elfEnd), layout.elfEnd, end - layout.elfEnd)
    && Clear(view, Cover(layout.elfEnd, end))
  }

  ghost predicate RestStopped(r: PagingResult, layout: Layout, regionLength: nat, view: PageMap) {
    || Stops(r, layout, layout.elfEnd, layout.reqsStart + regionLength, view)
    || (r.Panic? && !(layout.reqsStart <= layout.elfEnd <= layout.reqsStart + regionLength))
  }

  ghost predicate MappedRest(r: PagingResult, change: Change, layout: Layout, regionLength: nat, backend: Backend) {
    match r
    case Ok(_) =>
      && Adds(change, [Cover(layout.elfEnd, layout.reqsStart + regionLength)])
      && (Aligned(layout.elfEnd) ==> Shifted(change.after, Rest(layout, regionLength)))
    case _ =>
      && Adds(change, [Cover(layout.elfEnd, layout.reqsStart + regionLength)])
      && RestStopped(r, layout, regionLength, change.after)
      && !(RestClear(change.before, layout, regionLength)
           && Room(backend, 3 * Span(layout.elfEnd, layout.reqsStart + regionLength)))
  }

  method MapRest(pt: RecursivePageTable, fa: FrameAllocator, layout: Layout, regionLength: nat)
    returns (r: PagingResult)
    requires pt.Serves(fa)
    modifies pt`memory, pt`spec, fa
    ensures pt.Serves(fa) && pt.Others(fa) == old(pt.Others(fa))
    ensures Advanced(old(fa.backend), fa.backend, 3 * Span(layout.elfEnd, layout.reqsStart + regionLength))
    ensures MappedRest(r, Change(old(pt.spec.view), pt.spec.view), layout, regionLength, old(fa.backend))
  {
    var mapped := layout.elfEnd - layout.reqsStart;
    if mapped < 0 || regionLength < mapped || layout.elfEnd < layout.virtualBase {
      RestUnderflows(pt.spec.view, layout, regionLength, fa.backend);
      return Panic;  // one of the subtractions underflows
    }
    var rest: nat := regionLength - mapped;
    r := MapBytes(pt, fa, rest, layout.Physical(layout.elfEnd), layout.elfEnd, FLAGS_R + {GLOBAL});
    RestOutcome(r, old(pt.spec.view), pt.spec.view, layout, regionLength, rest, old(fa.backend), fa.backend);
  }

  lemma RestUnderflows(view: PageMap, layout: Layout, regionLength: nat, backend: Backend)
    requires
      !(layout.reqsStart <= layout.elfEnd <= layout.reqsStart + regionLength) || layout.elfEnd < layout.virtualBase
    ensures MappedRest(Panic, Change(view, view), layout, regionLength, backend)
  {
    if layout.reqsStart <= layout.elfEnd <= layout.reqsStart + regionLength {
      assert PartStopped(Panic, layout, layout.elfEnd, layout.reqsStart + regionLength, view, backend);
    }
  }

  lemma RestOutcome(r: PagingResult, view: PageMap, view': PageMap, layout: Layout, regionLength: nat, rest: nat,
                    before: Backend, after: Backend)
    requires layout.reqsStart <= layout.elfEnd && layout.virtualBase <= layout.elfEnd
    requires layout.elfEnd + rest == layout.reqsStart + regionLength
    requires BytesMapped(r, Change(view, view'), rest, layout.Physical(layout.elfEnd), layout.elfEnd,
                         FLAGS_R + {GLOBAL}, before)
    requires Advanced(before, after, 3 * SizeInPages(rest))
    ensures MappedRest(r, Change(view, view'), layout, regionLength, before)
    ensures Advanced(before, after, 3 * Span(layout.elfEnd, layout.reqsStart + regionLength))
  {
    SpanIs(layout.elfEnd, layout.reqsStart + regionLength, rest);
    if !r.Ok? {
      assert PartStopped(r, layout, layout.elfEnd, layout.reqsStart + regionLength, view', before);
    }
  }

  lemma SpanIs(start: nat, end: nat, bytes: nat)
    requires start + bytes == end
    ensures Span(start, end) == SizeInPages(bytes)
  {
  }

  /** Two neighbouring sections can be mapped, one after the other. */
  ghost predicate TwoClear(view: PageMap, layout: Layout, start: nat, middle: nat, end: nat) {
    Aligned(middle) && SectionClear(view, layout, start, middle) && SectionClear(view, layout, middle, end)
  }

  ghost predicate ImageClear(view: PageMap, layout: Layout) {
    && layout.WellFormed()
    && TwoClear(view, layout, layout.reqsStart, layout.textStart, layout.rodataStart)
    && TwoClear(view, layout, layout.rodataStart, layout.dataStart, layout.elfEnd)
  }

  ghost predicate ImageStopped(r: PagingResult, layout: Layout, view: PageMap) {
    || TwoStopped(r, layout, layout.reqsStart, layout.textStart, layout.rodataStart, view)
    || TwoStopped(r, layout, layout.rodataStart, layout.dataStart, layout.elfEnd, view)
  }

  ghost predicate MappedImage(r: PagingResult, change: Change, layout: Layout, backend: Backend) {
    match r
    case Ok(_) =>
      && Adds(change, ImagePlaces(layout))
      && (layout.WellFormed() ==> ImageMapped(change.after, layout))
    case _ =>
      && Adds(change, ImagePlaces(layout)) && ImageStopped(r, layout, change.after)
      && !(ImageClear(change.before, layout) && Room(backend, 3 * ImagePages(layout)))
  }

  method MapImage(pt: RecursivePageTable, fa: FrameAllocator, layout: Layout) returns (r: PagingResult)
    requires pt.Serves(fa)
    modifies pt`memory, pt`spec, fa
    ensures pt.Serves(fa) && pt.Others(fa) == old(pt.Others(fa))
    ensures Advanced(old(fa.backend), fa.backend, 3 * ImagePages(layout))
    ensures MappedImage(r, Change(old(pt.spec.view), pt.spec.view), layout, old(fa.backend))
  {
    r := MapTwoSections(pt, fa, layout, layout.reqsStart, layout.textStart, layout.rodataStart, FLAGS_R, FLAGS_RX);
    ghost var view, backend := pt.spec.view, fa.backend;
    if !r.Ok? {
      CodeFailed(r, old(pt.spec.view), view, layout, old(fa.backend));
      return;
    }
    r := MapTwoSections(pt, fa, layout, layout.rodataStart, layout.dataStart, layout.elfEnd, FLAGS_R, FLAGS_RW);
    DataOnCode(r, old(pt.spec.view), view, pt.spec.view, layout, old(fa.backend), backend);
  }

  lemma CodeFailed(r: PagingResult, view: PageMap, view': PageMap, layout: Layout, backend: Backend)
    requires !r.Ok?
    requires TwoMapped(r, Change(view, view'), layout, layout.reqsStart, layout.textStart, layout.rodataStart,
                       FLAGS_R, FLAGS_RX, backend)
    ensures MappedImage(r, Change(view, view'), layout, backend)
  {
    AddsPrefix(view, view', TwoPlaces(layout.reqsStart, layout.textStart, layout.rodataStart), ImagePlaces(layout));
  }

  lemma DataOnCode(r: PagingResult, view0: PageMap, view1: PageMap, view2: PageMap, layout: Layout,
                   backend0: Backend, backend1: Backend)
    requires TwoMapped(Ok(Unit), Change(view0, view1), layout, layout.reqsStart, layout.textStart, layout.rodataStart,
                       FLAGS_R, FLAGS_RX, backend0)
    requires TwoMapped(r, Change(view1, view2), layout, layout.rodataStart, layout.dataStart, layout.elfEnd,
                       FLAGS_R, FLAGS_RW, backend1)
    requires Advanced(backend0, backend1, 3 * (Span(layout.reqsStart, layout.textStart)
                                               + Span(layout.textStart, layout.rodataStart)))
    ensures MappedImage(r, Change(view0, view2), layout, backend0)
  {
    var code := TwoPlaces(layout.reqsStart, layout.textStart, layout.rodataStart);
    AddsTransitive(view0, view1, view2, code, TwoPlaces(layout.rodataStart, layout.dataStart, layout.elfEnd));
    if r.Ok? && layout.WellFormed() {
      SectionsMakeImage(view1, view2, layout);
    } else if !r.Ok? && ImageClear(view0, layout) {
      DataStaysClear(view0, view1, layout);
      RoomLeft(backend0, backend1, 3 * (Span(layout.reqsStart, layout.textStart)
                                        + Span(layout.textStart, layout.rodataStart)),
               3 * (Span(layout.rodataStart, layout.dataStart) + Span(layout.dataStart, layout.elfEnd)));
    }
  }

  lemma DataStaysClear(view: PageMap, view': PageMap, layout: Layout)
    requires ImageClear(view, layout)
    requires Adds(Change(view, view'), TwoPlaces(layout.reqsStart, layout.textStart, layout.rodataStart))
    ensures TwoClear(view', layout, layout.rodataStart, layout.dataStart, layout.elfEnd)
  {
    var code := TwoPlaces(layout.reqsStart, layout.textStart, layout.rodataStart);
    SectionClearKept(view, view', code, layout, layout.rodataStart, layout.dataStart);
    SectionClearKept(view, view', code, layout, layout.dataStart, layout.elfEnd);
  }

  /** A section stays clear while pages are added below its aligned start. */
  lemma SectionClearKept(view: PageMap, view': PageMap, places: seq<Interval>, layout: Layout, start: nat, end: nat)
    requires Adds(Change(view, view'), places) && SectionClear(view, layout, start, end) && Aligned(start)
    requires forall i | 0 <= i < |places| :: places[i].high <= start
    ensures SectionClear(view', layout, start, end)
  {
    if start < end {
      ClearKept(view, view', places, Cover(start, end));
    }
  }

  ghost predicate TwoStopped(r: PagingResult, layout: Layout, start: nat, middle: nat, end: nat, view: PageMap) {
    Stops(r, layout, start, middle, view) || Stops(r, layout, middle, end, view)
  }

  ghost predicate TwoMapped(r: PagingResult, change: Change, layout: Layout, start: nat, middle: nat, end: nat,
                            first: Flags, second: Flags, backend: Backend)
  {
    match r
    case Ok(_) =>
      && Adds(change, TwoPlaces(start, middle, end))
      && (Aligned(start) ==> Shifted(change.after, layout.Section(start, middle, first)))
      && (Aligned(middle) ==> Shifted(change.after, layout.Section(middle, end, second)))
    case _ =>
      && Adds(change, TwoPlaces(start, middle, end)) && TwoStopped(r, layout, start, middle, end, change.after)
      && !(TwoClear(change.before, layout, start, middle, end)
           && Room(backend, 3 * (Span(start, middle) + Span(middle, end))))
  }

  /** One section after the other. */
  method MapTwoSections(pt: RecursivePageTable, fa: FrameAllocator, layout: Layout,
                        start: nat, middle: nat, end: nat, first: Flags, second: Flags)
    returns (r: PagingResult)
    requires pt.Serves(fa)
    modifies pt`memory, pt`spec, fa
    ensures pt.Serves(fa) && pt.Others(fa) == old(pt.Others(fa))
    ensures Advanced(old(fa.backend), fa.backend, 3 * (Span(start, middle) + Span(middle, end)))
    ensures TwoMapped(r, Change(old(pt.spec.view), pt.spec.view), layout, start, middle, end, first, second,
                      old(fa.backend))
  {
    r := MapKernelSection(pt, fa, layout, start, middle, first);
    ghost var view, backend := pt.spec.view, fa.backend;
    if !r.Ok? {
      AddsPrefix(old(pt.spec.view), view, [Cover(start, middle)], TwoPlaces(start, middle, end));
      return;
    }
    r := MapKernelSection(pt, fa, layout, middle, end, second);
    SecondOnFirst(r, old(pt.spec.view), view, pt.spec.view, layout, start, middle, end, first, second,
                  old(fa.backend), backend);
  }

  lemma SecondOnFirst(r: PagingResult, view0: PageMap, view1: PageMap, view2: PageMap, layout: Layout,
                      start: nat, middle: nat, end: nat, first: Flags, second: Flags,
                      backend0: Backend, backend1: Backend)
    requires SectionMapped(Ok(Unit), Change(view0, view1), layout, start, middle, first, backend0)
    requires SectionMapped(r, Change(view1, view2), layout, middle, end, second, backend1)
    requires Advanced(backend0, backend1, 3 * Span(start, middle))
    ensures TwoMapped(r, Change(view0, view2), layout, start, middle, end, first, second, backend0)
  {
    AddsTransitive(view0, view1, view2, [Cover(start, middle)], [Cover(middle, end)]);
    if Aligned(start) {
      ShiftedKept(view1, view2, layout.Section(start, middle, first));
    }
    if TwoClear(view0, layout, start, middle, end) {
      SectionClearKept(view0, view1, [Cover(start, middle)], layout, middle, end);
      RoomLeft(backend0, backend1, 3 * Span(start, middle), 3 * Span(middle, end));
    }
  }

  /** Two sections, and two more mapped on top of them, make up the image. */
  lemma SectionsMakeImage(view: PageMap, view': PageMap, layout: Layout)
    requires layout.WellFormed() && Extends(view, view')
    requires Shifted(view, layout.Section(layout.reqsStart, layout.textStart, FLAGS_R))
    requires Shifted(view, layout.Section(layout.textStart, layout.rodataStart, FLAGS_RX))
    requires Shifted(view', layout.Section(layout.rodataStart, layout.dataStart, FLAGS_R))
    requires Shifted(view', layout.Section(layout.dataStart, layout.elfEnd, FLAGS_RW))
    ensures ImageMapped(view', layout)
  {
    forall v: VirtAddr | layout.reqsStart <= v < layout.elfEnd && Aligned(v)
      ensures v in view' && view'[v].addr == layout.Physical(v) && view'[v].flags == layout.SectionFlags(v) + {GLOBAL}
    {
      if v < layout.textStart {
        ShiftedPage(view, layout.Section(layout.reqsStart, layout.textStart, FLAGS_R), v);
      } else if v < layout.rodataStart {
        ShiftedPage(view, layout.Section(layout.textStart, layout.rodataStart, FLAGS_RX), v);
      } else if v < layout.dataStart {
        ShiftedPage(view', layout.Section(layout.rodataStart, layout.dataStart, FLAGS_R), v);
      } else {
        ShiftedPage(view', layout.Section(layout.dataStart, layout.elfEnd, FLAGS_RW), v);
      }
    }
  }

  lemma ImageKept(view: PageMap, view': PageMap, layout: Layout)
    requires Extends(view, view')
    ensures ImageMapped(view, layout) ==> ImageMapped(view', layout)
  {
    forall v: VirtAddr | ImageMapped(view, layout) && layout.reqsStart <= v < layout.elfEnd && Aligned(v)
      ensures v in view' && view'[v].addr == layout.Physical(v) && view'[v].flags == layout.SectionFlags(v) + {GLOBAL}
    {
      assert v in view;
    }
  }

  /** Every address of a mapped image translates to its place in physical memory. */
  lemma ImageTranslates(mem: Memory, root: PhysAddr, tree: Tree, view: PageMap, layout: Layout, va: VirtAddr)
    requires IsTree(mem, root, tree) && Represents(mem, root, view)
    requires layout.WellFormed() && ImageMapped(view, layout) && layout.reqsStart <= va < layout.elfEnd
    ensures !Arch.Reserved(va) && PageBase(va) in view
    ensures view[PageBase(va)].flags == layout.SectionFlags(va) + {GLOBAL}
    ensures Translation(mem, root, va) == Some(va - layout.virtualBase + layout.physicalBase)
  {
    var page := PageBase(va);
    ImagePage(view, layout, va);
    assert Arch.Reserved(page) <==> Arch.Reserved(va) by {
      PageBaseIndices(va);
    }
    LeafInView(mem, root, view, va);
  }

  /** The page of an image address is an image page of the same section. */
  lemma ImagePage(view: PageMap, layout: Layout, va: VirtAddr)
    requires layout.WellFormed() && ImageMapped(view, layout) && layout.reqsStart <= va < layout.elfEnd
    ensures PageBase(va) in view
    ensures view[PageBase(va)].addr == layout.Physical(PageBase(va))
    ensures view[PageBase(va)].flags == layout.SectionFlags(va) + {GLOBAL}
  {
    var page := PageBase(va);
    assert layout.reqsStart <= page && Aligned(page);
    assert layout.SectionFlags(page) == layout.SectionFlags(va);
  }

  /** The processor permits exactly what each section needs: to write the data, to execute the text, and to
      read all of the image. */
  lemma ImagePermissions(mem: Memory, root: PhysAddr, tree: Tree, view: PageMap, layout: Layout, va: VirtAddr)
    requires IsTree(mem, root, tree) && Represents(mem, root, view)
    requires layout.WellFormed() && ImageMapped(view, layout) && layout.reqsStart <= va < layout.elfEnd
    ensures va < layout.textStart || layout.rodataStart <= va < layout.dataStart ==> Permits(mem, root, va, {0, 63})
    ensures layout.textStart <= va < layout.rodataStart ==> Permits(mem, root, va, {0})
    ensures layout.dataStart <= va ==> Permits(mem, root, va, {0, 1, 63})
    ensures PageBase(va) in view && 8 in view[PageBase(va)].flags
  {
    ImageTranslates(mem, root, tree, view, layout, va);
    EffectivePermissions(mem, root, tree, view, va);
  }

  /** The rest of the kernel's region may only be read. */
  lemma RestPermissions(mem: Memory, root: PhysAddr, tree: Tree, view: PageMap, layout: Layout, regionLength: nat,
                        va: VirtAddr)
    requires IsTree(mem, root, tree) && Represents(mem, root, view) && Aligned(layout.elfEnd)
    requires Shifted(view, Rest(layout, regionLength)) && layout.elfEnd <= va < layout.reqsStart + regionLength
    ensures Translation(mem, root, va) == Some(va - layout.virtualBase + layout.physicalBase)
    ensures Permits(mem, root, va, {0, 63})
  {
    ShiftedTranslates(mem, root, tree, view, Rest(layout, regionLength), va);
  }

  /** No page of a mapped kernel image is, effectively, both writable and executable. */
  lemma ImageNeverWritableAndExecutable(mem: Memory, root: PhysAddr, tree: Tree, view: PageMap,
                                        layout: Layout, va: VirtAddr)
    requires IsTree(mem, root, tree) && Represents(mem, root, view)
    requires layout.WellFormed() && ImageMapped(view, layout) && layout.reqsStart <= va < layout.elfEnd
    ensures !(AllGrant(mem, root, LeafPath(va), WRITABLE) && !AnyForbids(mem, root, LeafPath(va), NO_EXECUTE))
  {
    ImageTranslates(mem, root, tree, view, layout, va);
    EffectivePermissions(mem, root, tree, view, va);
  }
}
