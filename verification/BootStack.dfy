/** Giving the boot stack its final flags. */
module BootStack {
  import opened Outcomes
  import opened Arch
  import opened TableTree
  import opened PageBlocks
  import opened PageTable
  import opened Blocks
  import opened KernelMapping
  import opened RegionMapping

  const STACK_PAGES: nat := 16  // 64 KiB

  /** The stack pointer on entry to the kernel, together with the stack it implies. */
  datatype Stack = Stack(entry: VirtAddr) {

    function Top(): int {
      entry + 16
    }

    function Bottom(): int {
      Top() - Bytes(STACK_PAGES)
    }

    predicate InRange() {
      Canonical(Top()) && Canonical(Bottom())
    }

    /** Neither the stack nor its top reaches into the reserved slot. */
    predicate KeepsOut() {
      InRange() ==> !Arch.Reserved(Top()) && NoneReserved(STACK_PAGES, Bottom())
    }
  }

  /** 64 KiB up to sixteen bytes above the stack pointer. */
  lemma StackExtent(stack: Stack)
    ensures stack.Top() == stack.entry + 16 && stack.Bottom() == stack.entry + 16 - 0x1_0000
  {
  }

  /** Both ends are canonical only if the whole stack is. */
  lemma StackBlock(stack: Stack)
    requires stack.InRange()
    ensures VirtBlock(STACK_PAGES + 1, stack.Bottom())
    ensures NthPage(stack.Bottom(), STACK_PAGES) == PageBase(stack.Top())
  {
    assert Canonical(stack.Bottom());
  }

  /** A page map after the flags of one page were replaced, if it is mapped. */
  ghost function Reflag(view: PageMap, page: VirtAddr): PageMap {
    if page in view then Put(view, page, view[page].(flags := FLAGS_RW)) else view
  }

  /** The same for the first `pages` pages from `bottom`. */
  ghost function Reflagged(view: PageMap, pages: nat, bottom: VirtAddr): PageMap
    requires VirtBlock(pages, bottom)
  {
    if pages == 0 then view else Reflag(Reflagged(view, pages - 1, bottom), NthPage(bottom, pages - 1))
  }

  /** What became of a page map when the page of the stack's top was unmapped and the first `pages`
      pages of the stack got new flags. */
  ghost function Restacked(view: PageMap, stack: Stack, pages: nat): PageMap
    requires stack.InRange() && VirtBlock(pages, stack.Bottom())
  {
    Reflagged(view - {PageBase(stack.Top())}, pages, stack.Bottom())
  }

  /** Unmaps the page that holds the top of the stack, then makes the pages of the stack, counted from
      its bottom, writable; `done` counts them.  Pages without a level-1 table are passed over. */
  method RemapStack(pt: RecursivePageTable, stack: Stack) returns (r: PagingResult, done: nat)
    requires pt.Valid() && stack.KeepsOut()
    modifies pt`memory, pt`spec
    ensures pt.Valid() && pt.spec.tree == old(pt.spec.tree)
    ensures r.Panic? <==> !stack.InRange()
    ensures done <= STACK_PAGES && (r.Ok? ==> done == STACK_PAGES)
    ensures stack.InRange() ==>
      && VirtBlock(STACK_PAGES, stack.Bottom())
      && pt.spec.view == Restacked(old(pt.spec.view), stack, done)
    ensures r.Err? && PageBase(stack.Top()) !in old(pt.spec.view) ==> r.error == NotMapped(stack.Top())
    ensures r.Err? && PageBase(stack.Top()) in old(pt.spec.view) ==>
      && done < STACK_PAGES && r.error == NotMapped(Nth(stack.Bottom(), done))
      && NthPage(stack.Bottom(), done) !in pt.spec.view
    ensures r.Ok? ==> PageBase(stack.Top()) in old(pt.spec.view)
    ensures stack.InRange() && StackMappedWithTop(old(pt.spec.view), stack) ==> r.Ok?
    ensures r.Ok? && StackMapped(pt.spec.view, stack) <==> StackReady(old(pt.spec.view), stack)
  {
    done := 0;
    if !stack.InRange() {
      return Panic, 0;
    }
    StackBlock(stack);
    r := pt.Unmap(stack.Top());
    if r.Ok? {
      r, done := ReflagPages(pt, STACK_PAGES, stack.Bottom());
      RemappedIff(old(pt.spec.view), stack, done);
    }
  }

  /** All pages of the stack are mapped, and so is the page at its top, which is aligned. */
  ghost predicate StackReady(view: PageMap, stack: Stack) {
    stack.InRange() && Aligned(stack.Top()) && StackMappedWithTop(view, stack)
  }

  ghost predicate StackMappedWithTop(view: PageMap, stack: Stack)
    requires stack.InRange()
  {
    PageBase(stack.Top()) in view && AllMapped(view, STACK_PAGES, stack.Bottom())
  }

  /** When flagging stops after `done` pages, the stack is usable exactly if it was ready. */
  lemma RemappedIff(view: PageMap, stack: Stack, done: nat)
    requires stack.InRange() && VirtBlock(STACK_PAGES, stack.Bottom()) && PageBase(stack.Top()) in view
    requires done <= STACK_PAGES
    requires done < STACK_PAGES ==> NthPage(stack.Bottom(), done) !in Restacked(view, stack, done)
    ensures StackMappedWithTop(view, stack) ==> done == STACK_PAGES
    ensures done == STACK_PAGES && StackMapped(Restacked(view, stack, done), stack) <==> StackReady(view, stack)
  {
    if done == STACK_PAGES {
      StackUsableIffTopAligned(view, stack);
    } else {
      StackBlock(stack);
      var page := NthPage(stack.Bottom(), done);
      ReflaggedIs(view - {PageBase(stack.Top())}, done, stack.Bottom(), page);
      assert page != PageBase(stack.Top());
    }
  }

  /** The loop of `RemapStack`. */
  method ReflagPages(pt: RecursivePageTable, pages: nat, bottom: VirtAddr) returns (r: PagingResult, done: nat)
    requires pt.Valid() && VirtBlock(pages, bottom) && NoneReserved(pages, bottom)
    modifies pt`memory, pt`spec
    ensures pt.Valid() && pt.spec.tree == old(pt.spec.tree)
    ensures done <= pages && (r.Ok? <==> done == pages)
    ensures pt.spec.view == Reflagged(old(pt.spec.view), done, bottom)
    ensures !r.Ok? ==> r == Err(NotMapped(Nth(bottom, done))) && NthPage(bottom, done) !in pt.spec.view
  {
    r, done := Ok(Unit), 0;
    while done < pages
      invariant done <= pages && r.Ok?
      invariant pt.Valid() && pt.spec.tree == old(pt.spec.tree)
      invariant pt.spec.view == Reflagged(old(pt.spec.view), done, bottom)
    {
      FewerReserved(pages, done + 1, bottom);
      r := ReflagNth(pt, done, bottom);
      if !r.Ok? {
        break;
      }
      done := done + 1;
    }
  }

  /** One round of that loop. */
  method ReflagNth(pt: RecursivePageTable, k: nat, bottom: VirtAddr) returns (r: PagingResult)
    requires pt.Valid() && VirtBlock(k + 1, bottom) && !Arch.Reserved(Nth(bottom, k))
    modifies pt`memory, pt`spec
    ensures pt.Valid() && pt.spec.tree == old(pt.spec.tree)
    ensures pt.spec.view == Reflag(old(pt.spec.view), NthPage(bottom, k))
    ensures !r.Ok? ==> r == Err(NotMapped(Nth(bottom, k))) && NthPage(bottom, k) !in old(pt.spec.view)
  {
    var page := Nth(bottom, k);
    NthPageBase(bottom, k);
    LeafSummary(pt.memory, pt.lvl4, pt.spec.tree, pt.spec.view, page);
    r := pt.UpdateFlags(page, FLAGS_RW);
  }

  /** New flags change no frame, no other page, and not which pages are mapped. */
  lemma {:induction false} ReflaggedIs(view: PageMap, pages: nat, bottom: VirtAddr, v: VirtAddr)
    requires VirtBlock(pages, bottom)
    ensures var view' := Reflagged(view, pages, bottom);
      && (v in view' <==> v in view)
      && (v in view && v !in PageBases(pages, bottom) ==> view'[v] == view[v])
      && (v in view && v in PageBases(pages, bottom) ==> view'[v] == view[v].(flags := FLAGS_RW))
  {
    if pages > 0 {
      ReflaggedIs(view, pages - 1, bottom, v);
      ReflaggedIs(view, pages - 1, bottom, NthPage(bottom, pages - 1));
    }
  }

  /** All addresses of the stack are mapped writable and not executable. */
  ghost predicate StackMapped(view: PageMap, stack: Stack) {
    forall va: VirtAddr | stack.entry + 16 - 0x1_0000 <= va < stack.entry + 16 ::
      PageBase(va) in view && view[PageBase(va)].flags == {0, 1, 63}
  }

  /** The page that gets unmapped lies above the stack only if the stack ends at a page boundary;
      otherwise it holds the topmost part of the stack itself.  So once all pages have their flags, the
      whole stack is usable if and only if its top is aligned, and all its pages were mapped. */
  lemma StackUsableIffTopAligned(view: PageMap, stack: Stack)
    requires stack.InRange()
    ensures VirtBlock(STACK_PAGES, stack.Bottom())
    ensures StackMapped(Restacked(view, stack, STACK_PAGES), stack) <==>
      Aligned(stack.Top()) && AllMapped(view, STACK_PAGES, stack.Bottom())
  {
    StackBlock(stack);
    if Aligned(stack.Top()) && AllMapped(view, STACK_PAGES, stack.Bottom()) {
      AlignedStackIsUsable(view, stack);
    } else if !Aligned(stack.Top()) {
      MisalignedStackLosesItsTop(view, stack);
    } else {
      UnmappedStackStaysUnmapped(view, stack);
    }
  }

  lemma AlignedStackIsUsable(view: PageMap, stack: Stack)
    requires stack.InRange() && VirtBlock(STACK_PAGES, stack.Bottom())
    requires Aligned(stack.Top()) && AllMapped(view, STACK_PAGES, stack.Bottom())
    ensures StackMapped(Restacked(view, stack, STACK_PAGES), stack)
  {
    var bottom: VirtAddr := stack.Bottom();
    forall va: VirtAddr | bottom <= va < stack.Top()
      ensures PageBase(va) in Restacked(view, stack, STACK_PAGES)
      ensures Restacked(view, stack, STACK_PAGES)[PageBase(va)].flags == FLAGS_RW
    {
      var i := StackPage(stack, va);
      PageBasesAre(STACK_PAGES, bottom, PageBase(va));
      ReflaggedIs(view - {PageBase(stack.Top())}, STACK_PAGES, bottom, PageBase(va));
    }
  }

  lemma StackPage(stack: Stack, va: VirtAddr) returns (i: nat)
    requires stack.InRange() && VirtBlock(STACK_PAGES, stack.Bottom())
    requires Aligned(stack.Top()) && stack.Bottom() <= va < stack.Top()
    ensures i < STACK_PAGES && PageBase(va) == NthPage(stack.Bottom(), i) && PageBase(va) != PageBase(stack.Top())
  {
    i := (va - stack.Bottom()) / 4096;
  }

  lemma MisalignedStackLosesItsTop(view: PageMap, stack: Stack)
    requires stack.InRange() && VirtBlock(STACK_PAGES, stack.Bottom()) && !Aligned(stack.Top())
    ensures !StackMapped(Restacked(view, stack, STACK_PAGES), stack)
  {
    var page := PageBase(stack.Top());
    ReflaggedIs(view - {page}, STACK_PAGES, stack.Bottom(), page);
    assert stack.Bottom() <= page < stack.Top() && PageBase(page) == page;
  }

  lemma UnmappedStackStaysUnmapped(view: PageMap, stack: Stack)
    requires stack.InRange() && VirtBlock(STACK_PAGES, stack.Bottom())
    requires Aligned(stack.Top()) && !AllMapped(view, STACK_PAGES, stack.Bottom())
    ensures !StackMapped(Restacked(view, stack, STACK_PAGES), stack)
  {
    var bottom: VirtAddr := stack.Bottom();
    var i: nat :| i < STACK_PAGES && NthPage(bottom, i) !in view;
    ReflaggedIs(view - {PageBase(stack.Top())}, STACK_PAGES, bottom, NthPage(bottom, i));
    var page := Nth(bottom, i);
    NthPageBase(bottom, i);
    assert bottom <= page < stack.Top();
  }

  /** A stack inside a region that boot mapped at its offset is ready if and only if its top is aligned
      and the page there is mapped as well. */
  lemma RegionStackReadyIff(view: PageMap, region: Region, offset: nat, stack: Stack)
    requires stack.InRange() && Aligned(region.base + offset) && Shifted(view, OffsetBlock(region, offset))
    requires region.base + offset <= stack.Bottom() && stack.Top() <= region.base + offset + region.length
    ensures StackReady(view, stack) <==> Aligned(stack.Top()) && PageBase(stack.Top()) in view
  {
    StackBlock(stack);
    var bottom: VirtAddr := stack.Bottom();
    forall i: nat | i < STACK_PAGES
      ensures NthPage(bottom, i) in view
    {
      StackPageBounds(stack, region.base + offset, i);
      ShiftedPage(view, OffsetBlock(region, offset), NthPage(bottom, i));
    }
  }

  /** The stack and its top lie in a region that is mapped at its offset. */
  predicate StackInside(stack: Stack, region: Region, offset: nat) {
    && Aligned(region.base + offset)
    && region.base + offset <= stack.Bottom() && stack.Top() < region.base + offset + region.length
  }

  /** Then the mapping of that region is enough to remap it. */
  lemma StackInsideIsMapped(view: PageMap, region: Region, offset: nat, stack: Stack)
    requires Shifted(view, OffsetBlock(region, offset)) && stack.InRange() && StackInside(stack, region, offset)
    ensures StackMappedWithTop(view, stack)
    ensures StackReady(view, stack) <==> Aligned(stack.Top())
  {
    StackBlock(stack);
    forall i: nat | i < STACK_PAGES
      ensures NthPage(stack.Bottom(), i) in view
    {
      StackPageBounds(stack, region.base + offset, i);
      ShiftedPage(view, OffsetBlock(region, offset), NthPage(stack.Bottom(), i));
    }
    BlockPage(region.base + offset, stack.Top());
    ShiftedPage(view, OffsetBlock(region, offset), PageBase(stack.Top()));
  }

  /** A concrete stack that ends with the one region that is mapped: it is aligned and all its pages are
      mapped, but the page at its top is not, so remapping it fails. */
  lemma StackAtEndOfRegionIsNotReady(view: PageMap)
    requires var region := Region(0x10_0000, 0x1_0000, BootloaderReclaimable);
      Shifted(view, OffsetBlock(region, 0)) && Adds(Change(map[], view), [RegionPlace(region, 0)])
    ensures var stack := Stack(0x11_0000 - 16);
      && stack.InRange() && stack.KeepsOut() && Aligned(stack.Top()) && AllMapped(view, STACK_PAGES, stack.Bottom())
      && PageBase(stack.Top()) !in view && !StackReady(view, stack)
  {
    var stack := Stack(0x11_0000 - 16);
    StackBlock(stack);
    forall i: nat | i < STACK_PAGES
      ensures NthPage(stack.Bottom(), i) in view
    {
      StackPageBounds(stack, 0x10_0000, i);
      ShiftedPage(view, OffsetBlock(Region(0x10_0000, 0x1_0000, BootloaderReclaimable), 0), NthPage(stack.Bottom(), i));
    }
    BlockOutsideSlot(STACK_PAGES, stack.Bottom());
  }

  lemma StackPageBounds(stack: Stack, low: nat, i: nat)
    requires stack.InRange() && VirtBlock(STACK_PAGES, stack.Bottom()) && i < STACK_PAGES
    requires Aligned(low) && low <= stack.Bottom()
    ensures low <= NthPage(stack.Bottom(), i) < stack.Top() && Aligned(NthPage(stack.Bottom(), i))
  {
  }

  /** Remapping the stack adds no page. */
  lemma RestackedWithin(view: PageMap, stack: Stack, pages: nat, places: seq<Interval>)
    requires stack.InRange() && VirtBlock(pages, stack.Bottom()) && Adds(Change(map[], view), places)
    ensures Adds(Change(map[], Restacked(view, stack, pages)), places)
  {
    forall v: VirtAddr | v in Restacked(view, stack, pages)
      ensures Somewhere(places, v)
    {
      ReflaggedIs(view - {PageBase(stack.Top())}, pages, stack.Bottom(), v);
    }
  }

  /** No page of the image is a page of the stack, or that of its top. */
  predicate StackApart(layout: Layout, stack: Stack) {
    stack.Top() < layout.reqsStart || layout.elfEnd + PAGE_SIZE <= stack.Bottom()
  }

  /** A stack apart from the kernel image leaves the image as it is. */
  lemma ImageOutlivesStack(view: PageMap, layout: Layout, stack: Stack)
    requires stack.InRange() && VirtBlock(STACK_PAGES, stack.Bottom())
    requires ImageMapped(view, layout) && StackApart(layout, stack)
    ensures ImageMapped(Restacked(view, stack, STACK_PAGES), layout)
  {
    var bottom: VirtAddr := stack.Bottom();
    forall v: VirtAddr | layout.reqsStart <= v < layout.elfEnd && Aligned(v)
      ensures v in Restacked(view, stack, STACK_PAGES) && Restacked(view, stack, STACK_PAGES)[v] == view[v]
    {
      assert v in view;
      PageBasesAre(STACK_PAGES, bottom, v);
      ReflaggedIs(view - {PageBase(stack.Top())}, STACK_PAGES, bottom, v);
    }
  }
}
