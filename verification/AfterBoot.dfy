/** What holds of memory once boot has handed it over. */
module AfterBoot {
  import opened Outcomes
  import opened Arch
  import opened Bits
  import opened FrameAllocation
  import opened TableTree
  import opened TreeTheorems
  import opened PageBlocks
  import opened Blocks
  import opened KernelMapping
  import opened RegionMapping
  import opened BootStack
  import opened BitmapAllocation
  import opened BootBitmaps
  import opened BootHandover

  // ---------------------------------------------------------------- free frames and pages

  predicate HoldsFrame(region: Region, i: nat) {
    region.kind.Usable? && region.base <= 4096 * i && 4096 * (i + 1) <= region.base + region.length
  }

  /** After the hand-over a clear bit names a frame that lies entirely inside a usable region, if that
      region starts at a page, and that is no table, no part of the heap and no part of a bitmap. */
  lemma ClearFrameIsFree(regions: seq<Region>, system: System, fa: FrameAllocator, heap: nat, i: nat)
    requires Accounted(system, fa, heap) && HandedOver(system, heap, regions)
    requires i < 8 * system.frames.allocator.bitmap.Length && !BitAt(system.frames.allocator.bitmap[..], i)
    ensures exists k ::
      0 <= k < |regions| && FreedBy(regions[k], i) && (Aligned(regions[k].base) ==> HoldsFrame(regions[k], i))
    ensures forall f: PhysAddr | f == 4096 * i ::
      f !in system.pt.spec.tree.Values + HeapFrames(heap) + system.frames.Frames() + system.pages.Frames()
      && f !in fa.issued
  {
    var k :| 0 <= k < |regions| && FreedBy(regions[k], i);
    if Aligned(regions[k].base) {
      FreedFrameIsHeld(regions[k], i);
    }
    InUseIffGranted(system, fa, heap, i);
    FrameNumber(fa.base, fa.backend.next, i);
  }

  /** And exactly: with regions that start at pages, a frame bit is clear if and only if the eight frames
      that share its byte lie entirely inside one usable region, and the frame is not in use. */
  lemma FrameClearIff(regions: seq<Region>, system: System, heap: nat, i: nat)
    requires HandedOver(system, heap, regions) && i < 8 * system.frames.allocator.bitmap.Length
    requires forall k | 0 <= k < |regions| :: Aligned(regions[k].base)
    ensures !BitAt(system.frames.allocator.bitmap[..], i) <==>
      && !InUse(system, heap, 4096 * i)
      && exists k :: 0 <= k < |regions| && HoldsByteOf(regions[k], i)
  {
    if Freed(regions, i) {
      var k :| 0 <= k < |regions| && FreedBy(regions[k], i);
      FreedIffByteHeld(regions[k], i);
    }
    if exists k :: 0 <= k < |regions| && HoldsByteOf(regions[k], i) {
      var k :| 0 <= k < |regions| && HoldsByteOf(regions[k], i);
      FreedIffByteHeld(regions[k], i);
    }
  }

  /** The eight frames from the last multiple of eight on lie entirely inside the usable region. */
  predicate HoldsByteOf(region: Region, i: nat) {
    region.kind.Usable? && region.base <= 0x8000 * (i / 8) && 0x8000 * (i / 8 + 1) <= region.base + region.length
  }

  lemma FreedIffByteHeld(region: Region, i: nat)
    requires Aligned(region.base)
    ensures FreedBy(region, i) <==> HoldsByteOf(region, i)
  {
    ClearedIffByte(FirstFrame(region), EndFrame(region), i);
    FrameBounds(region, i / 8);
  }

  lemma FrameBounds(region: Region, byte: nat)
    requires Aligned(region.base)
    ensures region.base <= 0x8000 * byte <==> FirstFrame(region) <= 8 * byte
    ensures 0x8000 * (byte + 1) <= region.base + region.length <==> 8 * byte + 8 <= EndFrame(region)
  {
  }

  lemma FreedFrameIsHeld(region: Region, i: nat)
    requires Aligned(region.base) && FreedBy(region, i)
    ensures HoldsFrame(region, i)
  {
    var start, end := FirstFrame(region), EndFrame(region);
    AlignedBounds(start, end);
    assert region.base == 4096 * start && 4096 * end <= region.base + region.length;
  }

  // ---------------------------------------------------------------- the page map

  /** Nothing is mapped but the kernel, the regions needed later, and `more`. */
  lemma MappedPlaces(view: PageMap, layout: Layout, regions: seq<Region>, offset: nat, stack: Stack,
                     more: seq<Interval>)
    requires BootMap(view, layout, regions, offset, stack, more)
    ensures Adds(Change(map[], view), BootPlaces(layout, KernelLength(regions), regions, offset) + more)
  {
    var before: PageMap :| BootDone(Change(map[], before), layout, KernelLength(regions), regions, offset)
      && Remapped(before, view, stack, more);
    var places := BootPlaces(layout, KernelLength(regions), regions, offset);
    RestackedWithin(before, stack, STACK_PAGES, places);
    AddsTransitive(map[], Restacked(before, stack, STACK_PAGES), view, places, more);
  }

  /** The image is mapped section by section, unless the stack is in its way. */
  lemma ImageAfterBoot(view: PageMap, layout: Layout, regions: seq<Region>, offset: nat, stack: Stack,
                       more: seq<Interval>)
    requires BootMap(view, layout, regions, offset, stack, more) && layout.WellFormed() && StackApart(layout, stack)
    ensures ImageMapped(view, layout)
  {
    var before: PageMap :| BootDone(Change(map[], before), layout, KernelLength(regions), regions, offset)
      && Remapped(before, view, stack, more);
    ImageOutlivesStack(before, layout, stack);
    ImageKept(Restacked(before, stack, STACK_PAGES), view, layout);
  }

  /** So the processor permits what each section needs, and the image lies where it was loaded. */
  lemma ImagePermissionsAfterBoot(system: System, fa: FrameAllocator, layout: Layout, regions: seq<Region>,
                                  offset: nat, stack: Stack, heap: nat, va: VirtAddr)
    requires Accounted(system, fa, heap) && layout.WellFormed() && StackApart(layout, stack)
    requires BootMap(system.pt.spec.view, layout, regions, offset, stack, [HeapPlace(heap, offset)])
    requires layout.reqsStart <= va < layout.elfEnd
    ensures Translation(system.pt.memory, system.pt.lvl4, va) == Some(va - layout.virtualBase + layout.physicalBase)
    ensures var mem, root := system.pt.memory, system.pt.lvl4;
      && (va < layout.textStart || layout.rodataStart <= va < layout.dataStart ==> Permits(mem, root, va, {0, 63}))
      && (layout.textStart <= va < layout.rodataStart ==> Permits(mem, root, va, {0}))
      && (layout.dataStart <= va ==> Permits(mem, root, va, {0, 1, 63}))
  {
    var spec := system.pt.spec;
    ImageAfterBoot(spec.view, layout, regions, offset, stack, [HeapPlace(heap, offset)]);
    ImageTranslates(system.pt.memory, system.pt.lvl4, spec.tree, spec.view, layout, va);
    ImagePermissions(system.pt.memory, system.pt.lvl4, spec.tree, spec.view, layout, va);
  }

  /** A region needed later is mapped at its offset, except for the page at the top of the stack; its flags
      change only for the pages of the stack. */
  lemma RegionAfterBoot(view: PageMap, layout: Layout, regions: seq<Region>, offset: nat, stack: Stack,
                        more: seq<Interval>, j: nat, page: VirtAddr)
    requires BootMap(view, layout, regions, offset, stack, more)
    requires j < |regions| && NeededKind(regions[j].kind) && Aligned(regions[j].base + offset)
    requires regions[j].base + offset <= page < regions[j].base + offset + regions[j].length && Aligned(page)
    ensures Canonical(stack.Top())
    ensures page != PageBase(stack.Top()) ==> page in view && view[page].addr == page - offset
    ensures page < stack.Bottom() - 4095 || stack.Top() < page ==> view[page].flags == {0, 1}
  {
    var before: PageMap :| BootDone(Change(map[], before), layout, KernelLength(regions), regions, offset)
      && Remapped(before, view, stack, more);
    ShiftedPage(before, OffsetBlock(regions[j], offset), page);
    ReflaggedIs(before - {PageBase(stack.Top())}, STACK_PAGES, stack.Bottom(), page);
    PageBasesAre(STACK_PAGES, stack.Bottom(), page);
  }

  /** The page at the top of the stack is mapped only if it is in `more`. */
  lemma TopAfterBoot(view: PageMap, layout: Layout, regions: seq<Region>, offset: nat, stack: Stack,
                     more: seq<Interval>)
    requires BootMap(view, layout, regions, offset, stack, more)
    ensures Canonical(stack.Top())
    ensures PageBase(stack.Top()) in view ==> Somewhere(more, PageBase(stack.Top()))
  {
    var before: PageMap :| BootDone(Change(map[], before), layout, KernelLength(regions), regions, offset)
      && Remapped(before, view, stack, more);
    ReflaggedIs(before - {PageBase(stack.Top())}, STACK_PAGES, stack.Bottom(), PageBase(stack.Top()));
  }

  /** A stack inside a region needed later is usable after boot if and only if its top is aligned, unless
      the page at its top was mapped again. */
  lemma StackAfterBoot(view: PageMap, layout: Layout, regions: seq<Region>, offset: nat, stack: Stack,
                       more: seq<Interval>)
    requires BootMap(view, layout, regions, offset, stack, more) && stack.InRange()
    requires StackPlaced(stack, regions, offset) && !Somewhere(more, PageBase(stack.Top()))
    ensures StackMapped(view, stack) <==> Aligned(stack.Top())
  {
    var before: PageMap :| BootDone(Change(map[], before), layout, KernelLength(regions), regions, offset)
      && Remapped(before, view, stack, more);
    PlacedStackIsMapped(before, regions, offset, stack);
    StackUsableIffTopAligned(before, stack);
    if Aligned(stack.Top()) {
      StackKept(Restacked(before, stack, STACK_PAGES), view, stack);
    } else {
      TopAfterBoot(view, layout, regions, offset, stack, more);
      TopPageInStack(stack);
    }
  }

  lemma StackKept(view: PageMap, view': PageMap, stack: Stack)
    requires StackMapped(view, stack) && Extends(view, view')
    ensures StackMapped(view', stack)
  {
    forall va: VirtAddr | stack.Bottom() <= va < stack.Top()
      ensures PageBase(va) in view' && view'[PageBase(va)].flags == FLAGS_RW
    {
      assert PageBase(va) in view;
    }
  }

  lemma TopPageInStack(stack: Stack)
    requires stack.InRange() && !Aligned(stack.Top())
    ensures stack.Bottom() <= PageBase(stack.Top()) < stack.Top()
    ensures PageBase(PageBase(stack.Top())) == PageBase(stack.Top())
  {
  }

  lemma SomewhereSplit(p: seq<Interval>, q: seq<Interval>, v: int)
    ensures Somewhere(p + q, v) ==> Somewhere(p, v) || Somewhere(q, v)
  {
    if Somewhere(p + q, v) {
      var i :| 0 <= i < |p + q| && (p + q)[i].low <= v < (p + q)[i].high;
      assert i < |p| ==> p[i] == (p + q)[i];
      assert i >= |p| ==> q[i - |p|] == (p + q)[i];
    }
  }

  lemma {:induction false} MiscPlaceIsRegion(regions: seq<Region>, offset: nat, v: int) returns (j: nat)
    requires Somewhere(MiscPlaces(regions, offset), v)
    ensures j < |regions| && MappedKind(regions[j].kind)
    ensures RegionPlace(regions[j], offset).low <= v < RegionPlace(regions[j], offset).high
  {
    j := |regions| - 1;
    var rest := regions[..j];
    if MappedKind(regions[j].kind) {
      SomewhereSplit(MiscPlaces(rest, offset), [RegionPlace(regions[j], offset)], v);
    }
    if Somewhere(MiscPlaces(rest, offset), v) {
      j := MiscPlaceIsRegion(rest, offset, v);
    }
  }

  lemma AlignedCover(low: nat, high: nat)
    requires Aligned(low)
    ensures Cover(low, high) == Interval(low, high)
  {
  }

  lemma AlignedSum(a: int, b: int)
    requires Aligned(a) && Aligned(b)
    ensures Aligned(a + b)
  {
  }

  /** All regions start at a page, and so does the offset. */
  predicate PagedMap(regions: seq<Region>, offset: nat) {
    Aligned(offset) && forall i | 0 <= i < |regions| :: Aligned(regions[i].base)
  }

  // ---------------------------------------------------------------- reaching frames at their offset

  /** Every byte of the heap is reached at its offset address, and may be written. */
  lemma HeapTranslates(system: System, fa: FrameAllocator, heap: nat, offset: nat, byte: nat)
    requires Accounted(system, fa, heap) && HeapMapped(system.pt.spec.view, heap, offset)
    requires Aligned(heap + offset) && byte < 4 * 1024 * 1024
    ensures Canonical(heap + offset + byte)
    ensures var va, pt := heap + offset + byte, system.pt;
      Translation(pt.memory, pt.lvl4, va) == Some(heap + byte) && Permits(pt.memory, pt.lvl4, va, {0, 1, 63})
  {
    HeapByte(system.pt.memory, system.pt.lvl4, system.pt.spec, heap, offset, byte);
  }

  lemma HeapByte(mem: Memory, root: PhysAddr, spec: Spec, heap: nat, offset: nat, byte: nat)
    requires Realizes(mem, root, spec) && HeapMapped(spec.view, heap, offset)
    requires Aligned(heap + offset) && byte < HEAP_SIZE
    ensures Canonical(heap + offset + byte)
    ensures var va := heap + offset + byte;
      Translation(mem, root, va) == Some(heap + byte) && Permits(mem, root, va, {0, 1, 63})
  {
    HeapAddress(heap, offset, byte);
    ShiftedTranslates(mem, root, spec.tree, spec.view, HeapBlock(heap, offset), heap + offset + byte);
  }

  lemma HeapAddress(heap: nat, offset: nat, byte: nat)
    requires Canonical(heap + offset) && VirtBlock(HEAP_PAGES, heap + offset)
    requires Aligned(heap + offset) && byte < HEAP_SIZE
    ensures Canonical(heap + offset + byte)
  {
    var va := heap + offset + byte;
    assert va < heap + offset + Bytes(HEAP_PAGES - 1) + PAGE_SIZE;
    assert Canonical(va);
  }

  /** The frame holds a page table or part of a bitmap. */
  ghost predicate TableOrBitmap(system: System, f: PhysAddr)
    reads system.pt
  {
    f in system.pt.spec.tree.Values || f in system.frames.Frames() || f in system.pages.Frames()
  }

  lemma TableOrBitmapIsNoHeap(system: System, fa: FrameAllocator, heap: nat, f: PhysAddr)
    requires Accounted(system, fa, heap) && TableOrBitmap(system, f)
    ensures Aligned(heap) && Aligned(f) && f in fa.issued && !(heap <= f < heap + HEAP_SIZE)
  {
    assert f in fa.issued;
    assert Aligned(f) && heap <= f < heap + HEAP_SIZE ==> f in HeapFrames(heap);
    assert HeapFrames(heap) <= system.pt.Others(fa);
  }

  /** Boot mapped the page for a region needed later, and did not unmap it again for the stack. */
  ghost predicate InRegion(regions: seq<Region>, offset: nat, stack: Stack, page: VirtAddr)
    requires Canonical(stack.Top())
  {
    Somewhere(MiscPlaces(regions, offset), page) && page != PageBase(stack.Top())
  }

  /** The code reaches tables and bitmaps at their offset addresses.  Once the new tables are loaded, an
      address in the offset page of such a frame, outside the kernel's own mappings, leads to the frame if
      boot mapped that page for a region needed later, and does not translate otherwise. */
  lemma ReachedAtOffset(system: System, fa: FrameAllocator, layout: Layout, regions: seq<Region>, offset: nat,
                        stack: Stack, heap: nat, f: PhysAddr, va: VirtAddr)
    requires Accounted(system, fa, heap)
    requires BootMap(system.pt.spec.view, layout, regions, offset, stack, [HeapPlace(heap, offset)])
    requires PagedMap(regions, offset) && TableOrBitmap(system, f)
    requires f + offset <= va < f + offset + PAGE_SIZE && !Arch.Reserved(va)
    requires !Somewhere(KernelPlaces(layout, KernelLength(regions)), f + offset)
    ensures PageBase(va) == f + offset && Canonical(stack.Top())
    ensures Translation(system.pt.memory, system.pt.lvl4, va) ==
      if InRegion(regions, offset, stack, PageBase(va)) then Some(va - offset) else None
  {
    TableOrBitmapIsNoHeap(system, fa, heap, f);
    OffsetPage(f, offset, va);
    OffsetPageMapped(system.pt.spec.view, layout, regions, offset, stack, heap, f, PageBase(va));
    OffsetAnswer(system.pt.memory, system.pt.lvl4, system.pt.spec.view, f, offset, va,
                 InRegion(regions, offset, stack, PageBase(va)));
  }

  lemma OffsetAnswer(mem: Memory, root: PhysAddr, view: PageMap, f: PhysAddr, offset: nat, va: VirtAddr, mapped: bool)
    requires Represents(mem, root, view) && !Arch.Reserved(va)
    requires Aligned(f) && Aligned(offset) && f + offset <= va < f + offset + PAGE_SIZE
    requires (PageBase(va) in view <==> mapped) && (mapped ==> view[PageBase(va)].addr == f)
    ensures Translation(mem, root, va) == if mapped then Some(va - offset) else None
  {
    OffsetPage(f, offset, va);
    TranslationInView(mem, root, view, va);
  }

  lemma OffsetPage(f: nat, offset: nat, va: VirtAddr)
    requires Aligned(f) && Aligned(offset) && f + offset <= va < f + offset + PAGE_SIZE
    ensures PageBase(va) == f + offset && va % PAGE_SIZE == va - f - offset
  {
  }

  lemma OffsetPageMapped(view: PageMap, layout: Layout, regions: seq<Region>, offset: nat, stack: Stack, heap: nat,
                         f: PhysAddr, page: VirtAddr)
    requires BootMap(view, layout, regions, offset, stack, [HeapPlace(heap, offset)]) && PagedMap(regions, offset)
    requires Aligned(heap) && Aligned(f) && !(heap <= f < heap + HEAP_SIZE) && page == f + offset && Aligned(page)
    requires !Somewhere(KernelPlaces(layout, KernelLength(regions)), page)
    ensures Canonical(stack.Top())
    ensures page in view <==> InRegion(regions, offset, stack, page)
    ensures page in view ==> view[page].addr == f
  {
    TopAfterBoot(view, layout, regions, offset, stack, [HeapPlace(heap, offset)]);
    OutsideHeapPlace(heap, offset, f);
    if Somewhere(MiscPlaces(regions, offset), page) {
      RegionPageMapped(view, layout, regions, offset, stack, [HeapPlace(heap, offset)], page);
    }
    if page in view {
      MappedPlaces(view, layout, regions, offset, stack, [HeapPlace(heap, offset)]);
      var places := BootPlaces(layout, KernelLength(regions), regions, offset);
      SomewhereSplit(places, [HeapPlace(heap, offset)], page);
      SomewhereSplit(KernelPlaces(layout, KernelLength(regions)), MiscPlaces(regions, offset), page);
    }
  }

  lemma RegionPageMapped(view: PageMap, layout: Layout, regions: seq<Region>, offset: nat, stack: Stack,
                         more: seq<Interval>, page: VirtAddr)
    requires BootMap(view, layout, regions, offset, stack, more) && PagedMap(regions, offset) && Aligned(page)
    requires Somewhere(MiscPlaces(regions, offset), page)
    ensures Canonical(stack.Top())
    ensures page != PageBase(stack.Top()) ==> page in view && view[page].addr == page - offset
  {
    var j := MiscPlaceIsRegion(regions, offset, page);
    AlignedSum(regions[j].base, offset);
    AlignedCover(regions[j].base + offset, regions[j].base + offset + regions[j].length);
    RegionAfterBoot(view, layout, regions, offset, stack, more, j, page);
  }

  lemma OutsideHeapPlace(heap: nat, offset: nat, f: nat)
    requires Aligned(heap) && Aligned(offset) && !(heap <= f < heap + HEAP_SIZE)
    ensures !Somewhere([HeapPlace(heap, offset)], f + offset)
  {
    AlignedSum(heap, offset);
  }

  /** No two regions of the memory map overlap. */
  predicate RegionsApart(regions: seq<Region>) {
    forall i, j | 0 <= i < |regions| && 0 <= j < |regions| && i != j :: NoOverlap(regions[i], regions[j])
  }

  predicate NoOverlap(a: Region, b: Region) {
    a.base + a.length <= b.base || b.base + b.length <= a.base
  }

  /** On an ordinary memory map, with the linear allocator still inside its own region, a page table or
      bitmap can be reached at its offset address only by way of the kernel's own mappings. */
  lemma TablesOutOfReach(system: System, fa: FrameAllocator, layout: Layout, regions: seq<Region>, offset: nat,
                         stack: Stack, heap: nat, own: nat, f: PhysAddr, va: VirtAddr)
    requires Accounted(system, fa, heap)
    requires BootMap(system.pt.spec.view, layout, regions, offset, stack, [HeapPlace(heap, offset)])
    requires RegionsApart(regions) && PagedMap(regions, offset)
    requires IsLargestUsable(regions, own) && heap == regions[own].base
    requires fa.backend.next <= regions[own].base + regions[own].length
    requires TableOrBitmap(system, f)
    requires f + offset <= va < f + offset + PAGE_SIZE && !Arch.Reserved(va)
    requires !Somewhere(KernelPlaces(layout, KernelLength(regions)), f + offset)
    ensures Translation(system.pt.memory, system.pt.lvl4, va) == None
  {
    TableOrBitmapIsNoHeap(system, fa, heap, f);
    OutsideMiscPlaces(regions, offset, own, f);
    ReachedAtOffset(system, fa, layout, regions, offset, stack, heap, f, va);
  }

  /** A frame of a usable region lies in none of the places of the regions that get mapped. */
  lemma OutsideMiscPlaces(regions: seq<Region>, offset: nat, own: nat, f: nat)
    requires RegionsApart(regions) && PagedMap(regions, offset) && own < |regions| && regions[own].kind.Usable?
    requires regions[own].base <= f < regions[own].base + regions[own].length
    ensures !Somewhere(MiscPlaces(regions, offset), f + offset)
  {
    if Somewhere(MiscPlaces(regions, offset), f + offset) {
      var j := MiscPlaceIsRegion(regions, offset, f + offset);
      AlignedPlace(regions[j], offset, f);
    }
  }

  lemma AlignedPlace(region: Region, offset: nat, f: nat)
    requires Aligned(region.base) && Aligned(offset)
    requires RegionPlace(region, offset).low <= f + offset < RegionPlace(region, offset).high
    ensures region.base <= f < region.base + region.length
  {
    AlignedSum(region.base, offset);
  }
}
