/** Where the frames of the kernel image can be reached, once boot is over. */
module ImageProtection {
  import opened Outcomes
  import opened Arch
  import opened FrameAllocation
  import opened TableTree
  import opened TreePruning
  import opened TreeTheorems
  import opened PageBlocks
  import opened Blocks
  import opened KernelMapping
  import opened RegionMapping
  import opened BootStack
  import opened BootBitmaps
  import opened BootHandover
  import opened AfterBoot

  /** A page of the kernel, at its place in physical memory. */
  predicate LeadsToKernel(layout: Layout, v: VirtAddr, e: Entry) {
    layout.reqsStart <= v && e.addr == layout.Physical(v)
  }

  /** A page that leads into a region needed later. */
  predicate LeadsToRegion(regions: seq<Region>, e: Entry) {
    exists j ::
      0 <= j < |regions| && MappedKind(regions[j].kind)
      && regions[j].base <= e.addr < regions[j].base + regions[j].length
  }

  predicate LeadsToHeap(heap: nat, e: Entry) {
    heap <= e.addr < heap + HEAP_SIZE
  }

  /** Every page of the final page map leads to the kernel, to a region needed later, or to the heap. */
  lemma WherePagesLead(view: PageMap, layout: Layout, regions: seq<Region>, offset: nat, stack: Stack, heap: nat,
                       v: VirtAddr)
    requires BootMap(view, layout, regions, offset, stack, [HeapPlace(heap, offset)])
    requires HeapMapped(view, heap, offset) && PagedMap(regions, offset) && Aligned(heap) && layout.WellFormed()
    requires v in view && Aligned(v)
    ensures LeadsToKernel(layout, v, view[v]) || LeadsToRegion(regions, view[v]) || LeadsToHeap(heap, view[v])
  {
    var before: PageMap :| BootDone(Change(map[], before), layout, KernelLength(regions), regions, offset)
      && Remapped(before, view, stack, [HeapPlace(heap, offset)]);
    var restacked := Restacked(before, stack, STACK_PAGES);
    if v in restacked {
      ReflaggedIs(before - {PageBase(stack.Top())}, STACK_PAGES, stack.Bottom(), v);
      assert view[v].addr == before[v].addr;
      BeforePagesLead(before, layout, regions, offset, v);
    } else {
      NewPagesLead(view, heap, offset, v);
    }
  }

  lemma NewPagesLead(view: PageMap, heap: nat, offset: nat, v: VirtAddr)
    requires HeapMapped(view, heap, offset) && Aligned(offset) && Aligned(heap)
    requires v in view && Aligned(v) && Somewhere([HeapPlace(heap, offset)], v)
    ensures LeadsToHeap(heap, view[v])
  {
    AlignedSum(heap, offset);
    AlignedCover(heap + offset, heap + offset + HEAP_SIZE);
    ShiftedPage(view, HeapBlock(heap, offset), v);
  }

  lemma BeforePagesLead(before: PageMap, layout: Layout, regions: seq<Region>, offset: nat, v: VirtAddr)
    requires BootDone(Change(map[], before), layout, KernelLength(regions), regions, offset)
    requires PagedMap(regions, offset) && layout.WellFormed() && v in before && Aligned(v)
    ensures LeadsToKernel(layout, v, before[v]) || LeadsToRegion(regions, before[v])
  {
    var length := KernelLength(regions);
    SomewhereSplit(KernelPlaces(layout, length), MiscPlaces(regions, offset), v);
    if Somewhere(KernelPlaces(layout, length), v) {
      KernelPlaceIs(layout, length, v);
      if v >= layout.elfEnd {
        ShiftedPage(before, Rest(layout, length), v);
      }
    } else {
      var j := MiscPlaceIsRegion(regions, offset, v);
      AlignedSum(regions[j].base, offset);
      AlignedCover(regions[j].base + offset, regions[j].base + offset + regions[j].length);
      ShiftedPage(before, OffsetBlock(regions[j], offset), v);
    }
  }

  lemma KernelPlaceIs(layout: Layout, regionLength: nat, v: int)
    requires layout.WellFormed() && Somewhere(KernelPlaces(layout, regionLength), v)
    ensures layout.reqsStart <= v && (v < layout.elfEnd || v < layout.reqsStart + regionLength)
  {
    ImagePlacesBelow(layout);
    SomewhereSplit(ImagePlaces(layout), [Cover(layout.elfEnd, layout.reqsStart + regionLength)], v);
    AlignedCover(layout.elfEnd, layout.reqsStart + regionLength);
  }

  /** The image lies in the kernel's region `k`, and all that the linear allocator granted lies in the
      usable region `own`. */
  predicate Housed(layout: Layout, regions: seq<Region>, k: nat, own: nat, heap: nat, next: nat) {
    && k < |regions| && regions[k].kind.ExecutableAndModules?
    && regions[k].base <= layout.Physical(layout.reqsStart)
    && layout.Physical(layout.elfEnd) <= regions[k].base + regions[k].length
    && own < |regions| && regions[own].kind.Usable?
    && heap == regions[own].base && heap + HEAP_SIZE <= next <= regions[own].base + regions[own].length
  }

  /** On a memory map without overlaps, a page that leads to a frame of the image is the page of the image
      that belongs there: no other mapping reaches it. */
  lemma ImageFramesOnlyInImage(view: PageMap, layout: Layout, regions: seq<Region>, offset: nat, stack: Stack,
                               heap: nat, k: nat, own: nat, next: nat, v: VirtAddr)
    requires BootMap(view, layout, regions, offset, stack, [HeapPlace(heap, offset)])
    requires HeapMapped(view, heap, offset) && PagedMap(regions, offset) && Aligned(heap) && layout.WellFormed()
    requires RegionsApart(regions) && Housed(layout, regions, k, own, heap, next)
    requires v in view && Aligned(v)
    requires layout.Physical(layout.reqsStart) <= view[v].addr < layout.Physical(layout.elfEnd)
    ensures layout.reqsStart <= v < layout.elfEnd && view[v].addr == layout.Physical(v)
  {
    WherePagesLead(view, layout, regions, offset, stack, heap, v);
    if LeadsToRegion(regions, view[v]) {
      var j :| 0 <= j < |regions| && MappedKind(regions[j].kind)
        && regions[j].base <= view[v].addr < regions[j].base + regions[j].length;
      assert j != k && NoOverlap(regions[j], regions[k]);
    }
    assert own != k && NoOverlap(regions[own], regions[k]);
  }

  /** No frame of the kernel's text is writable through any address, the reserved slot included. */
  lemma TextNeverWritable(system: System, fa: FrameAllocator, layout: Layout, regions: seq<Region>, offset: nat,
                          stack: Stack, heap: nat, k: nat, own: nat, va: VirtAddr, a: nat)
    requires Accounted(system, fa, heap) && HeapMapped(system.pt.spec.view, heap, offset)
    requires BootMap(system.pt.spec.view, layout, regions, offset, stack, [HeapPlace(heap, offset)])
    requires PagedMap(regions, offset) && StackApart(layout, stack)
    requires layout.WellFormed() && Canonical(layout.textStart)
    requires RegionsApart(regions) && Housed(layout, regions, k, own, heap, fa.backend.next)
    requires Translation(system.pt.memory, system.pt.lvl4, va) == Some(a)
    requires layout.Physical(layout.textStart) <= a < layout.Physical(layout.rodataStart)
    ensures !AllGrant(system.pt.memory, system.pt.lvl4, LeafPath(va), WRITABLE)
  {
    var pt := system.pt;
    assert own != k && NoOverlap(regions[own], regions[k]);
    if Arch.Reserved(va) {
      SlotLeadsToTable(pt.memory, pt.lvl4, pt.spec.tree, va);
      GrantedInOwn(fa, pt.spec.tree, va, a);
    } else {
      ImageAfterBoot(pt.spec.view, layout, regions, offset, stack, [HeapPlace(heap, offset)]);
      TextPage(pt.memory, pt.lvl4, pt.spec.tree, pt.spec.view, layout, va, a);
      ImageFramesOnlyInImage(pt.spec.view, layout, regions, offset, stack, heap, k, own, fa.backend.next, PageBase(va));
      TextIsReadOnly(pt.memory, pt.lvl4, pt.spec.tree, pt.spec.view, layout, va);
    }
  }

  /** What an address in the reserved slot leads to is a table. */
  lemma SlotLeadsToTable(mem: Memory, root: PhysAddr, tree: Tree, va: VirtAddr)
    requires IsTree(mem, root, tree) && Arch.Reserved(va) && Translation(mem, root, va).Some?
    ensures exists f: PhysAddr ::
      f in tree.Values && Aligned(f) && Translation(mem, root, va) == Some(f + va % PAGE_SIZE)
  {
    ReservedLink(mem, root, tree, va);
    var p := if SelfMapPage(va) then Root else MappedTable(va);
    assert tree[p] in tree.Values && Aligned(tree[p]);
  }

  lemma GrantedInOwn(fa: FrameAllocator, tree: Tree, va: VirtAddr, a: nat)
    requires fa.Valid() && fa.backend.Linear? && tree.Values <= fa.issued
    requires exists f: PhysAddr :: f in tree.Values && Aligned(f) && a == f + va % PAGE_SIZE
    ensures fa.base <= a < fa.backend.next
  {
    var f: PhysAddr :| f in tree.Values && Aligned(f) && a == f + va % PAGE_SIZE;
    FrameEnd(f, fa.backend.next, va);
  }

  lemma FrameEnd(f: nat, next: nat, va: nat)
    requires Aligned(f) && Aligned(next) && f < next
    ensures f + va % PAGE_SIZE < next
  {
  }

  /** An address that leads into the text has its page among the frames of the text. */
  lemma TextPage(mem: Memory, root: PhysAddr, tree: Tree, view: PageMap, layout: Layout, va: VirtAddr, a: nat)
    requires IsTree(mem, root, tree) && Represents(mem, root, view) && !Arch.Reserved(va)
    requires ImageMapped(view, layout) && layout.WellFormed() && Canonical(layout.textStart)
    requires Translation(mem, root, va) == Some(a)
    requires layout.Physical(layout.textStart) <= a < layout.Physical(layout.rodataStart)
    ensures PageBase(va) in view && Aligned(PageBase(va))
    ensures layout.Physical(layout.textStart) <= view[PageBase(va)].addr < layout.Physical(layout.rodataStart)
  {
    TranslationInView(mem, root, view, va);
    LeafSummary(mem, root, tree, view, va);
    TextIsAligned(mem, root, tree, view, layout);
    PageFloor(layout.Physical(layout.textStart), view[PageBase(va)].addr, va);
  }

  lemma PageFloor(low: int, frame: nat, va: VirtAddr)
    requires Aligned(low) && Aligned(frame) && low <= frame + va % PAGE_SIZE
    ensures low <= frame
  {
  }

  lemma TextIsAligned(mem: Memory, root: PhysAddr, tree: Tree, view: PageMap, layout: Layout)
    requires IsTree(mem, root, tree) && Represents(mem, root, view) && ImageMapped(view, layout)
    requires layout.WellFormed() && Canonical(layout.textStart) && layout.textStart < layout.rodataStart
    ensures Aligned(layout.Physical(layout.textStart))
  {
    var v: VirtAddr := layout.textStart;
    assert v in view && !Arch.Reserved(v);
    LeafSummary(mem, root, tree, view, v);
    assert PageBase(v) == v;
  }

  lemma TextIsReadOnly(mem: Memory, root: PhysAddr, tree: Tree, view: PageMap, layout: Layout, va: VirtAddr)
    requires IsTree(mem, root, tree) && Represents(mem, root, view) && !Arch.Reserved(va)
    requires ImageMapped(view, layout) && layout.WellFormed() && PageBase(va) in view
    requires layout.reqsStart <= PageBase(va) < layout.elfEnd
    requires layout.textStart <= PageBase(va) < layout.rodataStart
    ensures !AllGrant(mem, root, LeafPath(va), WRITABLE)
  {
    EffectivePermissions(mem, root, tree, view, va);
  }
}
