/** Bringing up memory: a linear allocator feeds the page tables, the heap and the bitmaps, and then
    hands the rest of the usable frames over to the bitmap frame allocator. */
module BootHandover {
  import opened Outcomes
  import opened Arch
  import opened Bits
  import opened FrameAllocation
  import opened TableTree
  import opened PageBlocks
  import opened PageTable
  import opened PageTableRuns
  import opened Blocks
  import opened KernelMapping
  import opened RegionMapping
  import opened BootStack
  import opened BootBitmaps

  const HEAP_SIZE: nat := 0x40_0000
  const HEAP_PAGES: nat := HEAP_SIZE / PAGE_SIZE

  // ---------------------------------------------------------------- the page tables

  /** The page map that boot makes: kernel and regions mapped, then the stack remapped, and then `more`. */
  ghost predicate BootMap(view: PageMap, layout: Layout, regions: seq<Region>, offset: nat, stack: Stack,
                          more: seq<Interval>)
  {
    exists before: PageMap ::
      && BootDone(Change(map[], before), layout, KernelLength(regions), regions, offset)
      && Remapped(before, view, stack, more)
  }

  /** The stack is remapped, and what is new since then lies in `more`. */
  ghost predicate Remapped(before: PageMap, view: PageMap, stack: Stack, more: seq<Interval>) {
    && stack.InRange() && VirtBlock(STACK_PAGES, stack.Bottom()) && PageBase(stack.Top()) in before
    && Adds(Change(Restacked(before, stack, STACK_PAGES), view), more)
  }

  /** There is a kernel, everything that boot maps can be mapped, and the stack lies in a region that is. */
  ghost predicate TablesReady(layout: Layout, regions: seq<Region>, offset: nat, stack: Stack) {
    && HasKernel(regions)
    && BootClear(map[], layout, KernelLength(regions), regions, offset)
    && stack.InRange() && StackPlaced(stack, regions, offset)
  }

  predicate HasKernel(regions: seq<Region>) {
    exists i :: 0 <= i < |regions| && regions[i].kind.ExecutableAndModules?
  }

  predicate StackPlaced(stack: Stack, regions: seq<Region>, offset: nat) {
    exists j :: 0 <= j < |regions| && MappedKind(regions[j].kind) && StackInside(stack, regions[j], offset)
  }

  function TableFrames(layout: Layout, regions: seq<Region>): nat {
    1 + 3 * BootPages(layout, KernelLength(regions), regions)
  }

  /** The page tables, with the kernel and the regions needed later in them, and the stack remapped. */
  method MakeTables(fa: FrameAllocator, regions: seq<Region>, layout: Layout, offset: nat, ram: Memory, stack: Stack)
    returns (r: Outcome<RecursivePageTable, BootError>)
    requires fa.Valid() && fa.backend.Linear? && stack.KeepsOut()
    modifies fa
    ensures fa.Valid() && fa.backend.Linear?
    ensures Advanced(old(fa.backend), fa.backend, TableFrames(layout, regions))
    ensures r.Ok? ==>
      && fresh(r.value) && r.value.Serves(fa) && r.value.Others(fa) == old(fa.issued)
      && BootMap(r.value.spec.view, layout, regions, offset, stack, [])
    ensures TablesReady(layout, regions, offset, stack) && Room(old(fa.backend), TableFrames(layout, regions)) ==> r.Ok?
  {
    var created := NewPageTable(fa, ram);
    if !created.Ok? {
      return Panic;
    }
    var pt := created.value;
    var kernel := KernelRegion(regions);
    if kernel.None? {
      return Panic;
    }
    KernelLengthIs(regions, kernel.value);
    ghost var backend := fa.backend;
    var mapped := MapKernelThenMisc(pt, fa, layout, regions[kernel.value].length, regions, offset);
    AdvancedTwice(old(fa.backend), backend, fa.backend, 1, 3 * BootPages(layout, KernelLength(regions), regions));
    RoomLeft(old(fa.backend), backend, 1, 3 * BootPages(layout, KernelLength(regions), regions));
    if !mapped.Ok? {
      return if mapped.Panic? then Panic else Err(Paging(mapped.error));
    }
    ghost var before := pt.spec.view;
    var remapped, done := RemapStack(pt, stack);
    if TablesReady(layout, regions, offset, stack) {
      PlacedStackIsMapped(before, regions, offset, stack);
    }
    if !remapped.Ok? {
      return if remapped.Panic? then Panic else Err(Paging(remapped.error));
    }
    StackOnTop(before, layout, regions, offset, stack);
    return Ok(pt);
  }

  /** The stack on top of what was mapped. */
  lemma StackOnTop(before: PageMap, layout: Layout, regions: seq<Region>, offset: nat, stack: Stack)
    requires BootDone(Change(map[], before), layout, KernelLength(regions), regions, offset)
    requires stack.InRange() && VirtBlock(STACK_PAGES, stack.Bottom()) && PageBase(stack.Top()) in before
    ensures BootMap(Restacked(before, stack, STACK_PAGES), layout, regions, offset, stack, [])
  {
    var view := Restacked(before, stack, STACK_PAGES);
    AddsNothing(view);
    assert Remapped(before, view, stack, []);
  }

  lemma PlacedStackIsMapped(before: PageMap, regions: seq<Region>, offset: nat, stack: Stack)
    requires MiscMapped(before, regions, offset) && stack.InRange() && StackPlaced(stack, regions, offset)
    ensures StackMappedWithTop(before, stack)
  {
    var j :| 0 <= j < |regions| && MappedKind(regions[j].kind) && StackInside(stack, regions[j], offset);
    StackInsideIsMapped(before, regions[j], offset, stack);
  }

  // ---------------------------------------------------------------- tables and bitmaps

  /** What boot builds. */
  datatype System = System(pt: RecursivePageTable, frames: PlacedBitmap, pages: PlacedBitmap)

  /** `frames` frames from `next` on exist and are reached at canonical addresses. */
  predicate RoomAt(next: PhysAddr, offset: nat, frames: nat) {
    && next + Bytes(frames) < PHYS_LIMIT && Canonical(next + offset)
    && next + offset + Bytes(frames) < if next + offset < LOW_HALF_END then LOW_HALF_END else VIRT_LIMIT
  }

  function BitmapFrames(regions: seq<Region>): nat {
    SizeInPages(FrameBytes(regions)) + SizeInPages(2 * FrameBytes(regions))
  }

  /** Everything that tables and bitmaps need, with the linear allocator at `next`. */
  ghost predicate PagingReady(layout: Layout, regions: seq<Region>, offset: nat, stack: Stack, next: PhysAddr) {
    && TablesReady(layout, regions, offset, stack)
    && HasMemory(regions) && AllFit(regions, FrameBytes(regions))
    && RoomAt(next, offset, TableFrames(layout, regions) + BitmapFrames(regions))
  }

  /** The page tables first, then the two bitmaps. */
  method InitPaging(fa: FrameAllocator, regions: seq<Region>, layout: Layout, offset: nat, ram: Memory, stack: Stack)
    returns (r: Outcome<System, BootError>)
    requires fa.Valid() && fa.backend.Linear? && stack.KeepsOut()
    modifies fa
    ensures fa.Valid() && fa.backend.Linear?
    ensures r.Ok? ==>
      var System(pt, frames, pages) := r.value;
      && fresh(pt) && fresh(frames.allocator) && fresh(frames.allocator.bitmap)
      && fresh(pages.allocator) && fresh(pages.allocator.bitmap)
      && BitmapsMade(frames, pages, regions)
      && pt.Serves(fa) && pt.Others(fa) == old(fa.issued) + frames.Frames() + pages.Frames()
      && old(fa.backend.next) <= frames.at <= old(fa.backend.next) + Bytes(TableFrames(layout, regions))
      && frames.End() == pages.at && pages.End() == fa.backend.next
      && BootMap(pt.spec.view, layout, regions, offset, stack, [])
    ensures PagingReady(layout, regions, offset, stack, old(fa.backend.next)) ==> r.Ok?
  {
    var tables := MakeTables(fa, regions, layout, offset, ram, stack);
    PagingReadyMeans(old(fa.backend.next), fa.backend, layout, regions, offset, stack);
    if !tables.Ok? {
      return if tables.Panic? then Panic else Err(tables.error);
    }
    var pt := tables.value;
    ghost var issued := fa.issued;
    var bitmaps := MakeBitmaps(fa, regions, offset);
    if !bitmaps.Ok? {
      return Panic;
    }
    var (frames, pages) := bitmaps.value;
    MoreOthers(issued, pt.spec.tree.Values, frames.Frames(), pages.Frames());
    return Ok(System(pt, frames, pages));
  }

  /** Enough for everything is enough for the tables, and then for the bitmaps. */
  lemma PagingReadyMeans(next: PhysAddr, now: Backend, layout: Layout, regions: seq<Region>, offset: nat, stack: Stack)
    requires Advanced(Backend.Linear(next), now, TableFrames(layout, regions))
    ensures PagingReady(layout, regions, offset, stack, next) ==>
      && TablesReady(layout, regions, offset, stack)
      && Room(Backend.Linear(next), TableFrames(layout, regions))
      && BitmapsFit(regions, now.next, offset)
  {
    if PagingReady(layout, regions, offset, stack, next) {
      RoomForBitmaps(next, now.next, offset, TableFrames(layout, regions), SizeInPages(FrameBytes(regions)),
                     SizeInPages(2 * FrameBytes(regions)));
    }
  }

  lemma RoomForBitmaps(next: PhysAddr, now: PhysAddr, offset: nat, tables: nat, first: nat, second: nat)
    requires RoomAt(next, offset, tables + (first + second)) && next <= now <= next + Bytes(tables)
    ensures Canonical(now + offset) && Canonical(now + Bytes(first) + offset)
    ensures now + Bytes(first) + Bytes(second) < PHYS_LIMIT
  {
    assert Canonical(next + offset);
  }

  lemma MoreOthers(issued: set<PhysAddr>, tables: set<PhysAddr>, a: set<PhysAddr>, b: set<PhysAddr>)
    requires tables <= issued && a !! issued && b !! issued
    ensures issued + a + b - tables == issued - tables + a + b
  {
  }

  // ---------------------------------------------------------------- the heap

  /** The heap block is visible, writable, at its offset address. */
  function HeapBlock(heap: nat, offset: nat): Block {
    Block(heap + offset, heap + offset + HEAP_SIZE, offset, FLAGS_RW)
  }

  function HeapPlace(heap: nat, offset: nat): Interval {
    Cover(heap + offset, heap + offset + HEAP_SIZE)
  }

  ghost predicate HeapMapped(view: PageMap, heap: nat, offset: nat) {
    && Canonical(heap + offset) && VirtBlock(HEAP_PAGES, heap + offset)
    && (Aligned(heap + offset) ==> Shifted(view, HeapBlock(heap, offset)))
  }

  ghost function HeapFrames(heap: nat): set<PhysAddr> {
    FramesBetween(heap, heap + HEAP_SIZE)
  }

  /** Maps the heap block at its offset address, on top of what is mapped already. */
  method MapHeap(pt: RecursivePageTable, fa: FrameAllocator, heap: PhysAddr, offset: nat)
    returns (r: PagingResult)
    requires pt.Serves(fa)
    modifies pt`memory, pt`spec, fa
    ensures pt.Serves(fa) && pt.Others(fa) == old(pt.Others(fa))
    ensures Advanced(old(fa.backend), fa.backend, 3 * HEAP_PAGES)
    ensures BytesMapped(r, Change(old(pt.spec.view), pt.spec.view), HEAP_SIZE, heap, heap + offset, FLAGS_RW,
                        old(fa.backend))
    ensures r.Ok? ==> HeapMapped(pt.spec.view, heap, offset)
  {
    r := MapBytes(pt, fa, HEAP_SIZE, heap, heap + offset, FLAGS_RW);
  }

  /** Every frame granted during boot is a page table, or part of the heap or of one of the bitmaps,
      and of one of them only. */
  ghost predicate Accounted(system: System, fa: FrameAllocator, heap: nat)
    reads system.pt, fa
  {
    match system
    case System(pt, frames, pages) =>
      && pt.Serves(fa) && fa.backend.Linear? && heap == fa.base
      && pt.Others(fa) == HeapFrames(heap) + frames.Frames() + pages.Frames()
      && heap + HEAP_SIZE <= frames.at && frames.End() <= pages.at && pages.End() <= fa.backend.next
  }

  /** The heap block can be mapped at its offset, apart from everything that boot maps before. */
  predicate HeapReady(layout: Layout, regions: seq<Region>, offset: nat, heap: PhysAddr) {
    && Mappable(heap, heap + offset, HEAP_SIZE)
    && var places := BootPlaces(layout, KernelLength(regions), regions, offset);
      forall i | 0 <= i < |places| :: Blocks.Disjoint(places[i], HeapPlace(heap, offset))
  }

  /** Heap, tables and bitmaps are all there. */
  ghost predicate Built(system: System, fa: FrameAllocator, layout: Layout, regions: seq<Region>, offset: nat,
                        stack: Stack, heap: nat)
    reads system.pt, fa, system.frames.allocator, system.frames.allocator.bitmap
    reads system.pages.allocator, system.pages.allocator.bitmap
  {
    && BitmapsMade(system.frames, system.pages, regions) && Accounted(system, fa, heap)
    && BootMap(system.pt.spec.view, layout, regions, offset, stack, [HeapPlace(heap, offset)])
    && HeapMapped(system.pt.spec.view, heap, offset)
  }

  /** Maps the heap last: nothing but the heap is new, and if it was ready and there is room, it succeeds. */
  method AddHeap(system: System, fa: FrameAllocator, regions: seq<Region>, layout: Layout, offset: nat,
                 stack: Stack, heap: PhysAddr)
    returns (r: PagingResult)
    requires Accounted(system, fa, heap) && BootMap(system.pt.spec.view, layout, regions, offset, stack, [])
    requires BitmapsMade(system.frames, system.pages, regions)
    modifies system.pt`memory, system.pt`spec, fa
    ensures fa.Valid() && Advanced(old(fa.backend), fa.backend, 3 * HEAP_PAGES)
    ensures r.Ok? ==> Built(system, fa, layout, regions, offset, stack, heap)
    ensures HeapReady(layout, regions, offset, heap) && Room(old(fa.backend), 3 * HEAP_PAGES) ==> r.Ok?
  {
    var pt := system.pt;
    r := MapHeap(pt, fa, heap, offset);
    HeapOnTop(r, old(pt.spec.view), pt.spec.view, layout, regions, offset, stack, heap, old(fa.backend));
  }

  lemma HeapOnTop(r: PagingResult, view: PageMap, view': PageMap, layout: Layout, regions: seq<Region>, offset: nat,
                  stack: Stack, heap: PhysAddr, backend: Backend)
    requires BootMap(view, layout, regions, offset, stack, [])
    requires BytesMapped(r, Change(view, view'), HEAP_SIZE, heap, heap + offset, FLAGS_RW, backend)
    ensures r.Ok? ==> BootMap(view', layout, regions, offset, stack, [HeapPlace(heap, offset)])
    ensures HeapReady(layout, regions, offset, heap) && Room(backend, 3 * HEAP_PAGES) ==> r.Ok?
  {
    var before: PageMap :| BootDone(Change(map[], before), layout, KernelLength(regions), regions, offset)
      && Remapped(before, view, stack, []);
    var restacked := Restacked(before, stack, STACK_PAGES);
    AddsTransitive(restacked, view, view', [], [HeapPlace(heap, offset)]);
    assert [] + [HeapPlace(heap, offset)] == [HeapPlace(heap, offset)];
    assert r.Ok? ==> Remapped(before, view', stack, [HeapPlace(heap, offset)]);
    if HeapReady(layout, regions, offset, heap) {
      HeapPlaceClear(before, view, layout, regions, offset, stack, heap);
    }
  }

  lemma HeapPlaceClear(before: PageMap, view: PageMap, layout: Layout, regions: seq<Region>, offset: nat,
                       stack: Stack, heap: PhysAddr)
    requires BootDone(Change(map[], before), layout, KernelLength(regions), regions, offset)
    requires Remapped(before, view, stack, []) && HeapReady(layout, regions, offset, heap)
    ensures Clear(view, HeapPlace(heap, offset))
  {
    var places := BootPlaces(layout, KernelLength(regions), regions, offset);
    RestackedWithin(before, stack, STACK_PAGES, places);
    AddsTransitive(map[], Restacked(before, stack, STACK_PAGES), view, places, []);
    assert places + [] == places;
    ClearKept(map[], view, places, HeapPlace(heap, offset));
  }

  // ---------------------------------------------------------------- the whole sequence

  /** Everything that boot needs, with the linear allocator starting at `base`: all that is mapped can be
      mapped, the stack lies in a region that is, all usable regions fit the bitmap of frames, and boot's
      own frames exist and are covered by it. */
  ghost predicate SystemReady(layout: Layout, regions: seq<Region>, offset: nat, stack: Stack, base: PhysAddr) {
    && TablesReady(layout, regions, offset, stack) && HeapReady(layout, regions, offset, base)
    && HasMemory(regions) && AllFit(regions, FrameBytes(regions))
    && RoomAt(base, offset, BootFrames(layout, regions))
    && LastFrame(layout, regions, base) <= 4096 * (8 * FrameBytes(regions))
  }

  /** The frames that boot takes at most. */
  function BootFrames(layout: Layout, regions: seq<Region>): nat {
    HEAP_PAGES + (TableFrames(layout, regions) + BitmapFrames(regions)) + 3 * HEAP_PAGES
  }

  /** Heap block, page tables and bitmaps, all from the linear allocator. */
  method BuildSystem(fa: FrameAllocator, regions: seq<Region>, layout: Layout, offset: nat, ram: Memory, stack: Stack)
    returns (r: Outcome<System, BootError>, heap: nat)
    requires fa.Valid() && fa.backend == Backend.Linear(fa.base) && stack.KeepsOut()
    modifies fa
    ensures fa.Valid() && fa.backend.Linear?
    ensures r.Ok? ==>
      && fresh(r.value.frames.allocator.bitmap) && Built(r.value, fa, layout, regions, offset, stack, heap)
    ensures SystemReady(layout, regions, offset, stack, fa.base) ==> r.Ok? && Covered(r.value, fa)
  {
    SystemReadyMeans(layout, regions, offset, stack, fa.base);
    var block := AllocHeap(fa);
    if !block.Ok? {
      return Panic, 0;
    }
    heap := block.value;
    r := BuildOnHeap(fa, regions, layout, offset, ram, stack, heap);
    if r.Ok? {
      assert r.value.frames.allocator.bitmap.Length == FrameBytes(regions);
    }
  }

  /** The heap block, the first thing granted. */
  method AllocHeap(fa: FrameAllocator) returns (r: Outcome<PhysAddr, MemoryError>)
    requires fa.Valid() && fa.backend == Backend.Linear(fa.base)
    modifies fa
    ensures fa.Valid() && fa.backend.Linear?
    ensures r.Ok? <==> CanGrant(old(fa.backend), HEAP_PAGES)
    ensures r.Ok? ==>
      r.value == fa.base && fa.issued == HeapFrames(r.value) && fa.backend.next == r.value + HEAP_SIZE
  {
    r := fa.AllocContiguous(HEAP_PAGES);
    assert r.Ok? ==> fa.issued == HeapFrames(r.value);
  }

  /** Everything else. */
  method BuildOnHeap(fa: FrameAllocator, regions: seq<Region>, layout: Layout, offset: nat, ram: Memory, stack: Stack,
                     heap: PhysAddr)
    returns (r: Outcome<System, BootError>)
    requires fa.Valid() && fa.backend.Linear? && fa.backend.next == heap + HEAP_SIZE && stack.KeepsOut()
    requires heap == fa.base && fa.issued == HeapFrames(heap)
    modifies fa
    ensures fa.Valid() && fa.backend.Linear?
    ensures r.Ok? ==>
      && fresh(r.value.frames.allocator.bitmap) && Built(r.value, fa, layout, regions, offset, stack, heap)
      && fa.backend.next <= LastFrame(layout, regions, heap)
    ensures OnHeapReady(layout, regions, offset, stack, heap) ==> r.Ok?
  {
    r := InitOnHeap(fa, regions, layout, offset, ram, stack, heap);
    if !r.Ok? {
      return;
    }
    ghost var backend := fa.backend;
    var mapping := AddHeap(r.value, fa, regions, layout, offset, stack, heap);
    LastFrames(layout, regions, heap, backend, fa.backend);
    if !mapping.Ok? {
      r := if mapping.Panic? then Panic else Err(Paging(mapping.error));
    }
  }

  /** Everything that is needed once the heap block is granted. */
  ghost predicate OnHeapReady(layout: Layout, regions: seq<Region>, offset: nat, stack: Stack, heap: PhysAddr) {
    && heap + HEAP_SIZE < PHYS_LIMIT && PagingReady(layout, regions, offset, stack, heap + HEAP_SIZE)
    && HeapReady(layout, regions, offset, heap) && LastFrame(layout, regions, heap) < PHYS_LIMIT
  }

  /** Where the linear allocator is at most, when boot ends. */
  function LastFrame(layout: Layout, regions: seq<Region>, base: PhysAddr): nat {
    base + Bytes(BootFrames(layout, regions))
  }

  /** The frame bitmap covers everything that was granted. */
  predicate Covered(system: System, fa: FrameAllocator)
    reads fa
  {
    fa.backend.Linear? && fa.backend.next <= 4096 * (8 * system.frames.allocator.bitmap.Length)
  }

  /** Tables and bitmaps, with the heap block granted already. */
  method InitOnHeap(fa: FrameAllocator, regions: seq<Region>, layout: Layout, offset: nat, ram: Memory, stack: Stack,
                    heap: PhysAddr)
    returns (r: Outcome<System, BootError>)
    requires fa.Valid() && fa.backend.Linear? && fa.backend.next == fa.base + HEAP_SIZE && stack.KeepsOut()
    requires heap == fa.base && fa.issued == HeapFrames(heap)
    modifies fa
    ensures fa.Valid() && fa.backend.Linear?
    ensures r.Ok? ==>
      && fresh(r.value.pt) && fresh(r.value.frames.allocator.bitmap)
      && BitmapsMade(r.value.frames, r.value.pages, regions) && Accounted(r.value, fa, heap)
      && BootMap(r.value.pt.spec.view, layout, regions, offset, stack, [])
      && fa.backend.next <= heap + HEAP_SIZE + Bytes(TableFrames(layout, regions) + BitmapFrames(regions))
    ensures PagingReady(layout, regions, offset, stack, old(fa.backend.next)) ==> r.Ok?
  {
    r := InitPaging(fa, regions, layout, offset, ram, stack);
  }

  lemma SystemReadyMeans(layout: Layout, regions: seq<Region>, offset: nat, stack: Stack, base: PhysAddr)
    ensures SystemReady(layout, regions, offset, stack, base) ==>
      && CanGrant(Backend.Linear(base), HEAP_PAGES) && OnHeapReady(layout, regions, offset, stack, base)
      && LastFrame(layout, regions, base) <= 4096 * (8 * FrameBytes(regions))
  {
    if SystemReady(layout, regions, offset, stack, base) {
      RoomAfter(base, offset, HEAP_PAGES, TableFrames(layout, regions) + BitmapFrames(regions), 3 * HEAP_PAGES);
    }
  }

  lemma RoomAfter(next: PhysAddr, offset: nat, before: nat, frames: nat, after: nat)
    requires RoomAt(next, offset, before + frames + after)
    ensures CanGrant(Backend.Linear(next), before) && next + Bytes(before) < PHYS_LIMIT
    ensures RoomAt(next + Bytes(before), offset, frames)
  {
    assert Canonical(next + offset);
  }

  /** Once the bitmaps are made there is room for the tables of the heap. */
  lemma LastFrames(layout: Layout, regions: seq<Region>, base: PhysAddr, before: Backend, after: Backend)
    requires before.Linear? && Advanced(before, after, 3 * HEAP_PAGES)
    requires before.next <= base + HEAP_SIZE + Bytes(TableFrames(layout, regions) + BitmapFrames(regions))
    ensures LastFrame(layout, regions, base) < PHYS_LIMIT ==> Room(before, 3 * HEAP_PAGES)
    ensures after.next <= LastFrame(layout, regions, base)
  {
  }

  /** The frame at `a` is a table, or belongs to the heap or to a bitmap. */
  ghost predicate InUse(system: System, heap: nat, a: nat)
    reads system.pt
  {
    a < PHYS_LIMIT &&
    (a in system.pt.spec.tree.Values || a in HeapFrames(heap)
     || a in system.frames.Frames() || a in system.pages.Frames())
  }

  /** The frames in use are exactly those between the base and the cursor of the linear allocator. */
  lemma InUseIffGranted(system: System, fa: FrameAllocator, heap: nat, i: nat)
    requires Accounted(system, fa, heap)
    ensures InUse(system, heap, 4096 * i) <==> fa.base / 4096 <= i < fa.backend.next / 4096
  {
    FrameNumber(fa.base, fa.backend.next, i);
    var a := 4096 * i;
    if a < PHYS_LIMIT {
      assert a in fa.issued <==> a in system.pt.spec.tree.Values || a in system.pt.Others(fa);
    }
  }

  lemma FrameNumber(base: nat, next: nat, i: nat)
    requires Aligned(base) && Aligned(next)
    ensures Aligned(4096 * i)
    ensures base <= 4096 * i < next <==> base / 4096 <= i < next / 4096
  {
  }

  /** A frame bit is clear exactly when the frame was freed for a usable region and is not in use. */
  ghost predicate HandedOver(system: System, heap: nat, regions: seq<Region>)
    reads system.pt, system.frames.allocator.bitmap
  {
    var bytes := system.frames.allocator.bitmap[..];
    forall i: nat | i < 8 * |bytes| :: !BitAt(bytes, i) <==> Freed(regions, i) && !InUse(system, heap, 4096 * i)
  }

  /** Boot succeeds: on the base of the largest usable region, and with the stack that `entry` implies. */
  ghost predicate BootReady(regions: seq<Region>, layout: Layout, offset: nat, entry: nat) {
    && Canonical(entry) && Canonical(offset)
    && exists own: nat :: IsLargestUsable(regions, own) && OwnReady(regions, layout, offset, entry, regions[own].base)
  }

  ghost predicate OwnReady(regions: seq<Region>, layout: Layout, offset: nat, entry: VirtAddr, base: nat) {
    && Aligned(base) && base < LOW_HALF_END && Canonical(base + offset)
    && SystemReady(layout, regions, offset, Stack(entry), base)
  }

  lemma LargestIsUnique(regions: seq<Region>, own: nat)
    requires IsLargestUsable(regions, own)
    ensures forall other: nat | IsLargestUsable(regions, other) :: other == own
  {
  }

  /** What holds when boot is over.  The frame bitmap has exactly those frames clear that lie in whole
      bytes of a usable region and are neither a table nor part of the heap or of a bitmap; every granted
      frame is one of these; the page map is as boot made it. */
  ghost predicate Booted(system: System, fa: FrameAllocator, layout: Layout, regions: seq<Region>, offset: nat,
                         stack: Stack, heap: nat)
    reads system.pt, fa, system.frames.allocator, system.frames.allocator.bitmap
    reads system.pages.allocator, system.pages.allocator.bitmap
  {
    && Accounted(system, fa, heap) && HandedOver(system, heap, regions)
    && BootMap(system.pt.spec.view, layout, regions, offset, stack, [HeapPlace(heap, offset)])
    && HeapMapped(system.pt.spec.view, heap, offset)
    && system.frames.allocator.Valid() && CoversMemory(system.frames.allocator.bitmap.Length, regions)
    && AllFit(regions, system.frames.allocator.bitmap.Length)
    && AllTaken(system.pages, 2 * system.frames.allocator.bitmap.Length)
  }

  /** The whole hand-over. */
  method InitMemory(regions: seq<Region>, layout: Layout, offset: nat, ram: Memory, entry: nat)
    returns (r: Outcome<System, BootError>, fa: FrameAllocator?, heap: nat)
    requires Canonical(entry) ==> Stack(entry).KeepsOut()
    ensures r.Ok? ==>
      && fa != null && Canonical(entry)
      && (exists k: nat :: IsLargestUsable(regions, k) && heap == regions[k].base)
      && Booted(r.value, fa, layout, regions, offset, Stack(entry), heap)
    ensures BootReady(regions, layout, offset, entry) ==> r.Ok?
    ensures forall k: nat | TopEndsInByte(regions, k) :: !r.Ok?
  {
    fa, heap := null, 0;
    var largest := LargestUsable(regions);
    if largest.None? {
      return Err(Memory(AllocationError)), null, 0;
    }
    LargestIsUnique(regions, largest.value);
    var base := regions[largest.value].base;
    if !Canonical(offset) || base >= LOW_HALF_END || !Canonical(base + offset) || !Canonical(entry) {
      return Panic, null, 0;
    }
    if !Aligned(base) {
      return Panic, null, 0;  // linking a table at a misaligned frame halts
    }
    r, fa := BootFrom(base, regions, layout, offset, ram, Stack(entry));
    heap := base;
    forall k: nat | r.Ok? && TopEndsInByte(regions, k)
      ensures false
    {
      TopDoesNotFit(r.value.frames.allocator.bitmap.Length, regions, k);
    }
  }

  /** The hand-over, with the linear allocator starting at `base`. */
  method BootFrom(base: PhysAddr, regions: seq<Region>, layout: Layout, offset: nat, ram: Memory, stack: Stack)
    returns (r: Outcome<System, BootError>, fa: FrameAllocator)
    requires Aligned(base) && stack.KeepsOut()
    ensures r.Ok? ==> Booted(r.value, fa, layout, regions, offset, stack, base)
    ensures SystemReady(layout, regions, offset, stack, base) ==> r.Ok?
  {
    fa := new FrameAllocator.Linear(base);
    var heap;
    r, heap := BuildSystem(fa, regions, layout, offset, ram, stack);
    if !r.Ok? {
      return;
    }
    var marked := MarkGranted(r.value, fa, heap, regions);
    if !marked.Ok? {
      r := if marked.Panic? then Panic else Err(Memory(marked.error));
    }
  }

  /** Takes everything that the linear allocator granted out of the frame bitmap. */
  method MarkGranted(system: System, fa: FrameAllocator, heap: nat, regions: seq<Region>)
    returns (r: Outcome<Unit, MemoryError>)
    requires Accounted(system, fa, heap) && system.frames.allocator.Valid()
    requires ClearIffFreed(system.frames.allocator.bitmap[..], regions)
    modifies system.frames.allocator.bitmap
    ensures r.Ok? <==> Covered(system, fa)
    ensures r.Ok? ==> HandedOver(system, heap, regions)
  {
    r := system.frames.allocator.FlagRange(heap / PAGE_SIZE, fa.backend.next / PAGE_SIZE, true);
    forall i: nat
      ensures InUse(system, heap, 4096 * i) <==> fa.base / 4096 <= i < fa.backend.next / 4096
    {
      InUseIffGranted(system, fa, heap, i);
    }
  }
}
