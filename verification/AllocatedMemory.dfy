/** Regions of memory that are accessed through checked reads and writes. */
module AllocatedMemory {
  import opened Outcomes
  import opened Arch
  import opened FrameAllocation
  import opened TableTree
  import opened TreeTheorems
  import opened PageBlocks
  import opened PageTable
  import opened Blocks

  datatype Allocation = Allocation(virt: VirtAddr, phys: PhysAddr, size: nat, flags: Flags) {

    function Pages(): nat {
      SizeInPages(size)
    }

    /** The check before every access of `width` bytes at `offset`. */
    function HandleErrors(write: bool, offset: nat, width: nat): (r: Outcome<Unit, MemoryError>)
      ensures r.Ok? <==> 0 in flags && (write ==> 1 in flags) && offset + width < size
      ensures r == Err(PageNotPresent) <==> 0 !in flags
      ensures r == Err(WriteToReadOnly) <==> 0 in flags && write && 1 !in flags
      ensures r == Err(OutOfBounds) <==> 0 in flags && (write ==> 1 in flags) && offset + width >= size
    {
      if PRESENT !in flags then Err(PageNotPresent)
      else if write && WRITABLE !in flags then Err(WriteToReadOnly)
      else if offset + width >= size then Err(OutOfBounds)
      else Ok(Unit)
    }

    /** All pages of the region are mapped, in order, to its frames. */
    ghost predicate Mapped(view: PageMap) {
      VirtBlock(Pages(), virt) && Shifted(view, Block(virt, virt + size, virt - phys, flags))
    }
  }

  datatype ConstructionError = EmptyRegion | Paging(cause: PagingError)

  /** What both constructors do once they have addresses: refuse an empty region, map the rest. */
  method MapNew(pt: RecursivePageTable, fa: FrameAllocator, virt: VirtAddr, phys: PhysAddr, size: nat, flags: Flags)
    returns (r: Outcome<Allocation, ConstructionError>)
    requires pt.Serves(fa)
    modifies pt`memory, pt`spec, fa
    ensures pt.Serves(fa) && pt.Others(fa) == old(pt.Others(fa))
    ensures r == Err(EmptyRegion) <==> size == 0
    ensures Adds(Change(old(pt.spec.view), pt.spec.view), [Cover(virt, virt + size)])
    ensures r.Ok? ==> r.value == Allocation(virt, phys, size, flags)
    ensures r.Ok? && Aligned(virt) && flags != {} ==> r.value.Mapped(pt.spec.view)
    ensures r.Panic? ==> BytesStopped(Panic, size, phys, virt, pt.spec.view, old(fa.backend))
    ensures r.Err? && r.error.Paging? ==>
      BytesStopped(Err(r.error.cause), size, phys, virt, pt.spec.view, old(fa.backend))
    ensures size > 0 && BlockReady(old(pt.spec.view), size, phys, virt, old(fa.backend)) ==> r.Ok?
  {
    if size == 0 {
      return Err(EmptyRegion);
    }
    var mapped := MapBytes(pt, fa, size, phys, virt, flags);
    if mapped.Ok? {
      r := Ok(Allocation(virt, phys, size, flags));
    } else {
      r := if mapped.Panic? then Panic else Err(Paging(mapped.error));
    }
  }

  /** Every byte that a permitted access touches lies at the same offset in physical memory, and the
      processor grants the access. */
  lemma PermittedAccess(mem: Memory, root: PhysAddr, tree: Tree, view: PageMap, region: Allocation,
                        write: bool, offset: nat, width: nat, byte: nat)
    requires IsTree(mem, root, tree) && Represents(mem, root, view) && region.Mapped(view) && Aligned(region.virt)
    requires region.HandleErrors(write, offset, width).Ok? && offset <= byte < offset + width
    ensures Canonical(region.virt + byte)
    ensures var va := region.virt + byte;
      && Translation(mem, root, va) == Some(region.phys + byte)
      && Permits(mem, root, va, region.flags)
      && AllGrant(mem, root, LeafPath(va), 0) && (write ==> AllGrant(mem, root, LeafPath(va), 1))
  {
    PageInRegion(view, region, byte);
    var va := region.virt + byte;
    var page := PageBase(va);
    assert Reserved(page) <==> Reserved(va) by {
      PageBaseIndices(va);
    }
    LeafInView(mem, root, view, va);
    EffectivePermissions(mem, root, tree, view, va);
  }

  /** The page of a byte of a region is one of the region's pages. */
  lemma PageInRegion(view: PageMap, region: Allocation, byte: nat)
    requires region.Mapped(view) && Aligned(region.virt) && byte < region.size
    ensures Canonical(region.virt + byte)
    ensures var page := PageBase(region.virt + byte);
      && page in view && view[page].flags == region.flags
      && view[page].addr + (region.virt + byte) % PAGE_SIZE == region.phys + byte
  {
    var va: int := region.virt + byte;
    assert Canonical(region.virt);
    assert va < region.virt + Bytes(region.Pages());
    assert Canonical(va);
    var page: int := PageBase(va);
    assert region.virt <= page < region.virt + region.size;
    assert Aligned(page);
    assert page == va - va % 4096;
  }

  /** The bound is strict: of the accesses inside a region, exactly those that end at its last byte are
      refused for being out of bounds. */
  lemma RefusedInsideIffAtEnd(region: Allocation, write: bool, offset: nat, width: nat)
    requires 0 in region.flags && (write ==> 1 in region.flags) && offset + width <= region.size
    ensures region.HandleErrors(write, offset, width) == Err(OutOfBounds) <==> offset + width == region.size
  {
  }
}
