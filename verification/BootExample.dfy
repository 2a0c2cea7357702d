/** A machine that boots: the conditions for success can be met. */
module BootExample {
  import opened Outcomes
  import opened Arch
  import opened PageBlocks
  import opened Blocks
  import opened KernelMapping
  import opened RegionMapping
  import opened BootStack
  import opened BootBitmaps
  import opened BootHandover

  const OFFSET: nat := 0xFFFF_8000_0000_0000
  const IMAGE: nat := 0xFFFF_FFFF_8000_0000

  const MEMORY := Region(0x10_0000, 0x800_0000, Usable)
  const KERNEL := Region(0x900_0000, 0x10_0000, ExecutableAndModules)
  const LOADER := Region(0xA00_0000, 0x10_0000, BootloaderReclaimable)
  const REGIONS := [MEMORY, KERNEL, LOADER]

  /** One page for each section. */
  const LAYOUT := Layout(IMAGE, IMAGE + 0x1000, IMAGE + 0x2000, IMAGE + 0x3000, IMAGE + 0x4000, IMAGE, KERNEL.base)

  /** A stack in the middle of the boot loader's region. */
  const ENTRY: nat := OFFSET + 0xA02_0000 - 16

  lemma LengthsAndEnds()
    ensures KernelLength(REGIONS) == 0x10_0000 && HasMemory(REGIONS) && FrameBytes(REGIONS) == 5152
    ensures HasKernel(REGIONS) && IsLargestUsable(REGIONS, 0)
  {
    assert REGIONS[1..] == [KERNEL, LOADER];
    assert KernelLength([KERNEL, LOADER]) == KERNEL.length;
    assert CountsAsMemory(REGIONS[0].kind) && REGIONS[1].kind.ExecutableAndModules?;
    assert REGIONS[..2] == [MEMORY, KERNEL] && [MEMORY, KERNEL][..1] == [MEMORY] && [MEMORY][..0] == [];
    assert MemoryEnd([MEMORY]) == 0x810_0000;
    assert MemoryEnd([MEMORY, KERNEL]) == 0x910_0000;
    assert MemoryEnd(REGIONS) == 0xA10_0000;
  }

  lemma Sizes()
    ensures BootPages(LAYOUT, 0x10_0000, REGIONS) == 512
  {
    assert MiscPages(REGIONS, 3) == 0 && MiscPages(REGIONS, 2) == 256;
    assert MiscPages(REGIONS, 1) == 256 && MiscPages(REGIONS, 0) == 256;
  }

  lemma KernelIsClear()
    ensures KernelClear(map[], LAYOUT, 0x10_0000)
  {
    assert LAYOUT.WellFormed();
    assert Mappable(KERNEL.base, IMAGE, 0x10_0000);
  }

  lemma LoaderIsClear()
    ensures RegionClear(map[], LOADER, OFFSET)
    ensures Disjoint(Cover(IMAGE, IMAGE + 0x10_0000), RegionPlace(LOADER, OFFSET))
  {
  }

  lemma EverythingIsClear()
    ensures BootClear(map[], LAYOUT, 0x10_0000, REGIONS, OFFSET)
  {
    KernelIsClear();
    LoaderIsClear();
    assert forall i | 0 <= i < |REGIONS| && MappedKind(REGIONS[i].kind) :: REGIONS[i] == LOADER;
  }

  lemma HeapIsApart()
    requires KernelLength(REGIONS) == 0x10_0000
    ensures HeapReady(LAYOUT, REGIONS, OFFSET, MEMORY.base)
  {
    assert REGIONS[..2] == [MEMORY, KERNEL] && [MEMORY, KERNEL][..1] == [MEMORY] && [MEMORY][..0] == [];
    assert MiscPlaces([MEMORY], OFFSET) == [] && MiscPlaces([MEMORY, KERNEL], OFFSET) == [];
    assert MiscPlaces(REGIONS, OFFSET) == [RegionPlace(LOADER, OFFSET)];
  }

  lemma StackIsPlaced()
    ensures Canonical(ENTRY) && Stack(ENTRY).InRange() && Stack(ENTRY).KeepsOut()
    ensures StackPlaced(Stack(ENTRY), REGIONS, OFFSET)
  {
    var stack := Stack(ENTRY);
    assert StackInside(stack, REGIONS[2], OFFSET);
    BlockOutsideSlot(STACK_PAGES, stack.Bottom());
  }

  lemma FramesSuffice()
    requires KernelLength(REGIONS) == 0x10_0000 && FrameBytes(REGIONS) == 5152
    ensures BootFrames(LAYOUT, REGIONS) == 5638
    ensures RoomAt(MEMORY.base, OFFSET, 5638)
    ensures LastFrame(LAYOUT, REGIONS, MEMORY.base) <= 4096 * (8 * 5152)
    ensures AllFit(REGIONS, 5152)
  {
    Sizes();
    assert TableFrames(LAYOUT, REGIONS) == 1537;
    assert SizeInPages(5152) == 2 && SizeInPages(2 * 5152) == 3;
  }

  lemma SystemIsReady()
    ensures Canonical(ENTRY) && SystemReady(LAYOUT, REGIONS, OFFSET, Stack(ENTRY), MEMORY.base)
  {
    LengthsAndEnds();
    EverythingIsClear();
    HeapIsApart();
    StackIsPlaced();
    FramesSuffice();
  }

  /** The conditions for a successful boot hold of this machine. */
  lemma ExampleIsReady()
    ensures Canonical(ENTRY) && Stack(ENTRY).KeepsOut() && BootReady(REGIONS, LAYOUT, OFFSET, ENTRY)
  {
    LengthsAndEnds();
    StackIsPlaced();
    SystemIsReady();
    assert OwnReady(REGIONS, LAYOUT, OFFSET, ENTRY, REGIONS[0].base);
  }

  /** So it boots. */
  method ExampleBoots(ram: Memory) returns (r: Outcome<System, BootError>)
    ensures r.Ok?
  {
    ExampleIsReady();
    var fa, heap;
    r, fa, heap := InitMemory(REGIONS, LAYOUT, OFFSET, ram, ENTRY);
  }
}
