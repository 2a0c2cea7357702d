# Kermol memory and console: a Dafny model

Kermol is a small x86-64 kernel. This project models its two state-heavy parts and proves what they
promise:

1. **Memory.** The four-level recursive page table (section 5.3 of the AMD64 Architecture Programmer's
   Manual, Volume 2), the frame allocators that feed it, the bitmap allocator, and the boot sequence that
   ties them together.
2. **Text console.** A cursor state machine that paints glyphs into a linear framebuffer.

## How the model is laid out

| file | what it holds |
|---|---|
| `Outcomes.dfy` | results: a value, a reported error, or `Panic`, a halt of the kernel |
| `Arch.dfy` | addresses, entries, flags, index arithmetic |
| `FrameAllocation.dfy` | the frame allocator contract and the linear allocator |
| `TableTree.dfy` | tables in physical memory, the tree invariant, the two kinds of write |
| `TreePruning.dfy` | detaching a table from the tree, by clearing a link through the reserved slot |
| `TreeTheorems.dfy` | self map, effective permissions, which writes keep a tree |
| `PageBlocks.dfy` | blocks of pages, and what mapping and unmapping them makes of a page map |
| `PageTable.dfy` | the page table and its operations, in place |
| `PageTableRuns.dfy` | round trips and whole runs |
| `Blocks.dfy` | where blocks lie, what they add to a page map, when mapping one succeeds |
| `KernelMapping.dfy`, `RegionMapping.dfy` | mapping the kernel image and the other regions at boot |
| `Bits.dfy`, `BitmapAllocation.dfy` | the bitmap allocator |
| `BootStack.dfy` | giving the boot stack its final flags |
| `BootBitmaps.dfy` | the choice of regions, and the bitmaps of frames and pages |
| `BootHandover.dfy` | the boot sequence, and the hand-over from the linear to the bitmap allocator |
| `BootExample.dfy` | a machine that meets the conditions for a successful boot |
| `AfterBoot.dfy`, `ImageProtection.dfy` | what holds of frames and mappings once boot is over |
| `AllocatedMemory.dfy` | checked access to mapped regions |
| `Framebuffer.dfy`, `Screen.dfy`, `TextWriter.dfy` | pixels, the character grid, the writer |

The central idea of the memory part is the predicate `TableTree.IsTree`: a ghost map from paths (index
prefixes) to frames names every table outside the reserved slot 510. Distinct paths lead to distinct
aligned frames, every link is read-write-execute, every slot that is not a link is zero, and the only back
edge is slot 510 of the root. `TableTree.Represents` ties the tables to `view`, the finite map from page
base to frame and flags; `RepresentsOnlyView` shows that this map is determined by walking raw memory. A
page table object is `Valid()` when its memory is such a tree with that view, and every operation is
specified by what it does to the view.

The central idea of the console part is `TextWriter.Renders`: every pixel of the text area equals the
pixel that the grid of cells prescribes. The writer is specified by a pure console (`Screen.Console`), and
a scrolling console is shown to be a window on endless paper (`Screen.Paper`).

## Modelling decisions

- Physical memory is a map from frame address to a table of 512 entries; the constant offset at which the
  code reaches physical memory is not part of it.
- An entry is its address field and the set of its flag bits; "unused" is the zero word. Storing a zero
  word counts as not mapping (`TableTree.Put`), so no operation demands non-empty flags.
- `assert!`, `unreachable!` and `unwrap` inside `map` and `put_char` are Dafny assertions, so they are
  proved never to fail. Halts that depend on the caller or on the machine (misaligned frames, addresses
  that leave their address space, slice indices past the end, arithmetic underflow) are the outcome
  `Panic`; overflow of `pages * PAGE_SIZE` counts as such a halt.
- The allocator trait becomes the class `FrameAllocator`. Its `Linear` backend is the linear allocator; its
  `Scripted` backend, which follows an arbitrary list of grants and failures, stands for every implementer
  that keeps the contract (aligned frames, none twice), so that claims about `Map` hold for all of them and
  for failure at any moment.
- Linker symbols, memory map, font and boot loader answers are parameters.

## What turned out different from its description

- `BitmapAllocator`: `size` counts bits, yet the bounds use `size * 8`. Ranges between the two bounds halt
  on the slice index. `FlagRange` and `CheckRange` state exactly when; `FlagPastEndHalts` is an example.
- Clearing a range reaches only its whole bytes (`Cleared`), because single bits are or-ed in. The frame
  bitmap is therefore conservative after boot: what it shows as free is free, but up to seven frames at
  either end of a usable region stay taken.
- A bitmap without room for up to 16 bits is reported as `AllocationError` only when its last bit is set.
  With a clear tail at least as long as the request `Alloc` halts, with a shorter one it reports
  `OutOfBounds` and then finds nothing ever again; a first fit that straddles the end halts as well.
  `SmallOutcomeIff` gives every outcome its condition; `ClearLastBitIsNotReported`, `ShortTail` and
  `StraddlingFitHalts` are examples.
- Requests for more than 16 bits look at every eighth byte, counted from a bit number, and grant bits they
  have not looked at; these were clear if and only if the bits from the first such stride on were
  (`LargeGrantWasClearIff`, `LargeRequestGrantsTakenBits`). Without such a stride they halt.
- Boot halts when the topmost region is usable and ends at a frame number that is not a multiple of eight
  (`FitsBelowHighestEnd`, `EndCountsNotLength`).
- The page that boot unmaps as a guard page is the one that holds the top of the stack. `RemapStack`
  succeeds with the whole stack usable if and only if its top is page aligned, all its pages were mapped,
  and so was the page at its top; a stack that ends with the mapped region makes boot fail
  (`StackAtEndOfRegionIsNotReady`).
- Page tables and bitmaps are reached at their physical address plus an offset. Once the new tables are
  loaded, such an address outside the kernel's own mappings leads to the frame if and only if boot mapped
  it for a region needed later (`ReachedAtOffset`); on a memory map without overlaps that is never the case
  (`TablesOutOfReach`). Only the heap is always mapped there (`HeapTranslates`).
- The bitmap of virtual pages is full when boot ends, and from a full bitmap nothing but the empty request
  is ever granted (`FullBitmapGrantsNothing`, `AllocRun`).
- `update_flags` accepts an address without a level-1 table silently.
- `unmap` through the reserved slot clears the link to a table. The tables stay a tree, but lose that table
  and every page served from it (`ClearingDetachesTable`); only at the page with all indices 510 do they
  stop being a tree, whatever tables one picks (`ClearingKeepsTreeIff`). New flags through the slot leave no
  tree unless they are the old ones (`ReflaggingKeepsTreeIff`).
- Scrolling pixels is scrolling the grid exactly when the pixel rows below the text area have the
  background color (`ScrollMovesGrid`, `DirtyMarginBreaksScrolling`).
- `handle_errors` refuses an access that ends exactly at the last byte (`RefusedInsideIffAtEnd`).
- A comment promises an empty glyph for unsupported characters; the code shows a box with a diagonal
  (`UnknownPixel`).
- Comments call the linear allocator downward growing, and the boot loader's memory read only; the code
  counts upward and maps that memory writable and executable. The model follows the code.

## Model

| member | source | states |
|---|---|---|
| `Arch.MakeAddressIndices` | src/memory/paging/page_table.rs:276-283 | indices and offset of an address built from them are those given |
| `Arch.MakeAddressInverse` | src/memory/paging/page_table.rs:276-283 | every canonical address is the one built from its own indices and offset |
| `Arch.IndicesDetermineAddress` | src/memory/paging/page_table.rs:276-283 | four indices and the offset determine a canonical address |
| `Arch.PageBaseIndices` | src/memory/paging/page_table.rs:276-283 | an address and its page base select the same slot at every level |
| `Arch.SlotIs` | src/memory/paging/page_table.rs:60-63 | the addresses with level-4 index 510 are those of one interval |
| `Arch.CanonicalIs` | src/memory/paging/page_table.rs:276-283 | of a canonical address the uppermost 17 bits are all clear or all set |
| `Arch.ZeroTable` | src/memory/paging/page_table.rs:285-293 | a new table has only unused entries |
| `FrameAllocation.FrameAllocator.Alloc` | src/memory/paging/frame_allocation.rs:31-36 | a granted frame is aligned and was never granted before; granted if and only if the script says so or the linear cursor stays below 2^52; the linear one grants its cursor and moves on by 4096 |
| `FrameAllocation.FrameAllocator.AllocContiguous` | src/memory/paging/frame_allocation.rs:38-42 | a block of consecutive frames, disjoint from everything granted before; halts exactly at the end of physical memory |
| `FrameAllocation.FrameAllocator.Linear` | src/memory/paging/frame_allocation.rs:27-29 | a linear allocator from a page-aligned base has granted nothing |
| `FrameAllocation.CanGrantNext` | src/memory/paging/frame_allocation.rs:31-36 | that n + 1 frames can be granted means that one can, and n more after it |
| `TableTree.WalkIsLookup` | src/memory/paging/page_table.rs:142-159 | in a tree, following entries in raw memory is looking up the path |
| `TableTree.WalkStripped` | src/memory/paging/page_table.rs:40-43 | going through slot 510 of the root leads back to the root |
| `TableTree.WalkStaysInMemory` | src/memory/paging/page_table.rs:142-159 | every walk to a table, reserved slot included, ends at a table of the tree or at an unused entry |
| `TableTree.MissingStaysMissing` | src/memory/paging/page_table.rs:148-153 | where a level is missing, all lower levels are |
| `TableTree.RepresentsOnlyView` | src/memory/paging/page_table.rs:161-172 | exactly one page map represents given tables |
| `TableTree.ViewRepresents` | src/memory/paging/page_table.rs:161-172 | and there is one |
| `TableTree.LinkTable` | src/memory/paging/page_table.rs:69-87 | hanging a fresh zeroed table into an empty slot keeps the tree and every translation |
| `TableTree.WriteLeaf` | src/memory/paging/page_table.rs:96-99 | writing a level-1 entry keeps the tree and changes exactly one page |
| `TableTree.SameSlotSamePage` | src/memory/paging/page_table.rs:276-283 | one slot of one level-1 table serves one page |
| `TreeTheorems.TranslationIsWalk` | src/memory/paging/page_table.rs:163-172 | translating is walking one entry further and adding the offset |
| `TreeTheorems.SelfMapPath` | src/memory/paging/page_table.rs:40-43 | translating a self-map address follows the path of the table after enough rounds through slot 510 |
| `TreeTheorems.SelfMap` | src/memory/paging/page_table.rs:40-43 | for every address and level, the self-map address translates to the table's frame, byte for byte, and is unmapped exactly when the table is missing |
| `TreeTheorems.LinksArePermissive` | src/memory/paging/page_table.rs:69-79 | the links to a table grant everything and forbid nothing |
| `TreeTheorems.EffectivePermissions` | src/memory/paging/page_table.rs:16-19 | present (bit 0), writable (bit 1) and no-execute (bit 63), combined along the path, are those of the page's own entry |
| `TreeTheorems.SlotPermissions` | src/memory/paging/page_table.rs:40-43 | tables seen through slot 510 may be read and written, but not executed |
| `TreePruning.PruneKeepsTree` | src/memory/paging/page_table.rs:181-196 | clearing the link to a table leaves the rest of the tree |
| `TreePruning.PruneView` | src/memory/paging/page_table.rs:181-196 | then exactly the pages served from that table are gone |
| `TreePruning.ReservedLink` | src/memory/paging/page_table.rs:40-43 | the entry of a mapped address in the slot is a link of the tree, or the self map at the page with all indices 510 |
| `TreePruning.ClearingDetachesTable` | src/memory/paging/page_table.rs:181-196 | clearing a mapped address in the slot, not the self map, detaches the table it leads to, with all tables and pages below, and nothing else |
| `TreePruning.NoTreeWithBadLink` | src/memory/paging/page_table.rs:107-118 | no tables whatever are a tree of memory in which a slot above level 1 holds neither zero nor a link |
| `TreeTheorems.WritingKeepsTreeIff` | src/memory/paging/page_table.rs:107-118 | after zero or other flags are written to a mapped entry, some tables are a tree if and only if nothing changes, or the address is outside slot 510, or a link other than the self map is cleared |
| `TreeTheorems.ClearingKeepsTreeIff` | src/memory/paging/page_table.rs:181-196 | after a mapped entry is cleared, some tables are a tree if and only if it was not the self map |
| `TreeTheorems.ReflaggingKeepsTreeIff` | src/memory/paging/page_table.rs:107-118 | after new flags, some tables are a tree if and only if the address is outside slot 510 or the flags are the old ones, apart from a link to frame 0 that becomes the zero word |
| `TreeTheorems.ClearingSelfMapBreaksTree` | src/memory/paging/page_table.rs:181-196 | the address with all indices 510 is always mapped, and once it is unmapped no tables are a tree |
| `PageTable.RecursivePageTable.constructor` | src/memory/paging/page_table.rs:30-49 | a zeroed root with its self map is a tree with an empty page map |
| `PageTable.RecursivePageTable.GetPageTable` | src/memory/paging/page_table.rs:140-159 | the table of a level, or nothing, exactly as raw memory says |
| `PageTable.RecursivePageTable.Map` | src/memory/paging/page_table.rs:51-105 | success adds exactly one page; every failure leaves the page map and the tree; every outcome, halt and refused table included, if and only if its cause; granted frames all become tables; the unused-entry assertion and the unreachable end are proved |
| `PageTable.RecursivePageTable.MapFrom` | src/memory/paging/page_table.rs:66-102 | the same, once the lowest existing table is found |
| `PageTable.RecursivePageTable.CreateLevels` | src/memory/paging/page_table.rs:68-87 | missing levels are created without touching a translation, also when the allocator fails halfway; succeeds if and only if so many frames can be granted |
| `PageTable.RecursivePageTable.AddLevel` | src/memory/paging/page_table.rs:69-86 | one level: the entry is unused, the new table is fresh and zeroed |
| `PageTable.RecursivePageTable.UpdateFlags` | src/memory/paging/page_table.rs:107-118 | changes the flags of one page and keeps its frame; error if and only if the level-1 table exists and the entry is unused |
| `PageTable.RecursivePageTable.MapContiguous` | src/memory/paging/page_table.rs:120-138 | the page map is the old one with the first pages of the block put in, in order; how many is the success count, and where it stops there is a stated cause |
| `PageTable.RecursivePageTable.MapNth` | src/memory/paging/page_table.rs:129-136 | one page of the block |
| `PageTable.RecursivePageTable.Translate` | src/memory/paging/page_table.rs:161-172 | frame plus offset for a mapped page, nothing otherwise |
| `PageTable.RecursivePageTable.Unmap` | src/memory/paging/page_table.rs:179-196 | succeeds if and only if the address is mapped; removes exactly one page, or, through the slot, a table with all it serves; the tables stay a tree unless it clears the self map |
| `PageTable.RecursivePageTable.UnmapContiguous` | src/memory/paging/page_table.rs:198-208 | clears the pages of any block in order, up to the first unmapped one, each with the effect of `Unmap`; outside the slot just these pages leave the page map |
| `PageBlocks.BlockMapped` | src/memory/paging/page_table.rs:120-138 | putting a block in page by page adds exactly its pages, none of which was mapped |
| `PageBlocks.BlockUnmapped` | src/memory/paging/page_table.rs:198-208 | unmapping a block succeeds if and only if all its pages are mapped, and removes exactly them |
| `PageTableRuns.PagesAt` | src/memory/paging/page_table.rs:129-136 | page i of a block leads to frame i with the block's flags |
| `PageTableRuns.PagesOnly` | src/memory/paging/page_table.rs:129-136 | a block holds no other page |
| `PageTableRuns.RoundTrip` | src/memory/paging/page_table.rs:120-208 | on page maps: mapping a block and unmapping it up to the first unmapped page comes back to the start, unless its first word is zero |
| `PageTableRuns.MapThenUnmap` | src/memory/paging/page_table.rs:120-208 | after a successful mapping, unmapping the block succeeds if and only if its first word is not zero, and then restores the page map |
| `PageTableRuns.NewPageTable` | src/memory/paging/page_table.rs:30-49 | a new page table in a frame of its own, nothing mapped, every other granted frame untouched |
| `PageTableRuns.Run` | src/memory/paging/page_table.rs:53-208 | over every run of operations, with any allocator: the tables stay a tree in granted frames, no granted frame is lost, and each step changes the page map exactly as its outcome says |
| `Blocks.SizeInPages` | src/memory/paging/mod.rs:243-250 | the least number of pages that holds so many bytes |
| `Blocks.BlockShifted` | src/memory/paging/page_table.rs:120-138 | a mapped block adds pages only where it lies and shifts all of them by one amount |
| `Blocks.BlockSucceeds` | src/memory/paging/page_table.rs:120-138 | a block in canonical range, outside slot 510, with nothing in its way and three frames to spare for every page is mapped to its end |
| `Blocks.MapBytes` | src/memory/paging/page_table.rs:120-138 | so many bytes as pages: what is new, the shift, the cause of every failure, and a condition under which it must succeed |
| `KernelMapping.MapKernelSection` | src/memory/paging/mod.rs:168-194 | all pages of a section lead to the image in physical memory with the section's flags and the global bit, and nothing else is new; every failure has its cause, and a clear section with room for its tables succeeds |
| `KernelMapping.MapKernel` | src/memory/paging/mod.rs:112-166 | new pages lie in the sections or the rest of the region, whatever the symbols; page-aligned ordered symbols give the image section by section and the rest read only; failures have their cause, and a clear region with room succeeds |
| `RegionMapping.PlacesByKind` | src/memory/paging/mod.rs:202-212 | framebuffer, ACPI and boot loader regions get a place at their offset, usable, reserved, bad and executable ones none |
| `RegionMapping.NeededRegionMapped` | src/memory/paging/mod.rs:202-219 | every page of a region of these kinds leads to its frame, present, writable and executable |
| `RegionMapping.MapMisc` | src/memory/paging/mod.rs:196-222 | the regions needed later are offset-mapped, the others are not, and nothing mapped before is lost; failures have their cause, and clear disjoint regions with room succeed |
| `RegionMapping.MapKernelThenMisc` | src/memory/paging/mod.rs:62-65 | both together, and nothing else is new; succeeds if kernel and regions are clear and disjoint and there is room |
| `Blocks.ShiftedTranslates` | src/memory/paging/page_table.rs:161-172 | every address of a shifted block translates by that shift, writable as its flags say |
| `KernelMapping.ImageTranslates` | src/memory/paging/mod.rs:183-192 | every address of the image translates to itself minus virtual base plus physical base |
| `KernelMapping.ImagePermissions` | src/memory/paging/mod.rs:118-144 | the processor permits writing exactly in the data, executing exactly in the text, and reading everywhere in the image |
| `KernelMapping.RestPermissions` | src/memory/paging/mod.rs:155-163 | the rest of the kernel's region may only be read, and lies where it was loaded |
| `KernelMapping.ImageNeverWritableAndExecutable` | src/memory/paging/mod.rs:118-144 | no page of the image is effectively both writable and executable |
| `Bits.WholeByte` | src/memory/paging/bitmap_allocator.rs:171-181 | a byte is all ones or all zeros exactly when its eight bits are |
| `Bits.OrMask` | src/memory/paging/bitmap_allocator.rs:194-195 | or-ing a mask in sets that bit and no other |
| `Bits.MaskIsShift` | src/memory/paging/bitmap_allocator.rs:194-195 | bit k of a byte is 1 shifted left by k |
| `Bits.AlignmentIs` | src/memory/paging/bitmap_allocator.rs:163-165 | aligning gives the least multiple of eight from a number on, and the greatest up to it |
| `BitmapAllocation.BitmapAllocator.constructor` | src/memory/paging/bitmap_allocator.rs:39-51 | all bits set or all clear, cursor at zero |
| `BitmapAllocation.BitmapAllocator.Check` | src/memory/paging/bitmap_allocator.rs:142-149 | compares one bit; past the real end it halts, past the bound it reports |
| `BitmapAllocation.BitmapAllocator.CheckRange` | src/memory/paging/bitmap_allocator.rs:151-188 | equals "every bit of the range", an empty one included; past the real end it halts if the whole bytes do not fit or all bits inside pass, and is false otherwise |
| `BitmapAllocation.AlignedBounds` | src/memory/paging/bitmap_allocator.rs:163-165 | the aligned start of a range of at least eight bits never passes its aligned end |
| `BitmapAllocation.ClearedIffByte` | src/memory/paging/bitmap_allocator.rs:203-224 | a bit is cleared if and only if the whole byte that holds it lies inside the range |
| `BitmapAllocation.ClearingBytes` | src/memory/paging/bitmap_allocator.rs:203-224 | clearing makes zero of the bytes inside the range and leaves all others |
| `BitmapAllocation.BitmapAllocator.Flag` | src/memory/paging/bitmap_allocator.rs:190-197 | sets one bit, or changes nothing when the flag is clear |
| `BitmapAllocation.BitmapAllocator.FlagRange` | src/memory/paging/bitmap_allocator.rs:199-232 | setting is the union with the range; clearing makes zero of the bytes inside the range and leaves all others; exact conditions for error and halt |
| `BitmapAllocation.FlagPastEndHalts` | src/memory/paging/bitmap_allocator.rs:199-232 | flagging bit 8 of a one-byte bitmap halts |
| `BitmapAllocation.BitmapAllocator.ScanBits` | src/memory/paging/bitmap_allocator.rs:79-97 | a full-length result is the first circular fit; every other result proves that none was met |
| `BitmapAllocation.ScanIsComplete` | src/memory/paging/bitmap_allocator.rs:79-97 | from a cursor inside the bitmap: full length if and only if a circular fit exists anywhere; failure if and only if none does and the last bit is set |
| `BitmapAllocation.OneRoundIsEnough` | src/memory/paging/bitmap_allocator.rs:81-86 | one full round without a fit proves that there is none at any position |
| `BitmapAllocation.CircularIndex` | src/memory/paging/bitmap_allocator.rs:85-86 | the byte and bit that the scan reads are those of the circular position |
| `BitmapAllocation.SmallScan` | src/memory/paging/bitmap_allocator.rs:79-97 | what the scan for up to 16 bits promises decides every outcome of the allocation; bits granted inside the bitmap are the first fit and clear |
| `BitmapAllocation.SmallOutcomeIff` | src/memory/paging/bitmap_allocator.rs:59-64 | grant, halt, out of bounds and failure each hold if and only if their own condition on fits and clear tail does |
| `BitmapAllocation.ScanDecides` | src/memory/paging/bitmap_allocator.rs:59-77 | the scan, of either kind, decides the outcome of every request |
| `BitmapAllocation.CutShortIsTail` | src/memory/paging/bitmap_allocator.rs:79-97 | a result that is cut short is the clear tail of the bitmap, and there is no fit |
| `BitmapAllocation.ClearLastBitIsNotReported` | src/memory/paging/bitmap_allocator.rs:79-97 | a concrete bitmap without room on which the scan does not report failure |
| `BitmapAllocation.ShortTail` | src/memory/paging/bitmap_allocator.rs:59-64 | on that bitmap one bit halts and two are out of bounds |
| `BitmapAllocation.StraddlingFitHalts` | src/memory/paging/bitmap_allocator.rs:59-64 | a concrete bitmap whose only fit straddles the end, and a request that halts |
| `BitmapAllocation.BitmapAllocator.ScanBytes` | src/memory/paging/bitmap_allocator.rs:99-117 | the first stride of zero bytes; failure if and only if the cursor is past the bitmap, a halt if and only if there is no stride |
| `BitmapAllocation.LargeRequestGrantsTakenBits` | src/memory/paging/bitmap_allocator.rs:99-117 | a concrete bitmap on which 17 bits are granted although one of them is taken |
| `BitmapAllocation.LargeGrantWasClearIff` | src/memory/paging/bitmap_allocator.rs:99-117 | a large request is granted if and only if there is a stride, and bits that were clear if and only if those from the first stride on were |
| `BitmapAllocation.BitmapAllocator.Scan` | src/memory/paging/bitmap_allocator.rs:65-77 | requests as large as the bitmap are out of bounds; up to 16 bits are scanned for bit by bit in whole bytes, more in strides |
| `BitmapAllocation.BitmapAllocator.Alloc` | src/memory/paging/bitmap_allocator.rs:59-64 | what is granted lies inside and is exactly what gets set; up to 16 bits it was clear; the outcome is decided by the first fit and the clear tail, each exactly under its condition; a larger request gets the first stride or halts; the cursor stays inside the bitmap or passes the bound for good |
| `BitmapAllocation.FullBitmapGrantsNothing` | src/memory/paging/bitmap_allocator.rs:59-64 | from a full bitmap only the empty request is granted |
| `BitmapAllocation.AllocRun` | src/memory/paging/bitmap_allocator.rs:59-64 | over any run of requests: grants lie inside and account for every bit set; one of up to 16 bits was clear at the start and overlaps nothing granted before; from a full bitmap nothing is granted |
| `BootBitmaps.LargestUsable` | src/memory/mod.rs:57-67 | the usable region of the greatest length, the last among equals |
| `BootBitmaps.HighestEnd` | src/memory/paging/mod.rs:76-85 | the greatest end of a region that is neither reserved nor a framebuffer |
| `BootBitmaps.KernelRegion` | src/memory/paging/mod.rs:57-60 | the first region that holds the executable |
| `BootBitmaps.ClearUsable` | src/memory/paging/frame_allocation.rs:62-78 | frees exactly the whole bytes of frames of the usable regions; halts unless all of them fit |
| `BootBitmaps.FitsBelowHighestEnd` | src/memory/paging/mod.rs:87-89 | a usable region fits the bitmap that boot makes if and only if it stops before the last incomplete byte of frames, or has no frames and the bitmap a byte |
| `BootBitmaps.EndCountsNotLength` | src/memory/paging/mod.rs:87-89 | two concrete memory maps: eight frames from frame 4 do not fit, twelve do |
| `BootBitmaps.NewBitmap` | src/memory/paging/bitmap_allocator.rs:18-52 | a fully set bitmap whose bytes live in the next frames of the linear allocator, none granted before; exact condition for the halt |
| `BootBitmaps.FrameBytesAre` | src/memory/paging/mod.rs:87-89 | the bitmap has a bit for each frame below the highest end, as far as they fill whole bytes |
| `BootBitmaps.TopDoesNotFit` | src/memory/paging/mod.rs:76-89 | a topmost usable region that ends at a frame number not a multiple of eight does not fit that bitmap |
| `BootBitmaps.MakeBitmaps` | src/memory/paging/mod.rs:75-103 | two bitmaps in consecutive fresh frames: the first clear exactly at freed frames, the second twice as large and full; succeeds if and only if all usable regions fit and both can be granted and reached; so never with such a topmost region |
| `BootHandover.MakeTables` | src/memory/paging/mod.rs:55-74 | page tables in frames of their own; kernel and needed regions mapped and nothing else, then the stack remapped; succeeds if all of it is clear, the stack lies in a needed region, and there is room |
| `BootHandover.InitPaging` | src/memory/paging/mod.rs:50-110 | page tables as above and the two bitmaps; every frame granted meanwhile is a table or part of a bitmap; success only if all usable regions fit, and always if everything is ready |
| `BootHandover.MapHeap` | src/memory/mod.rs:86-99 | the heap block is mapped writable at its offset address, and nothing else is new; every failure has its cause |
| `BootHandover.InUseIffGranted` | src/memory/mod.rs:101-106 | the frames of tables, heap and bitmaps are exactly those between base and cursor of the linear allocator |
| `BootHandover.InitMemory` | src/memory/mod.rs:43-106 | at the end a frame bit is clear if and only if the frame was freed for a usable region and is no table, no heap and no bitmap; these are disjoint and account for every frame granted; the heap starts the largest usable region; the page map is kernel and needed regions, then the stack remapped, then the heap; it succeeds on every machine that meets `BootReady`, and never if the topmost region is usable and ends at a frame number not a multiple of eight |
| `BootExample.ExampleIsReady` | src/memory/mod.rs:43-106 | a concrete memory map, layout and stack that meet `BootReady` |
| `BootExample.ExampleBoots` | src/memory/mod.rs:43-106 | so it boots |
| `BootStack.RemapStack` | src/memory/paging/mod.rs:224-241 | unmaps one page and changes the flags of those of the stack, up to the first unmapped one; exact page map and cause on every outcome; success with the whole stack usable if and only if its top is aligned, its pages and the page at its top were mapped |
| `BootStack.StackExtent` | src/memory/paging/mod.rs:230-231 | the stack is the 64 KiB below the address sixteen bytes above the stack pointer |
| `BootStack.ReflaggedIs` | src/memory/paging/mod.rs:237-239 | new flags change no frame, no other page, and not which pages are mapped |
| `BootStack.StackUsableIffTopAligned` | src/memory/paging/mod.rs:230-239 | once all pages have new flags, the whole stack is mapped writable if and only if it was mapped and its top is page aligned |
| `BootStack.RegionStackReadyIff` | src/memory/paging/mod.rs:67-74 | a stack inside a mapped region can be remapped for use if and only if its top is aligned and the page there is mapped |
| `BootStack.StackInsideIsMapped` | src/memory/paging/mod.rs:67-74 | if it ends before the region does, that page is mapped too |
| `BootStack.StackAtEndOfRegionIsNotReady` | src/memory/paging/mod.rs:234-235 | a concrete aligned stack that ends with its region, where the page at its top is not mapped |
| `BootStack.ImageOutlivesStack` | src/memory/paging/mod.rs:230-239 | a stack apart from the kernel image leaves the image mapped as it was |
| `AfterBoot.ClearFrameIsFree` | src/memory/mod.rs:101-106 | a clear bit names a frame wholly inside a usable region that is no table, no heap and no bitmap, and was never granted |
| `AfterBoot.FrameClearIff` | src/memory/paging/frame_allocation.rs:62-78 | if regions start at pages, a bit is clear if and only if the eight frames of its byte lie inside one usable region and the frame is not in use |
| `AfterBoot.MappedPlaces` | src/memory/mod.rs:75-99 | after boot nothing is mapped but the kernel, the needed regions and the heap |
| `AfterBoot.RegionAfterBoot` | src/memory/paging/mod.rs:196-222 | every page of a framebuffer, ACPI or boot loader region is mapped at its offset after boot, except the page at the top of the stack, and keeps its flags outside the stack |
| `AfterBoot.ImageAfterBoot` | src/memory/paging/mod.rs:112-166 | the image is mapped section by section after boot, if the stack is apart from it |
| `AfterBoot.ImagePermissionsAfterBoot` | src/memory/paging/mod.rs:118-144 | after boot every image address leads to where the image was loaded, with exactly the permissions of its section |
| `AfterBoot.StackAfterBoot` | src/memory/paging/mod.rs:224-241 | after boot a stack in a needed region is usable if and only if its top is aligned |
| `AfterBoot.HeapTranslates` | src/memory/mod.rs:86-99 | every byte of the 4 MiB heap translates from its offset address, and may be read and written but not executed |
| `AfterBoot.ReachedAtOffset` | src/memory/paging/page_table.rs:174-177 | outside the kernel's mappings, an address in the offset page of a table or bitmap frame leads to that frame if boot mapped the page for a needed region, and does not translate otherwise |
| `AfterBoot.TablesOutOfReach` | src/memory/paging/page_table.rs:174-177 | on a memory map without overlaps, only the kernel's own mappings can reach a table or bitmap there |
| `AfterBoot.OutsideMiscPlaces` | src/memory/paging/mod.rs:196-222 | a frame of a usable region is in none of the places mapped for other regions |
| `ImageProtection.WherePagesLead` | src/memory/mod.rs:75-99 | every page after boot leads to the kernel's own place, into a needed region, or into the heap |
| `ImageProtection.ImageFramesOnlyInImage` | src/memory/paging/mod.rs:112-166 | on a memory map without overlaps, only the image's own page leads to a frame of the image |
| `ImageProtection.TextNeverWritable` | src/memory/paging/mod.rs:118-144 | so no frame of the text is writable through any address, slot 510 included |
| `AllocatedMemory.MapNew` | src/memory/allocated_memory.rs:19-77 | refuses empty regions; adds pages only where the region lies, and all of them in order if it is aligned and has flags; every failure has its cause, and a block that is ready succeeds |
| `AllocatedMemory.Allocation.HandleErrors` | src/memory/allocated_memory.rs:122-134 | access is granted, and each error reported, if and only if its condition on present, writable and the end holds |
| `AllocatedMemory.PermittedAccess` | src/memory/allocated_memory.rs:122-136 | every byte of a permitted access translates to physical base plus offset, and the processor grants it |
| `AllocatedMemory.RefusedInsideIffAtEnd` | src/memory/allocated_memory.rs:127-128 | of the accesses inside a region, exactly those that end at its last byte are refused |
| `Framebuffer.OffsetInjective` | src/display/linear_framebuffer.rs:35-38 | distinct pixels have distinct offsets |
| `Framebuffer.PixelIs` | src/display/linear_framebuffer.rs:35-38 | the pixels are stored row by row |
| `Framebuffer.GlyphBitIs` | src/display/linear_framebuffer.rs:54-60 | bit k of a glyph, most significant bit of each byte first |
| `Framebuffer.LinearFramebuffer.Plot` | src/display/linear_framebuffer.rs:33-38 | one offset changes |
| `Framebuffer.PixelWritten` | src/display/linear_framebuffer.rs:35-38 | writing an offset changes one pixel and no other |
| `Framebuffer.LinearFramebuffer.PlotGlyph` | src/display/linear_framebuffer.rs:40-76 | the pixel at (k mod width, k div width) of the box gets the color of glyph bit k, for every k below the bit count and the area, a side of zero counting as one; no other pixel changes; it halts if and only if a box with an empty side makes it leave the buffer |
| `Framebuffer.LinearFramebuffer.Scroll` | src/display/linear_framebuffer.rs:82-99 | every row shows the row so many layers below, and the rows that become free have the color |
| `Screen.CharacterPixel` | src/display/vga_text_emulation.rs:459-465 | a character up to 127 shows its own glyph in the font |
| `Screen.UnknownPixel` | src/display/vga_text_emulation.rs:456-465 | any other shows a box with a diagonal, whatever the font |
| `Screen.CharacterFillsCell` | src/display/vga_text_writer.rs:49-62 | any character but tab and line feed fills the cell at the cursor with its low byte as code, and moves on |
| `Screen.TabIsFourSpaces` | src/display/vga_text_writer.rs:13-47 | a tab writes four spaces and moves the cursor by four |
| `Screen.ScrollingConsoleIsWindow` | src/display/vga_text_writer.rs:41-83 | whatever is written, a scrolling console shows the last lines of endless paper |
| `Screen.ClearedConsoleIsWindow` | src/display/vga_text_writer.rs:25-39 | in particular from a cleared screen |
| `TextWriter.EveryScreenIsAGrid` | src/display/vga_text_emulation.rs:467-472 | whatever is on the screen, some grid renders to it |
| `TextWriter.GlyphFillsCell` | src/display/vga_text_emulation.rs:474-492 | painting a glyph at a cursor changes one cell of the grid and not the rows below the text area |
| `TextWriter.CharacterShown` | src/display/vga_text_emulation.rs:459-492 | a cell that holds a character shows its glyph, or the box for characters the font does not have, pixel by pixel |
| `TextWriter.ScrollMovesGrid` | src/display/vga_text_emulation.rs:494-496 | scrolling pixels by one text row scrolls the grid if and only if the rows below the text area have the background color |
| `TextWriter.DirtyMarginBreaksScrolling` | src/display/vga_text_emulation.rs:494-496 | a concrete screen, one cell and a row of other color below, on which it does not |
| `TextWriter.VGAWriter.constructor` | src/display/vga_text_writer.rs:25-39 | a new writer is valid if and only if one cell fits and the rows below the text area are clear |
| `TextWriter.VGAWriter.PutChar` | src/display/vga_text_emulation.rs:474-492 | one character at the cursor, never out of bounds; the pixels of that cell are the character's glyph in the two colors |
| `TextWriter.VGAWriter.ScrollUp` | src/display/vga_text_emulation.rs:494-496 | the grid moves up by one row and the last row is blank |
| `TextWriter.VGAWriter.NewLine` | src/display/vga_text_writer.rs:72-83 | next row, or scroll, or back to the top, and the pixels agree |
| `TextWriter.VGAWriter.WriteChar` | src/display/vga_text_writer.rs:41-64 | tab, line feed, character and wrap follow the console, and the pixels agree |
| `TextWriter.VGAWriter.WriteString` | src/display/vga_text_writer.rs:66-70 | for every string and every valid cursor the pixels render the console that the state machine reaches |

## Left out

- `BitmapAllocation.BitmapAllocator.Alloc`: from a cursor between the real end and the bound, which only a halt leaves behind, it says just that nothing is granted.
- `PageTableRuns.Run`: runs outside the reserved slot; through it tables can be detached, and their frames are then lost.
- `KernelMapping.MapKernel`: that the image is mapped as a whole is stated for page-aligned symbols in the order of the linker script.
- `BootStack.RemapStack`: demands a boot stack outside the reserved slot, where the new flags would leave no tree (`ReflaggingKeepsTreeIff`).
- `BootHandover.MakeTables`: the same demand.
- `BootHandover.InitPaging`: the same demand.
- `BootHandover.InitMemory`: the same demand; a misaligned base of the largest region counts as a halt, although a boot with nothing to map might report an error before it.
- `AllocatedMemory.MapNew`: takes the addresses that the constructors get from the bitmap allocators.
- `free`, `free_range` and the round trips of allocation: the guard against double frees is inverted and `free_range` is unfinished.
- `BitmapFrameAllocator::alloc`, `KernelPagingController` and `Drop for AllocatedMemory`: they rest on `free`, and frame numbers are not scaled to addresses.
- `load`, `flush`, CR3 and the translation buffer: hardware state.
- The background color of the writer is fixed while text is written; changing it is not modelled. `set_position` is a valid start cursor.
- Framebuffer pitch and pixel depth, the contents of the font, locks, print macros, interrupts, GDT, serial port and heap: setup of hardware or wrappers of libraries.
