/** Boot's choice of regions, and the bitmaps it sets up for frames and pages. */
module BootBitmaps {
  import opened Outcomes
  import opened Arch
  import opened Bits
  import opened FrameAllocation
  import opened PageBlocks
  import opened Blocks
  import opened RegionMapping
  import opened BitmapAllocation

  datatype BootError = Memory(cause: MemoryError) | Paging(fault: PagingError)

  // ---------------------------------------------------------------- choosing regions

  /** Region `k` is usable and of the greatest length; the last one among equals. */
  predicate IsLargestUsable(regions: seq<Region>, k: nat) {
    && k < |regions| && regions[k].kind.Usable?
    && forall i | 0 <= i < |regions| && regions[i].kind.Usable? ::
      if i <= k then regions[i].length <= regions[k].length else regions[i].length < regions[k].length
  }

  method LargestUsable(regions: seq<Region>) returns (r: Option<nat>)
    ensures r.None? <==> forall i | 0 <= i < |regions| :: !regions[i].kind.Usable?
    ensures r.Some? ==> IsLargestUsable(regions, r.value)
  {
    r := None;
    for k := 0 to |regions|
      invariant r.None? <==> forall i | 0 <= i < k :: !regions[i].kind.Usable?
      invariant r.Some? ==> r.value < k && IsLargestUsable(regions[..k], r.value)
    {
      if regions[k].kind.Usable? && (r.None? || regions[r.value].length <= regions[k].length) {
        r := Some(k);
      }
    }
    assert regions[..|regions|] == regions;
  }

  predicate CountsAsMemory(kind: RegionType) {
    kind != RegionType.Reserved && kind != Framebuffer
  }

  /** The greatest end address of a region that is neither reserved nor a framebuffer. */
  predicate IsHighestEnd(regions: seq<Region>, end: nat) {
    && (forall i | 0 <= i < |regions| && !regions[i].kind.Reserved? && !regions[i].kind.Framebuffer? ::
          regions[i].base + regions[i].length <= end)
    && exists i ::
      && 0 <= i < |regions| && !regions[i].kind.Reserved? && !regions[i].kind.Framebuffer?
      && end == regions[i].base + regions[i].length
  }

  /** There is a region that counts, and the highest end as a function of the memory map. */
  predicate HasMemory(regions: seq<Region>) {
    exists i :: 0 <= i < |regions| && !regions[i].kind.Reserved? && !regions[i].kind.Framebuffer?
  }

  function MemoryEnd(regions: seq<Region>): nat {
    if regions == [] then 0
    else
      var last, rest := regions[|regions| - 1], MemoryEnd(regions[..|regions| - 1]);
      if CountsAsMemory(last.kind) && rest <= last.base + last.length then last.base + last.length else rest
  }

  lemma {:induction false} MemoryEndIs(regions: seq<Region>)
    ensures HasMemory(regions) ==> IsHighestEnd(regions, MemoryEnd(regions))
    ensures !HasMemory(regions) ==> MemoryEnd(regions) == 0
  {
    if regions != [] {
      var n := |regions| - 1;
      var less := regions[..n];
      MemoryEndIs(less);
      assert HasMemory(less) ==> HasMemory(regions) by {
        if HasMemory(less) {
          var i :| 0 <= i < n && CountsAsMemory(less[i].kind);
          assert CountsAsMemory(regions[i].kind);
        }
      }
      assert HasMemory(regions) ==> HasMemory(less) || CountsAsMemory(regions[n].kind) by {
        if HasMemory(regions) {
          var i :| 0 <= i < |regions| && CountsAsMemory(regions[i].kind);
          assert i < n ==> CountsAsMemory(less[i].kind);
        }
      }
      if HasMemory(regions) && MemoryEnd(regions) == MemoryEnd(less) && HasMemory(less) {
        var i :| 0 <= i < n && CountsAsMemory(less[i].kind) && MemoryEnd(less) == less[i].base + less[i].length;
        assert regions[i] == less[i];
      }
      assert forall i | 0 <= i < n :: regions[i] == less[i];
    }
  }

  method HighestEnd(regions: seq<Region>) returns (r: Option<nat>)
    ensures r.None? <==> !HasMemory(regions)
    ensures r.Some? ==> IsHighestEnd(regions, r.value) && r.value == MemoryEnd(regions)
  {
    r := None;
    for k := 0 to |regions|
      invariant r.None? <==> forall i | 0 <= i < k :: !CountsAsMemory(regions[i].kind)
      invariant MemoryEnd(regions[..k]) == if r.Some? then r.value else 0
    {
      assert regions[..k + 1][..k] == regions[..k];
      var end := regions[k].base + regions[k].length;
      if CountsAsMemory(regions[k].kind) && (r.None? || r.value <= end) {
        r := Some(end);
      }
    }
    assert regions[..|regions|] == regions;
    MemoryEndIs(regions);
  }

  /** Region `k` is the first that holds the executable. */
  predicate IsKernelRegion(regions: seq<Region>, k: nat) {
    && k < |regions| && regions[k].kind.ExecutableAndModules?
    && forall i | 0 <= i < k :: !regions[i].kind.ExecutableAndModules?
  }

  /** The length of that region. */
  function KernelLength(regions: seq<Region>): nat {
    if regions == [] then 0
    else if regions[0].kind.ExecutableAndModules? then regions[0].length
    else KernelLength(regions[1..])
  }

  lemma {:induction false} KernelLengthIs(regions: seq<Region>, k: nat)
    requires IsKernelRegion(regions, k)
    ensures KernelLength(regions) == regions[k].length
  {
    if k > 0 {
      KernelLengthIs(regions[1..], k - 1);
    }
  }

  method KernelRegion(regions: seq<Region>) returns (r: Option<nat>)
    ensures r.None? <==> forall i | 0 <= i < |regions| :: !regions[i].kind.ExecutableAndModules?
    ensures r.Some? ==> IsKernelRegion(regions, r.value)
  {
    for k := 0 to |regions|
      invariant forall i | 0 <= i < k :: !regions[i].kind.ExecutableAndModules?
    {
      if regions[k].kind.ExecutableAndModules? {
        return Some(k);
      }
    }
    return None;
  }

  // ---------------------------------------------------------------- the frame bitmap

  function FirstFrame(region: Region): nat {
    region.base / 4096
  }

  function EndFrame(region: Region): nat {
    (region.base + region.length) / 4096
  }

  /** Frame `i` is freed for a usable region: it lies in a whole byte of the region's frames. */
  predicate FreedBy(region: Region, i: nat) {
    region.kind.Usable? && Cleared(FirstFrame(region), EndFrame(region), i)
  }

  ghost predicate Freed(regions: seq<Region>, i: nat) {
    exists k :: 0 <= k < |regions| && FreedBy(regions[k], i)
  }

  /** The frames of the region fit into a bitmap of `bytes` bytes. */
  predicate Fits(region: Region, bytes: nat) {
    region.kind.Usable? ==>
      EndFrame(region) <= 64 * bytes && (FirstFrame(region) == EndFrame(region) || EndFrame(region) <= 8 * bytes)
  }

  /** Clears the frames of the usable regions.  It halts unless all of them fit. */
  method ClearUsable(allocator: BitmapAllocator, regions: seq<Region>) returns (r: Outcome<Unit, MemoryError>)
    requires allocator.Valid()
    modifies allocator.bitmap
    ensures !r.Err? && (r.Ok? <==> AllFit(regions, allocator.bitmap.Length))
    ensures r.Ok? ==> forall i: nat | i < allocator.size ::
      BitAt(allocator.bitmap[..], i) <==> BitAt(old(allocator.bitmap[..]), i) && !Freed(regions, i)
  {
    for k := 0 to |regions|
      invariant forall j | 0 <= j < k :: Fits(regions[j], allocator.bitmap.Length)
      invariant forall i: nat | i < allocator.size ::
        BitAt(allocator.bitmap[..], i) <==> BitAt(old(allocator.bitmap[..]), i) && !Freed(regions[..k], i)
    {
      FreedNext(regions, k);
      if regions[k].kind.Usable? {
        StartsBeforeEnd(regions[k]);
        var flagged := allocator.FlagRange(FirstFrame(regions[k]), EndFrame(regions[k]), false);
        if !flagged.Ok? {
          return Panic;
        }
      }
    }
    assert regions[..|regions|] == regions;
    return Ok(Unit);
  }

  /** All usable regions fit. */
  predicate AllFit(regions: seq<Region>, bytes: nat) {
    forall k | 0 <= k < |regions| :: Fits(regions[k], bytes)
  }

  /** With the bitmap as large as boot makes it, a usable region below the highest end fits exactly when
      its frames stop before the last, incomplete byte of frames.  (One without frames needs a byte.)
      A memory map whose topmost region is usable and ends at a frame number that is not a multiple of
      eight therefore halts the boot. */
  lemma FitsBelowHighestEnd(region: Region, highest: nat)
    requires region.kind.Usable? && region.base + region.length <= highest
    ensures var frames := highest / 4096;
      Fits(region, frames / 8) <==>
        EndFrame(region) <= AlignDown8(frames) || (FirstFrame(region) == EndFrame(region) && frames >= 8)
  {
    var frames := highest / 4096;
    assert FirstFrame(region) <= EndFrame(region) <= frames;
    assert 8 * (frames / 8) == AlignDown8(frames);
    assert frames >= 8 ==> frames <= 64 * (frames / 8);
  }

  /** It is the end that counts and not the length: eight frames from frame 4 on do not fit, twelve do. */
  lemma EndCountsNotLength()
    ensures var region := Region(4 * 4096, 8 * 4096, Usable);
      IsHighestEnd([region], 12 * 4096) && !AllFit([region], 12 * 4096 / 4096 / 8)
    ensures var region := Region(4 * 4096, 12 * 4096, Usable);
      IsHighestEnd([region], 16 * 4096) && AllFit([region], 16 * 4096 / 4096 / 8)
  {
    var short, long := Region(4 * 4096, 8 * 4096, Usable), Region(4 * 4096, 12 * 4096, Usable);
    assert [short][0].base + [short][0].length == 12 * 4096;
    assert [long][0].base + [long][0].length == 16 * 4096;
    FitsBelowHighestEnd(short, 12 * 4096);
    FitsBelowHighestEnd(long, 16 * 4096);
    assert !Fits([short][0], 12 * 4096 / 4096 / 8);
  }

  lemma StartsBeforeEnd(region: Region)
    ensures FirstFrame(region) <= EndFrame(region)
  {
  }

  lemma FreedNext(regions: seq<Region>, k: nat)
    requires k < |regions|
    ensures forall i: nat :: Freed(regions[..k + 1], i) <==> Freed(regions[..k], i) || FreedBy(regions[k], i)
  {
    var more, less := regions[..k + 1], regions[..k];
    forall i: nat
      ensures Freed(more, i) <==> Freed(less, i) || FreedBy(regions[k], i)
    {
      if Freed(less, i) {
        var j :| 0 <= j < |less| && FreedBy(less[j], i);
        assert FreedBy(more[j], i);
      }
      if FreedBy(regions[k], i) {
        assert FreedBy(more[k], i);
      }
      if Freed(more, i) {
        var j :| 0 <= j < |more| && FreedBy(more[j], i);
        assert j < k ==> FreedBy(less[j], i);
      }
    }
  }

  // ---------------------------------------------------------------- both bitmaps

  /** A bitmap, and the address of the frames in which its bytes live. */
  datatype PlacedBitmap = PlacedBitmap(allocator: BitmapAllocator, at: PhysAddr) {

    function End(): nat {
      at + Bytes(SizeInPages(allocator.bitmap.Length))
    }

    ghost function Frames(): set<PhysAddr> {
      FramesBetween(at, End())
    }
  }

  /** A bitmap, all set, whose bytes live in the next frames of the linear allocator. */
  method NewBitmap(fa: FrameAllocator, bytes: nat, offset: nat) returns (r: Outcome<PlacedBitmap, BootError>)
    requires fa.Valid() && fa.backend.Linear?
    modifies fa
    ensures fa.Valid() && fa.backend.Linear?
    ensures !r.Err?
    ensures r.Ok? <==> CanGrant(old(fa.backend), SizeInPages(bytes)) && Canonical(old(fa.backend.next) + offset)
    ensures r.Ok? ==>
      && fresh(r.value.allocator) && fresh(r.value.allocator.bitmap)
      && AllTaken(r.value, bytes)
      && r.value.at == old(fa.backend.next) && r.value.End() == fa.backend.next
      && r.value.Frames() !! old(fa.issued) && fa.issued == old(fa.issued) + r.value.Frames()
  {
    var base := fa.AllocContiguous(SizeInPages(bytes));
    if !base.Ok? || !Canonical(base.value + offset) {
      return Panic;
    }
    var allocator := new BitmapAllocator(bytes, true);
    return Ok(PlacedBitmap(allocator, base.value));
  }

  /** A bitmap with one bit for every frame below the highest end, rounded down to whole bytes. */
  predicate CoversMemory(bytes: nat, regions: seq<Region>) {
    HasMemory(regions) && bytes == FrameBytes(regions)
  }

  function FrameBytes(regions: seq<Region>): nat {
    MemoryEnd(regions) / PAGE_SIZE / 8
  }

  /** The bitmap has a bit for each of the frames below the highest end, as far as they fill whole bytes. */
  lemma FrameBytesAre(bytes: nat, regions: seq<Region>, end: nat)
    requires CoversMemory(bytes, regions) && IsHighestEnd(regions, end)
    ensures 8 * 4096 * bytes <= end < 8 * 4096 * (bytes + 1)
  {
    MemoryEndIs(regions);
  }

  /** The topmost region is usable, has frames, and ends at a frame number that is not a multiple of eight. */
  predicate TopEndsInByte(regions: seq<Region>, k: nat) {
    && k < |regions| && regions[k].kind.Usable?
    && IsHighestEnd(regions, regions[k].base + regions[k].length)
    && regions[k].base / 4096 < (regions[k].base + regions[k].length) / 4096
    && (regions[k].base + regions[k].length) / 4096 % 8 != 0
  }

  /** Then it does not fit. */
  lemma TopDoesNotFit(bytes: nat, regions: seq<Region>, k: nat)
    requires CoversMemory(bytes, regions) && TopEndsInByte(regions, k)
    ensures !AllFit(regions, bytes)
  {
    var end := regions[k].base + regions[k].length;
    FrameBytesAre(bytes, regions, end);
    assert end / 4096 > 8 * bytes;
    assert !Fits(regions[k], bytes);
  }

  /** The clear bits of the frame bitmap are the freed frames. */
  ghost predicate ClearIffFreed(bytes: seq<bv8>, regions: seq<Region>) {
    forall i: nat | i < 8 * |bytes| :: !BitAt(bytes, i) <==> Freed(regions, i)
  }

  /** A bitmap of `bytes` bytes in which everything is taken. */
  ghost predicate AllTaken(pages: PlacedBitmap, bytes: nat)
    reads pages.allocator, pages.allocator.bitmap
  {
    var allocator := pages.allocator;
    && allocator.Valid() && allocator.lastAllocated == 0 && allocator.bitmap.Length == bytes
    && AllAre(allocator.bitmap[..], 0, 8 * bytes, true)
  }

  /** The bitmap of frames is large enough for all usable regions; both bitmaps can be granted, and are
      reached at canonical addresses. */
  predicate BitmapsFit(regions: seq<Region>, next: PhysAddr, offset: nat) {
    HasMemory(regions) && TwoFit(regions, FrameBytes(regions), next, offset)
  }

  predicate TwoFit(regions: seq<Region>, bytes: nat, next: PhysAddr, offset: nat) {
    var second := next + Bytes(SizeInPages(bytes));
    && AllFit(regions, bytes)
    && second + Bytes(SizeInPages(2 * bytes)) < PHYS_LIMIT && Canonical(next + offset) && Canonical(second + offset)
  }

  /** What the two bitmaps are like: the clear bits of the first are the freed frames, the second is full. */
  ghost predicate BitmapsMade(frames: PlacedBitmap, pages: PlacedBitmap, regions: seq<Region>)
    reads frames.allocator, frames.allocator.bitmap, pages.allocator, pages.allocator.bitmap
  {
    && frames.allocator.Valid() && ClearIffFreed(frames.allocator.bitmap[..], regions)
    && CoversMemory(frames.allocator.bitmap.Length, regions) && AllFit(regions, frames.allocator.bitmap.Length)
    && AllTaken(pages, 2 * frames.allocator.bitmap.Length)
    && frames.allocator.bitmap != pages.allocator.bitmap
  }

  /** The bitmap for frames, with the usable ones free, and one of twice its size for pages, in
      consecutive frames; it halts unless they fit. */
  method MakeBitmaps(fa: FrameAllocator, regions: seq<Region>, offset: nat)
    returns (r: Outcome<(PlacedBitmap, PlacedBitmap), BootError>)
    requires fa.Valid() && fa.backend.Linear?
    modifies fa
    ensures fa.Valid() && fa.backend.Linear? && !r.Err?
    ensures r.Ok? <==> BitmapsFit(regions, old(fa.backend.next), offset)
    ensures forall k: nat | TopEndsInByte(regions, k) :: !r.Ok?
    ensures r.Ok? ==>
      var (frames, pages) := r.value;
      && fresh(frames.allocator) && fresh(frames.allocator.bitmap)
      && fresh(pages.allocator) && fresh(pages.allocator.bitmap)
      && BitmapsMade(frames, pages, regions)
      && frames.at == old(fa.backend.next) && frames.End() == pages.at && pages.End() == fa.backend.next
      && frames.Frames() !! old(fa.issued) && pages.Frames() !! old(fa.issued)
      && fa.issued == old(fa.issued) + frames.Frames() + pages.Frames()
  {
    var end := HighestEnd(regions);
    if end.None? {
      return Panic;
    }
    r := MakeTwo(fa, regions, end.value / PAGE_SIZE / 8, offset);
    forall k: nat | TopEndsInByte(regions, k)
      ensures !r.Ok?
    {
      TopDoesNotFit(end.value / PAGE_SIZE / 8, regions, k);
    }
  }

  /** Both bitmaps, once the size of the first is known. */
  method MakeTwo(fa: FrameAllocator, regions: seq<Region>, bytes: nat, offset: nat)
    returns (r: Outcome<(PlacedBitmap, PlacedBitmap), BootError>)
    requires fa.Valid() && fa.backend.Linear? && CoversMemory(bytes, regions)
    modifies fa
    ensures fa.Valid() && fa.backend.Linear? && !r.Err?
    ensures r.Ok? <==> TwoFit(regions, bytes, old(fa.backend.next), offset)
    ensures r.Ok? ==>
      var (frames, pages) := r.value;
      && fresh(frames.allocator) && fresh(frames.allocator.bitmap)
      && fresh(pages.allocator) && fresh(pages.allocator.bitmap)
      && BitmapsMade(frames, pages, regions)
      && frames.at == old(fa.backend.next) && frames.End() == pages.at && pages.End() == fa.backend.next
      && frames.Frames() !! old(fa.issued) && pages.Frames() !! old(fa.issued)
      && fa.issued == old(fa.issued) + frames.Frames() + pages.Frames()
  {
    var frames := NewBitmap(fa, bytes, offset);
    if !frames.Ok? {
      return Panic;
    }
    var cleared := ClearUsable(frames.value.allocator, regions);
    if !cleared.Ok? {
      return Panic;
    }
    var pages := NewBitmap(fa, bytes * 2, offset);
    if !pages.Ok? {
      return Panic;
    }
    return Ok((frames.value, pages.value));
  }
}
