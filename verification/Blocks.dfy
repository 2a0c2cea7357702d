/** Blocks of pages: where they lie, what they add to a page map, and when mapping one succeeds. */
module Blocks {
  import opened Outcomes
  import opened Arch
  import opened FrameAllocation
  import opened TableTree
  import opened TreeTheorems
  import opened PageBlocks
  import opened PageTable
  import opened PageTableRuns

  /** The pages that `bytes` bytes need. */
  function SizeInPages(bytes: nat): (pages: nat)
    ensures Bytes(pages) >= bytes && (pages > 0 ==> Bytes(pages - 1) < bytes)
  {
    if bytes % 4096 != 0 then bytes / 4096 + 1 else bytes / 4096
  }

  // ---------------------------------------------------------------- page maps that grow

  ghost predicate Extends(view: PageMap, view': PageMap) {
    forall v: VirtAddr {:trigger v in view} | v in view :: v in view' && view'[v] == view[v]
  }

  lemma ExtendsTransitive(view0: PageMap, view1: PageMap, view2: PageMap)
    requires Extends(view0, view1) && Extends(view1, view2)
    ensures Extends(view0, view2)
  {
    forall v: VirtAddr | v in view0
      ensures v in view2 && view2[v] == view0[v]
    {
      assert v in view1;
    }
  }

  datatype Interval = Interval(low: int, high: int)

  /** The pages that meet [low, high) have their bases here. */
  function Cover(low: nat, high: nat): Interval {
    Interval(low - low % 4096, high)
  }

  predicate Somewhere(places: seq<Interval>, v: int) {
    exists i :: 0 <= i < |places| && places[i].low <= v < places[i].high
  }

  /** Nothing mapped before is lost, and the pages that are new lie in `places`. */
  ghost predicate Adds(change: Change, places: seq<Interval>) {
    match change
    case Change(view, view') =>
      && Extends(view, view')
      && forall v: VirtAddr {:trigger v in view'} | v in view' && v !in view :: Somewhere(places, v)
  }

  lemma AddsNothing(view: PageMap)
    ensures Adds(Change(view, view), [])
  {
  }

  lemma AddsTransitive(view0: PageMap, view1: PageMap, view2: PageMap, p: seq<Interval>, q: seq<Interval>)
    requires Adds(Change(view0, view1), p) && Adds(Change(view1, view2), q)
    ensures Adds(Change(view0, view2), p + q)
  {
    ExtendsTransitive(view0, view1, view2);
    forall v: VirtAddr | v in view2 && v !in view0
      ensures Somewhere(p + q, v)
    {
      if v in view1 {
        var i :| 0 <= i < |p| && p[i].low <= v < p[i].high;
        assert (p + q)[i] == p[i];
      } else {
        var i :| 0 <= i < |q| && q[i].low <= v < q[i].high;
        assert (p + q)[|p| + i] == q[i];
      }
    }
  }

  lemma AddsPrefix(view: PageMap, view': PageMap, p: seq<Interval>, q: seq<Interval>)
    requires Adds(Change(view, view'), p) && p <= q
    ensures Adds(Change(view, view'), q)
  {
    forall v: VirtAddr | v in view' && v !in view
      ensures Somewhere(q, v)
    {
      var i :| 0 <= i < |p| && p[i].low <= v < p[i].high;
      assert q[i] == p[i];
    }
  }

  /** Pages in [low, high) that should all lead `shift` bytes down and carry `flags`. */
  datatype Block = Block(low: int, high: int, shift: int, flags: Flags)

  ghost predicate Shifted(view: PageMap, block: Block) {
    match block
    case Block(low, high, shift, flags) =>
      forall v: VirtAddr {:trigger v in view} | low <= v < high && Aligned(v) ::
        v in view && view[v].addr == v - shift && view[v].flags == flags
  }

  lemma ShiftedPage(view: PageMap, block: Block, v: VirtAddr)
    requires Shifted(view, block) && Aligned(v) && block.low <= v < block.high
    ensures v in view && view[v].addr == v - block.shift && view[v].flags == block.flags
  {
    var mapped := v in view;
  }

  lemma ShiftedKept(view: PageMap, view': PageMap, block: Block)
    requires Shifted(view, block) && Extends(view, view')
    ensures Shifted(view', block)
  {
    forall v: VirtAddr | block.low <= v < block.high && Aligned(v)
      ensures v in view' && view'[v].addr == v - block.shift && view'[v].flags == block.flags
    {
      ShiftedPage(view, block, v);
    }
  }

  /** Mapping `pages` pages from `to` only adds pages that start before `high`, if the last of them
      does, and shifts all pages of an aligned block by the same amount. */
  lemma BlockShifted(view: PageMap, view': PageMap, pages: nat, from: PhysAddr, to: VirtAddr, flags: Flags, high: nat)
    requires InRange(pages, from, to) && Mapping(view, pages, from, to, flags, view')
    requires pages > 0 ==> to + Bytes(pages - 1) < high
    ensures Adds(Change(view, view'), [Cover(to, high)])
    ensures Aligned(to) && flags != {} && high <= to + Bytes(pages) ==>
      Shifted(view', Block(to, high, to - from, flags))
  {
    BlockMapped(view, pages, from, to, flags);
    var added := Pages(pages, from, to, flags);
    assert view' == view + added;
    forall v: VirtAddr | v in view' && v !in view
      ensures Somewhere([Cover(to, high)], v)
    {
      PagesOnly(pages, from, to, flags, v);
      PageInCover(to, pages, high, v);
    }
    forall v: VirtAddr | v in view
      ensures v in view' && view'[v] == view[v]
    {
      if v in added {
        PagesOnly(pages, from, to, flags, v);
      }
    }
    if Aligned(to) && flags != {} && high <= to + Bytes(pages) {
      forall v: VirtAddr | to <= v < high && Aligned(v)
        ensures v in view' && view'[v].addr == v - (to - from) && view'[v].flags == flags
      {
        var i := PageNumber(to, v);
        PagesAt(pages, from, to, flags, i);
      }
    }
  }

  lemma PageInCover(to: VirtAddr, pages: nat, high: nat, v: VirtAddr)
    requires VirtBlock(pages, to) && exists i: nat :: i < pages && v == NthPage(to, i)
    requires pages > 0 ==> to + Bytes(pages - 1) < high
    ensures Somewhere([Cover(to, high)], v)
  {
    assert [Cover(to, high)][0].low <= v < [Cover(to, high)][0].high;
  }

  /** Which page of the block from `to` an aligned address is. */
  lemma PageNumber(to: VirtAddr, v: VirtAddr) returns (i: nat)
    requires Aligned(to) && Aligned(v) && to <= v && VirtBlock(1, to)
    ensures v == to + Bytes(i)
    ensures VirtBlock(i + 1, to) ==> v == NthPage(to, i)
  {
    i := (v - to) / 4096;
  }

  // ---------------------------------------------------------------- mapping a block

  /** The addresses of the block stay in one half of the address space and out of the reserved slot, its
      frames lie in physical memory, and the first of them is aligned. */
  predicate Mappable(from: int, to: int, bytes: nat) {
    && 0 <= from && from + bytes < PHYS_LIMIT && Aligned(from)
    && Canonical(to) && to + bytes < (if to < LOW_HALF_END then LOW_HALF_END else VIRT_LIMIT)
    && (to + bytes <= SLOT_LOW || SLOT_HIGH <= to)
  }

  /** Nothing is mapped in `place`. */
  ghost predicate Clear(view: PageMap, place: Interval) {
    match place
    case Interval(low, high) => forall v: VirtAddr {:trigger v in view} | v in view :: !(low <= v < high)
  }

  predicate Disjoint(a: Interval, b: Interval) {
    a.high <= b.low || b.high <= a.low
  }

  lemma ClearPart(view: PageMap, whole: Interval, part: Interval)
    requires Clear(view, whole) && whole.low <= part.low && part.high <= whole.high
    ensures Clear(view, part)
  {
    forall v: VirtAddr | v in view
      ensures !(part.low <= v < part.high)
    {
    }
  }

  /** What is clear stays clear while pages are added elsewhere. */
  lemma ClearKept(view: PageMap, view': PageMap, places: seq<Interval>, place: Interval)
    requires Adds(Change(view, view'), places) && Clear(view, place)
    requires forall i | 0 <= i < |places| :: Disjoint(places[i], place)
    ensures Clear(view', place)
  {
    forall v: VirtAddr | v in view'
      ensures !(place.low <= v < place.high)
    {
      if v !in view {
        var i :| 0 <= i < |places| && places[i].low <= v < places[i].high;
      }
    }
  }

  /** A linear allocator with `frames` frames to spare. */
  predicate Room(backend: Backend, frames: nat) {
    backend.Linear? && CanGrant(backend, frames)
  }

  lemma RoomLeft(before: Backend, after: Backend, used: nat, frames: nat)
    requires Advanced(before, after, used)
    ensures Room(before, used + frames) ==> Room(after, frames)
  {
  }

  lemma AdvancedTwice(first: Backend, second: Backend, third: Backend, m: nat, n: nat)
    requires Advanced(first, second, m) && Advanced(second, third, n)
    ensures Advanced(first, third, m + n)
  {
  }

  /** Mapping a block that is mappable and clear does not stop before its end while there is room: three
      frames for every page. */
  lemma BlockSucceeds(r: PagingResult, mapped: nat, bytes: nat, from: PhysAddr, to: VirtAddr, flags: Flags,
                      view: PageMap, view': PageMap, backend: Backend)
    requires mapped < SizeInPages(bytes) && InRange(mapped, from, to)
    requires Mapping(view, mapped, from, to, flags, view')
    requires Stopped(r, mapped, from, to, view', backend, 3 * (mapped + 1))
    requires Mappable(from, to, bytes) && Clear(view, Cover(to, to + bytes)) && Room(backend, 3 * SizeInPages(bytes))
    ensures r.Ok?
  {
    LastPageBefore(bytes, mapped + 1);
    MappablePage(from, to, bytes, mapped);
    var page := NthPage(to, mapped);
    BlockMapped(view, mapped, from, to, flags);
    if page in Pages(mapped, from, to, flags) {
      PagesOnly(mapped, from, to, flags, page);
    }
    assert page !in view;
    RoomFor(backend, mapped + 1, SizeInPages(bytes));
  }

  lemma RoomFor(backend: Backend, few: nat, many: nat)
    requires few <= many
    ensures Room(backend, 3 * many) ==> Room(backend, 3 * few)
  {
  }

  /** Each page of a mappable block is in range, not reserved, and starts inside the block. */
  lemma MappablePage(from: PhysAddr, to: VirtAddr, bytes: nat, k: nat)
    requires Mappable(from, to, bytes) && Bytes(k) < bytes
    ensures InRange(k + 1, from, to) && !Reserved(Nth(to, k))
    ensures Cover(to, to + bytes).low <= NthPage(to, k) < Cover(to, to + bytes).high
  {
    assert Canonical(to);
    SlotIs(Nth(to, k));
  }

  /** The block can be mapped, nothing is in its way, and there is room for its tables. */
  ghost predicate BlockReady(view: PageMap, bytes: nat, from: int, to: int, backend: Backend) {
    Mappable(from, to, bytes) && Clear(view, Cover(to, to + bytes)) && Room(backend, 3 * SizeInPages(bytes))
  }

  /** Page `k` of a block is where mapping it stopped. */
  ghost predicate StoppedAt(r: PagingResult, k: nat, from: PhysAddr, to: VirtAddr, view: PageMap, backend: Backend) {
    Stopped(r, k, from, to, view, backend, 3 * (k + 1))
  }

  /** Why mapping `bytes` bytes failed: an address is out of range, there are more pages than addresses,
      or one page of the block could not be mapped. */
  ghost predicate BytesStopped(r: PagingResult, bytes: nat, from: int, to: int, view: PageMap, backend: Backend) {
    if 0 <= from < PHYS_LIMIT && Canonical(to)
    then
      || (r.Panic? && Bytes(SizeInPages(bytes)) >= VIRT_LIMIT)
      || exists k: nat :: k < SizeInPages(bytes) && StoppedAt(r, k, from, to, view, backend)
    else r.Panic?
  }

  /** What mapping `bytes` bytes does to a page map: it adds pages of the block and no others.  Success
      shifts all pages of an aligned block; failure has a cause, and the block was not ready. */
  ghost predicate BytesMapped(r: PagingResult, change: Change, bytes: nat, from: nat, to: nat, flags: Flags,
                              backend: Backend)
  {
    match r
    case Ok(_) =>
      && Adds(change, [Cover(to, to + bytes)])
      && from < PHYS_LIMIT && Canonical(to) && VirtBlock(SizeInPages(bytes), to)
      && (Aligned(to) && flags != {} ==> Shifted(change.after, Block(to, to + bytes, to - from, flags)))
    case _ =>
      && Adds(change, [Cover(to, to + bytes)])
      && BytesStopped(r, bytes, from, to, change.after, backend)
      && !BlockReady(change.before, bytes, from, to, backend)
  }

  /** `map_contiguous` for as many pages as `bytes` bytes need, at addresses that are checked first. */
  method MapBytes(pt: RecursivePageTable, fa: FrameAllocator, bytes: nat, from: nat, to: nat, flags: Flags)
    returns (r: PagingResult)
    requires pt.Serves(fa)
    modifies pt`memory, pt`spec, fa
    ensures pt.Serves(fa) && pt.Others(fa) == old(pt.Others(fa))
    ensures Advanced(old(fa.backend), fa.backend, 3 * SizeInPages(bytes))
    ensures BytesMapped(r, Change(old(pt.spec.view), pt.spec.view), bytes, from, to, flags, old(fa.backend))
  {
    if from >= PHYS_LIMIT || !Canonical(to) {
      return Panic;
    }
    var mapped;
    r, mapped := pt.MapContiguous(SizeInPages(bytes), from, to, flags, fa);
    BlockOutcome(r, mapped, bytes, from, to, flags, old(pt.spec.view), pt.spec.view, old(fa.backend), fa.backend);
  }

  /** What `MapContiguous` says about its result, in terms of the block. */
  lemma BlockOutcome(r: PagingResult, mapped: nat, bytes: nat, from: PhysAddr, to: VirtAddr, flags: Flags,
                     view: PageMap, view': PageMap, backend: Backend, after: Backend)
    requires BlockMapping(r, Change(view, view'), SizeInPages(bytes), mapped, from, to, flags, backend, after)
    ensures BytesMapped(r, Change(view, view'), bytes, from, to, flags, backend)
    ensures Advanced(backend, after, 3 * SizeInPages(bytes))
  {
    LastPageBefore(bytes, mapped);
    BlockShifted(view, view', mapped, from, to, flags, to + bytes);
    if !r.Ok? && Bytes(SizeInPages(bytes)) < VIRT_LIMIT {
      assert StoppedAt(r, mapped, from, to, view', backend);
    }
    if !r.Ok? && BlockReady(view, bytes, from, to, backend) {
      MappableBytes(from, to, bytes);
      BlockSucceeds(r, mapped, bytes, from, to, flags, view, view', backend);
    }
  }

  /** Of `total` frames that may be used, `left` are still to come. */
  predicate Budget(before: Backend, now: Backend, total: nat, left: nat) {
    match before
    case Linear(next) => now.Linear? && next <= now.next && now.next + Bytes(left) <= next + Bytes(total)
    case Scripted(_) => now.Scripted?
  }

  lemma BudgetNext(first: Backend, before: Backend, after: Backend, total: nat, used: nat, left: nat)
    requires Budget(first, before, total, used + left) && Advanced(before, after, used)
    ensures Budget(first, after, total, left)
  {
  }

  /** What a budget means: how far the allocator moved, and what it can still grant. */
  lemma BudgetMeans(first: Backend, now: Backend, total: nat, left: nat)
    requires Budget(first, now, total, left)
    ensures Advanced(first, now, total)
    ensures Room(first, total) ==> Room(now, left)
  {
  }

  lemma MappableBytes(from: int, to: int, bytes: nat)
    requires Mappable(from, to, bytes)
    ensures Bytes(SizeInPages(bytes)) < VIRT_LIMIT
  {
  }

  lemma LastPageBefore(bytes: nat, k: nat)
    requires k <= SizeInPages(bytes)
    ensures k > 0 ==> Bytes(k - 1) < bytes
  {
  }

  // ---------------------------------------------------------------- translations

  /** Every address of a shifted block translates `shift` bytes down, and may be written if the flags of
      the block say so. */
  lemma ShiftedTranslates(mem: Memory, root: PhysAddr, tree: Tree, view: PageMap, block: Block, va: VirtAddr)
    requires IsTree(mem, root, tree) && Represents(mem, root, view)
    requires Shifted(view, block) && Aligned(block.low) && block.low <= va < block.high
    ensures Translation(mem, root, va) == Some(va - block.shift)
    ensures AllGrant(mem, root, LeafPath(va), WRITABLE) <==> WRITABLE in block.flags
    ensures Permits(mem, root, va, block.flags)
  {
    var page := PageBase(va);
    BlockPage(block.low, va);
    ShiftedPage(view, block, page);
    assert Reserved(page) <==> Reserved(va) by {
      PageBaseIndices(va);
    }
    LeafInView(mem, root, view, va);
    EffectivePermissions(mem, root, tree, view, va);
  }

  lemma BlockPage(low: int, va: VirtAddr)
    requires Aligned(low) && low <= va
    ensures low <= PageBase(va) && Aligned(PageBase(va)) && va == PageBase(va) + va % PAGE_SIZE
  {
  }
}
