/** Addresses, page-table entries and the index arithmetic of four-level long-mode paging. */
module Arch {

  const PAGE_SIZE: nat := 4096
  const RESERVED_SLOT: Index := 510

  const PHYS_LIMIT: nat := 0x10_0000_0000_0000       // 2^52
  const LOW_HALF_END: nat := 0x8000_0000_0000         // 2^47
  const HIGH_HALF: nat := 0xFFFF_8000_0000_0000       // 2^64 - 2^47
  const VIRT_LIMIT: nat := 0x1_0000_0000_0000_0000    // 2^64

  type Index = i: nat | i < 512
  type PhysAddr = a: nat | a < PHYS_LIMIT

  predicate Canonical(a: int) {
    0 <= a < LOW_HALF_END || HIGH_HALF <= a < VIRT_LIMIT
  }

  /** Of 64 bits, the uppermost 17 are all clear or all set. */
  lemma CanonicalIs(a: nat)
    requires a < 0x1_0000_0000_0000_0000
    ensures Canonical(a) <==> a / 0x8000_0000_0000 in {0, 0x1_FFFF}
  {
  }

  /** A virtual address whose bits 47..63 are all equal. */
  type VirtAddr = a: nat | Canonical(a)

  predicate Aligned(a: int) {
    a % 4096 == 0
  }

  /** The size of `pages` pages. */
  function Bytes(pages: nat): nat {
    4096 * pages
  }

  // ---------------------------------------------------------------- entries

  /** Flags, as the set of bit positions that are set in the entry outside its address field. */
  type Flags = set<nat>

  const PRESENT: nat := 0
  const WRITABLE: nat := 1
  const GLOBAL: nat := 8
  const NO_EXECUTE: nat := 63

  const FLAGS_R: Flags := {PRESENT, NO_EXECUTE}
  const FLAGS_RW: Flags := {WRITABLE, PRESENT, NO_EXECUTE}
  const FLAGS_RX: Flags := {PRESENT}
  const FLAGS_RWX: Flags := {WRITABLE, PRESENT}

  /** One 64-bit entry, split into its address field and its flag bits. */
  datatype Entry = Entry(addr: PhysAddr, flags: Flags) {
    /** The whole word is zero. */
    predicate IsUnused() {
      addr == 0 && flags == {}
    }
  }

  const UNUSED: Entry := Entry(0, {})

  /** There is one such word. */
  lemma UnusedIsZero(e: Entry)
    ensures e.IsUnused() <==> e == Entry(0, {})
  {
  }

  type Table = t: seq<Entry> | |t| == 512 witness seq(512, _ => UNUSED)

  /** A freshly written table: every entry is unused. */
  function ZeroTable(): (t: Table)
    ensures forall i: Index :: t[i].IsUnused()
  {
    seq(512, _ => UNUSED)
  }

  /** Physical memory, as far as it holds page tables: frame base to contents. */
  type Memory = map<PhysAddr, Table>

  // ---------------------------------------------------------------- indices

  /** The index that `addr` selects in a table of `level`: nine bits from bit 9 * level + 3 up. */
  function PageIndex(level: nat, addr: nat): (i: Index)
    requires 1 <= level <= 4
  {
    if level == 1 then addr / 0x1000 % 512
    else if level == 2 then addr / 0x20_0000 % 512
    else if level == 3 then addr / 0x4000_0000 % 512
    else addr / 0x80_0000_0000 % 512
  }

  function PageBase(va: VirtAddr): (base: VirtAddr)
    ensures Aligned(base) && base <= va < base + PAGE_SIZE
  {
    var a: int := va;
    assert Canonical(a);
    assert a >= HIGH_HALF ==> a / PAGE_SIZE >= HIGH_HALF / PAGE_SIZE;
    a - a % PAGE_SIZE
  }

  /** The address with the given indices and offset, bit 47 copied into bits 48..63. */
  function MakeAddress(i4: Index, i3: Index, i2: Index, i1: Index, offset: nat): (va: VirtAddr)
    requires offset < PAGE_SIZE
  {
    var low := i4 * 0x80_0000_0000 + i3 * 0x4000_0000 + i2 * 0x20_0000 + i1 * 0x1000 + offset;
    if i4 < 256 then low else low + 0xFFFF_0000_0000_0000
  }

  const SLOT_LOW: nat := 0xFFFF_FF00_0000_0000
  const SLOT_HIGH: nat := 0xFFFF_FF80_0000_0000

  /** The address lies in the reserved slot. */
  predicate Reserved(va: VirtAddr) {
    SLOT_LOW <= va < SLOT_HIGH
  }

  /** The reserved slot is that of the level-4 table. */
  lemma SlotIs(va: VirtAddr)
    ensures Reserved(va) <==> PageIndex(4, va) == RESERVED_SLOT
  {
    assert Canonical(va);
  }

  /** Taking apart an address built from indices gives the indices back. */
  lemma MakeAddressIndices(i4: Index, i3: Index, i2: Index, i1: Index, offset: nat)
    requires offset < PAGE_SIZE
    ensures var va := MakeAddress(i4, i3, i2, i1, offset);
      && PageIndex(4, va) == i4 && PageIndex(3, va) == i3
      && PageIndex(2, va) == i2 && PageIndex(1, va) == i1
      && va % PAGE_SIZE == offset
  {
    var low := i4 * 0x80_0000_0000 + i3 * 0x4000_0000 + i2 * 0x20_0000 + i1 * 0x1000 + offset;
    var va: int := MakeAddress(i4, i3, i2, i1, offset);
    var page := va / 0x1000;
    assert va / 0x20_0000 == page / 512;
    assert va / 0x4000_0000 == page / 512 / 512;
    assert va / 0x80_0000_0000 == page / 512 / 512 / 512;
    var high := if i4 < 256 then 0 else 0x1FFFE00;
    assert page == ((high + i4) * 512 + i3) * 512 * 512 + i2 * 512 + i1;
    assert page / 512 == ((high + i4) * 512 + i3) * 512 + i2;
    assert page / 512 / 512 == (high + i4) * 512 + i3;
    assert page / 512 / 512 / 512 == high + i4;
  }

  /** Every canonical address is the one built from its own indices and offset. */
  lemma MakeAddressInverse(va: VirtAddr)
    ensures MakeAddress(PageIndex(4, va), PageIndex(3, va), PageIndex(2, va), PageIndex(1, va), va % PAGE_SIZE) == va
  {
    var a: int := va;
    var page := a / 0x1000;
    assert a / 0x20_0000 == page / 512;
    assert a / 0x4000_0000 == page / 512 / 512;
    var top := page / 512 / 512 / 512;
    assert a / 0x80_0000_0000 == top;
    assert a == top * 0x80_0000_0000 + PageIndex(3, va) * 0x4000_0000 + PageIndex(2, va) * 0x20_0000
                 + PageIndex(1, va) * 0x1000 + a % 0x1000;
    if a < LOW_HALF_END {
      assert top < 256;
    } else {
      assert Canonical(a);
      assert HIGH_HALF <= a < VIRT_LIMIT;
      assert 0x1FFFF00 <= top;
      assert top < 0x2000000;
    }
  }

  /** The four indices and the page offset determine a canonical address. */
  lemma IndicesDetermineAddress(a: VirtAddr, b: VirtAddr)
    requires forall level :: 1 <= level <= 4 ==> PageIndex(level, a) == PageIndex(level, b)
    requires a % PAGE_SIZE == b % PAGE_SIZE
    ensures a == b
  {
    MakeAddressInverse(a);
    MakeAddressInverse(b);
    assert forall level :: 1 <= level <= 4 ==> PageIndex(level, a) == PageIndex(level, b);
    assert PageIndex(1, a) == PageIndex(1, b) && PageIndex(2, a) == PageIndex(2, b);
    assert PageIndex(3, a) == PageIndex(3, b) && PageIndex(4, a) == PageIndex(4, b);
  }

  /** An address and the base of its page have the same four indices. */
  lemma PageBaseIndices(va: VirtAddr)
    ensures forall level :: 1 <= level <= 4 ==> PageIndex(level, PageBase(va)) == PageIndex(level, va)
  {
    var a: int, base: int := va, PageBase(va);
    assert base / 0x1000 == a / 0x1000;
    assert base / 0x20_0000 == a / 0x1000 / 512 == a / 0x20_0000;
    assert base / 0x4000_0000 == a / 0x1000 / 0x4_0000 == a / 0x4000_0000;
    assert base / 0x80_0000_0000 == a / 0x1000 / 0x800_0000 == a / 0x80_0000_0000;
  }
}
