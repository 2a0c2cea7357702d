/** Bits of bytes and of byte sequences. */
module Bits {

  /** 1 << k, in a byte. */
  function Mask(k: nat): bv8
    requires k < 8
  {
    match k
    case 0 => 0x01
    case 1 => 0x02
    case 2 => 0x04
    case 3 => 0x08
    case 4 => 0x10
    case 5 => 0x20
    case 6 => 0x40
    case _ => 0x80
  }

  /** That is what it is. */
  lemma MaskIsShift(k: nat)
    requires k < 8
    ensures Mask(k) == 1 << k
  {
  }

  predicate BitSet(b: bv8, k: nat)
    requires k < 8
  {
    b & Mask(k) != 0
  }

  /** Or-ing a mask into a byte sets that bit and no other. */
  lemma OrMask(b: bv8, j: nat, k: nat)
    requires j < 8 && k < 8
    ensures BitSet(b | Mask(j), k) <==> k == j || BitSet(b, k)
  {
  }

  /** The byte-wise tests agree with the bit-wise ones. */
  lemma WholeByte(b: bv8)
    ensures b == 0 <==> forall k: nat | k < 8 :: !BitSet(b, k)
    ensures b == 0xFF <==> forall k: nat | k < 8 :: BitSet(b, k)
  {
    if forall k: nat | k < 8 :: !BitSet(b, k) {
      assert !BitSet(b, 0) && !BitSet(b, 1) && !BitSet(b, 2) && !BitSet(b, 3);
      assert !BitSet(b, 4) && !BitSet(b, 5) && !BitSet(b, 6) && !BitSet(b, 7);
    }
    if forall k: nat | k < 8 :: BitSet(b, k) {
      assert BitSet(b, 0) && BitSet(b, 1) && BitSet(b, 2) && BitSet(b, 3);
      assert BitSet(b, 4) && BitSet(b, 5) && BitSet(b, 6) && BitSet(b, 7);
    }
  }

  /** A byte is determined by its bits. */
  lemma BitsDetermineByte(a: bv8, b: bv8)
    requires forall k: nat | k < 8 :: BitSet(a, k) == BitSet(b, k)
    ensures a == b
  {
    assert BitSet(a, 0) == BitSet(b, 0) && BitSet(a, 1) == BitSet(b, 1);
    assert BitSet(a, 2) == BitSet(b, 2) && BitSet(a, 3) == BitSet(b, 3);
    assert BitSet(a, 4) == BitSet(b, 4) && BitSet(a, 5) == BitSet(b, 5);
    assert BitSet(a, 6) == BitSet(b, 6) && BitSet(a, 7) == BitSet(b, 7);
  }

  /** Bit `i` of a bitmap. */
  predicate BitAt(bytes: seq<bv8>, i: nat)
    requires i < 8 * |bytes|
  {
    BitSet(bytes[i / 8], i % 8)
  }

  function AlignUp8(i: nat): nat {
    i + (8 - i % 8) % 8
  }

  function AlignDown8(i: nat): nat {
    i - i % 8
  }

  /** The least multiple of eight from `i` on, and the greatest up to `i`. */
  lemma AlignmentIs(i: nat)
    ensures AlignUp8(i) % 8 == 0 && i <= AlignUp8(i) < i + 8
    ensures AlignDown8(i) % 8 == 0 && AlignDown8(i) <= i < AlignDown8(i) + 8
  {
  }
}
