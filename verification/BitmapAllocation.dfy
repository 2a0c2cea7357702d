/** The bitmap allocator: byte-wise fast paths over a set of bits, and a circular first-fit scan. */
module BitmapAllocation {
  import opened Outcomes
  import opened Bits

  // ---------------------------------------------------------------- specifications on bytes

  /** The bits that clearing a range really clears: the whole bytes inside it, and only when it is
      at least a byte long, because single bits are only ever or-ed in. */
  predicate Cleared(start: nat, end: nat, i: nat) {
    start + 8 <= end && AlignUp8(start) <= i < AlignDown8(end)
  }

  /** A bit is cleared exactly if the whole byte that holds it lies inside the range. */
  lemma ClearedIffByte(start: nat, end: nat, i: nat)
    ensures Cleared(start, end, i) <==> start <= 8 * (i / 8) && 8 * (i / 8) + 8 <= end
  {
    AlignedUpTo(start, i / 8, i);
    AlignedDownFrom(end, i / 8, i);
  }

  lemma AlignedUpTo(start: nat, byte: nat, i: nat)
    requires 8 * byte <= i < 8 * byte + 8
    ensures AlignUp8(start) <= i <==> start <= 8 * byte
  {
    AlignmentIs(start);
    LeastMultiple(start, AlignUp8(start) / 8, byte, i);
  }

  lemma AlignedDownFrom(end: nat, byte: nat, i: nat)
    requires 8 * byte <= i < 8 * byte + 8
    ensures i < AlignDown8(end) <==> 8 * byte + 8 <= end
  {
    AlignmentIs(end);
    GreatestMultiple(end, AlignDown8(end) / 8, byte, i);
  }

  lemma LeastMultiple(start: nat, up: nat, byte: nat, i: nat)
    requires start <= 8 * up < start + 8 && 8 * byte <= i < 8 * byte + 8
    ensures 8 * up <= i <==> start <= 8 * byte
  {
  }

  lemma GreatestMultiple(end: nat, down: nat, byte: nat, i: nat)
    requires 8 * down <= end < 8 * down + 8 && 8 * byte <= i < 8 * byte + 8
    ensures i < 8 * down <==> 8 * byte + 8 <= end
  {
  }

  /** What flagging [start, end) makes of a bit. */
  predicate FlaggedBit(was: bool, start: nat, end: nat, flag: bool, i: nat) {
    if flag then was || start <= i < end else was && !Cleared(start, end, i)
  }

  ghost predicate Flagged(before: seq<bv8>, after: seq<bv8>, start: nat, end: nat, flag: bool) {
    && |after| == |before|
    && forall i: nat | i < 8 * |before| :: BitAt(after, i) == FlaggedBit(BitAt(before, i), start, end, flag, i)
  }

  /** In bytes: clearing makes zero of those inside the range, and leaves all others. */
  lemma ClearingBytes(before: seq<bv8>, after: seq<bv8>, start: nat, end: nat, k: nat)
    requires Flagged(before, after, start, end, false) && k < |before|
    ensures after[k] == if start <= 8 * k && 8 * k + 8 <= end then 0 else before[k]
  {
    var value: bv8 := if start <= 8 * k && 8 * k + 8 <= end then 0 else before[k];
    forall j: nat | j < 8
      ensures BitSet(after[k], j) == BitSet(value, j)
    {
      ClearedIffByte(start, end, 8 * k + j);
      assert BitAt(after, 8 * k + j) == FlaggedBit(BitAt(before, 8 * k + j), start, end, false, 8 * k + j);
    }
    BitsDetermineByte(after[k], value);
  }

  /** Every bit of [start, end) has the value `isSet`. */
  ghost predicate AllAre(bytes: seq<bv8>, start: nat, end: nat, isSet: bool)
    requires end <= 8 * |bytes|
  {
    forall i: nat | start <= i < end :: BitAt(bytes, i) == isSet
  }

  /** The aligned start of a range of at least a byte never passes its aligned end. */
  lemma AlignedBounds(start: nat, end: nat)
    requires start + 8 <= end
    ensures start <= AlignUp8(start) <= AlignDown8(end) <= end
    ensures AlignUp8(start) % 8 == 0 && AlignDown8(end) % 8 == 0
  {
  }

  lemma AllAreSplit(bytes: seq<bv8>, a: nat, b: nat, c: nat, isSet: bool)
    requires a <= b <= c <= 8 * |bytes|
    ensures AllAre(bytes, a, c, isSet) <==> AllAre(bytes, a, b, isSet) && AllAre(bytes, b, c, isSet)
  {
  }

  /** The position reached by walking around the bitmap. */
  ghost predicate CircularBit(bytes: seq<bv8>, pos: nat)
    requires |bytes| > 0
  {
    BitAt(bytes, pos % (8 * |bytes|))
  }

  /** `length` bits from `start` on, read circularly, are clear. */
  ghost predicate ClearRun(bytes: seq<bv8>, start: nat, length: nat)
    requires |bytes| > 0
  {
    forall p: nat | start <= p < start + length :: !CircularBit(bytes, p)
  }

  /** `start` is the first place at or after `from` where `length` circular bits are clear. */
  ghost predicate FirstFit(bytes: seq<bv8>, from: nat, length: nat, start: nat)
    requires |bytes| > 0
  {
    && from <= start
    && ClearRun(bytes, start, length)
    && forall s: nat | from <= s < start :: !ClearRun(bytes, s, length)
  }

  // ---------------------------------------------------------------- circular arithmetic

  lemma MultiplesGrow(n: nat, a: nat, b: nat)
    requires a < b
    ensures n * a + n <= n * b
  {
    var d: nat := b - a - 1;
    calc {
      n * b;
      n * (a + 1 + d);
      n * (a + 1) + n * d;
      n * a + n + n * d;
    }
  }

  lemma QuotientRemainder(x: nat, n: nat, q: nat, r: nat)
    requires n > 0 && x == n * q + r && r < n
    ensures x % n == r
  {
    var d := x / n;
    assert x == n * d + x % n;
    if d < q {
      MultiplesGrow(n, d, q);
    } else if d > q {
      MultiplesGrow(n, q, d);
    }
  }

  /** The byte and bit the scan reads are those of the circular position. */
  lemma CircularIndex(pos: nat, bytes: nat)
    requires bytes > 0
    ensures (pos / 8) % bytes == (pos % (8 * bytes)) / 8
    ensures pos % 8 == (pos % (8 * bytes)) % 8
  {
    var n := 8 * bytes;
    var q, r := pos / n, pos % n;
    var m := bytes * q;
    assert n * q == 8 * m;
    EightAndRest(pos, m, r);
    assert r / 8 < bytes;
    QuotientRemainder(pos / 8, bytes, q, r / 8);
  }

  lemma CircularRead(bytes: seq<bv8>, pos: nat)
    requires |bytes| > 0
    ensures 0 <= (pos / 8) % |bytes| < |bytes|
    ensures bytes[(pos / 8) % |bytes|] & Mask(pos % 8) != 0 <==> CircularBit(bytes, pos)
  {
    CircularIndex(pos, |bytes|);
  }

  lemma EightAndRest(pos: nat, m: nat, r: nat)
    requires pos == 8 * m + r
    ensures pos / 8 == m + r / 8 && pos % 8 == r % 8
  {
  }

  /** Walking once around comes back to the same bit. */
  lemma CircularShift(a: nat, b: nat, n: nat, k: nat)
    requires n > 0 && b == a + n * k
    ensures a % n == b % n
  {
    var q := a / n;
    assert a == n * q + a % n;
    assert b == n * (q + k) + a % n;
    QuotientRemainder(b, n, q + k, a % n);
  }

  lemma ClearRunShift(bytes: seq<bv8>, a: nat, b: nat, k: nat, length: nat)
    requires |bytes| > 0 && b == a + 8 * |bytes| * k
    ensures ClearRun(bytes, a, length) <==> ClearRun(bytes, b, length)
  {
    var n := 8 * |bytes|;
    forall p: nat
      ensures CircularBit(bytes, p) == CircularBit(bytes, p + n * k)
    {
      CircularShift(p, p + n * k, n, k);
    }
    if ClearRun(bytes, b, length) {
      forall p: nat | a <= p < a + length
        ensures !CircularBit(bytes, p)
      {
        assert !CircularBit(bytes, p + n * k);
      }
    }
    if ClearRun(bytes, a, length) {
      forall p: nat | b <= p < b + length
        ensures !CircularBit(bytes, p)
      {
        var q: nat := p - n * k;
        assert !CircularBit(bytes, q);
      }
    }
  }

  /** Any position can be moved by whole rounds into a window of one round. */
  lemma IntoWindow(start: nat, from: nat, n: nat) returns (s: nat, base: nat, k: nat)
    requires n > 0
    ensures from <= s < from + n
    ensures base == start + n * from && base == s + n * k
  {
    base := start + n * from;
    MultiplesGrow(from, 0, n);
    assert base >= from;
    k := (base - from) / n;
    s := from + (base - from) % n;
    assert base - from == n * k + (base - from) % n;
  }

  /** If a window of one full round from `from` has no clear run, there is none anywhere. */
  lemma OneRoundIsEnough(bytes: seq<bv8>, from: nat, length: nat, start: nat)
    requires |bytes| > 0
    requires forall s: nat | from <= s < from + 8 * |bytes| :: !ClearRun(bytes, s, length)
    ensures !ClearRun(bytes, start, length)
  {
    var s, base, k := IntoWindow(start, from, 8 * |bytes|);
    ClearRunShift(bytes, start, base, from, length);
    ClearRunShift(bytes, s, base, k, length);
  }

  // ---------------------------------------------------------------- the allocator

  class BitmapAllocator {
    const bitmap: array<bv8>
    const size: nat          // in bits
    var lastAllocated: nat

    ghost predicate Valid()
      reads this
    {
      size == 8 * bitmap.Length
    }

    /** A bitmap of `bytes` bytes, all set or all clear. */
    constructor (bytes: nat, setAtInit: bool)
      ensures Valid() && bitmap.Length == bytes && fresh(bitmap) && lastAllocated == 0
      ensures AllAre(bitmap[..], 0, 8 * bytes, setAtInit)
    {
      bitmap := new bv8[bytes](_ => if setAtInit then 0xFF else 0);
      size := 8 * bytes;
      lastAllocated := 0;
      new;
      WholeByte(0);
      WholeByte(0xFF);
    }

    /** The bound that the code uses: eight times the number of bits. */
    predicate InRange(bit: nat)
      reads this
    {
      bit < size * 8
    }

    method Check(bit: nat, isSet: bool) returns (r: Outcome<bool, MemoryError>)
      requires Valid()
      ensures bit >= 64 * bitmap.Length ==> r == Err(OutOfBounds)
      ensures size <= bit < 64 * bitmap.Length ==> r.Panic?
      ensures bit < size ==> r == Ok(BitAt(bitmap[..], bit) == isSet)
    {
      if !InRange(bit) {
        return Err(OutOfBounds);
      }
      if bit / 8 >= bitmap.Length {
        return Panic;
      }
      var byte := bitmap[bit / 8];
      return Ok(isSet == (byte & Mask(bit % 8) != 0));
    }

    /** `check` folded over bits [start, end), stopping to look once it is false. */
    method CheckBits(start: nat, end: nat, isSet: bool, check0: bool) returns (r: Outcome<bool, MemoryError>)
      requires Valid() && start <= end <= 64 * bitmap.Length
      ensures end <= size ==> r == Ok(check0 && AllAre(bitmap[..], start, end, isSet))
      ensures end > size && start < end ==>
        r == if check0 && AllAre(bitmap[..], start, size, isSet) then Panic else Ok(false)
      ensures start == end ==> r == Ok(check0)
    {
      var check := check0;
      for bit := start to end
        invariant bit <= size ==> check == (check0 && AllAre(bitmap[..], start, bit, isSet))
        invariant bit > size && bit > start ==> !check && !(check0 && AllAre(bitmap[..], start, size, isSet))
        invariant bit == start ==> check == check0
      {
        if check {
          var one := Check(bit, isSet);
          if !one.Ok? {
            return one;
          }
          check := one.value;
        }
      }
      return Ok(check);
    }

    /** Head bits, whole bytes and tail bits together are "every bit of the range".  A range past the
        real end never passes: it halts if its whole bytes do not fit, or if the bits up to the real end
        all pass, and fails the check otherwise. */
    method CheckRange(start: nat, end: nat, isSet: bool) returns (r: Outcome<bool, MemoryError>)
      requires Valid()
      ensures end > 64 * bitmap.Length <==> r == Err(OutOfBounds)
      ensures end < start && end <= 64 * bitmap.Length ==> r.Panic?
      ensures start == end <= 64 * bitmap.Length ==> r == Ok(true)
      ensures start <= end <= size ==> r == Ok(AllAre(bitmap[..], start, end, isSet))
      ensures size < end <= 64 * bitmap.Length && start < end ==>
        r == if (start + 8 <= end && AlignDown8(end) > size) || AllAre(bitmap[..], start, size, isSet) then Panic
             else Ok(false)
    {
      if end > size * 8 {
        return Err(OutOfBounds);
      }
      if end < start {
        return Panic;
      }
      if end - start < 8 {
        r := CheckBits(start, end, isSet, true);
        return;
      }
      AlignedBounds(start, end);
      r := CheckParts(start, AlignUp8(start), AlignDown8(end), end, isSet);
    }

    method CheckParts(start: nat, alignedStart: nat, alignedEnd: nat, end: nat, isSet: bool)
      returns (r: Outcome<bool, MemoryError>)
      requires Valid() && start <= alignedStart <= alignedEnd <= end <= 64 * bitmap.Length && start < end
      requires alignedStart % 8 == 0 && alignedEnd % 8 == 0
      ensures end <= size ==> r == Ok(AllAre(bitmap[..], start, end, isSet))
      ensures end > size ==>
        r == if alignedEnd > size || AllAre(bitmap[..], start, size, isSet) then Panic else Ok(false)
    {
      r := CheckBits(start, alignedStart, isSet, true);
      if !r.Ok? {
        return;
      }
      if alignedEnd / 8 > bitmap.Length {
        return Panic;
      }
      var check := CheckBytes(alignedStart / 8, alignedEnd / 8, isSet, r.value);
      r := CheckBits(alignedEnd, end, isSet, check);
      var stop := if end <= size then end else size;
      AllAreSplit(bitmap[..], start, alignedStart, stop, isSet);
      AllAreSplit(bitmap[..], alignedStart, alignedEnd, stop, isSet);
    }

    method CheckBytes(low: nat, high: nat, isSet: bool, check0: bool) returns (check: bool)
      requires Valid() && low <= high <= bitmap.Length
      ensures check == (check0 && AllAre(bitmap[..], 8 * low, 8 * high, isSet))
    {
      check := check0;
      var test: bv8 := if isSet then 0xFF else 0;
      for k := low to high
        invariant check == (check0 && AllAre(bitmap[..], 8 * low, 8 * k, isSet))
      {
        ByteIsEightBits(bitmap[..], k, isSet);
        check := check && bitmap[k] == test;
      }
    }

    /** Or-s the flag in: a set flag sets the bit, a clear one changes nothing. */
    method Flag(bit: nat, flag: bool) returns (r: Outcome<Unit, MemoryError>)
      requires Valid()
      modifies bitmap
      ensures bit >= 64 * bitmap.Length ==> r == Err(OutOfBounds)
      ensures size <= bit < 64 * bitmap.Length ==> r.Panic?
      ensures bit < size ==> r.Ok? && forall i: nat | i < size ::
        BitAt(bitmap[..], i) == (BitAt(old(bitmap[..]), i) || (flag && i == bit))
      ensures !r.Ok? ==> bitmap[..] == old(bitmap[..])
    {
      if !InRange(bit) {
        return Err(OutOfBounds);
      }
      if bit / 8 >= bitmap.Length {
        return Panic;
      }
      ghost var was := bitmap[bit / 8];
      bitmap[bit / 8] := bitmap[bit / 8] | (if flag then Mask(bit % 8) else 0);
      forall i: nat | i < size
        ensures BitAt(bitmap[..], i) == (BitAt(old(bitmap[..]), i) || (flag && i == bit))
      {
        OrMask(was, bit % 8, i % 8);
      }
      return Ok(Unit);
    }

    method FlagBits(start: nat, end: nat, flag: bool) returns (r: Outcome<Unit, MemoryError>)
      requires Valid() && start <= end <= 64 * bitmap.Length
      modifies bitmap
      ensures r.Panic? <==> start < end && end > size
      ensures !r.Panic? ==> r.Ok? && forall i: nat | i < size ::
        BitAt(bitmap[..], i) == (BitAt(old(bitmap[..]), i) || (flag && start <= i < end))
    {
      for bit := start to end
        invariant bit <= size || bit == start
        invariant forall i: nat | i < size ::
          BitAt(bitmap[..], i) == (BitAt(old(bitmap[..]), i) || (flag && start <= i < bit))
      {
        r := Flag(bit, flag);
        if !r.Ok? {
          return;
        }
      }
      return Ok(Unit);
    }

    method FillBytes(low: nat, high: nat, flag: bool)
      requires Valid() && low <= high <= bitmap.Length
      modifies bitmap
      ensures forall i: nat | i < size ::
        BitAt(bitmap[..], i) == if 8 * low <= i < 8 * high then flag else BitAt(old(bitmap[..]), i)
    {
      var value: bv8 := if flag then 0xFF else 0;
      for k := low to high
        invariant forall j: nat | j < bitmap.Length ::
          bitmap[j] == if low <= j < k then value else old(bitmap[j])
      {
        bitmap[k] := value;
      }
      WholeByte(value);
    }

    /** Sets or clears a range.  Bits outside it never change; setting sets exactly the range, while
        clearing reaches only its whole bytes.  It halts exactly when a non-empty range runs past the
        real end but not past the bound of the check, or when the range is reversed. */
    method FlagRange(start: nat, end: nat, flag: bool) returns (r: Outcome<Unit, MemoryError>)
      requires Valid()
      modifies bitmap
      ensures r.Err? <==> end > 64 * bitmap.Length
      ensures r.Err? ==> r.error == OutOfBounds && bitmap[..] == old(bitmap[..])
      ensures r.Panic? <==> end <= 64 * bitmap.Length && (end < start || (start < end && end > size))
      ensures r.Ok? ==> Flagged(old(bitmap[..]), bitmap[..], start, end, flag)
      ensures r.Ok? && !flag ==> forall k: nat | k < bitmap.Length ::
        bitmap[k] == if start <= 8 * k && 8 * k + 8 <= end then 0 else old(bitmap[k])
    {
      r := FlagRangeBits(start, end, flag);
      if r.Ok? && !flag {
        forall k: nat | k < bitmap.Length
          ensures bitmap[k] == if start <= 8 * k && 8 * k + 8 <= end then 0 else old(bitmap[k])
        {
          ClearingBytes(old(bitmap[..]), bitmap[..], start, end, k);
        }
      }
    }

    /** The same, bit by bit. */
    method FlagRangeBits(start: nat, end: nat, flag: bool) returns (r: Outcome<Unit, MemoryError>)
      requires Valid()
      modifies bitmap
      ensures r.Err? <==> end > 64 * bitmap.Length
      ensures r.Err? ==> r.error == OutOfBounds && bitmap[..] == old(bitmap[..])
      ensures r.Panic? <==> end <= 64 * bitmap.Length && (end < start || (start < end && end > size))
      ensures r.Ok? ==> Flagged(old(bitmap[..]), bitmap[..], start, end, flag)
    {
      if end > size * 8 {
        return Err(OutOfBounds);
      }
      if end < start {
        return Panic;
      }
      if end - start < 8 {
        r := FlagBits(start, end, flag);
        return;
      }
      AlignedBounds(start, end);
      r := FlagParts(start, AlignUp8(start), AlignDown8(end), end, flag);
    }

    method FlagParts(start: nat, alignedStart: nat, alignedEnd: nat, end: nat, flag: bool)
      returns (r: Outcome<Unit, MemoryError>)
      requires Valid() && start <= alignedStart <= alignedEnd <= end <= 64 * bitmap.Length && start < end
      requires alignedStart % 8 == 0 && alignedEnd % 8 == 0
      modifies bitmap
      ensures !r.Err? && (r.Panic? <==> end > size)
      ensures r.Ok? ==> forall i: nat | i < size ::
        BitAt(bitmap[..], i) ==
          if flag then BitAt(old(bitmap[..]), i) || start <= i < end
          else BitAt(old(bitmap[..]), i) && !(alignedStart <= i < alignedEnd)
    {
      r := FlagBits(start, alignedStart, flag);
      if !r.Ok? {
        return;
      }
      if alignedEnd / 8 > bitmap.Length {
        return Panic;
      }
      FillBytes(alignedStart / 8, alignedEnd / 8, flag);
      r := FlagBits(alignedEnd, end, flag);
    }

    /** First fit over the circular bitmap, eight times around.

        A result with room for `target` bits is the first fit.  Any other result is a shorter clear
        tail just below the bound; then, as after `AllocationError`, no fit was met. */
    method ScanBits(target: nat) returns (r: Outcome<nat, MemoryError>)
      requires Valid()
      ensures bitmap.Length == 0 ==> r == Err(AllocationError)
      ensures bitmap.Length > 0 ==> Scanned(bitmap[..], lastAllocated, target, r)
    {
      var current := lastAllocated;
      while current < size * 8
        invariant lastAllocated <= current
        invariant current <= size * 8 || current == lastAllocated
        invariant NoneUpTo(lastAllocated, current, target)
        invariant lastAllocated < current ==> bitmap.Length > 0 && CircularBit(bitmap[..], current - 1)
        decreases size * 8 - current
      {
        ghost var start := current;
        var sum, found;
        sum, found, current := ScanRun(current, target);
        if sum == 0 {
          assert current - found == start;
          return Ok(current - found);
        }
        forall s: nat | start <= s < current
          ensures !ClearRun(bitmap[..], s, target)
        {
          assert CircularBit(bitmap[..], current - 1);
        }
      }
      return Err(AllocationError);
    }

    /** Looks for `bits` bits: up to 16 of them bit by bit, in whole bytes; more of them in strides. */
    method Scan(bits: nat) returns (r: Outcome<nat, MemoryError>)
      requires Valid()
      ensures ScanResult(bitmap[..], lastAllocated, bits, r)
    {
      if bits >= size {
        return Err(OutOfBounds);
      }
      if bits > 16 {
        r := ScanBytes(bits);
      } else {
        r := ScanBits(AlignUp8(bits));
      }
    }

    /** Finds and sets `bits` bits.

        What it grants is set afterwards, lies in the bitmap, and nothing else changes; up to 16 bits, it
        was clear before: results of the scan that wrap around or are cut short never come back as `Ok`.
        From a cursor inside the bitmap every outcome of a request for up to 16 bits has its own
        condition: a grant, if the first fit does not straddle the end; a halt, if it does, or if there
        is no fit but a clear tail of at least so many bits; `OutOfBounds`, if there is no fit but a
        shorter clear tail; `AllocationError`, if there is neither.  A larger request gets the first
        stride of clear bytes, or halts. */
    method Alloc(bits: nat) returns (r: Outcome<nat, MemoryError>)
      requires Valid()
      modifies this`lastAllocated, bitmap
      ensures AllocOutcome(old(bitmap[..]), old(lastAllocated), bits, r)
      ensures r.Ok? && bits > 0 ==> r.value + bits <= size
      ensures r.Ok? && 0 < bits <= 16 ==> AllAre(old(bitmap[..]), r.value, r.value + bits, false)
      ensures r.Ok? ==>
        && lastAllocated == r.value + bits
        && Flagged(old(bitmap[..]), bitmap[..], r.value, r.value + bits, true)
      ensures r.Err? ==> bitmap[..] == old(bitmap[..])
      ensures r == Err(AllocationError) || bits >= size ==> lastAllocated == old(lastAllocated)
      ensures r == Err(OutOfBounds) && bits < size ==> lastAllocated >= 64 * bitmap.Length
      ensures old(Settled()) && !r.Panic? ==> Settled()
    {
      var free := Scan(bits);
      ScanDecides(bitmap[..], lastAllocated, bits, free);
      if !free.Ok? {
        return free;
      }
      lastAllocated := free.value + bits;
      var flagged := FlagRange(free.value, free.value + bits, true);
      if !flagged.Ok? {
        return if flagged.Panic? then Panic else Err(OutOfBounds);
      }
      return free;
    }

    /** The cursor is inside the bitmap, or so far past it that nothing will ever be found again. */
    predicate Settled()
      reads this
    {
      lastAllocated <= size || lastAllocated >= 64 * bitmap.Length
    }

    /** The scan for large requests.  It indexes bytes with a bit number and advances eight of them at a
        time, counting bytes against a number of bits. */
    method ScanBytes(target: nat) returns (r: Outcome<nat, MemoryError>)
      requires Valid() && 16 < target < size
      ensures Strode(bitmap[..], AlignUp8(lastAllocated), target, r)
    {
      AlignmentIs(lastAllocated);
      r := ScanBytesFrom(AlignUp8(lastAllocated), target);
    }

    /** Its outer loop, from an aligned position on. */
    method ScanBytesFrom(from: nat, target: nat) returns (r: Outcome<nat, MemoryError>)
      requires Valid() && 16 < target < size && from % 8 == 0
      ensures Strode(bitmap[..], from, target, r)
    {
      var current := from;
      while current < size
        invariant from <= current && current % 8 == 0
        invariant from < current ==> current < size
        invariant NoStrideUpTo(bitmap[..], from, current, target)
        decreases size - current
      {
        ghost var start := current;
        var sum, found, halted;
        sum, found, current, halted := ScanStride(current, target);
        if halted {
          NoStrideFrom(bitmap[..], from, start, found, target);
          return Panic;
        }
        if sum == 0 {
          assert current - found * 8 == start && FirstStride(bitmap[..], from, target, start);
          return Ok(current - found * 8);
        }
        StrideSkips(bitmap[..], from, start, current, target);
      }
      return Err(AllocationError);
    }

    /** The inner loop of that scan: zero bytes from `start`, up to the first other one. */
    method ScanStride(start: nat, target: nat) returns (sum: bv8, found: nat, current: nat, halted: bool)
      requires Valid() && start < size && start % 8 == 0 && 16 < target < size
      ensures current == start + 8 * found && found <= target && current % 8 == 0
      ensures halted ==> ZeroStride(bitmap[..], start, found) && current >= bitmap.Length && found < target
      ensures !halted && sum == 0 ==> ZeroStride(bitmap[..], start, found) && found == target
      ensures !halted && sum != 0 ==>
        found > 0 && current - 8 < bitmap.Length && bitmap[current - 8] != 0 && current < size
    {
      sum, found, current, halted := 0, 0, start, false;
      while sum == 0 && found < target && current < size
        invariant current == start + 8 * found && found <= target
        invariant current < size
        invariant sum == 0 ==> ZeroStride(bitmap[..], start, found)
        invariant sum != 0 ==> found > 0 && current - 8 < bitmap.Length && bitmap[current - 8] != 0
        decreases size - current
      {
        QuotientRemainder(current, size, 0, current);
        if current % size >= bitmap.Length {
          halted := true;
          break;
        }
        sum := sum + bitmap[current % size];
        found := found + 1;
        current := current + 8;
      }
    }

    ghost predicate NoneUpTo(from: nat, current: nat, target: nat)
      reads this, bitmap
    {
      bitmap.Length > 0 ==> forall s: nat | from <= s < current :: !ClearRun(bitmap[..], s, target)
    }

    /** The inner loop of the scan: clear bits from `start`, up to the first set one. */
    method ScanRun(start: nat, target: nat) returns (sum: bv8, found: nat, current: nat)
      requires Valid() && start < size * 8
      ensures current == start + found <= size * 8 && found <= target
      ensures sum == 0 ==> ClearRun(bitmap[..], start, found) && (found == target || current == size * 8)
      ensures sum != 0 ==> found > 0 && CircularBit(bitmap[..], current - 1)
    {
      sum, found, current := 0, 0, start;
      while sum == 0 && found < target && current < size * 8
        invariant current == start + found <= size * 8 && found <= target
        invariant sum == 0 ==> ClearRun(bitmap[..], start, found)
        invariant sum != 0 ==> found > 0 && CircularBit(bitmap[..], current - 1)
        decreases size * 8 - current
      {
        assert size / 8 == bitmap.Length;
        CircularRead(bitmap[..], current);
        sum := bitmap[(current / 8) % (size / 8)] & Mask(current % 8);
        found := found + 1;
        current := current + 1;
      }
    }
  }

  /** No start of a clear run of `length` bits lies in [from, bound) with room below `bound`. */
  ghost predicate NoFitBelow(bytes: seq<bv8>, from: nat, length: nat, bound: nat)
    requires |bytes| > 0
  {
    forall s: nat | from <= s < bound && s + length <= bound :: !ClearRun(bytes, s, length)
  }

  /** What the scan from `from` for `target` bits promises about its result. */
  ghost predicate Scanned(bytes: seq<bv8>, from: nat, target: nat, r: Outcome<nat, MemoryError>)
    requires |bytes| > 0
  {
    var bound := 64 * |bytes|;
    match r
    case Ok(start) =>
      from <= start < bound &&
      if start + target <= bound then FirstFit(bytes, from, target, start)
      else
        && ClearRun(bytes, start, bound - start) && NoFitBelow(bytes, from, target, bound)
        && (start == from || CircularBit(bytes, start - 1))
    case Err(error) =>
      error == AllocationError &&
      (from < bound ==> CircularBit(bytes, bound - 1) && NoFitBelow(bytes, from, target, bound))
    case Panic => false
  }

  /** From a cursor inside the bitmap, a scan that met no fit proves that there is none at all. */
  lemma NoFitAnywhere(bytes: seq<bv8>, from: nat, target: nat)
    requires |bytes| > 0 && from <= 8 * |bytes| && target <= 16
    requires NoFitBelow(bytes, from, target, 64 * |bytes|)
    ensures forall s: nat :: !ClearRun(bytes, s, target)
  {
    forall s: nat
      ensures !ClearRun(bytes, s, target)
    {
      OneRoundIsEnough(bytes, from, target, s);
    }
  }

  /** From a cursor inside the bitmap the scan is complete: it returns a full-length start exactly when
      a circular fit exists anywhere, and reports failure exactly when there is none and, besides, the
      last bit is set.  Without a fit, a clear last bit comes back as a start that is cut short. */
  lemma ScanIsComplete(bytes: seq<bv8>, from: nat, target: nat, r: Outcome<nat, MemoryError>)
    requires |bytes| > 0 && from <= 8 * |bytes| && 1 <= target <= 16 && Scanned(bytes, from, target, r)
    ensures (r.Ok? && r.value + target <= 64 * |bytes|) <==> exists s: nat :: ClearRun(bytes, s, target)
    ensures r == Err(AllocationError) <==>
      (forall s: nat :: !ClearRun(bytes, s, target)) && BitAt(bytes, 8 * |bytes| - 1)
  {
    var n := 8 * |bytes|;
    CircularShift(n - 1, 8 * n - 1, n, 7);
    InsideIsCircular(bytes, n - 1);
    assert CircularBit(bytes, 64 * |bytes| - 1) == BitAt(bytes, n - 1);
    if r.Ok? && r.value + target <= 64 * |bytes| {
      assert ClearRun(bytes, r.value, target);
    } else {
      NoFitAnywhere(bytes, from, target);
    }
  }

  /** No clear run of `length` bits exists anywhere on the circle. */
  ghost predicate NoFit(bytes: seq<bv8>, length: nat)
    requires |bytes| > 0
  {
    forall s: nat :: !ClearRun(bytes, s, length)
  }

  /** How many bits at the end of the first `upto` are clear. */
  function ClearTail(bytes: seq<bv8>, upto: nat): (tail: nat)
    requires upto <= 8 * |bytes|
    ensures tail <= upto
  {
    if upto == 0 || BitAt(bytes, upto - 1) then 0 else 1 + ClearTail(bytes, upto - 1)
  }

  /** Counting the tail: clear bits, up to a set one. */
  lemma {:induction false} ClearTailIs(bytes: seq<bv8>, upto: nat, tail: nat)
    requires tail < upto <= 8 * |bytes|
    requires AllAre(bytes, upto - tail, upto, false) && BitAt(bytes, upto - tail - 1)
    ensures ClearTail(bytes, upto) == tail
  {
    if tail > 0 {
      assert !BitAt(bytes, upto - 1);
      ClearTailIs(bytes, upto - 1, tail - 1);
    }
  }

  /** The first fit, if there is one, passes the end of the bitmap. */
  ghost predicate Straddles(bytes: seq<bv8>, from: nat, bits: nat)
    requires |bytes| > 0
  {
    exists s: nat :: FirstFit(bytes, from, AlignUp8(bits), s) && s + bits > 8 * |bytes|
  }

  /** The outcomes of a request for `bits` bits, up to 16, from a cursor inside the bitmap. */
  ghost predicate SmallOutcome(bytes: seq<bv8>, from: nat, bits: nat, r: Outcome<nat, MemoryError>)
    requires |bytes| > 0
  {
    var tail := ClearTail(bytes, 8 * |bytes|);
    match r
    case Ok(start) => FirstFit(bytes, from, AlignUp8(bits), start) && start + bits <= 8 * |bytes|
    case Panic => Straddles(bytes, from, bits) || (NoFit(bytes, AlignUp8(bits)) && bits <= tail)
    case Err(OutOfBounds) => NoFit(bytes, AlignUp8(bits)) && 1 <= tail < bits
    case Err(AllocationError) => NoFit(bytes, AlignUp8(bits)) && tail == 0
    case Err(_) => false
  }

  /** These conditions exclude each other, so each of them holds exactly for its own outcome. */
  lemma SmallOutcomeIff(bytes: seq<bv8>, from: nat, bits: nat, r: Outcome<nat, MemoryError>)
    requires |bytes| > 0 && bits > 0 && SmallOutcome(bytes, from, bits, r)
    ensures var size, target, tail := 8 * |bytes|, AlignUp8(bits), ClearTail(bytes, 8 * |bytes|);
      && (r.Ok? <==> exists s: nat :: FirstFit(bytes, from, target, s) && s + bits <= size)
      && (r.Panic? <==> Straddles(bytes, from, bits) || (NoFit(bytes, target) && bits <= tail))
      && (r == Err(OutOfBounds) <==> NoFit(bytes, target) && 1 <= tail < bits)
      && (r == Err(AllocationError) <==> NoFit(bytes, target) && tail == 0)
  {
    forall s: nat, t: nat | FirstFit(bytes, from, AlignUp8(bits), s) && FirstFit(bytes, from, AlignUp8(bits), t)
      ensures s == t && !NoFit(bytes, AlignUp8(bits))
    {
      FirstFitIsUnique(bytes, from, AlignUp8(bits), s);
    }
  }

  /** What looking for `bits` bits from cursor `from` promises. */
  ghost predicate ScanResult(bytes: seq<bv8>, from: nat, bits: nat, free: Outcome<nat, MemoryError>) {
    if bits >= 8 * |bytes| then free == Err(OutOfBounds)
    else if bits <= 16 then Scanned(bytes, from, AlignUp8(bits), free)
    else Strode(bytes, AlignUp8(from), bits, free)
  }

  /** What `Alloc` makes of a scan result: it comes back if its bits lie inside the bitmap, halts if they
      pass its end, and is out of bounds if they pass the bound. */
  function AfterFlag(bytes: seq<bv8>, bits: nat, free: Outcome<nat, MemoryError>): Outcome<nat, MemoryError> {
    match free
    case Ok(start) =>
      if start + bits > 64 * |bytes| then Err(OutOfBounds)
      else if bits > 0 && start + bits > 8 * |bytes| then Panic
      else free
    case _ => free
  }

  /** The outcome of a request for `bits` bits from cursor `from`. */
  ghost predicate AllocOutcome(bytes: seq<bv8>, from: nat, bits: nat, r: Outcome<nat, MemoryError>) {
    if bits >= 8 * |bytes| then r == Err(OutOfBounds)
    else if from >= 64 * |bytes| then r == Err(AllocationError)
    else if bits == 0 then r == Ok(from)
    else if bits > 16 then Strode(bytes, AlignUp8(from), bits, r)
    else if from <= 8 * |bytes| then SmallOutcome(bytes, from, bits, r)
    else !r.Ok?
  }

  /** The scan decides the outcome of the allocation, and up to 16 bits that are granted were clear. */
  lemma ScanDecides(bytes: seq<bv8>, from: nat, bits: nat, free: Outcome<nat, MemoryError>)
    requires ScanResult(bytes, from, bits, free)
    ensures AllocOutcome(bytes, from, bits, AfterFlag(bytes, bits, free))
    ensures var r := AfterFlag(bytes, bits, free);
      r.Ok? && 0 < bits <= 16 ==> r.value + bits <= 8 * |bytes| && AllAre(bytes, r.value, r.value + bits, false)
    ensures free.Ok? && bits == 0 ==> free.value == from
  {
    if bits >= 8 * |bytes| {
    } else if bits == 0 {
      assert ClearRun(bytes, from, AlignUp8(0));
    } else if bits <= 16 {
      SmallScan(bytes, from, bits, free);
    } else if free.Ok? {
      StrideInside(bytes, free.value, bits);
    }
  }

  /** Every outcome of a small request, from what the scan for it promises; whatever the cursor, bits
      that lie inside the bitmap are clear. */
  lemma SmallScan(bytes: seq<bv8>, from: nat, bits: nat, free: Outcome<nat, MemoryError>)
    requires 1 <= bits <= 16 && bits < 8 * |bytes| && Scanned(bytes, from, AlignUp8(bits), free)
    ensures free.Ok? && free.value + bits <= 8 * |bytes| ==>
      FirstFit(bytes, from, AlignUp8(bits), free.value) && AllAre(bytes, free.value, free.value + bits, false)
    ensures from <= 8 * |bytes| ==> SmallOutcome(bytes, from, bits, AfterFlag(bytes, bits, free))
  {
    RoundedUp(bits);
    if free.Ok? && free.value + bits <= 8 * |bytes| {
      RunIsClear(bytes, free.value, bits);
    }
    if from <= 8 * |bytes| {
      ScanIsComplete(bytes, from, AlignUp8(bits), free);
      if free.Ok? && free.value + AlignUp8(bits) > 64 * |bytes| {
        CutShortIsTail(bytes, from, AlignUp8(bits), free.value);
      } else if free.Ok? {
        FirstFitIsUnique(bytes, from, AlignUp8(bits), free.value);
      }
    }
  }

  lemma RunIsClear(bytes: seq<bv8>, start: nat, bits: nat)
    requires |bytes| > 0 && start + bits <= 8 * |bytes| && ClearRun(bytes, start, bits)
    ensures AllAre(bytes, start, start + bits, false)
  {
    forall i: nat | start <= i < start + bits
      ensures !BitAt(bytes, i)
    {
      InsideIsCircular(bytes, i);
    }
  }

  lemma FirstFitIsUnique(bytes: seq<bv8>, from: nat, target: nat, start: nat)
    requires |bytes| > 0 && FirstFit(bytes, from, target, start)
    ensures forall s: nat | FirstFit(bytes, from, target, s) :: s == start
  {
  }

  /** A result that is cut short starts the clear tail of the bitmap, in its last round. */
  lemma CutShortIsTail(bytes: seq<bv8>, from: nat, target: nat, start: nat)
    requires |bytes| > 0 && from <= 8 * |bytes| && target <= 16
    requires Scanned(bytes, from, target, Ok(start)) && start + target > 64 * |bytes|
    ensures NoFit(bytes, target) && ClearTail(bytes, 8 * |bytes|) == 64 * |bytes| - start
  {
    var n := 8 * |bytes|;
    var tail := 8 * n - start;
    NoFitAnywhere(bytes, from, target);
    if tail >= n {
      ClearRoundIsFit(bytes, start, target);
    }
    forall i: nat | n - tail - 1 <= i < n
      ensures BitAt(bytes, i) == CircularBit(bytes, i + 7 * n)
    {
      CircularShift(i, i + 7 * n, n, 7);
      InsideIsCircular(bytes, i);
    }
    ClearTailIs(bytes, n, tail);
  }

  /** Once around the circle clear is clear everywhere. */
  lemma ClearRoundIsFit(bytes: seq<bv8>, start: nat, target: nat)
    requires |bytes| > 0 && ClearRun(bytes, start, 8 * |bytes|)
    ensures ClearRun(bytes, start, target)
  {
    var n := 8 * |bytes|;
    forall p: nat | start <= p < start + target
      ensures !CircularBit(bytes, p)
    {
      var q, k := IntoRound(start, p, n);
      assert !CircularBit(bytes, q);
      CircularShift(q, p, n, k);
    }
  }

  /** Any later position can be moved back by whole rounds into the first round from `start`. */
  lemma IntoRound(start: nat, p: nat, n: nat) returns (q: nat, k: nat)
    requires n > 0 && start <= p
    ensures start <= q < start + n && p == q + n * k
  {
    k := (p - start) / n;
    q := start + (p - start) % n;
  }

  // ---------------------------------------------------------------- strides

  predicate ZeroAt(bytes: seq<bv8>, i: nat) {
    i < |bytes| && bytes[i] == 0
  }

  /** Every eighth byte from `start` on, `count` of them, is there and zero. */
  predicate ZeroStride(bytes: seq<bv8>, start: nat, count: nat) {
    count == 0 || (ZeroStride(bytes, start, count - 1) && ZeroAt(bytes, start + 8 * (count - 1)))
  }

  lemma {:induction false} StrideAt(bytes: seq<bv8>, start: nat, count: nat, k: nat)
    requires ZeroStride(bytes, start, count) && k < count
    ensures ZeroAt(bytes, start + 8 * k)
  {
    if k < count - 1 {
      StrideAt(bytes, start, count - 1, k);
    }
  }

  ghost predicate NoStrideUpTo(bytes: seq<bv8>, from: nat, current: nat, target: nat) {
    forall s: nat | from <= s < current && s % 8 == 0 :: !ZeroStride(bytes, s, target)
  }

  /** `start` is the first stride of zero bytes at or after `from`. */
  ghost predicate FirstStride(bytes: seq<bv8>, from: nat, target: nat, start: nat) {
    && from <= start < 8 * |bytes| && start % 8 == 0
    && ZeroStride(bytes, start, target) && NoStrideUpTo(bytes, from, start, target)
  }

  /** What the scan for large requests promises: the first stride of zero bytes; failure exactly when the
      cursor is past the bitmap; otherwise a halt, exactly when there is no such stride. */
  ghost predicate Strode(bytes: seq<bv8>, from: nat, target: nat, r: Outcome<nat, MemoryError>) {
    match r
    case Ok(start) => FirstStride(bytes, from, target, start)
    case Err(error) => error == AllocationError && from >= 8 * |bytes|
    case Panic => from < 8 * |bytes| && forall s: nat | from <= s && s % 8 == 0 :: !ZeroStride(bytes, s, target)
  }

  lemma StrideSkips(bytes: seq<bv8>, from: nat, start: nat, current: nat, target: nat)
    requires NoStrideUpTo(bytes, from, start, target) && start % 8 == 0 && current % 8 == 0
    requires start + 8 <= current <= start + 8 * target && !ZeroAt(bytes, current - 8)
    ensures NoStrideUpTo(bytes, from, current, target)
  {
    forall s: nat | from <= s < current && s % 8 == 0
      ensures !ZeroStride(bytes, s, target)
    {
      if s >= start && ZeroStride(bytes, s, target) {
        StrideAt(bytes, s, target, (current - 8 - s) / 8);
      }
    }
  }

  lemma NoStrideFrom(bytes: seq<bv8>, from: nat, start: nat, found: nat, target: nat)
    requires NoStrideUpTo(bytes, from, start, target) && found < target && start + 8 * found >= |bytes|
    ensures forall s: nat | from <= s && s % 8 == 0 :: !ZeroStride(bytes, s, target)
  {
    forall s: nat | from <= s && s % 8 == 0
      ensures !ZeroStride(bytes, s, target)
    {
      if s >= start && ZeroStride(bytes, s, target) {
        StrideAt(bytes, s, target, found);
      }
    }
  }

  /** So many bits from the start of a stride lie inside the bitmap. */
  lemma StrideInside(bytes: seq<bv8>, start: nat, count: nat)
    requires count > 0 && ZeroStride(bytes, start, count)
    ensures start + count <= 8 * |bytes|
  {
    StrideAt(bytes, start, count, count - 1);
  }

  /** So a large request is granted bits that were clear if and only if the bits from the first stride on
      are clear; it is granted something if and only if there is a stride. */
  lemma LargeGrantWasClearIff(bytes: seq<bv8>, from: nat, bits: nat, r: Outcome<nat, MemoryError>)
    requires bits > 0 && Strode(bytes, from, bits, r)
    ensures r.Ok? <==> exists s: nat :: FirstStride(bytes, from, bits, s)
    ensures r.Ok? ==> r.value + bits <= 8 * |bytes|
    ensures r.Ok? && AllAre(bytes, r.value, r.value + bits, false) <==>
      exists s: nat :: FirstStride(bytes, from, bits, s) && s + bits <= 8 * |bytes| && AllAre(bytes, s, s + bits, false)
  {
    if r.Ok? {
      StrideInside(bytes, r.value, bits);
      forall s: nat | FirstStride(bytes, from, bits, s)
        ensures s == r.value
      {
      }
    }
  }

  /** 129 bytes, of which only the second is not zero. */
  function SecondByteTaken(): (bytes: seq<bv8>)
    ensures |bytes| == 129 && forall i | 0 <= i < |bytes| && i % 8 == 0 :: bytes[i] == 0
  {
    [0, 0xFF] + seq(127, _ => 0)
  }

  /** A large request can be granted bits that are taken: for 17 bits the scan of this bitmap looks at
      bytes 0, 8, 16 and so on, but the bits granted are those of bytes 0, 1 and 2. */
  lemma LargeRequestGrantsTakenBits(r: Outcome<nat, MemoryError>)
    requires Strode(SecondByteTaken(), 0, 17, r)
    ensures r == Ok(0) && BitAt(SecondByteTaken(), 8)
  {
    EighthBytesAreZero(SecondByteTaken(), 17);
  }

  lemma {:induction false} EighthBytesAreZero(bytes: seq<bv8>, count: nat)
    requires count <= 17 && |bytes| == 129 && forall i | 0 <= i < |bytes| && i % 8 == 0 :: bytes[i] == 0
    ensures ZeroStride(bytes, 0, count)
  {
    if count > 0 {
      EighthBytesAreZero(bytes, count - 1);
    }
  }

  /** A concrete bitmap on which a full allocator is not reported as such: every bit but the last is
      set, so no eight bits in a row are clear, and yet the scan does not end in `AllocationError`. */
  lemma ClearLastBitIsNotReported(from: nat, r: Outcome<nat, MemoryError>)
    requires from <= 16 && Scanned([0xFF, 0x7F], from, 8, r)
    ensures NoFit([0xFF, 0x7F], 8) && r != Err(AllocationError)
  {
    OneClearBitIsNoFit();
    OnlyLastIsClear(15);
    ScanIsComplete([0xFF, 0x7F], from, 8, r);
  }

  /** On the same bitmap one bit halts the allocator, and two bits are out of bounds. */
  lemma ShortTail(from: nat, one: Outcome<nat, MemoryError>, two: Outcome<nat, MemoryError>)
    requires from <= 16
    requires SmallOutcome([0xFF, 0x7F], from, 1, one) && SmallOutcome([0xFF, 0x7F], from, 2, two)
    ensures one.Panic? && two == Err(OutOfBounds)
  {
    OneClearBitIsNoFit();
    OnlyLastIsClear(14);
    OnlyLastIsClear(15);
    ClearTailIs([0xFF, 0x7F], 16, 1);
  }

  lemma OneClearBitIsNoFit()
    ensures NoFit([0xFF, 0x7F], 8)
  {
    var bytes: seq<bv8> := [0xFF, 0x7F];
    forall s: nat
      ensures !ClearRun(bytes, s, 8)
    {
      OnlyLastIsClear(s % 16);
      OnlyLastIsClear((s + 1) % 16);
      assert CircularBit(bytes, s) || CircularBit(bytes, s + 1);
    }
  }

  /** Eight clear bits that straddle the end: the first fit is at bit 12, and five bits halt. */
  lemma StraddlingFitHalts(r: Outcome<nat, MemoryError>)
    requires SmallOutcome([0xF0, 0x0F], 0, 5, r)
    ensures r.Panic?
  {
    var bytes: seq<bv8> := [0xF0, 0x0F];
    forall s: nat | s < 12
      ensures !ClearRun(bytes, s, 8)
    {
      var p := if s < 4 then 4 else s;
      MiddleIsSet(p);
      assert CircularBit(bytes, p);
    }
    forall p: nat | 12 <= p < 12 + 8
      ensures !CircularBit(bytes, p)
    {
      MiddleIsSet(p % 16);
    }
    assert FirstFit(bytes, 0, 8, 12);
  }

  lemma MiddleIsSet(i: nat)
    requires i < 16
    ensures BitAt([0xF0, 0x0F], i) <==> 4 <= i < 12
  {
  }

  lemma OnlyLastIsClear(i: nat)
    requires i < 16
    ensures BitAt([0xFF, 0x7F], i) <==> i != 15
  {
  }

  lemma RoundedUp(bits: nat)
    requires bits <= 16
    ensures bits <= AlignUp8(bits) <= 16
  {
  }

  /** Inside the bitmap the circular position is the position itself. */
  lemma InsideIsCircular(bytes: seq<bv8>, i: nat)
    requires i < 8 * |bytes|
    ensures CircularBit(bytes, i) == BitAt(bytes, i)
  {
    QuotientRemainder(i, 8 * |bytes|, 0, i);
  }

  /** A byte equals the test pattern exactly when its eight bits do. */
  lemma ByteIsEightBits(bytes: seq<bv8>, k: nat, isSet: bool)
    requires k < |bytes|
    ensures bytes[k] == (if isSet then 0xFF else 0) <==> AllAre(bytes, 8 * k, 8 * k + 8, isSet)
  {
    WholeByte(bytes[k]);
    if AllAre(bytes, 8 * k, 8 * k + 8, isSet) {
      forall j: nat | j < 8
        ensures BitSet(bytes[k], j) == isSet
      {
        assert BitAt(bytes, 8 * k + j) == isSet;
      }
    }
  }

  /** Bit 8 of a bitmap of one byte: past the end, but not past the bound. */
  method FlagPastEndHalts() returns (r: Outcome<Unit, MemoryError>)
    ensures r.Panic?
  {
    var allocator := new BitmapAllocator(1, false);
    r := allocator.FlagRange(8, 9, true);
  }

  // ---------------------------------------------------------------- runs

  datatype Grant = Grant(start: nat, bits: nat)

  predicate Disjoint(a: Grant, b: Grant) {
    a.start + a.bits <= b.start || b.start + b.bits <= a.start
  }

  ghost predicate Covers(grants: seq<Grant>, i: nat) {
    exists g <- grants :: g.start <= i < g.start + g.bits
  }

  /** A range that is set and one that is clear do not overlap. */
  lemma SetAndClearAreDisjoint(bytes: seq<bv8>, a: Grant, b: Grant)
    requires a.bits >= 1 && a.start + a.bits <= 8 * |bytes| && AllAre(bytes, a.start, a.start + a.bits, true)
    requires b.bits >= 1 && b.start + b.bits <= 8 * |bytes| && AllAre(bytes, b.start, b.start + b.bits, false)
    ensures Disjoint(a, b)
  {
    assert BitAt(bytes, a.start) && !BitAt(bytes, b.start);
  }

  /** From a full bitmap only the empty request is granted: up to 16 bits, failure is reported; beyond,
      the scan halts, unless the request is as large as the bitmap. */
  lemma FullBitmapGrantsNothing(bytes: seq<bv8>, from: nat, bits: nat, r: Outcome<nat, MemoryError>)
    requires AllAre(bytes, 0, 8 * |bytes|, true) && from <= 8 * |bytes| && AllocOutcome(bytes, from, bits, r)
    ensures r.Ok? <==> bits == 0 < |bytes|
    ensures 0 < bits <= 16 && bits < 8 * |bytes| ==> r == Err(AllocationError)
    ensures bits >= 8 * |bytes| ==> r == Err(OutOfBounds)
  {
    if 0 < bits < 8 * |bytes| {
      forall s: nat
        ensures !ClearRun(bytes, s, AlignUp8(bits))
      {
        assert CircularBit(bytes, s);
      }
      forall i: nat
        ensures !ZeroAt(bytes, i)
      {
        assert i < |bytes| ==> BitAt(bytes, 8 * i);
      }
    }
  }

  /** Any run of allocations, until the first halt.  What is granted lies in the bitmap; a range of up to
      16 bits was clear at the start and overlaps nothing granted before; without a halt, the bits set at
      the end are those set at the start and those granted.  From a full bitmap nothing is granted. */
  method AllocRun(allocator: BitmapAllocator, requests: seq<nat>) returns (grants: seq<Grant>, halted: bool)
    requires allocator.Valid()
    modifies allocator`lastAllocated, allocator.bitmap
    ensures forall g <- grants :: g.bits > 0 && g.start + g.bits <= allocator.size
    ensures forall i, j | 0 <= i < j < |grants| && grants[j].bits <= 16 :: Disjoint(grants[i], grants[j])
    ensures forall g <- grants | g.bits <= 16 :: AllAre(old(allocator.bitmap[..]), g.start, g.start + g.bits, false)
    ensures !halted ==> forall i: nat | i < allocator.size ::
      BitAt(allocator.bitmap[..], i) <==> BitAt(old(allocator.bitmap[..]), i) || Covers(grants, i)
    ensures old(Exhausted(allocator)) ==> grants == []
  {
    grants := [];
    for k := 0 to |requests|
      invariant forall g <- grants :: g.bits > 0 && g.start + g.bits <= allocator.size
      invariant forall i, j | 0 <= i < j < |grants| && grants[j].bits <= 16 :: Disjoint(grants[i], grants[j])
      invariant forall g <- grants | g.bits <= 16 :: AllAre(old(allocator.bitmap[..]), g.start, g.start + g.bits, false)
      invariant Accumulated(old(allocator.bitmap[..]), allocator.bitmap[..], grants)
      invariant old(Exhausted(allocator)) ==> grants == [] && Exhausted(allocator)
    {
      ghost var before, from := allocator.bitmap[..], allocator.lastAllocated;
      var r := allocator.Alloc(requests[k]);
      if r.Panic? {
        return grants, true;
      }
      if old(Exhausted(allocator)) {
        FullBitmapGrantsNothing(before, from, requests[k], r);
      }
      AccumulatedNext(old(allocator.bitmap[..]), before, allocator.bitmap[..], grants, r, requests[k]);
      if r.Ok? && requests[k] > 0 {
        grants := grants + [Grant(r.value, requests[k])];
      }
    }
    halted := false;
  }

  /** Everything is taken, and the cursor is inside the bitmap. */
  ghost predicate Exhausted(allocator: BitmapAllocator)
    reads allocator, allocator.bitmap
  {
    && allocator.lastAllocated <= allocator.size == 8 * allocator.bitmap.Length
    && AllAre(allocator.bitmap[..], 0, 8 * allocator.bitmap.Length, true)
  }

  /** The bits set now are those set at the start and those granted. */
  ghost predicate Accumulated(start: seq<bv8>, now: seq<bv8>, grants: seq<Grant>) {
    && |now| == |start|
    && forall i: nat | i < 8 * |start| :: BitAt(now, i) <==> BitAt(start, i) || Covers(grants, i)
  }

  /** One more request: its bits, if granted, are added; up to 16 of them were clear and not covered. */
  lemma AccumulatedNext(start: seq<bv8>, before: seq<bv8>, after: seq<bv8>, grants: seq<Grant>,
                        r: Outcome<nat, MemoryError>, bits: nat)
    requires Accumulated(start, before, grants) && !r.Panic?
    requires forall g <- grants :: g.bits > 0 && g.start + g.bits <= 8 * |start|
    requires r.Err? ==> after == before
    requires r.Ok? ==> Flagged(before, after, r.value, r.value + bits, true)
    requires r.Ok? && 0 < bits <= 16 ==>
      r.value + bits <= 8 * |before| && AllAre(before, r.value, r.value + bits, false)
    ensures Accumulated(start, after, if r.Ok? && bits > 0 then grants + [Grant(r.value, bits)] else grants)
    ensures r.Ok? && 0 < bits <= 16 ==>
      && AllAre(start, r.value, r.value + bits, false)
      && forall g <- grants :: Disjoint(g, Grant(r.value, bits))
  {
    if r.Ok? && bits > 0 {
      CoversNext(grants, Grant(r.value, bits));
    }
    if r.Ok? && 0 < bits <= 16 {
      forall g | g in grants
        ensures Disjoint(g, Grant(r.value, bits))
      {
        assert AllAre(before, g.start, g.start + g.bits, true);
        SetAndClearAreDisjoint(before, g, Grant(r.value, bits));
      }
    }
  }

  lemma CoversNext(grants: seq<Grant>, g: Grant)
    ensures forall i: nat :: Covers(grants + [g], i) <==> Covers(grants, i) || g.start <= i < g.start + g.bits
  {
    forall i: nat
      ensures Covers(grants + [g], i) <==> Covers(grants, i) || g.start <= i < g.start + g.bits
    {
      assert g in grants + [g];
      assert forall h <- grants :: h in grants + [g];
    }
  }
}
