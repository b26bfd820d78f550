/** How a chunk is divided: a header of three words, padding, the slots, and the bitmap of those that are free. */
module ChunkLayout {
  import opened Words

  /** What the constructor asserts of its arguments. The sizes are C++ `int`s, and so is eight times the chunk size. */
  predicate LegalSizes(chunkSize: nat, objectSize: nat, align: nat) {
    && chunkSize % 8 == 0 && objectSize % 8 == 0 && align % 8 == 0 && 0 < align && 0 < objectSize
    && objectSize % align == 0 && chunkSize % align == 0 && objectSize + 32 <= chunkSize < 0x1000_0000
  }

  function Padding(align: nat): nat
    requires align > 0
  {
    if 24 % align != 0 then align - 24 % align else 0
  }

  /** The words of a bitmap for x slots. */
  function BitmapWords(x: nat): nat {
    (x + 63) / 64
  }

  /** x slots and their bitmap fit into a chunk. */
  predicate Fits(chunkSize: nat, objectSize: nat, padding: nat, x: nat) {
    24 + padding + x * objectSize + BitmapWords(x) * 8 <= chunkSize
  }

  /** x is the largest number of slots that fit. */
  ghost predicate Optimal(chunkSize: nat, objectSize: nat, padding: nat, x: nat) {
    Fits(chunkSize, objectSize, padding, x) && forall y: nat :: Fits(chunkSize, objectSize, padding, y) ==> y <= x
  }

  /** The largest number of slots that fit: a quotient, or one less. */
  method FindOptimalELength(chunkSize: nat, objectSize: nat, paddingSize: nat) returns (lim: nat)
    requires objectSize >= 8 && 24 + paddingSize <= chunkSize
    ensures Optimal(chunkSize, objectSize, paddingSize, lim)
    ensures 24 + paddingSize + lim * objectSize + (lim + 63) / 64 * 8 <= chunkSize
    ensures 24 + paddingSize + (lim + 1) * objectSize + (lim + 64) / 64 * 8 > chunkSize
  {
    hide Fits, Optimal;
    ghost var q, r := Divide(8 * (chunkSize - 24 - paddingSize), 8 * objectSize + 1);
    lim := 8 * (chunkSize - 24 - paddingSize) / (8 * objectSize + 1);
    QuotientOptimal(chunkSize, objectSize, paddingSize, lim);
    OptimalBytes(chunkSize, objectSize, paddingSize);
    if Fits(chunkSize, objectSize, paddingSize, lim) {
      return lim;
    }
    lim := lim - 1;
    assert Fits(chunkSize, objectSize, paddingSize, lim);
  }

  lemma OptimalBytes(chunkSize: nat, objectSize: nat, padding: nat)
    ensures forall x: nat :: Optimal(chunkSize, objectSize, padding, x) ==>
              && 24 + padding + x * objectSize + (x + 63) / 64 * 8 <= chunkSize
              && 24 + padding + (x + 1) * objectSize + (x + 64) / 64 * 8 > chunkSize
  {
    forall x: nat | Optimal(chunkSize, objectSize, padding, x)
      ensures 24 + padding + x * objectSize + (x + 63) / 64 * 8 <= chunkSize
      ensures 24 + padding + (x + 1) * objectSize + (x + 64) / 64 * 8 > chunkSize
    {
      assert !Fits(chunkSize, objectSize, padding, x + 1);
    }
  }

  /** The quotient if that many slots fit, and else one less. */
  lemma QuotientOptimal(chunkSize: nat, objectSize: nat, padding: nat, lim: nat)
    requires objectSize >= 8 && 24 + padding <= chunkSize
    requires lim == 8 * (chunkSize - 24 - padding) / (8 * objectSize + 1)
    ensures Fits(chunkSize, objectSize, padding, lim) ==> Optimal(chunkSize, objectSize, padding, lim)
    ensures !Fits(chunkSize, objectSize, padding, lim) ==>
              lim > 0 && Fits(chunkSize, objectSize, padding, lim - 1)
              && Optimal(chunkSize, objectSize, padding, lim - 1)
  {
    hide Fits;
    LimitIsUpperBound(chunkSize, objectSize, padding, lim);
    if !Fits(chunkSize, objectSize, padding, lim) {
      OneLessFits(chunkSize, objectSize, padding, lim);
    }
  }

  lemma NothingFits(chunkSize: nat, objectSize: nat, padding: nat)
    requires 24 + padding <= chunkSize
    ensures Fits(chunkSize, objectSize, padding, 0)
  {
  }

  lemma LimitIsUpperBound(chunkSize: nat, objectSize: nat, padding: nat, lim: nat)
    requires 24 + padding <= chunkSize && lim == 8 * (chunkSize - 24 - padding) / (8 * objectSize + 1)
    ensures forall x: nat :: Fits(chunkSize, objectSize, padding, x) ==> x <= lim
  {
    var q, r := Divide(8 * (chunkSize - 24 - padding), 8 * objectSize + 1);
    forall x: nat | Fits(chunkSize, objectSize, padding, x)
      ensures x <= lim
    {
      AtMost(objectSize, x, BitmapWords(x), chunkSize - 24 - padding, q, r);
    }
  }

  lemma AtMost(objectSize: nat, x: nat, words: nat, room: nat, q: nat, r: nat)
    requires x * objectSize + 8 * words <= room && x <= 64 * words
    requires 8 * room == r + (8 * objectSize + 1) * q && r < 8 * objectSize + 1
    ensures x <= q
  {
    var d, m := 8 * objectSize + 1, x * objectSize;
    assert d * x == 8 * m + x;
    NextMultiple(d, q, x);
  }

  lemma NextMultiple(d: nat, q: nat, x: nat)
    ensures x > q ==> d * x >= d * q + d
  {
    if x > q {
      MulMonotone(d, q + 1, x);
    }
  }

  lemma MulMonotone(d: nat, a: nat, b: nat)
    requires a <= b
    ensures d * a <= d * b
  {
    assert d * b == d * a + d * (b - a);
  }

  lemma OneLessFits(chunkSize: nat, objectSize: nat, padding: nat, lim: nat)
    requires objectSize >= 8 && 24 + padding <= chunkSize
    requires lim == 8 * (chunkSize - 24 - padding) / (8 * objectSize + 1)
    requires !Fits(chunkSize, objectSize, padding, lim)
    ensures lim > 0 && Fits(chunkSize, objectSize, padding, lim - 1)
  {
    var q, r := Divide(8 * (chunkSize - 24 - padding), 8 * objectSize + 1);
    NothingFits(chunkSize, objectSize, padding);
    assert lim > 0;
    ManyTimes(objectSize, lim);
    LessIsEnough(objectSize, lim, lim * objectSize, chunkSize - 24 - padding);
  }

  lemma ManyTimes(objectSize: nat, lim: nat)
    requires lim > 0
    ensures (8 * objectSize + 1) * lim == 8 * (lim * objectSize) + lim
    ensures (lim - 1) * objectSize == lim * objectSize - objectSize
  {
  }

  lemma LessIsEnough(objectSize: nat, lim: nat, bytes: nat, room: nat)
    requires objectSize >= 8 && lim > 0 && 8 * bytes + lim <= 8 * room
    ensures bytes - objectSize + 8 * BitmapWords(lim - 1) <= room
  {
    assert 64 * BitmapWords(lim - 1) <= lim + 62;
  }

  // Addresses.

  function SlotAddress(base: nat, padding: nat, objectSize: nat, i: nat): nat {
    base + 24 + padding + objectSize * i
  }

  /** A slot lies after the header and the padding and before the bitmap, which ends inside the chunk. */
  lemma SlotInside(chunkSize: nat, objectSize: nat, padding: nat, eLength: nat, base: nat, i: nat)
    requires Fits(chunkSize, objectSize, padding, eLength) && i < eLength
    ensures var p, bitmap := SlotAddress(base, padding, objectSize, i), SlotAddress(base, padding, objectSize, eLength);
      && base + 24 + padding <= p && p + objectSize <= bitmap
      && bitmap + 8 * BitmapWords(eLength) <= base + chunkSize
  {
    MulMonotone(objectSize, i + 1, eLength);
    assert objectSize * (i + 1) == objectSize * i + objectSize;
  }

  /** Two slots have no byte in common: not in one chunk, and not in two. */
  lemma SlotsApart(chunkSize: nat, objectSize: nat, padding: nat, eLength: nat, base: nat, i: nat, base': nat, j: nat)
    requires Fits(chunkSize, objectSize, padding, eLength) && i < eLength && j < eLength
    requires chunkSize > 0 && base % chunkSize == 0 && base' % chunkSize == 0 && (base, i) != (base', j)
    ensures var p, p' := SlotAddress(base, padding, objectSize, i), SlotAddress(base', padding, objectSize, j);
      p + objectSize <= p' || p' + objectSize <= p
  {
    SlotInside(chunkSize, objectSize, padding, eLength, base, i);
    SlotInside(chunkSize, objectSize, padding, eLength, base', j);
    if base == base' {
      if i < j {
        MulMonotone(objectSize, i + 1, j);
      } else {
        MulMonotone(objectSize, j + 1, i);
      }
      assert objectSize * (i + 1) == objectSize * i + objectSize && objectSize * (j + 1) == objectSize * j + objectSize;
    } else {
      ChunksApart(chunkSize, base, base');
    }
  }

  lemma ChunksApart(chunkSize: nat, base: nat, base': nat)
    requires chunkSize > 0 && base % chunkSize == 0 && base' % chunkSize == 0 && base != base'
    ensures base + chunkSize <= base' || base' + chunkSize <= base
  {
    var k, _ := Divide(base, chunkSize);
    var k', _ := Divide(base', chunkSize);
    NextMultiple(chunkSize, k, k');
    NextMultiple(chunkSize, k', k);
  }

  /** From the address of a slot, freeing finds the chunk and the slot that allocation chose. */
  lemma SlotRecovered(chunkSize: nat, objectSize: nat, padding: nat, eLength: nat, base: nat, i: nat)
    requires Fits(chunkSize, objectSize, padding, eLength) && i < eLength && objectSize > 0
    requires chunkSize > 0 && base % chunkSize == 0
    ensures var p := SlotAddress(base, padding, objectSize, i);
      && p - p % chunkSize == base && p >= SlotAddress(base, padding, objectSize, 0)
      && (p - SlotAddress(base, padding, objectSize, 0)) / objectSize == i
  {
    hide Fits;
    var p := SlotAddress(base, padding, objectSize, i);
    SlotInside(chunkSize, objectSize, padding, eLength, base, i);
    var k, _ := Divide(base, chunkSize);
    DivModUnique(p, chunkSize, k, p - base);
    DivModUnique(objectSize * i, objectSize, i, 0);
    FromFirstSlot(base, padding, objectSize, i);
  }

  lemma FromFirstSlot(base: nat, padding: nat, objectSize: nat, i: nat)
    ensures SlotAddress(base, padding, objectSize, i)
         == SlotAddress(base, padding, objectSize, 0) + objectSize * i
  {
  }

  /** Slots are aligned as the objects need to be, and no padding is wasted on it. */
  lemma SlotAligned(chunkSize: nat, objectSize: nat, align: nat, base: nat, i: nat)
    requires LegalSizes(chunkSize, objectSize, align) && base % chunkSize == 0
    ensures SlotAddress(base, Padding(align), objectSize, i) % align == 0 && Padding(align) < align
  {
    hide Padding;
    var a, _ := Divide(base, chunkSize);
    var b, _ := Divide(chunkSize, align);
    var c, _ := Divide(objectSize, align);
    var k := HeaderAligned(align);
    MulAssociates(align, b, a);
    MulAssociates(align, c, i);
    SumOfMultiples(align, b * a, k, c * i);
    DivModUnique(SlotAddress(base, Padding(align), objectSize, i), align, b * a + k + c * i, 0);
  }

  lemma MulAssociates(a: nat, b: nat, c: nat)
    ensures a * b * c == a * (b * c)
  {
  }

  lemma SumOfMultiples(a: nat, x: nat, y: nat, z: nat)
    ensures a * x + a * y + a * z == a * (x + y + z)
  {
  }

  lemma HeaderAligned(align: nat) returns (k: nat)
    requires align > 0
    ensures 24 + Padding(align) == align * k && Padding(align) < align
  {
    var q, r := Divide(24, align);
    k := if r != 0 then q + 1 else q;
  }
}
