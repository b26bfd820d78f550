/** The 64-bit wrapping index arithmetic of the pager, truncated to 32-bit signed integers, and what it selects. */
module PageIndex {
  import opened Words
  import opened Pte
  import opened PageTree

  /** Conversion of an unsigned word to a 32-bit signed integer. */
  function ToInt32(x: nat): int {
    var m := x % 0x1_0000_0000;
    if m < 0x8000_0000 then m else m - 0x1_0000_0000
  }

  /** Unsigned sum with 64-bit wrap-around. */
  function WrapAdd(a: u64, b: u64): u64 {
    (a + b) % TWO_64
  }

  /** The quotient rounded up, as the source's `divru` computes it. */
  function DivRoundUp(x: u64, y: u64): u64
    requires y > 0
  {
    WrapAdd(x, y - 1) / y
  }

  function RawIndexStart(h: Height, startLin: u64, base: u64): int {
    ToInt32(WrapSub(startLin, base) / ChildSize(h))
  }

  function RawIndexEnd(h: Height, startLin: u64, length: u64, base: u64): int {
    ToInt32(DivRoundUp(WrapSub(WrapAdd(startLin, length), base), ChildSize(h)))
  }

  /** The remainders, truncated like the indices. */
  function RawStartMod(h: Height, startLin: u64, base: u64): int {
    ToInt32(WrapSub(startLin, base) % ChildSize(h))
  }

  function RawEndMod(h: Height, startLin: u64, length: u64, base: u64): int {
    ToInt32(WrapSub(WrapAdd(startLin, length), base) % ChildSize(h))
  }

  /** A range the truncated indices can deal with: counted from the start of the page table it begins in, it has fewer
      than 2^31 pages. */
  predicate Indexable(first: nat, count: nat) {
    0 < count && first + count <= 0x10_0000_0000 && first % 0x200 + count < 0x8000_0000
  }

  /** Pages first..first+count meet the span of the table of height h that starts at page b. */
  predicate TableMet(h: Height, first: nat, count: nat, b: nat) {
    && b < 0x10_0000_0000 && (h == 3 ==> b == 0) && b % 0x200 == 0
    && b < first + count && first < b + SlotStart(h, 512)
  }

  predicate Meets(h: Height, first: nat, count: nat, b: nat) {
    Indexable(first, count) && TableMet(h, first, count, b)
  }

  /** The table below an entry that the range meets is met too. */
  lemma ChildMet(h: Height, first: nat, count: nat, b: nat, i: nat)
    requires h > 0 && Meets(h, first, count, b) && i < 512
    requires !Misses(h, first - b - SlotStart(h, i), first + count - b - SlotStart(h, i))
    ensures Meets(h - 1, first, count, b + SlotStart(h, i)) && b + SlotStart(h, i) < 0x10_0000_0000
  {
    hide Indexable;
    SlotSteps(h, i);
    var k, _ := Divide(b, 0x200);
    match h {
      case 1 => DivModUnique(b + SlotStart(1, i), 0x200, k + i, 0);
      case 2 => DivModUnique(b + SlotStart(2, i), 0x200, k + 0x200 * i, 0);
      case 3 => DivModUnique(b + SlotStart(3, i), 0x200, k + 0x4_0000 * i, 0);
    }
    assert first + count <= 0x10_0000_0000 by {
      IndexableBound(first, count);
    }
  }

  lemma IndexableBound(first: nat, count: nat)
    requires Indexable(first, count)
    ensures 0 < count && first + count <= 0x10_0000_0000
  {
  }

  lemma ToInt32Small(x: nat)
    requires x < 0x8000_0000
    ensures ToInt32(x) == x
  {
  }

  /** A small negative number, wrapped to 32 bits or more, reads as itself. */
  lemma ToInt32Negative(x: nat, high: nat, d: nat)
    requires high > 0 && x + d == 0x1_0000_0000 * high && 0 < d <= 0x8000_0000
    ensures ToInt32(x) + d == 0
  {
    assert x == 0x1_0000_0000 * (high - 1) + (0x1_0000_0000 - d);
    DivModUnique(x, 0x1_0000_0000, high - 1, 0x1_0000_0000 - d);
  }

  lemma WrapSubPages(first: nat, b: nat)
    requires first < 0x10_0000_0000 + 1 && b < 0x10_0000_0000
    ensures b <= first ==> WrapSub(0x1000 * first, 0x1000 * b) == 0x1000 * (first - b)
    ensures first < b ==> WrapSub(0x1000 * first, 0x1000 * b) == TWO_64 - 0x1000 * (b - first)
  {
  }

  /** Dividing a page-aligned distance by the size of a child. */
  lemma DividePages(h: Height, n: nat)
    ensures 0x1000 * n / ChildSize(h) == SlotIndex(h, n)
    ensures 0x1000 * n % ChildSize(h) == 0x1000 * (n - SlotStart(h, SlotIndex(h, n)))
  {
    SlotOfPage(h, n);
    var q := SlotIndex(h, n);
    DivModUnique(0x1000 * n, ChildSize(h), q, 0x1000 * (n - SlotStart(h, q)));
  }

  /** The entries needed to span n pages. */
  function SlotsFor(h: Height, n: nat): (k: nat)
    requires n > 0
  {
    SlotIndex(h, n - 1) + 1
  }

  lemma DivideRoundingUp(h: Height, n: nat)
    requires 0 < n <= 0x10_0000_0000
    ensures DivRoundUp(0x1000 * n, ChildSize(h)) == SlotsFor(h, n)
  {
    hide SlotIndex;
    SlotOfPage(h, n - 1);
    var q := SlotIndex(h, n - 1);
    var r := n - 1 - SlotStart(h, q);
    var x := 0x1000 * n + ChildSize(h) - 1;
    match h {
      case 0 => DivModUnique(x, 0x1000, q + 1, 0x1000 * r + 0xFFF);
      case 1 => DivModUnique(x, 0x20_0000, q + 1, 0x1000 * r + 0xFFF);
      case 2 => DivModUnique(x, 0x4000_0000, q + 1, 0x1000 * r + 0xFFF);
      case 3 => DivModUnique(x, 0x80_0000_0000, q + 1, 0x1000 * r + 0xFFF);
    }
    DivModUnique(x, TWO_64, 0, x);
  }

  lemma NegativeIndex(h: Height, d: nat)
    requires h < 3 && 0 < d < 0x8000_0000
    ensures ToInt32((TWO_64 - 0x1000 * d) / ChildSize(h)) < 0
  {
    var k := SlotsFor(h, d);
    SlotOfPage(h, d - 1);
    SlotSteps(h, k - 1);
    var e := SlotStart(h, k) - d;
    match h {
      case 0 =>
        DivModUnique(TWO_64 - 0x1000 * d, 0x1000, 0x10_0000_0000_0000 - k, 0x1000 * e);
        ToInt32Negative(0x10_0000_0000_0000 - k, 0x10_0000, k);
      case 1 =>
        DivModUnique(TWO_64 - 0x1000 * d, 0x20_0000, 0x800_0000_0000 - k, 0x1000 * e);
        ToInt32Negative(0x800_0000_0000 - k, 0x800, k);
      case 2 =>
        DivModUnique(TWO_64 - 0x1000 * d, 0x4000_0000, 0x4_0000_0000 - k, 0x1000 * e);
        ToInt32Negative(0x4_0000_0000 - k, 4, k);
    }
  }

  lemma IndexStartValue(h: Height, first: nat, count: nat, b: nat)
    requires Meets(h, first, count, b)
    ensures b <= first ==> RawIndexStart(h, 0x1000 * first, 0x1000 * b) == SlotIndex(h, first - b) < 512
    ensures first < b ==> RawIndexStart(h, 0x1000 * first, 0x1000 * b) < 0
  {
    hide ToInt32, WrapSub, SlotIndex;
    WrapSubPages(first, b);
    if b <= first {
      DividePages(h, first - b);
      SlotOfPage(h, first - b);
      ToInt32Small(SlotIndex(h, first - b));
    } else {
      NegativeIndex(h, b - first);
    }
  }

  lemma IndexEndValue(h: Height, first: nat, count: nat, b: nat)
    requires Meets(h, first, count, b)
    ensures RawIndexEnd(h, 0x1000 * first, 0x1000 * count, 0x1000 * b) == SlotsFor(h, first + count - b)
  {
    hide ToInt32, WrapSub, SlotIndex, DivRoundUp;
    var n := first + count - b;
    WrapSubPages(first + count, b);
    DivideRoundingUp(h, n);
    if h == 0 {
      EndInTable(first, count, b);
    }
    SlotsBound(h, n);
    ToInt32Small(SlotsFor(h, n));
  }

  lemma SlotsBound(h: Height, n: nat)
    requires 0 < n < 0x8000_0000 + SlotStart(h, 512) && (h == 0 ==> n < 0x8000_0000)
    ensures SlotsFor(h, n) < 0x8000_0000
  {
  }

  /** In a page table the range ends less than 2^31 pages from the start of the table. */
  lemma EndInTable(first: nat, count: nat, b: nat)
    requires Meets(0, first, count, b)
    ensures first + count - b < 0x8000_0000
  {
    var q, r := Divide(first, 0x200);
    var k, _ := Divide(b, 0x200);
    assert k >= q;
  }

  /** The bounds of the loops over a table's entries, as the source clamps them. */
  function IndexStart(h: Height, startLin: u64, base: u64): nat {
    var i := RawIndexStart(h, startLin, base);
    if i < 0 then 0 else i
  }

  function IndexEnd(h: Height, startLin: u64, length: u64, base: u64): int {
    var i := RawIndexEnd(h, startLin, length, base);
    if i > 512 then 512 else i
  }

  /** The loops visit exactly the entries whose span meets the range. */
  lemma IndicesExact(h: Height, first: nat, count: nat, b: nat, i: nat)
    requires Meets(h, first, count, b) && i < 512
    ensures IndexStart(h, 0x1000 * first, 0x1000 * b) < IndexEnd(h, 0x1000 * first, 0x1000 * count, 0x1000 * b) <= 512
    ensures IndexStart(h, 0x1000 * first, 0x1000 * b) <= i < IndexEnd(h, 0x1000 * first, 0x1000 * count, 0x1000 * b)
       <==> !Misses(h, first - b - SlotStart(h, i), first + count - b - SlotStart(h, i))
  {
    hide RawIndexStart, RawIndexEnd;
    IndexStartValue(h, first, count, b);
    IndexEndValue(h, first, count, b);
    SlotsExact(h, first - b, first + count - b, i);
  }

  lemma SlotsExact(h: Height, lo: int, hi: int, i: nat)
    requires lo < hi && 0 < hi && lo < SlotStart(h, 512) && i < 512
    ensures (if lo < 0 then 0 else SlotIndex(h, lo)) <= i < SlotsFor(h, hi)
       <==> !Misses(h, lo - SlotStart(h, i), hi - SlotStart(h, i))
    ensures (if lo < 0 then 0 else SlotIndex(h, lo)) < SlotsFor(h, hi)
    ensures lo >= 0 ==> SlotIndex(h, lo) < 512
  {
  }

  /** The source's test that an entry's span lies inside the range, at the heights where an entry may map a page. */
  predicate WholeEntry(h: Height, startLin: u64, length: u64, base: u64, i: nat) {
    var startMod := if RawIndexStart(h, startLin, base) < 0 then 0 else RawStartMod(h, startLin, base);
    var endMod := if RawIndexEnd(h, startLin, length, base) > 512 then 0 else RawEndMod(h, startLin, length, base);
    (i != IndexStart(h, startLin, base) || startMod == 0)
    && (i != IndexEnd(h, startLin, length, base) - 1 || endMod == 0)
  }

  lemma WholeEntryExact(h: Height, first: nat, count: nat, b: nat, i: nat)
    requires h <= 2 && Meets(h, first, count, b) && i < 512
    requires IndexStart(h, 0x1000 * first, 0x1000 * b) <= i < IndexEnd(h, 0x1000 * first, 0x1000 * count, 0x1000 * b)
    ensures WholeEntry(h, 0x1000 * first, 0x1000 * count, 0x1000 * b, i)
       <==> Covers(h, first - b - SlotStart(h, i), first + count - b - SlotStart(h, i))
  {
    hide RawIndexStart, RawIndexEnd, RawStartMod, RawEndMod, SlotIndex;
    var n := first + count - b;
    IndexStartValue(h, first, count, b);
    IndexEndValue(h, first, count, b);
    ModValues(h, first, count, b);
    SlotOfPage(h, n - 1);
    SlotOfPage(h, n);
    if b <= first {
      SlotOfPage(h, first - b);
    }
  }

  /** At these heights the truncation of the remainders is harmless. */
  lemma ModValues(h: Height, first: nat, count: nat, b: nat)
    requires h <= 2 && Meets(h, first, count, b)
    ensures b <= first ==>
      RawStartMod(h, 0x1000 * first, 0x1000 * b) == 0x1000 * (first - b - SlotStart(h, SlotIndex(h, first - b)))
    ensures var n := first + count - b;
      RawEndMod(h, 0x1000 * first, 0x1000 * count, 0x1000 * b) == 0x1000 * (n - SlotStart(h, SlotIndex(h, n)))
  {
    hide ToInt32, WrapSub, SlotIndex;
    var n := first + count - b;
    WrapSubPages(first, b);
    WrapSubPages(first + count, b);
    DividePages(h, n);
    SlotOfPage(h, n);
    ToInt32Small(0x1000 * (n - SlotStart(h, SlotIndex(h, n))));
    if b <= first {
      DividePages(h, first - b);
      SlotOfPage(h, first - b);
      ToInt32Small(0x1000 * (first - b - SlotStart(h, SlotIndex(h, first - b))));
    }
  }

  /** The loop over a table's entries visits exactly those whose span meets the range. */
  predicate IndicesRight(h: Height, first: nat, count: nat, b: nat)
    requires first + count <= 0x10_0000_0000 && b < 0x10_0000_0000
  {
    var start := IndexStart(h, 0x1000 * first, 0x1000 * b);
    var end := IndexEnd(h, 0x1000 * first, 0x1000 * count, 0x1000 * b);
    var lo, hi := first - b, first + count - b;
    forall i: nat :: i < 512 ==> (start <= i < end <==> !Misses(h, lo - SlotStart(h, i), hi - SlotStart(h, i)))
  }

  /** A range that is too long goes wrong in the first page table it meets that lies 2^31 pages before its end. */
  lemma TruncationFails(first: nat, count: nat) returns (b: nat)
    requires 0 < count && first + count <= 0x10_0000_0000 && !Indexable(first, count)
    ensures TableMet(0, first, count, b) && !IndicesRight(0, first, count, b)
  {
    hide IndexStart, IndexEnd;
    var i;
    b, i := FarTable(first, count);
    TooLowEnd(first, count, b);
    assert !Misses(0, first - b - SlotStart(0, i), first + count - b - SlotStart(0, i));
  }

  /** The page table, and an entry of it that the range meets. */
  lemma FarTable(first: nat, count: nat) returns (b: nat, i: nat)
    requires 0 < count && first + count <= 0x10_0000_0000 && !Indexable(first, count)
    ensures TableMet(0, first, count, b) && 0x8000_0000 <= first + count - b < 0x8000_0000 + 0x200
    ensures i < 512 && first <= b + i < first + count
  {
    var q, r := Divide(first, 0x200);
    var m, _ := Divide(r + count - 0x8000_0000, 0x200);
    b := 0x200 * (q + m);
    DivModUnique(b, 0x200, q + m, 0);
    i := if first <= b then 0 else r;
  }

  lemma TooLowEnd(first: nat, count: nat, b: nat)
    requires first + count <= 0x10_0000_0000 && 0x8000_0000 <= first + count - b < 0x8000_0000 + 0x200
    ensures IndexEnd(0, 0x1000 * first, 0x1000 * count, 0x1000 * b) <= 0
  {
    var n := first + count - b;
    WrapSubPages(first + count, b);
    DivideRoundingUp(0, n);
    DivModUnique(n, 0x1_0000_0000, 0, n);
  }

  /** The indices are right in every table a range meets exactly when the range can be indexed. */
  lemma TruncationExact(first: nat, count: nat)
    requires 0 < count && first + count <= 0x10_0000_0000
    ensures Indexable(first, count)
       <==> forall h: Height, b: nat :: TableMet(h, first, count, b) ==> IndicesRight(h, first, count, b)
  {
    hide IndexStart, IndexEnd, Misses;
    if Indexable(first, count) {
      forall h: Height, b: nat | TableMet(h, first, count, b)
        ensures IndicesRight(h, first, count, b)
      {
        forall i: nat | i < 512
          ensures IndexStart(h, 0x1000 * first, 0x1000 * b) <= i
                    < IndexEnd(h, 0x1000 * first, 0x1000 * count, 0x1000 * b)
             <==> !Misses(h, first - b - SlotStart(h, i), first + count - b - SlotStart(h, i))
        {
          IndicesExact(h, first, count, b, i);
        }
      }
    } else {
      var b := TruncationFails(first, count);
    }
  }
}
