/** How many tables a tree has, and how many mapping a range of at most 2 MB can add. */
module TableCount {
  import opened Words
  import opened Pte
  import opened PageTree

  /** Tables that mapping 2 MB can add: two on each level, and one if the 2 MB are aligned. */
  const RANGE_TABLES: nat := 6
  const ALIGNED_TABLES: nat := 3

  function Tables(t: Table): nat {
    1 + TablesBelow(t.slots, |t.slots|)
  }

  /** Tables reached from the first n slots. */
  function TablesBelow(slots: seq<Slot>, n: nat): nat
    requires n <= |slots|
    decreases slots, n
  {
    if n == 0 then 0 else TablesBelow(slots, n - 1) + SlotTables(slots[n - 1])
  }

  function SlotTables(s: Slot): nat {
    match s
    case Empty => 0
    case Leaf(_) => 0
    case Node(_, c) => Tables(c)
  }

  lemma {:induction false} TwoSlotsChanged(s: seq<Slot>, s': seq<Slot>, i: nat, n: nat)
    requires |s| == |s'| && n <= |s| && i + 1 < |s|
    requires forall k :: 0 <= k < |s| && k != i && k != i + 1 ==> s'[k] == s[k]
    ensures TablesBelow(s', n) - TablesBelow(s, n)
         == (if i < n then SlotTables(s'[i]) - SlotTables(s[i]) else 0)
          + (if i + 1 < n then SlotTables(s'[i + 1]) - SlotTables(s[i + 1]) else 0)
  {
    if n == 0 {
    } else {
      TwoSlotsChanged(s, s', i, n - 1);
    }
  }

  /** The part of lo..hi that the table spans lies in one block of 512 pages, starting at page b. */
  predicate InBlock(h: Height, b: int, lo: int, hi: int) {
    && b % 0x200 == 0
    && (0 < hi && lo < SlotStart(h, 512) ==>
         && (b <= lo || b <= 0)
         && (hi <= b + 0x200 || SlotStart(h, 512) <= b + 0x200))
  }

  /** A range inside one block meets the span of one slot only. */
  lemma BlockInSlot(h: Height, b: nat, lo: int, hi: int, k: nat)
    requires h > 0 && InBlock(h, b, lo, hi) && lo < hi && b < SlotStart(h, 512) && k < 512
    ensures SlotIndex(h, b) < 512
    ensures k != SlotIndex(h, b) ==> Misses(h, lo - SlotStart(h, k), hi - SlotStart(h, k))
  {
    hide SlotIndex, SlotStart;
    SlotOfPage(h, b);
    BlockEnd(h, b);
    SlotOrder(h, k, 511);
    SlotSteps(h, 511);
    var i := SlotIndex(h, b);
    if k < i {
      SlotOrder(h, k, i);
    } else if i < k {
      SlotOrder(h, i, k);
    }
  }

  /** A block does not cross the end of a slot's span. */
  lemma BlockEnd(h: Height, b: nat)
    requires h > 0 && b % 0x200 == 0
    ensures b + 0x200 <= SlotStart(h, SlotIndex(h, b)) + Pages(h)
  {
    var c, zero := Divide(b, 0x200);
    match h {
      case 1 =>
      case 2 =>
        var q, r := Divide(c, 0x200);
        DivModUnique(b, 0x4_0000, q, 0x200 * r);
      case 3 =>
        var q, r := Divide(c, 0x4_0000);
        DivModUnique(b, 0x800_0000, q, 0x200 * r);
    }
  }

  lemma BlockBelow(h: Height, b: int, lo: int, hi: int, i: nat)
    requires h > 0 && InBlock(h, b, lo, hi) && i < 512
    ensures InBlock(h - 1, b - SlotStart(h, i), lo - SlotStart(h, i), hi - SlotStart(h, i))
  {
    hide SlotStart;
    SlotSteps(h, 0);
    SlotSteps(h, i);
    SlotOrder(h, 0, i);
    SlotOrder(h, i, 511);
    SlotSteps(h, 511);
    SpansWholeBlocks(h, i, b);
  }

  /** The spans of the slots of a higher table are whole 2 MB blocks. */
  lemma SpansWholeBlocks(h: Height, i: nat, b: int)
    requires h > 0 && b % 0x200 == 0
    ensures (b - SlotStart(h, i)) % 0x200 == 0
  {
    var k := match h case 1 => i case 2 => 0x200 * i case 3 => 0x4_0000 * i;
    var c := b / 0x200;
    assert b == 0x200 * c && SlotStart(h, i) == 0x200 * k;
    assert b - SlotStart(h, i) == 0x200 * (c - k);
  }

  /** Mapping inside one 2 MB block adds at most one table a level. */
  lemma {:induction false} BlockTables(h: Height, t: Table, t': Table, b: nat, lo: int, hi: int, phy: int, prefs: u64)
    requires WellFormed(h, t) && Mapped(h, t, t', lo, hi, phy, prefs) && lo < hi
    requires InBlock(h, b, lo, hi) && b < SlotStart(h, 512)
    ensures Tables(t') <= Tables(t) + h
    decreases h, 1
  {
    hide InBlock, SlotWellFormed, SlotMapped, SlotStart, SlotIndex, Misses;
    if h == 0 {
      PageTableTables(t, t', lo, hi, phy, prefs);
    } else {
      BlockInSlot(h, b, lo, hi, 0);
      var i := SlotIndex(h, b);
      forall k | 0 <= k < 512 && k != i
        ensures t'.slots[k] == t.slots[k]
      {
        BlockInSlot(h, b, lo, hi, k);
        MissedSlot(h, t.slots[k], t'.slots[k], lo - SlotStart(h, k), hi - SlotStart(h, k), phy, prefs);
      }
      SlotOfPage(h, b);
      BlockBelow(h, b, lo, hi, i);
      SlotBlockTables(h, t.slots[i], t'.slots[i], b - SlotStart(h, i), lo - SlotStart(h, i), hi - SlotStart(h, i),
          phy, prefs);
      OneSlotChanged(t.slots, t'.slots, i);
    }
  }

  lemma MissedSlot(h: Height, s: Slot, s': Slot, lo: int, hi: int, phy: int, prefs: u64)
    requires SlotMapped(h, s, s', lo, hi, phy, prefs) && Misses(h, lo, hi)
    ensures s' == s
  {
  }

  lemma OneSlotChanged(s: seq<Slot>, s': seq<Slot>, i: nat)
    requires |s| == |s'| == 512 && i < 512
    requires forall k :: 0 <= k < 512 && k != i ==> s'[k] == s[k]
    ensures TablesBelow(s', 512) - TablesBelow(s, 512) == SlotTables(s'[i]) - SlotTables(s[i])
  {
    hide TablesBelow, SlotTables;
    if i < 511 {
      TwoSlotsChanged(s, s', i, 512);
    } else {
      TwoSlotsChanged(s, s', i - 1, 512);
    }
  }

  lemma PageTableTables(t: Table, t': Table, lo: int, hi: int, phy: int, prefs: u64)
    requires WellFormed(0, t) && Mapped(0, t, t', lo, hi, phy, prefs)
    ensures Tables(t') == Tables(t)
  {
    NoNodes(t.slots, 512);
    assert forall k :: 0 <= k < 512 ==> SlotMapped(0, t.slots[k], t'.slots[k], lo - k, hi - k, phy, prefs);
    NoNodes(t'.slots, 512);
  }

  lemma {:induction false} NoNodes(s: seq<Slot>, n: nat)
    requires n <= |s| && forall k :: 0 <= k < n ==> !s[k].Node?
    ensures TablesBelow(s, n) == 0
  {
    if n == 0 {
    } else {
      NoNodes(s, n - 1);
    }
  }

  lemma {:induction false} SlotBlockTables(h: Height, s: Slot, s': Slot, b: nat, lo: int, hi: int, phy: int, prefs: u64)
    requires h > 0 && SlotWellFormed(h, s) && SlotMapped(h, s, s', lo, hi, phy, prefs) && lo < hi
    requires InBlock(h - 1, b, lo, hi) && b < Pages(h)
    ensures SlotTables(s') <= SlotTables(s) + h
    decreases h, 0
  {
    hide InBlock, NewTableEntry, TableWord, LeafWord;
    if !Misses(h, lo, hi) {
      SlotSteps(h, 0);
      var c := if s.Empty? then Blank(s'.table.pa) else s.table;
      if s.Empty? {
        BlankWellFormed(h - 1, s'.table.pa);
        NoNodes(c.slots, 512);
      }
      BlockTables(h - 1, c, s'.table, b, lo, hi, phy, prefs);
    }
  }

  /** Mapping any range of at most 2 MB adds at most two tables a level: six in the whole tree. */
  lemma {:induction false} RangeTables(h: Height, t: Table, t': Table, lo: nat, hi: nat, phy: int, prefs: u64)
    requires WellFormed(h, t) && Mapped(h, t, t', lo, hi, phy, prefs)
    requires lo < hi <= lo + 0x200 && hi <= SlotStart(h, 512)
    ensures Tables(t') <= Tables(t) + 2 * h
    decreases h
  {
    hide InBlock, SlotWellFormed, SlotMapped, SlotStart, SlotIndex, Misses;
    if h == 0 {
      PageTableTables(t, t', lo, hi, phy, prefs);
    } else {
      SlotOfPage(h, lo);
      var i := SlotIndex(h, lo);
      SlotOrder(h, i, 512);
      var a := SlotStart(h, i);
      if hi <= a + Pages(h) {
        forall k | 0 <= k < 512 && k != i
          ensures t'.slots[k] == t.slots[k]
        {
          OtherSlot(h, lo, hi, i, i, k);
          MissedSlot(h, t.slots[k], t'.slots[k], lo - SlotStart(h, k), hi - SlotStart(h, k), phy, prefs);
        }
        SlotRangeTables(h, t.slots[i], t'.slots[i], lo - a, hi - a, phy, prefs);
        OneSlotChanged(t.slots, t'.slots, i);
      } else {
        TwoSlotTables(h, t, t', lo, hi, phy, prefs, i);
      }
    }
  }

  lemma OtherSlot(h: Height, lo: int, hi: int, first: nat, last: nat, k: nat)
    requires SlotStart(h, first) <= lo && hi <= SlotStart(h, last) + Pages(h) && (k < first || last < k)
    ensures Misses(h, lo - SlotStart(h, k), hi - SlotStart(h, k))
  {
    if k < first {
      SlotOrder(h, k, first);
    } else {
      SlotOrder(h, last, k);
    }
  }

  lemma {:induction false} SlotRangeTables(h: Height, s: Slot, s': Slot, lo: nat, hi: nat, phy: int, prefs: u64)
    requires h > 0 && SlotWellFormed(h, s) && SlotMapped(h, s, s', lo, hi, phy, prefs)
    requires lo < hi <= lo + 0x200 && hi <= Pages(h)
    ensures SlotTables(s') <= SlotTables(s) + 2 * h - 1
    decreases h, 0
  {
    hide NewTableEntry, TableWord, LeafWord;
    SlotSteps(h, 0);
    var c := if s.Empty? then Blank(s'.table.pa) else s.table;
    if s.Empty? {
      BlankWellFormed(h - 1, s'.table.pa);
      NoNodes(c.slots, 512);
    }
    RangeTables(h - 1, c, s'.table, lo, hi, phy, prefs);
  }

  /** A range that crosses from slot i into slot i + 1: a tail of the first, a head of the second. */
  lemma TwoSlotTables(h: Height, t: Table, t': Table, lo: nat, hi: nat, phy: int, prefs: u64, i: nat)
    requires h > 0 && WellFormed(h, t) && Mapped(h, t, t', lo, hi, phy, prefs)
    requires lo < hi <= lo + 0x200 && hi <= SlotStart(h, 512)
    requires i < 512 && SlotStart(h, i) <= lo < SlotStart(h, i) + Pages(h) < hi
    ensures Tables(t') <= Tables(t) + 2 * h
  {
    hide SlotWellFormed, SlotMapped, SlotIndex, Misses;
    SlotSteps(h, i);
    var a, b := SlotStart(h, i), SlotStart(h, i + 1);
    assert i < 511;
    forall k | 0 <= k < 512 && k != i && k != i + 1
      ensures t'.slots[k] == t.slots[k]
    {
      OtherSlot(h, lo, hi, i, i + 1, k);
      MissedSlot(h, t.slots[k], t'.slots[k], lo - SlotStart(h, k), hi - SlotStart(h, k), phy, prefs);
    }
    SlotBlockTables(h, t.slots[i], t'.slots[i], Pages(h) - 0x200, lo - a, hi - a, phy, prefs);
    SlotBlockTables(h, t.slots[i + 1], t'.slots[i + 1], 0, lo - b, hi - b, phy, prefs);
    TwoSlotsChanged(t.slots, t'.slots, i, 512);
  }

  /** The bounds for the whole tree: six tables for at most 2 MB anywhere, three inside an aligned 2 MB block. */
  lemma RenewalTables(t: Table, t': Table, lo: nat, hi: nat, phy: int, prefs: u64)
    requires WellFormed(3, t) && Mapped(3, t, t', lo, hi, phy, prefs) && lo < hi <= SlotStart(3, 512)
    ensures hi <= lo + 0x200 ==> Tables(t') <= Tables(t) + RANGE_TABLES
    ensures lo % 0x200 + (hi - lo) <= 0x200 ==> Tables(t') <= Tables(t) + ALIGNED_TABLES
  {
    hide WellFormed, Mapped, Tables;
    if hi <= lo + 0x200 {
      RangeTables(3, t, t', lo, hi, phy, prefs);
    }
    var q, r := Divide(lo, 0x200);
    if r + (hi - lo) <= 0x200 {
      DivModUnique(0x200 * q, 0x200, q, 0);
      BlockTables(3, t, t', 0x200 * q, lo, hi, phy, prefs);
    }
  }

  // The most tables a tree can have.

  function MaxTables(h: Height): nat {
    match h
    case 0 => 1
    case 1 => 0x201
    case 2 => 0x4_0201
    case 3 => 0x804_0201
  }

  lemma {:induction false} SumBound(slots: seq<Slot>, n: nat, most: nat, i: nat)
    requires n <= |slots| && forall k :: 0 <= k < n ==> SlotTables(slots[k]) <= most
    ensures TablesBelow(slots, n) <= most * n
    ensures i < n ==> TablesBelow(slots, n) - SlotTables(slots[i]) <= most * (n - 1)
    decreases n
  {
    if n == 0 {
    } else {
      SumBound(slots, n - 1, most, i);
      assert most * n == most * (n - 1) + most;
      if n > 1 {
        assert most * (n - 1) == most * (n - 2) + most;
      }
    }
  }

  lemma {:induction false} TablesBound(h: Height, t: Table)
    requires WellFormed(h, t)
    ensures Tables(t) <= MaxTables(h)
    decreases h
  {
    if h == 0 {
      NoNodes(t.slots, 512);
    } else {
      SlotsBound(h, t);
      SumBound(t.slots, 512, MaxTables(h - 1), 0);
    }
  }

  lemma SlotsBound(h: Height, t: Table)
    requires h > 0 && WellFormed(h, t)
    ensures forall k :: 0 <= k < 512 ==> SlotTables(t.slots[k]) <= MaxTables(h - 1)
    decreases h, 0
  {
    forall k | 0 <= k < 512
      ensures SlotTables(t.slots[k]) <= MaxTables(h - 1)
    {
      assert SlotWellFormed(h, t.slots[k]);
      if t.slots[k].Node? {
        TablesBound(h - 1, t.slots[k].table);
      }
    }
  }

  /** Whatever the other entries have below them, one entry more finds room. */
  lemma TablesBoundBut(h: Height, t: Table, i: nat)
    requires h > 0 && WellFormed(h, t) && i < 512
    ensures Tables(t) - SlotTables(t.slots[i]) + MaxTables(h - 1) <= MaxTables(h)
  {
    hide SlotTables, TablesBelow, WellFormed;
    SlotsOf(h, t);
    SlotsBound(h, t);
    SumBound(t.slots, 512, MaxTables(h - 1), i);
  }

  lemma SlotsOf(h: Height, t: Table)
    requires WellFormed(h, t)
    ensures |t.slots| == 512
  {
  }

  // Which tables a tree has.

  /** The tree has a table at this physical address. */
  ghost predicate HasTable(t: Table, pa: nat) {
    t.pa == pa || exists i :: 0 <= i < |t.slots| && t.slots[i].Node? && HasTable(t.slots[i].table, pa)
  }

  /** No entry maps a large page of which lo..hi is only a part. */
  ghost predicate WholePages(h: Height, t: Table, lo: int, hi: int)
    decreases h, 1
  {
    |t.slots| == 512 && forall i :: 0 <= i < 512 ==>
      SlotWhole(h, t.slots[i], lo - SlotStart(h, i), hi - SlotStart(h, i))
  }

  ghost predicate SlotWhole(h: Height, s: Slot, lo: int, hi: int)
    decreases h, 0
  {
    Misses(h, lo, hi) ||
    match s
    case Empty => true
    case Leaf(_) => Covers(h, lo, hi)
    case Node(_, c) => h > 0 && WholePages(h - 1, c, lo, hi)
  }

  /** A range that was just mapped is mapped by small pages. */
  lemma {:induction false} MappedWhole(h: Height, t: Table, t': Table, lo: int, hi: int, phy: int, prefs: u64)
    requires Mapped(h, t, t', lo, hi, phy, prefs)
    ensures WholePages(h, t', lo, hi)
    decreases h, 1
  {
    hide SlotWhole, SlotMapped, SlotStart;
    forall i | 0 <= i < 512
      ensures SlotWhole(h, t'.slots[i], lo - SlotStart(h, i), hi - SlotStart(h, i))
    {
      SlotMappedWhole(h, t.slots[i], t'.slots[i], lo - SlotStart(h, i), hi - SlotStart(h, i), phy, prefs);
    }
  }

  lemma {:induction false} SlotMappedWhole(h: Height, s: Slot, s': Slot, lo: int, hi: int, phy: int, prefs: u64)
    requires SlotMapped(h, s, s', lo, hi, phy, prefs)
    ensures SlotWhole(h, s', lo, hi)
    decreases h, 0
  {
    hide NewTableEntry, Blank, WholePages, Mapped;
    if !Misses(h, lo, hi) && h > 0 {
      MappedWhole(h - 1, if s.Empty? then Blank(s'.table.pa) else s.table, s'.table, lo, hi, phy, prefs);
    }
  }
}
