/** The page tree as a value: what it translates, and what mapping and unmapping a range do to it.
    Ranges and positions are counted in 4 KB pages, relative to the first page the table in question spans. */
module PageTree {
  import opened Common
  import opened Words
  import opened Pte

  datatype Slot = Empty | Leaf(word: nat) | Node(word: nat, table: Table)

  /** A table at physical address pa. */
  datatype Table = Table(pa: nat, slots: seq<Slot>)

  /** What one page translates to: the address of its frame and the attributes of the entry that maps it. */
  datatype Mapping = Mapping(frame: nat, attributes: Attributes)

  /** Height 0 is a page table, height 3 the PML4. */
  type Height = h: nat | h <= 3

  /** Pages spanned by one entry. */
  function Pages(h: Height): (n: nat)
    ensures n >= 1
  {
    match h
    case 0 => 1
    case 1 => 0x200
    case 2 => 0x4_0000
    case 3 => 0x800_0000
  }

  /** First page spanned by entry i. */
  function SlotStart(h: Height, i: nat): nat {
    match h
    case 0 => i
    case 1 => 0x200 * i
    case 2 => 0x4_0000 * i
    case 3 => 0x800_0000 * i
  }

  /** The entry that spans page q. */
  function SlotIndex(h: Height, q: nat): nat {
    match h
    case 0 => q
    case 1 => q / 0x200
    case 2 => q / 0x4_0000
    case 3 => q / 0x800_0000
  }

  lemma SlotOfPage(h: Height, q: nat)
    ensures SlotStart(h, SlotIndex(h, q)) <= q < SlotStart(h, SlotIndex(h, q)) + Pages(h)
    ensures q < SlotStart(h, 512) ==> SlotIndex(h, q) < 512
  {
  }

  lemma SlotSteps(h: Height, i: nat)
    ensures SlotStart(h, i + 1) == SlotStart(h, i) + Pages(h)
    ensures SlotStart(h, 0) == 0
    ensures h > 0 ==> Pages(h) == SlotStart(h - 1, 512)
  {
  }

  lemma SlotOrder(h: Height, i: nat, j: nat)
    requires i <= j
    ensures SlotStart(h, i) <= SlotStart(h, j)
    ensures i < j ==> SlotStart(h, i) + Pages(h) <= SlotStart(h, j)
  {
  }

  // Well-formedness and translation.

  ghost predicate WellFormed(h: Height, t: Table)
    decreases h, 1
  {
    |t.slots| == 512 && FrameAddress(t.pa) && forall i :: 0 <= i < 512 ==> SlotWellFormed(h, t.slots[i])
  }

  ghost predicate SlotWellFormed(h: Height, s: Slot)
    decreases h, 0
  {
    match s
    case Empty => true
    case Leaf(w) => w < TWO_64 && LeafWord(h, w)
    case Node(w, c) => w < TWO_64 && h > 0 && TableWord(w, c.pa) && WellFormed(h - 1, c)
  }

  function Lookup(h: Height, t: Table, q: nat): Option<Mapping>
    requires |t.slots| == 512
    decreases h, 1
  {
    SlotOfPage(h, q);
    var i := SlotIndex(h, q);
    if i < 512 then LookupSlot(h, t.slots[i], q - SlotStart(h, i)) else None
  }

  function LookupSlot(h: Height, s: Slot, r: nat): Option<Mapping>
    decreases h, 0
  {
    match s
    case Empty => None
    case Leaf(w) => Some(Mapping(LeafBase(h, w) + 0x1000 * r, LeafAttributes(h, w)))
    case Node(w, c) => if h > 0 && |c.slots| == 512 then Lookup(h - 1, c, r) else None
  }

  lemma LookupAt(h: Height, t: Table, i: nat, r: nat)
    requires |t.slots| == 512 && i < 512 && r < Pages(h)
    ensures Lookup(h, t, SlotStart(h, i) + r) == LookupSlot(h, t.slots[i], r)
  {
    SlotOfPage(h, SlotStart(h, i) + r);
    assert SlotIndex(h, SlotStart(h, i) + r) == i;
  }

  /** The rights on the way to page q: those that every entry met there gives, up to the one that maps the page or is
      absent. */
  function Path(h: Height, t: Table, q: nat): Rights
    requires |t.slots| == 512
    decreases h, 1
  {
    SlotOfPage(h, q);
    var i := SlotIndex(h, q);
    if i < 512 then PathSlot(h, t.slots[i], q - SlotStart(h, i)) else ALL_RIGHTS
  }

  function PathSlot(h: Height, s: Slot, r: nat): Rights
    decreases h, 0
  {
    match s
    case Empty => ALL_RIGHTS
    case Leaf(w) => EntryRights(w)
    case Node(w, c) => Meet(EntryRights(w), if h > 0 && |c.slots| == 512 then Path(h - 1, c, r) else ALL_RIGHTS)
  }

  /** The way to page q ends at an absent entry of a table that maps no 4 KB pages itself. */
  predicate LacksTable(h: Height, t: Table, q: nat)
    requires |t.slots| == 512
    decreases h, 1
  {
    SlotOfPage(h, q);
    var i := SlotIndex(h, q);
    i < 512 && SlotLacksTable(h, t.slots[i], q - SlotStart(h, i))
  }

  predicate SlotLacksTable(h: Height, s: Slot, r: nat)
    decreases h, 0
  {
    match s
    case Empty => h > 0
    case Leaf(w) => false
    case Node(w, c) => h > 0 && |c.slots| == 512 && LacksTable(h - 1, c, r)
  }

  function Blank(pa: nat): (t: Table)
    ensures |t.slots| == 512
  {
    Table(pa, seq(512, _ => Empty))
  }

  predicate IsBlank(t: Table) {
    forall i :: 0 <= i < |t.slots| ==> t.slots[i].Empty?
  }

  // Mapping a range: what `pagein` makes of a table.

  /** The slot spans no page of the range. */
  predicate Misses(h: Height, lo: int, hi: int) {
    hi <= 0 || Pages(h) <= lo
  }

  ghost predicate Mapped(h: Height, t: Table, t': Table, lo: int, hi: int, phy: int, prefs: u64)
    decreases h, 1
  {
    && t'.pa == t.pa && |t.slots| == |t'.slots| == 512
    && forall i :: 0 <= i < 512 ==>
         SlotMapped(h, t.slots[i], t'.slots[i], lo - SlotStart(h, i), hi - SlotStart(h, i), phy, prefs)
  }

  /** Pages lo..hi of the slot's span are mapped to consecutive frames, page lo to the one at phy. */
  ghost predicate SlotMapped(h: Height, s: Slot, s': Slot, lo: int, hi: int, phy: int, prefs: u64)
    decreases h, 0
  {
    if Misses(h, lo, hi) then s' == s
    else if h == 0 then
      var frame := phy - 0x1000 * lo;
      s.Empty? && frame >= 0 && s' == Leaf(NewLeafEntry(frame, prefs))
    else match s
      case Leaf(_) => false
      case Empty =>
        && s'.Node? && FrameAddress(s'.table.pa) && s'.word == NewTableEntry(s'.table.pa)
        && Mapped(h - 1, Blank(s'.table.pa), s'.table, lo, hi, phy, prefs)
      case Node(w, c) =>
        s'.Node? && s'.word == w && Mapped(h - 1, c, s'.table, lo, hi, phy, prefs)
  }

  /** The physical range that pages lo..hi are mapped to is made of whole frames the entries can hold. */
  predicate FrameRange(lo: int, hi: int, phy: int) {
    phy >= 0 && phy % 0x1000 == 0 && phy + 0x1000 * (hi - lo) <= 0x10_0000_0000_0000
  }

  lemma {:induction false} MappedWellFormed(h: Height, t: Table, t': Table, lo: int, hi: int, phy: int, prefs: u64)
    requires WellFormed(h, t) && Mapped(h, t, t', lo, hi, phy, prefs)
    requires Preferences(prefs) && FrameRange(lo, hi, phy)
    ensures WellFormed(h, t')
    decreases h, 1
  {
    hide SlotWellFormed, SlotMapped, SlotStart;
    forall i | 0 <= i < 512
      ensures SlotWellFormed(h, t'.slots[i])
    {
      SlotMappedWellFormed(h, t.slots[i], t'.slots[i], lo - SlotStart(h, i), hi - SlotStart(h, i), phy, prefs);
    }
  }

  lemma {:induction false} SlotMappedWellFormed(h: Height, s: Slot, s': Slot, lo: int, hi: int, phy: int, prefs: u64)
    requires SlotWellFormed(h, s) && SlotMapped(h, s, s', lo, hi, phy, prefs)
    requires Preferences(prefs) && FrameRange(lo, hi, phy)
    ensures SlotWellFormed(h, s')
    decreases h, 0
  {
    hide LeafWord, TableWord, NewLeafEntry, NewTableEntry, Preferences, LeafBase, LeafAttributes, PreferenceAttributes;
    if Misses(h, lo, hi) {
    } else if h == 0 {
      NewLeafEntryMeaning(phy - 0x1000 * lo, prefs);
    } else if s.Empty? {
      NewTableEntryMeaning(s'.table.pa);
      MappedWellFormed(h - 1, Blank(s'.table.pa), s'.table, lo, hi, phy, prefs);
    } else {
      MappedWellFormed(h - 1, s.table, s'.table, lo, hi, phy, prefs);
    }
  }

  /** What a page translates to after pages lo..hi have been mapped to the frames from phy on. */
  function AfterMap(before: Option<Mapping>, q: int, lo: int, hi: int, phy: int, prefs: u64): Option<Mapping>
    requires FrameRange(lo, hi, phy)
  {
    if lo <= q < hi then Some(Mapping(phy + 0x1000 * (q - lo), PreferenceAttributes(prefs))) else before
  }

  /** Mapping a range translates each of its pages to its own frame and no other page differently. */
  lemma {:induction false} MappedLookup(h: Height, t: Table, t': Table, lo: int, hi: int, phy: int, prefs: u64, q: nat)
    requires WellFormed(h, t) && Mapped(h, t, t', lo, hi, phy, prefs)
    requires Preferences(prefs) && FrameRange(lo, hi, phy) && q < SlotStart(h, 512)
    ensures Lookup(h, t', q) == AfterMap(Lookup(h, t, q), q, lo, hi, phy, prefs)
    decreases h, 1
  {
    hide SlotWellFormed, SlotMapped, SlotStart, SlotIndex, LookupSlot;
    SlotOfPage(h, q);
    var i := SlotIndex(h, q);
    var b := SlotStart(h, i);
    SlotMappedLookup(h, t.slots[i], t'.slots[i], lo - b, hi - b, phy, prefs, q - b);
  }

  lemma {:induction false} SlotMappedLookup(h: Height, s: Slot, s': Slot, lo: int, hi: int, phy: int, prefs: u64,
      r: nat)
    requires SlotWellFormed(h, s) && SlotMapped(h, s, s', lo, hi, phy, prefs)
    requires Preferences(prefs) && FrameRange(lo, hi, phy) && r < Pages(h)
    ensures LookupSlot(h, s', r) == AfterMap(LookupSlot(h, s, r), r, lo, hi, phy, prefs)
    decreases h, 0
  {
    hide LeafWord, TableWord, NewLeafEntry, NewTableEntry, Preferences, LeafBase, LeafAttributes, PreferenceAttributes,
      SlotStart, SlotIndex, Blank;
    if Misses(h, lo, hi) {
    } else if h == 0 {
      NewLeafEntryMeaning(phy - 0x1000 * lo, prefs);
    } else {
      SlotSteps(h, 0);
      if s.Empty? {
        BlankWellFormed(h - 1, s'.table.pa);
        MappedLookup(h - 1, Blank(s'.table.pa), s'.table, lo, hi, phy, prefs, r);
        BlankLookup(h - 1, s'.table.pa, r);
      } else {
        MappedLookup(h - 1, s.table, s'.table, lo, hi, phy, prefs, r);
      }
    }
  }

  lemma BlankLookup(h: Height, pa: nat, q: nat)
    ensures Lookup(h, Blank(pa), q) == None
  {
  }

  /** A new table lets its pages be written and executed, but not by user programs; a page in the range has what remains
      of its preferences. Other pages that are mapped keep their rights, and none loses more than the user right. */
  ghost predicate RightsMapped(before: Rights, after: Rights, lacks: bool, mapped: bool, q: int, lo: int, hi: int,
                               prefs: u64)
  {
    var tables := if lacks then Rights(true, false, true) else ALL_RIGHTS;
    if lo <= q < hi then after == Meet(Meet(before, tables), PreferenceRights(prefs))
    else (after == before || after == Meet(before, tables)) && (mapped ==> after == before)
  }

  lemma {:induction false} MappedPath(h: Height, t: Table, t': Table, lo: int, hi: int, phy: int, prefs: u64, q: nat)
    requires WellFormed(h, t) && Mapped(h, t, t', lo, hi, phy, prefs)
    requires Preferences(prefs) && FrameRange(lo, hi, phy) && q < SlotStart(h, 512)
    ensures RightsMapped(Path(h, t, q), Path(h, t', q), LacksTable(h, t, q), Lookup(h, t, q).Some?, q, lo, hi, prefs)
    decreases h, 1
  {
    hide SlotWellFormed, SlotMapped, SlotStart, SlotIndex, LookupSlot, PathSlot, SlotLacksTable, PreferenceRights, Meet;
    SlotOfPage(h, q);
    var i := SlotIndex(h, q);
    var b := SlotStart(h, i);
    SlotMappedPath(h, t.slots[i], t'.slots[i], lo - b, hi - b, phy, prefs, q - b);
  }

  lemma {:induction false} SlotMappedPath(h: Height, s: Slot, s': Slot, lo: int, hi: int, phy: int, prefs: u64,
      r: nat)
    requires SlotWellFormed(h, s) && SlotMapped(h, s, s', lo, hi, phy, prefs)
    requires Preferences(prefs) && FrameRange(lo, hi, phy) && r < Pages(h)
    ensures RightsMapped(PathSlot(h, s, r), PathSlot(h, s', r), SlotLacksTable(h, s, r), LookupSlot(h, s, r).Some?, r,
                lo, hi, prefs)
    decreases h, 0
  {
    hide LeafWord, TableWord, NewLeafEntry, NewTableEntry, Preferences, LeafBase, LeafAttributes, PreferenceAttributes,
      SlotStart, SlotIndex, Blank, Lookup, Path, LacksTable, Mapped, EntryRights, PreferenceRights, WellFormed;
    if Misses(h, lo, hi) {
    } else if h == 0 {
      NewLeafEntryMeaning(phy - 0x1000 * lo, prefs);
    } else {
      SlotSteps(h, 0);
      if s.Empty? {
        var pa := s'.table.pa;
        NewTableEntryMeaning(pa);
        BlankWellFormed(h - 1, pa);
        BlankPath(h - 1, pa, r);
        MappedPath(h - 1, Blank(pa), s'.table, lo, hi, phy, prefs, r);
        MappedSlots(h - 1, Blank(pa), s'.table, lo, hi, phy, prefs);
      } else {
        MappedPath(h - 1, s.table, s'.table, lo, hi, phy, prefs, r);
        MappedSlots(h - 1, s.table, s'.table, lo, hi, phy, prefs);
      }
    }
  }

  lemma MappedSlots(h: Height, t: Table, t': Table, lo: int, hi: int, phy: int, prefs: u64)
    requires Mapped(h, t, t', lo, hi, phy, prefs)
    ensures |t.slots| == |t'.slots| == 512
  {
  }

  lemma BlankPath(h: Height, pa: nat, q: nat)
    ensures Path(h, Blank(pa), q) == ALL_RIGHTS && Lookup(h, Blank(pa), q) == None
    ensures LacksTable(h, Blank(pa), q) ==> h > 0
  {
  }

  // Unmapping a range: what `pageout` makes of a table.

  /** The slot spans pages of the range only. */
  predicate Covers(h: Height, lo: int, hi: int) {
    lo <= 0 && Pages(h) <= hi
  }

  /** The table that replaces a large page, mapping the same frames with the same attributes. */
  function Split(h: Height, w: nat, pa: nat): (t: Table)
    requires 1 <= h <= 2
    ensures |t.slots| == 512
  {
    Table(pa, seq(512, (j: int) => if 0 <= j then Leaf(SplitLeafEntry(h, w, j)) else Empty))
  }

  ghost predicate Unmapped(h: Height, t: Table, t': Table, lo: int, hi: int)
    decreases h, 1
  {
    && t'.pa == t.pa && |t.slots| == |t'.slots| == 512
    && forall i :: 0 <= i < 512 ==>
         SlotUnmapped(h, t.slots[i], t'.slots[i], lo - SlotStart(h, i), hi - SlotStart(h, i))
  }

  ghost predicate SlotUnmapped(h: Height, s: Slot, s': Slot, lo: int, hi: int)
    decreases h, 0
  {
    if Misses(h, lo, hi) then s' == s
    else match s
      case Empty => s'.Empty?
      case Leaf(w) =>
        if Covers(h, lo, hi) then s'.Empty?
        else
          && 1 <= h <= 2 && s'.Node? && FrameAddress(s'.table.pa)
          && s'.word == SplitTableEntry(w, s'.table.pa)
          && Unmapped(h - 1, Split(h, w, s'.table.pa), s'.table, lo, hi)
      case Node(w, c) =>
        && h > 0
        && (s'.Empty? ==> Unmapped(h - 1, c, Blank(c.pa), lo, hi))
        && (!s'.Empty? ==> s'.Node? && s'.word == w && Unmapped(h - 1, c, s'.table, lo, hi) && !IsBlank(s'.table))
  }

  /** Splitting a large page changes neither the frame nor the attributes of any page it maps. */
  lemma SplitLookup(h: Height, w: nat, pa: nat, r: nat)
    requires 1 <= h <= 2 && w < TWO_64 && LeafWord(h, w) && FrameAddress(pa) && r < Pages(h)
    ensures WellFormed(h - 1, Split(h, w, pa))
    ensures Lookup(h - 1, Split(h, w, pa), r) == LookupSlot(h, Leaf(w), r)
  {
    hide LeafWord, SplitLeafEntry, LeafBase, LeafAttributes;
    var t := Split(h, w, pa);
    forall j | 0 <= j < 512
      ensures SlotWellFormed(h - 1, t.slots[j])
    {
      SplitLeafEntryMeaning(h, w, j);
    }
    SlotOfPage(h - 1, r);
    SlotSteps(h, 0);
    var j := SlotIndex(h - 1, r);
    SplitLeafEntryMeaning(h, w, j);
    assert 0x1000 * SlotStart(h - 1, j) == ChildSize(h - 1) * j;
  }

  lemma {:induction false} UnmappedWellFormed(h: Height, t: Table, t': Table, lo: int, hi: int)
    requires WellFormed(h, t) && Unmapped(h, t, t', lo, hi)
    ensures WellFormed(h, t') && t'.pa == t.pa
    decreases h, 1
  {
    hide SlotWellFormed, SlotUnmapped, SlotStart;
    forall i | 0 <= i < 512
      ensures SlotWellFormed(h, t'.slots[i])
    {
      SlotUnmappedWellFormed(h, t.slots[i], t'.slots[i], lo - SlotStart(h, i), hi - SlotStart(h, i));
    }
  }

  lemma {:induction false} SlotUnmappedWellFormed(h: Height, s: Slot, s': Slot, lo: int, hi: int)
    requires SlotWellFormed(h, s) && SlotUnmapped(h, s, s', lo, hi)
    ensures SlotWellFormed(h, s')
    decreases h, 0
  {
    hide LeafWord, TableWord, SplitTableEntry, SplitLeafEntry, Split, LeafAttributes, Unmapped;
    if !Misses(h, lo, hi) && !s'.Empty? {
      match s
      case Leaf(w) =>
        SplitTableEntryMeaning(h, w, s'.table.pa);
        SplitLookup(h, w, s'.table.pa, 0);
        UnmappedWellFormed(h - 1, Split(h, w, s'.table.pa), s'.table, lo, hi);
      case Node(w, c) =>
        UnmappedWellFormed(h - 1, c, s'.table, lo, hi);
    }
  }

  /** Unmapping a range leaves none of its pages translated and every other page translated as before. */
  lemma {:induction false} UnmappedLookup(h: Height, t: Table, t': Table, lo: int, hi: int, q: nat)
    requires WellFormed(h, t) && Unmapped(h, t, t', lo, hi) && q < SlotStart(h, 512)
    ensures Lookup(h, t', q) == if lo <= q < hi then None else Lookup(h, t, q)
    decreases h, 1
  {
    hide SlotWellFormed, SlotUnmapped, SlotStart, SlotIndex, LookupSlot;
    SlotOfPage(h, q);
    var i := SlotIndex(h, q);
    var b := SlotStart(h, i);
    SlotUnmappedLookup(h, t.slots[i], t'.slots[i], lo - b, hi - b, q - b);
  }

  lemma {:induction false} SlotUnmappedLookup(h: Height, s: Slot, s': Slot, lo: int, hi: int, r: nat)
    requires SlotWellFormed(h, s) && SlotUnmapped(h, s, s', lo, hi) && r < Pages(h)
    ensures LookupSlot(h, s', r) == if lo <= r < hi then None else LookupSlot(h, s, r)
    decreases h, 0
  {
    hide LeafWord, TableWord, SplitTableEntry, SplitLeafEntry, Split, LeafBase, LeafAttributes, IsBlank;
    if !Misses(h, lo, hi) {
      SlotSteps(h, 0);
      match s
      case Empty =>
      case Leaf(w) =>
        if !Covers(h, lo, hi) {
          var c := Split(h, w, s'.table.pa);
          SplitLookup(h, w, s'.table.pa, r);
          UnmappedLookup(h - 1, c, s'.table, lo, hi, r);
        }
      case Node(w, c) =>
        if s'.Empty? {
          UnmappedLookup(h - 1, c, Blank(c.pa), lo, hi, r);
          BlankLookup(h - 1, c.pa, r);
        } else {
          UnmappedLookup(h - 1, c, s'.table, lo, hi, r);
        }
    }
  }

  lemma SplitPath(h: Height, w: nat, pa: nat, r: nat)
    requires 1 <= h <= 2 && w < TWO_64 && LeafWord(h, w) && FrameAddress(pa) && r < Pages(h)
    ensures Path(h - 1, Split(h, w, pa), r) == EntryRights(w)
  {
    hide LeafWord, SplitLeafEntry, LeafBase, LeafAttributes, EntryRights;
    SlotOfPage(h - 1, r);
    SlotSteps(h, 0);
    SplitLeafEntryMeaning(h, w, SlotIndex(h - 1, r));
  }

  /** Unmapping takes no right from any page, and gives none to a page that stays mapped. */
  lemma {:induction false} UnmappedPath(h: Height, t: Table, t': Table, lo: int, hi: int, q: nat)
    requires WellFormed(h, t) && Unmapped(h, t, t', lo, hi) && q < SlotStart(h, 512)
    ensures Wider(Path(h, t', q), Path(h, t, q))
    ensures Lookup(h, t, q).Some? && !(lo <= q < hi) ==> Path(h, t', q) == Path(h, t, q)
    decreases h, 1
  {
    hide SlotWellFormed, SlotUnmapped, SlotStart, SlotIndex, LookupSlot, PathSlot;
    SlotOfPage(h, q);
    var i := SlotIndex(h, q);
    var b := SlotStart(h, i);
    SlotUnmappedPath(h, t.slots[i], t'.slots[i], lo - b, hi - b, q - b);
  }

  lemma {:induction false} SlotUnmappedPath(h: Height, s: Slot, s': Slot, lo: int, hi: int, r: nat)
    requires SlotWellFormed(h, s) && SlotUnmapped(h, s, s', lo, hi) && r < Pages(h)
    ensures Wider(PathSlot(h, s', r), PathSlot(h, s, r))
    ensures LookupSlot(h, s, r).Some? && !(lo <= r < hi) ==> PathSlot(h, s', r) == PathSlot(h, s, r)
    decreases h, 0
  {
    hide LeafWord, TableWord, SplitTableEntry, SplitLeafEntry, Split, LeafBase, LeafAttributes, IsBlank, EntryRights,
      Lookup, Path, SlotStart, Blank, WellFormed;
    if !Misses(h, lo, hi) {
      SlotSteps(h, 0);
      match s
      case Empty =>
      case Leaf(w) =>
        if !Covers(h, lo, hi) {
          SplitTableEntryMeaning(h, w, s'.table.pa);
          SplitPath(h, w, s'.table.pa, r);
          SplitLookup(h, w, s'.table.pa, r);
          UnmappedPath(h - 1, Split(h, w, s'.table.pa), s'.table, lo, hi, r);
        }
      case Node(w, c) =>
        if s'.Empty? {
          UnmappedLookup(h - 1, c, Blank(c.pa), lo, hi, r);
          BlankLookup(h - 1, c.pa, r);
        } else {
          UnmappedPath(h - 1, c, s'.table, lo, hi, r);
        }
    }
  }

  // No empty tables.

  /** Every table below this one has a present entry. */
  ghost predicate Tidy(h: Height, t: Table)
    decreases h, 1
  {
    forall i :: 0 <= i < |t.slots| ==> SlotTidy(h, t.slots[i])
  }

  ghost predicate SlotTidy(h: Height, s: Slot)
    decreases h, 0
  {
    s.Node? && h > 0 ==> !IsBlank(s.table) && Tidy(h - 1, s.table)
  }

  lemma BlankTidy(h: Height, pa: nat)
    ensures Tidy(h, Blank(pa)) && IsBlank(Blank(pa))
  {
  }

  lemma {:induction false} MappedTidy(h: Height, t: Table, t': Table, lo: int, hi: int, phy: int, prefs: u64)
    requires Mapped(h, t, t', lo, hi, phy, prefs) && Tidy(h, t) && lo < hi
    ensures Tidy(h, t')
    ensures 0 < hi && lo < SlotStart(h, 512) ==> !IsBlank(t')
    decreases h, 1
  {
    hide SlotTidy, SlotMapped, SlotStart;
    forall i | 0 <= i < 512
      ensures SlotTidy(h, t'.slots[i])
    {
      SlotMappedTidy(h, t.slots[i], t'.slots[i], lo - SlotStart(h, i), hi - SlotStart(h, i), phy, prefs);
    }
    if 0 < hi && lo < SlotStart(h, 512) {
      SlotSteps(h, 0);
      var q := if lo < 0 then 0 else lo;
      SlotOfPage(h, q);
      var i := SlotIndex(h, q);
      SlotMappedTidy(h, t.slots[i], t'.slots[i], lo - SlotStart(h, i), hi - SlotStart(h, i), phy, prefs);
      assert !t'.slots[i].Empty?;
    }
  }

  lemma {:induction false} SlotMappedTidy(h: Height, s: Slot, s': Slot, lo: int, hi: int, phy: int, prefs: u64)
    requires SlotMapped(h, s, s', lo, hi, phy, prefs) && SlotTidy(h, s) && lo < hi
    ensures SlotTidy(h, s')
    ensures !Misses(h, lo, hi) ==> !s'.Empty?
    decreases h, 0
  {
    hide NewLeafEntry, NewTableEntry, IsBlank, Blank, TableWord, FrameAddress;
    if !Misses(h, lo, hi) && h > 0 {
      SlotSteps(h, 0);
      if s.Empty? {
        BlankTidy(h - 1, s'.table.pa);
      }
      MappedTidy(h - 1, if s.Empty? then Blank(s'.table.pa) else s.table, s'.table, lo, hi, phy, prefs);
    }
  }

  lemma {:induction false} UnmappedTidy(h: Height, t: Table, t': Table, lo: int, hi: int)
    requires WellFormed(h, t) && Unmapped(h, t, t', lo, hi) && Tidy(h, t)
    ensures Tidy(h, t')
    decreases h, 1
  {
    hide SlotTidy, SlotUnmapped, SlotStart, SlotWellFormed;
    forall i | 0 <= i < 512
      ensures SlotTidy(h, t'.slots[i])
    {
      SlotUnmappedTidy(h, t.slots[i], t'.slots[i], lo - SlotStart(h, i), hi - SlotStart(h, i));
    }
  }

  lemma {:induction false} SlotUnmappedTidy(h: Height, s: Slot, s': Slot, lo: int, hi: int)
    requires SlotWellFormed(h, s) && SlotUnmapped(h, s, s', lo, hi) && SlotTidy(h, s)
    ensures SlotTidy(h, s')
    decreases h, 0
  {
    hide LeafWord, TableWord, SplitTableEntry, SplitLeafEntry, IsBlank;
    if !Misses(h, lo, hi) && s'.Node? {
      match s
      case Leaf(w) =>
        SplitLookup(h, w, s'.table.pa, 0);
        UnmappedTidy(h - 1, Split(h, w, s'.table.pa), s'.table, lo, hi);
        SplitNeverEmptied(h, w, s'.table, lo, hi);
      case Node(w, c) =>
        UnmappedTidy(h - 1, c, s'.table, lo, hi);
    }
  }

  /** Unmapping part of a large page never empties the table that replaces it. */
  lemma SplitNeverEmptied(h: Height, w: nat, t': Table, lo: int, hi: int)
    requires 1 <= h <= 2 && w < TWO_64 && LeafWord(h, w) && FrameAddress(t'.pa)
    requires Unmapped(h - 1, Split(h, w, t'.pa), t', lo, hi) && !Covers(h, lo, hi)
    ensures !IsBlank(t')
  {
    hide LeafWord, SplitLeafEntry, LookupSlot, WellFormed, Split, SlotUnmapped, IsBlank, Lookup;
    SlotSteps(h, 0);
    var r := if lo > 0 then 0 else Pages(h) - 1;
    SplitLookup(h, w, t'.pa, r);
    UnmappedLookup(h - 1, Split(h, w, t'.pa), t', lo, hi, r);
    if IsBlank(t') {
      LookupOfBlank(h - 1, t', r);
    }
    assert Lookup(h - 1, t', r) == LookupSlot(h, Leaf(w), r);
    LeafLookup(h, w, r);
  }

  lemma LeafLookup(h: Height, w: nat, r: nat)
    ensures LookupSlot(h, Leaf(w), r).Some?
  {
  }

  lemma LookupOfBlank(h: Height, t: Table, q: nat)
    requires |t.slots| == 512 && IsBlank(t)
    ensures Lookup(h, t, q) == None
  {
    SlotOfPage(h, q);
  }

  /** In a tree without empty tables, a table is empty exactly if it translates nothing. */
  lemma {:induction false} BlankIffNothingMapped(h: Height, t: Table)
    requires WellFormed(h, t) && Tidy(h, t)
    ensures IsBlank(t) <==> forall q: nat | q < SlotStart(h, 512) :: Lookup(h, t, q) == None
    decreases h
  {
    hide SlotTidy, SlotWellFormed, LookupSlot;
    if IsBlank(t) {
      forall q: nat | q < SlotStart(h, 512)
        ensures Lookup(h, t, q) == None
      {
        LookupOfBlank(h, t, q);
      }
    } else {
      var i :| 0 <= i < 512 && !t.slots[i].Empty?;
      var r := MappedPage(h, t.slots[i]);
      SlotOrder(h, i, 512);
      LookupAt(h, t, i, r);
      var q := SlotStart(h, i) + r;
      assert q < SlotStart(h, 512) && Lookup(h, t, q).Some?;
    }
  }

  lemma {:induction false} MappedPage(h: Height, s: Slot) returns (r: nat)
    requires SlotWellFormed(h, s) && SlotTidy(h, s) && !s.Empty?
    ensures r < Pages(h) && LookupSlot(h, s, r).Some?
    decreases h
  {
    hide LeafWord, TableWord, LeafBase, LeafAttributes;
    match s
    case Leaf(_) => r := 0;
    case Node(w, c) =>
      var i :| 0 <= i < 512 && !c.slots[i].Empty?;
      var r' := MappedPage(h - 1, c.slots[i]);
      SlotOrder(h - 1, i, 512);
      SlotSteps(h, 0);
      LookupAt(h - 1, c, i, r');
      r := SlotStart(h - 1, i) + r';
  }

  // Unmapping undoes mapping.

  /** Unmapping a range that was mapped into unmapped pages restores the table, created tables and all. */
  lemma {:induction false} UnmapUndoesMap(h: Height, t: Table, t1: Table, t2: Table, lo: int, hi: int, phy: int,
      prefs: u64)
    requires WellFormed(h, t) && Tidy(h, t) && lo < hi
    requires Mapped(h, t, t1, lo, hi, phy, prefs) && Unmapped(h, t1, t2, lo, hi)
    ensures t2 == t
    decreases h, 1
  {
    hide SlotTidy, SlotUnmapped, SlotStart, SlotWellFormed, SlotMapped;
    forall i | 0 <= i < 512
      ensures t2.slots[i] == t.slots[i]
    {
      SlotUnmapUndoesMap(h, t.slots[i], t1.slots[i], t2.slots[i], lo - SlotStart(h, i), hi - SlotStart(h, i), phy,
          prefs);
    }
    assert t2.slots == t.slots;
  }

  lemma {:induction false} SlotUnmapUndoesMap(h: Height, s: Slot, s1: Slot, s2: Slot, lo: int, hi: int, phy: int,
      prefs: u64)
    requires SlotWellFormed(h, s) && SlotTidy(h, s) && lo < hi
    requires SlotMapped(h, s, s1, lo, hi, phy, prefs) && SlotUnmapped(h, s1, s2, lo, hi)
    ensures s2 == s
    decreases h, 0
  {
    hide LeafWord, TableWord, NewLeafEntry, NewTableEntry, Misses, Covers, Blank, IsBlank, Mapped, Unmapped, WellFormed,
      Tidy;
    if Misses(h, lo, hi) {
    } else if h == 0 {
      PageUnmapped(s1, s2, lo, hi);
    } else {
      var c1 := s1.table;
      if s.Empty? {
        BlankWellFormed(h - 1, c1.pa);
        BlankTidy(h - 1, c1.pa);
        UnmapUndoesMap(h - 1, Blank(c1.pa), c1, if s2.Empty? then Blank(c1.pa) else s2.table, lo, hi, phy, prefs);
        BlankIsBlank(c1.pa);
      } else {
        MappedAddress(h - 1, s.table, c1, lo, hi, phy, prefs);
        UnmapUndoesMap(h - 1, s.table, c1, if s2.Empty? then Blank(c1.pa) else s2.table, lo, hi, phy, prefs);
        BlankIsBlank(c1.pa);
      }
    }
  }

  /** A page in the range is cleared. */
  lemma PageUnmapped(s: Slot, s': Slot, lo: int, hi: int)
    requires SlotUnmapped(0, s, s', lo, hi) && !Misses(0, lo, hi) && lo < hi && s.Leaf?
    ensures s'.Empty?
  {
  }

  lemma BlankIsBlank(pa: nat)
    ensures IsBlank(Blank(pa))
  {
  }

  lemma MappedAddress(h: Height, t: Table, t': Table, lo: int, hi: int, phy: int, prefs: u64)
    requires Mapped(h, t, t', lo, hi, phy, prefs)
    ensures t'.pa == t.pa
  {
  }

  lemma BlankWellFormed(h: Height, pa: nat)
    requires FrameAddress(pa)
    ensures WellFormed(h, Blank(pa))
  {
  }
}
