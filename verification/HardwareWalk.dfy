/** The translation the processor performs: section 5.3 (Long-Mode Page Translation) of the AMD64 Architecture
    Programmer's Manual, Volume 2. It sees only the words in physical memory. */
module HardwareWalk {
  import opened Common
  import opened Words
  import opened Pte
  import opened PageTree

  /** Physical memory that holds tables: the 512 words of the table at each address. */
  type Memory = map<nat, seq<nat>>

  function HardwareLookup(mem: Memory, h: Height, pa: nat, q: nat): Option<Mapping>
    decreases h
  {
    if pa !in mem || |mem[pa]| != 512 || SlotIndex(h, q) >= 512 then None
    else
      SlotOfPage(h, q);
      var entry := mem[pa][SlotIndex(h, q)];
      var rest := q - SlotStart(h, SlotIndex(h, q));
      if !Present(entry) then None
      else if h == 3 && PageSize(entry) then None
      else if h == 0 || PageSize(entry) then
        Some(Mapping(LeafBase(h, entry) + 0x1000 * rest, LeafAttributes(h, entry)))
      else HardwareLookup(mem, h - 1, Frame(entry), rest)
  }

  /** The bytes that one entry at a height spans: the offset into a page of that size is the low 12, 21 or 30 bits of
      the address. */
  function EntryBytes(h: Height): (n: nat)
    ensures n > 0
  {
    match h
    case 0 => 0x1000
    case 1 => 0x20_0000
    case 2 => 0x4000_0000
    case 3 => 0x80_0000_0000
  }

  /** The physical address of the byte at linear address p, found from the fields of p: nine bits for the entry of each
      table, and the rest the offset into the page. */
  function HardwareAddress(mem: Memory, h: Height, pa: nat, p: nat): Option<nat>
    decreases h
  {
    if pa !in mem || |mem[pa]| != 512 then None
    else
      var entry := mem[pa][p / EntryBytes(h) % 512];
      if !Present(entry) then None
      else if h == 3 && PageSize(entry) then None
      else if h == 0 || PageSize(entry) then Some(LeafBase(h, entry) + p % EntryBytes(h))
      else HardwareAddress(mem, h - 1, Frame(entry), p)
  }

  /** The rights the processor grants on page q: those that every entry of its walk gives, as section 5.6
      (Page-Protection Checks) of the manual combines them. */
  function HardwareRights(mem: Memory, h: Height, pa: nat, q: nat): Rights
    decreases h
  {
    if pa !in mem || |mem[pa]| != 512 || SlotIndex(h, q) >= 512 then ALL_RIGHTS
    else
      SlotOfPage(h, q);
      var entry := mem[pa][SlotIndex(h, q)];
      if !Present(entry) then ALL_RIGHTS
      else if h == 0 || PageSize(entry) then EntryRights(entry)
      else Meet(EntryRights(entry), HardwareRights(mem, h - 1, Frame(entry), q - SlotStart(h, SlotIndex(h, q))))
  }

  /** The words of the tree's tables are in memory, each table at its own address. */
  ghost predicate Resident(mem: Memory, h: Height, t: Table)
    decreases h, 1
  {
    && t.pa in mem && |mem[t.pa]| == 512 == |t.slots|
    && forall i :: 0 <= i < 512 ==> SlotResident(mem, h, mem[t.pa][i], t.slots[i])
  }

  ghost predicate SlotResident(mem: Memory, h: Height, w: nat, s: Slot)
    decreases h, 0
  {
    match s
    case Empty => !Present(w)
    case Leaf(w') => w == w'
    case Node(w', c) => w == w' && h > 0 && Resident(mem, h - 1, c)
  }

  /** The processor translates every page exactly as the walk through the tree does. */
  lemma {:induction false} HardwareAgrees(mem: Memory, h: Height, t: Table, q: nat)
    requires WellFormed(h, t) && Resident(mem, h, t) && q < SlotStart(h, 512)
    ensures HardwareLookup(mem, h, t.pa, q) == Lookup(h, t, q)
    decreases h
  {
    hide HardwareLookup, Lookup, SlotIndex, SlotStart, WellFormed, Resident;
    var i, rest := EntryAgrees(mem, h, t, q);
    if t.slots[i].Node? {
      HardwareAgrees(mem, h - 1, t.slots[i].table, rest);
    }
  }

  /** At one entry the walks agree, if they do below it. */
  lemma EntryAgrees(mem: Memory, h: Height, t: Table, q: nat) returns (i: nat, rest: nat)
    requires WellFormed(h, t) && Resident(mem, h, t) && q < SlotStart(h, 512)
    ensures |t.slots| == 512 && i < 512
    ensures var s := t.slots[i];
      if s.Node? then
        && h > 0 && WellFormed(h - 1, s.table) && Resident(mem, h - 1, s.table) && rest < SlotStart(h - 1, 512)
        && |s.table.slots| == 512 && Lookup(h, t, q) == Lookup(h - 1, s.table, rest)
        && HardwareLookup(mem, h, t.pa, q) == HardwareLookup(mem, h - 1, s.table.pa, rest)
      else HardwareLookup(mem, h, t.pa, q) == Lookup(h, t, q)
  {
    hide LeafBase, LeafAttributes, Frame, Present, PageSize, SlotIndex, SlotStart;
    SlotOfPage(h, q);
    i := SlotIndex(h, q);
    rest := q - SlotStart(h, i);
    assert SlotWellFormed(h, t.slots[i]) && SlotResident(mem, h, mem[t.pa][i], t.slots[i]);
    SlotSteps(h, 0);
  }

  /** And every byte: it is as far into its frame as into its page. */
  lemma {:induction false} HardwareBytes(mem: Memory, h: Height, t: Table, p: nat)
    requires WellFormed(h, t) && Resident(mem, h, t) && |t.slots| == 512
    ensures HardwareAddress(mem, h, t.pa, p)
         == match Lookup(h, t, p / 0x1000 % SlotStart(h, 512))
            case None => None
            case Some(m) => Some(m.frame + p % 0x1000)
    decreases h
  {
    hide HardwareAddress, Lookup, SlotIndex, SlotStart, WellFormed, Resident;
    var i, q := ByteAgrees(mem, h, t, p);
    if t.slots[i].Node? {
      HardwareBytes(mem, h - 1, t.slots[i].table, p);
    }
  }

  lemma ByteAgrees(mem: Memory, h: Height, t: Table, p: nat) returns (i: nat, q: nat)
    requires WellFormed(h, t) && Resident(mem, h, t) && |t.slots| == 512
    ensures SlotStart(h, 512) > 0 && q == p / 0x1000 % SlotStart(h, 512) && i < 512
    ensures var s := t.slots[i];
      if s.Node? then
        && h > 0 && WellFormed(h - 1, s.table) && Resident(mem, h - 1, s.table) && |s.table.slots| == 512
        && Lookup(h, t, q) == Lookup(h - 1, s.table, p / 0x1000 % SlotStart(h - 1, 512))
        && HardwareAddress(mem, h, t.pa, p) == HardwareAddress(mem, h - 1, s.table.pa, p)
      else HardwareAddress(mem, h, t.pa, p)
           == match Lookup(h, t, q) case None => None case Some(m) => Some(m.frame + p % 0x1000)
  {
    hide LeafBase, LeafAttributes, Frame, Present, PageSize, SlotIndex, SlotStart, EntryBytes, Lookup, HardwareAddress,
      WellFormed, Resident;
    q := AddressFields(h, p);
    i := SlotIndex(h, q);
    ResidentSlot(mem, h, t, i);
    AddressStep(mem, h, t.pa, p);
    SlotOfPage(h, q);
    LookupStep(h, t, q);
  }

  lemma ResidentSlot(mem: Memory, h: Height, t: Table, i: nat)
    requires WellFormed(h, t) && Resident(mem, h, t) && |t.slots| == 512 && i < 512
    ensures t.pa in mem && |mem[t.pa]| == 512
    ensures SlotWellFormed(h, t.slots[i]) && SlotResident(mem, h, mem[t.pa][i], t.slots[i])
    ensures t.slots[i].Node? ==> h > 0 && Resident(mem, h - 1, t.slots[i].table) && |t.slots[i].table.slots| == 512
  {
    hide LeafWord, TableWord;
  }

  lemma AddressStep(mem: Memory, h: Height, pa: nat, p: nat)
    requires pa in mem && |mem[pa]| == 512
    ensures var w := mem[pa][p / EntryBytes(h) % 512];
      HardwareAddress(mem, h, pa, p)
        == if !Present(w) || (h == 3 && PageSize(w)) then None
           else if h == 0 || PageSize(w) then Some(LeafBase(h, w) + p % EntryBytes(h))
           else HardwareAddress(mem, h - 1, Frame(w), p)
  {
    hide LeafBase, Frame, Present, PageSize, EntryBytes;
  }

  lemma LookupStep(h: Height, t: Table, q: nat)
    requires |t.slots| == 512 && SlotIndex(h, q) < 512 && SlotStart(h, SlotIndex(h, q)) <= q
    ensures Lookup(h, t, q) == LookupSlot(h, t.slots[SlotIndex(h, q)], q - SlotStart(h, SlotIndex(h, q)))
  {
    hide LookupSlot, SlotIndex, SlotStart;
  }

  /** The fields of a page's number. */
  lemma WalkIndex(h: Height, n: nat)
    ensures n / Pages(h) % 512 == SlotIndex(h, n % SlotStart(h, 512)) < 512
    ensures var q := n % SlotStart(h, 512);
      q - SlotStart(h, SlotIndex(h, q)) == n % Pages(h) && (h > 0 ==> n % Pages(h) == n % SlotStart(h - 1, 512))
  {
    var a, r := Divide(n, Pages(h));
    var c, i := Divide(a, 512);
    match h {
      case 0 => DivModUnique(n, 0x200, c, i);
      case 1 => DivModUnique(n, 0x4_0000, c, 0x200 * i + r);
      case 2 => DivModUnique(n, 0x800_0000, c, 0x4_0000 * i + r);
      case 3 => DivModUnique(n, 0x10_0000_0000, c, 0x800_0000 * i + r);
    }
    DivModUnique(SlotStart(h, i) + r, Pages(h), i, r);
  }

  /** The fields of an address and the number of its page. */
  lemma AddressFields(h: Height, p: nat) returns (q: nat)
    ensures SlotStart(h, 512) > 0 && q == p / 0x1000 % SlotStart(h, 512)
    ensures p / EntryBytes(h) % 512 == SlotIndex(h, q) < 512 && SlotStart(h, SlotIndex(h, q)) <= q
    ensures p % EntryBytes(h) == 0x1000 * (q - SlotStart(h, SlotIndex(h, q))) + p % 0x1000
    ensures h > 0 ==> q - SlotStart(h, SlotIndex(h, q)) == p / 0x1000 % SlotStart(h - 1, 512)
  {
    hide SlotIndex;
    var n, low := Divide(p, 0x1000);
    q := n % SlotStart(h, 512);
    WalkIndex(h, n);
    SlotOfPage(h, q);
    var above, page := Divide(n, Pages(h));
    assert EntryBytes(h) == 0x1000 * Pages(h);
    DivModUnique(p, EntryBytes(h), above, 0x1000 * page + low);
  }

  /** The processor grants on every page exactly the rights that remain on the way through the tree. */
  lemma {:induction false} RightsAgree(mem: Memory, h: Height, t: Table, q: nat)
    requires WellFormed(h, t) && Resident(mem, h, t) && q < SlotStart(h, 512) && |t.slots| == 512
    ensures HardwareRights(mem, h, t.pa, q) == Path(h, t, q)
    decreases h
  {
    hide EntryRights, LeafBase, LeafAttributes, Frame, Present, PageSize, SlotIndex, SlotStart, Path, HardwareRights,
      WellFormed, Resident, Meet;
    SlotOfPage(h, q);
    var i := SlotIndex(h, q);
    ResidentSlot(mem, h, t, i);
    RightsStep(mem, h, t.pa, q);
    PathStep(h, t, q);
    SlotSteps(h, 0);
    if t.slots[i].Node? {
      RightsAgree(mem, h - 1, t.slots[i].table, q - SlotStart(h, i));
    }
  }

  lemma RightsStep(mem: Memory, h: Height, pa: nat, q: nat)
    requires pa in mem && |mem[pa]| == 512 && SlotIndex(h, q) < 512
    ensures SlotStart(h, SlotIndex(h, q)) <= q
    ensures var i := SlotIndex(h, q); var w := mem[pa][i];
      HardwareRights(mem, h, pa, q)
        == if !Present(w) then ALL_RIGHTS
           else if h == 0 || PageSize(w) then EntryRights(w)
           else Meet(EntryRights(w), HardwareRights(mem, h - 1, Frame(w), q - SlotStart(h, i)))
  {
    hide EntryRights, Frame, Present, PageSize, SlotIndex, SlotStart, Meet;
    SlotOfPage(h, q);
  }

  lemma PathStep(h: Height, t: Table, q: nat)
    requires |t.slots| == 512 && SlotIndex(h, q) < 512 && SlotStart(h, SlotIndex(h, q)) <= q
    ensures Path(h, t, q) == PathSlot(h, t.slots[SlotIndex(h, q)], q - SlotStart(h, SlotIndex(h, q)))
  {
    hide PathSlot, SlotIndex, SlotStart;
  }
}

/** The tables in memory are what the processor walks. */
module PagerHardware {
  import opened PageTree
  import opened HardwareWalk
  import opened Pager

  /** Physical memory holds the words of every table of the tree, at the table's physical address. */
  ghost predicate InMemory(mem: Memory, p: PageTreeNode)
    reads p, p.tables
  {
    forall n :: n in p.tables ==> n.pa in mem && mem[n.pa] == n.phy
  }

  lemma {:induction false} TablesResident(mem: Memory, h: Height, p: PageTreeNode)
    requires p.Valid(h) && InMemory(mem, p)
    ensures Resident(mem, h, p.model)
    decreases h
  {
    ValidShape(h, p);
    forall i | 0 <= i < 512
      ensures SlotResident(mem, h, mem[p.pa][i], p.model.slots[i])
    {
      EntryOfValid(h, p, i);
      if p.model.slots[i].Node? {
        TablesResident(mem, h - 1, p.lin[i]);
      }
    }
  }

  /** Every tree that is ready for use fits into a physical memory: its tables are in frames of their own. */
  lemma TablesFit(pml4: PageTreeNode, reserve: Reserve) returns (mem: Memory)
    requires Ready(pml4, reserve)
    ensures InMemory(mem, pml4)
  {
    hide PageTreeNode.Valid, Ready;
    FramesApart(pml4, reserve);
    mem := map n | n in pml4.tables :: n.pa := n.phy;
    forall n | n in pml4.tables
      ensures n.pa in mem && mem[n.pa] == n.phy
    {
      assert n.pa in mem;
    }
  }

  /** The walk through the `lin` pointers and the processor's walk through the `phy` frames agree on every page. */
  lemma WalksAgree(mem: Memory, pml4: PageTreeNode, reserve: Reserve, q: nat)
    requires Ready(pml4, reserve) && InMemory(mem, pml4) && q < LINEAR_PAGES
    ensures HardwareLookup(mem, 3, pml4.pa, q) == Translation(pml4, q)
    ensures HardwareRights(mem, 3, pml4.pa, q) == Access(pml4, q)
  {
    hide PageTreeNode.Valid, WellFormed, Resident, Lookup, HardwareLookup, Path, HardwareRights;
    ValidShape(3, pml4);
    TablesResident(mem, 3, pml4);
    HardwareAgrees(mem, 3, pml4.model, q);
    RightsAgree(mem, 3, pml4.model, q);
  }
}
