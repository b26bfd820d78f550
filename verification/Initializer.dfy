/** The initialization of the memory manager: memory is given to it, but for forbidden intervals. */
module Initializer {
  import opened Common
  import opened Partition
  import opened RangePairs
  import opened RangeSets
  import opened PageTree
  import opened Pager
  import opened MemoryState
  import opened MemoryManager
  import opened Words

  /** Both ends are page boundaries. */
  predicate PageAligned(r: MMIRange) {
    r.s % 0x1000 == 0 && r.e % 0x1000 == 0
  }

  predicate AllAligned(forbids: seq<MMIRange>) {
    forall j :: 0 <= j < |forbids| ==> forbids[j].s <= forbids[j].e && PageAligned(forbids[j])
  }

  /** Byte b is in the range and in none of the forbidden intervals from the i-th on. */
  ghost predicate Allowed(range: MMIRange, forbids: seq<MMIRange>, i: nat, b: int) {
    In(range, b) && !Forbidden(forbids, i, b)
  }

  function LeftOf(range: MMIRange, f: MMIRange): MMIRange {
    MMIRange(range.s, if range.e < f.s then range.e else f.s)
  }

  function RightOf(range: MMIRange, f: MMIRange): MMIRange {
    MMIRange(if range.s > f.e then range.s else f.e, range.e)
  }

  /** The bytes to the left and to the right of an interval are those of the range that it does not forbid. */
  lemma AllowedParts(range: MMIRange, forbids: seq<MMIRange>, i: nat, b: int)
    requires i < |forbids| && forbids[i].s <= forbids[i].e
    ensures var f := forbids[i];
      Allowed(range, forbids, i, b) <==>
        || (range.s < f.s && Allowed(LeftOf(range, f), forbids, i + 1, b))
        || (range.e > f.e && Allowed(RightOf(range, f), forbids, i + 1, b))
  {
    hide Forbidden;
    ForbiddenStep(forbids, i, b);
  }

  lemma AllAllowed(range: MMIRange, forbids: seq<MMIRange>, b: int)
    ensures Allowed(range, forbids, |forbids|, b) <==> In(range, b)
  {
    NoneForbidden(forbids, b);
  }

  /** R' frees the allowed bytes beside those of R. */
  ghost predicate Freed(R: set<RangePair>, R': set<RangePair>, range: MMIRange, forbids: seq<MMIRange>, i: nat) {
    forall b: nat :: IsFree(R', b) <==> IsFree(R, b) || Allowed(range, forbids, i, b)
  }

  /** The allowed bytes are above address 0 and not free yet. */
  ghost predicate ToFree(R: set<RangePair>, range: MMIRange, forbids: seq<MMIRange>, i: nat) {
    forall b: nat :: Allowed(range, forbids, i, b) ==> b > 0 && !IsFree(R, b)
  }

  lemma PieceToFree(R: set<RangePair>, range: MMIRange, forbids: seq<MMIRange>)
    requires ToFree(R, range, forbids, |forbids|) && range.s < range.e && PageAligned(range)
    ensures 0 < range.s && NoneFree(R, range.s, range.e - range.s) && (range.e - range.s) % 0x1000 == 0
  {
    hide IsFree, Allowed;
    forall b: nat | In(range, b)
      ensures b > 0 && !IsFree(R, b)
    {
      AllAllowed(range, forbids, b);
    }
    assert In(range, range.s);
  }

  lemma PieceFreed(R: set<RangePair>, range: MMIRange, forbids: seq<MMIRange>)
    requires Coalesced(R) && range.s < range.e && NoneFree(R, range.s, range.e - range.s)
    ensures Freed(R, Merge(R, range.s, range.e - range.s), range, forbids, |forbids|)
  {
    hide IsFree, Allowed, Coalesced, Merge, NoneFree;
    forall b: nat
      ensures IsFree(Merge(R, range.s, range.e - range.s), b) <==> IsFree(R, b) || Allowed(range, forbids, |forbids|, b)
    {
      MergeBytes(R, range.s, range.e - range.s, b);
      AllAllowed(range, forbids, b);
    }
  }

  /** To free the allowed bytes is to free those to the left and then those to the right of an interval. */
  lemma ToFreeParts(R: set<RangePair>, range: MMIRange, forbids: seq<MMIRange>, i: nat)
    requires i < |forbids| && forbids[i].s <= forbids[i].e && ToFree(R, range, forbids, i)
    ensures range.s < forbids[i].s ==> ToFree(R, LeftOf(range, forbids[i]), forbids, i + 1)
    ensures range.e > forbids[i].e ==> ToFree(R, RightOf(range, forbids[i]), forbids, i + 1)
  {
    hide IsFree, Allowed;
    var f, k := forbids[i], i + 1;
    if range.s < f.s {
      var left := LeftOf(range, f);
      forall b: nat | Allowed(left, forbids, k, b)
        ensures b > 0 && !IsFree(R, b)
      {
        AllowedParts(range, forbids, i, b);
      }
      assert ToFree(R, left, forbids, k);
    }
    if range.e > f.e {
      var right := RightOf(range, f);
      forall b: nat | Allowed(right, forbids, k, b)
        ensures b > 0 && !IsFree(R, b)
      {
        AllowedParts(range, forbids, i, b);
      }
      assert ToFree(R, right, forbids, k);
    }
  }

  lemma FreedParts(R: set<RangePair>, R1: set<RangePair>, R2: set<RangePair>, range: MMIRange, forbids: seq<MMIRange>,
      i: nat)
    requires i < |forbids| && forbids[i].s <= forbids[i].e
    requires if range.s < forbids[i].s then Freed(R, R1, LeftOf(range, forbids[i]), forbids, i + 1) else R1 == R
    requires if range.e > forbids[i].e then Freed(R1, R2, RightOf(range, forbids[i]), forbids, i + 1) else R2 == R1
    ensures Freed(R, R2, range, forbids, i)
  {
    hide IsFree, Allowed;
    forall b: nat
      ensures IsFree(R2, b) <==> IsFree(R, b) || Allowed(range, forbids, i, b)
    {
      AllowedParts(range, forbids, i, b);
    }
  }

  /** The bytes to the right of an interval are not those to its left. */
  lemma StillToFree(R: set<RangePair>, R1: set<RangePair>, range: MMIRange, forbids: seq<MMIRange>, i: nat)
    requires i < |forbids| && forbids[i].s <= forbids[i].e
    requires ToFree(R, RightOf(range, forbids[i]), forbids, i + 1)
    requires Freed(R, R1, LeftOf(range, forbids[i]), forbids, i + 1)
    ensures ToFree(R1, RightOf(range, forbids[i]), forbids, i + 1)
  {
    hide IsFree, Forbidden;
  }

  /** The allowed pages are not mapped. */
  ghost predicate ToMap(t: Table, range: MMIRange, forbids: seq<MMIRange>, i: nat)
    requires |t.slots| == 512
  {
    forall q: nat :: Allowed(range, forbids, i, 0x1000 * q) ==> Lookup(3, t, q) == None
  }

  lemma ToMapParts(t: Table, range: MMIRange, forbids: seq<MMIRange>, i: nat)
    requires i < |forbids| && forbids[i].s <= forbids[i].e && |t.slots| == 512 && ToMap(t, range, forbids, i)
    ensures range.s < forbids[i].s ==> ToMap(t, LeftOf(range, forbids[i]), forbids, i + 1)
    ensures range.e > forbids[i].e ==> ToMap(t, RightOf(range, forbids[i]), forbids, i + 1)
  {
    hide Lookup, Allowed;
    forall q: nat
      ensures var f, b := forbids[i], 0x1000 * q;
        Allowed(range, forbids, i, b) <==>
          || (range.s < f.s && Allowed(LeftOf(range, f), forbids, i + 1, b))
          || (range.e > f.e && Allowed(RightOf(range, f), forbids, i + 1, b))
    {
      AllowedParts(range, forbids, i, 0x1000 * q);
    }
  }

  lemma PieceUnmapped(t: Table, range: MMIRange, forbids: seq<MMIRange>)
    requires |t.slots| == 512 && ToMap(t, range, forbids, |forbids|)
    ensures forall q: nat :: range.s <= 0x1000 * q < range.e ==> Lookup(3, t, q) == None
  {
    hide Lookup, Allowed;
    forall q: nat | range.s <= 0x1000 * q < range.e
      ensures Lookup(3, t, q) == None
    {
      AllAllowed(range, forbids, 0x1000 * q);
    }
  }

  /** Frees the allowed bytes of linear memory, recurring over the forbidden intervals from the i-th on. */
  method FreeLinear(memory: MemoryManager, range: MMIRange, forbids: seq<MMIRange>, i: nat)
    requires memory.Valid() && memory.live == map[] && i <= |forbids|
    requires range.s < range.e <= LINEAR_END && PageAligned(range) && AllAligned(forbids)
    requires ToFree(memory.lin.free, range, forbids, i) && ToMap(memory.pml4.model, range, forbids, i)
    modifies memory.Repr()
    ensures memory.Valid() && fresh(memory.Repr() - old(memory.Repr()))
    ensures memory.Contents() == old(memory.Contents()).(lin := memory.lin.free)
    ensures memory.reserve.lockCnt == old(memory.reserve.lockCnt)
    ensures Freed(old(memory.lin.free), memory.lin.free, range, forbids, i)
    decreases |forbids| - i
  {
    hide MemoryManager.Valid, IsFree, Allowed, Merge, Coalesced, NoneFree, ToFree, ToMap, Freed, LeftOf, RightOf,
      Lookup;
    ghost var R := memory.lin.free;
    if i == |forbids| {
      CoalescedParts(memory);
      PieceToFree(R, range, forbids);
      PieceUnmapped(memory.pml4.model, range, forbids);
      PieceFreed(R, range, forbids);
      memory.AddLinear(range.s, range.e - range.s);
      return;
    }
    CoalescedParts(memory);
    ToFreeParts(R, range, forbids, i);
    ToMapParts(memory.pml4.model, range, forbids, i);
    PartsAligned(range, forbids, i);
    if range.s < forbids[i].s {
      FreeLinear(memory, LeftOf(range, forbids[i]), forbids, i + 1);
    }
    ghost var R1 := memory.lin.free;
    if range.e > forbids[i].e {
      if range.s < forbids[i].s {
        StillToFree(R, R1, range, forbids, i);
      }
      FreeLinear(memory, RightOf(range, forbids[i]), forbids, i + 1);
    }
    FreedParts(R, R1, memory.lin.free, range, forbids, i);
  }

  lemma PartsAligned(range: MMIRange, forbids: seq<MMIRange>, i: nat)
    requires i < |forbids| && AllAligned(forbids) && PageAligned(range) && range.s < range.e
    ensures forbids[i].s <= forbids[i].e
    ensures var l := LeftOf(range, forbids[i]);
      range.s < forbids[i].s ==> l.s < l.e <= range.e && PageAligned(l)
    ensures var r := RightOf(range, forbids[i]);
      range.e > forbids[i].e ==> r.s < r.e <= range.e && PageAligned(r)
  {
  }

  lemma CoalescedParts(memory: MemoryManager)
    requires memory.Valid()
    ensures Coalesced(memory.lin.free) && Coalesced(memory.phys.free) && |memory.pml4.model.slots| == 512
  {
    hide MemoryManager.Sound, Coalesced, BlocksOk, BlocksApart, FreeUnmapped, Anchored;
  }

  /** The allowed frames hold no page tables. */
  ghost predicate NoTables(foreign: set<nat>, root: nat, range: MMIRange, forbids: seq<MMIRange>, i: nat) {
    forall a: nat :: a % 0x1000 == 0 && Allowed(range, forbids, i, a) ==> a in foreign && a != root
  }

  lemma NoTablesParts(foreign: set<nat>, root: nat, range: MMIRange, forbids: seq<MMIRange>, i: nat)
    requires i < |forbids| && forbids[i].s <= forbids[i].e && NoTables(foreign, root, range, forbids, i)
    ensures range.s < forbids[i].s ==> NoTables(foreign, root, LeftOf(range, forbids[i]), forbids, i + 1)
    ensures range.e > forbids[i].e ==> NoTables(foreign, root, RightOf(range, forbids[i]), forbids, i + 1)
  {
    hide Allowed;
    var f, k := forbids[i], i + 1;
    if range.s < f.s {
      var left := LeftOf(range, f);
      forall a: nat | a % 0x1000 == 0 && Allowed(left, forbids, k, a)
        ensures a in foreign && a != root
      {
        AllowedParts(range, forbids, i, a);
      }
      assert NoTables(foreign, root, left, forbids, k);
    }
    if range.e > f.e {
      var right := RightOf(range, f);
      forall a: nat | a % 0x1000 == 0 && Allowed(right, forbids, k, a)
        ensures a in foreign && a != root
      {
        AllowedParts(range, forbids, i, a);
      }
      assert NoTables(foreign, root, right, forbids, k);
    }
  }

  lemma PieceNoTables(foreign: set<nat>, root: nat, range: MMIRange, forbids: seq<MMIRange>)
    requires NoTables(foreign, root, range, forbids, |forbids|) && range.s < range.e
    ensures OffTables(foreign, root, range.s, range.e - range.s)
  {
    hide Allowed;
    forall a: nat | a % 0x1000 == 0 && range.s <= a < range.e
      ensures a in foreign && a != root
    {
      AllAllowed(range, forbids, a);
    }
  }

  /** Frees the allowed bytes of physical memory. */
  method FreePhysical(memory: MemoryManager, range: MMIRange, forbids: seq<MMIRange>, i: nat)
    requires memory.Valid() && memory.live == map[] && i <= |forbids|
    requires range.s < range.e <= PHYSICAL_END && PageAligned(range) && AllAligned(forbids)
    requires ToFree(memory.phys.free, range, forbids, i)
    requires NoTables(memory.reserve.foreign, memory.pml4.pa, range, forbids, i)
    modifies memory.Repr()
    ensures memory.Valid() && fresh(memory.Repr() - old(memory.Repr()))
    ensures memory.Contents() == old(memory.Contents()).(phys := memory.phys.free)
    ensures memory.reserve.lockCnt == old(memory.reserve.lockCnt)
    ensures Freed(old(memory.phys.free), memory.phys.free, range, forbids, i)
    decreases |forbids| - i
  {
    hide MemoryManager.Valid, IsFree, Allowed, Merge, Coalesced, NoneFree, ToFree, NoTables, OffTables, Freed, LeftOf,
      RightOf;
    ghost var R := memory.phys.free;
    if i == |forbids| {
      CoalescedParts(memory);
      PieceNoTables(memory.reserve.foreign, memory.pml4.pa, range, forbids);
      PieceToFree(R, range, forbids);
      PieceFreed(R, range, forbids);
      memory.AddPhysical(range.s, range.e - range.s);
      return;
    }
    NoTablesParts(memory.reserve.foreign, memory.pml4.pa, range, forbids, i);
    ToFreeParts(R, range, forbids, i);
    PartsAligned(range, forbids, i);
    if range.s < forbids[i].s {
      FreePhysical(memory, LeftOf(range, forbids[i]), forbids, i + 1);
    }
    ghost var R1 := memory.phys.free;
    if range.e > forbids[i].e {
      if range.s < forbids[i].s {
        StillToFree(R, R1, range, forbids, i);
      }
      FreePhysical(memory, RightOf(range, forbids[i]), forbids, i + 1);
    }
    FreedParts(R, R1, memory.phys.free, range, forbids, i);
  }

  // The map of usable physical memory.

  datatype SmapEntry = SmapEntry(base: nat, size: nat)

  /** How the source rounds the base of an entry. */
  function RoundedBase(base: nat): nat {
    if base % 0x1000 != 0 then base + (base - base % 0x1000) else base
  }

  /** That makes no base page-aligned that was not: an unaligned entry ends in a failed assertion. */
  lemma RoundingAligns(base: nat)
    ensures RoundedBase(base) % 0x1000 == 0 <==> base % 0x1000 == 0
  {
    var q, r := Divide(base, 0x1000);
    if r != 0 {
      DivModUnique(RoundedBase(base), 0x1000, 2 * q, r);
    }
  }

  /** What the source makes of an entry. */
  function EntryRange(e: SmapEntry): MMIRange {
    var end := e.base + e.size;
    MMIRange(RoundedBase(e.base), end - end % 0x1000)
  }

  /** Byte b is in a page that lies wholly in the entry. */
  ghost predicate WholePage(e: SmapEntry, b: int) {
    e.base % 0x1000 == 0 && e.base <= b && b - b % 0x1000 + 0x1000 <= e.base + e.size
  }

  /** Entries begin with a page and end in physical memory, unless the source skips them. */
  ghost predicate EntryOk(e: SmapEntry) {
    && (e.base % 0x1000 != 0 ==> e.base + (e.base - e.base % 0x1000) >= e.base + e.size - (e.base + e.size) % 0x1000)
    && (e.base % 0x1000 == 0 && e.size >= 0x1000 ==> e.base + e.size <= 0x10_0000_0000_0000)
  }

  lemma EntryPages(e: SmapEntry, b: int)
    requires EntryOk(e)
    ensures In(EntryRange(e), b) <==> WholePage(e, b)
  {
    var q, r := Divide(e.base + e.size, 0x1000);
    assert b - b % 0x1000 == 0x1000 * (b / 0x1000);
  }

  lemma EntryEnds(e: SmapEntry)
    requires EntryOk(e)
    ensures var range := EntryRange(e); range.s < range.e ==> PageAligned(range) && range.e <= PHYSICAL_END
  {
    RoundingAligns(e.base);
    var q, r := Divide(e.base + e.size, 0x1000);
    DivModUnique(0x1000 * q, 0x1000, q, 0);
  }

  /** Byte b is in one of the first n entries. */
  ghost predicate Usable(smap: seq<SmapEntry>, n: nat, b: int)
    requires n <= |smap|
  {
    exists k :: 0 <= k < n && WholePage(smap[k], b)
  }

  /** What entries share is forbidden. */
  ghost predicate SmapOk(smap: seq<SmapEntry>, forbids: seq<MMIRange>) {
    && (forall k :: 0 <= k < |smap| ==> EntryOk(smap[k]))
    && (forall j, k, b: nat :: 0 <= j < k < |smap| && WholePage(smap[j], b) && WholePage(smap[k], b) ==>
          Forbidden(forbids, 0, b))
  }

  /** The entries hold no page tables but in forbidden intervals. */
  ghost predicate SmapOff(foreign: set<nat>, root: nat, smap: seq<SmapEntry>, forbids: seq<MMIRange>) {
    forall k, a: nat :: 0 <= k < |smap| && a % 0x1000 == 0 && WholePage(smap[k], a) && !Forbidden(forbids, 0, a) ==>
      a in foreign && a != root
  }

  lemma EntryOff(foreign: set<nat>, root: nat, smap: seq<SmapEntry>, forbids: seq<MMIRange>, n: nat)
    requires n < |smap| && SmapOk(smap, forbids) && SmapOff(foreign, root, smap, forbids)
    ensures NoTables(foreign, root, EntryRange(smap[n]), forbids, 0)
  {
    hide Forbidden, EntryRange, WholePage, EntryOk;
    forall a: nat | a % 0x1000 == 0 && Allowed(EntryRange(smap[n]), forbids, 0, a)
      ensures a in foreign && a != root
    {
      EntryPages(smap[n], a);
    }
  }

  /** The free bytes are those of the first n entries that are not forbidden. */
  ghost predicate FreedSoFar(R: set<RangePair>, smap: seq<SmapEntry>, n: nat, forbids: seq<MMIRange>)
    requires n <= |smap|
  {
    forall b: nat :: IsFree(R, b) <==> Usable(smap, n, b) && !Forbidden(forbids, 0, b)
  }

  lemma UsableStep(smap: seq<SmapEntry>, n: nat, b: int)
    requires n < |smap|
    ensures Usable(smap, n + 1, b) <==> Usable(smap, n, b) || WholePage(smap[n], b)
  {
    hide WholePage;
    if WholePage(smap[n], b) {
      assert WholePage(smap[n], b) && n < n + 1;
    }
  }

  lemma NextEntry(R: set<RangePair>, smap: seq<SmapEntry>, n: nat, forbids: seq<MMIRange>)
    requires n < |smap| && SmapOk(smap, forbids) && FreedSoFar(R, smap, n, forbids) && Forbidden(forbids, 0, 0)
    ensures ToFree(R, EntryRange(smap[n]), forbids, 0)
    ensures var range := EntryRange(smap[n]); range.s < range.e ==> PageAligned(range) && range.e <= PHYSICAL_END
  {
    hide IsFree, Forbidden, WholePage, EntryRange, EntryOk;
    var e := smap[n];
    assert EntryOk(e);
    EntryEnds(e);
    forall b: nat | Allowed(EntryRange(e), forbids, 0, b)
      ensures b > 0 && !IsFree(R, b)
    {
      EntryPages(e, b);
      assert !Usable(smap, n, b);
    }
  }

  lemma EntryDone(R: set<RangePair>, R': set<RangePair>, smap: seq<SmapEntry>, n: nat, forbids: seq<MMIRange>)
    requires n < |smap| && SmapOk(smap, forbids) && FreedSoFar(R, smap, n, forbids)
    requires var range := EntryRange(smap[n]);
      if range.s < range.e then Freed(R, R', range, forbids, 0) else R' == R
    ensures FreedSoFar(R', smap, n + 1, forbids)
  {
    hide IsFree, Forbidden, EntryRange, Usable, WholePage, EntryOk;
    assert EntryOk(smap[n]);
    forall b: nat
      ensures IsFree(R', b) <==> Usable(smap, n + 1, b) && !Forbidden(forbids, 0, b)
    {
      UsableStep(smap, n, b);
      EntryPages(smap[n], b);
    }
  }

  lemma NothingFreed(smap: seq<SmapEntry>, forbids: seq<MMIRange>)
    ensures FreedSoFar({}, smap, 0, forbids)
  {
  }

  /** Gives the manager the usable physical memory, but for the forbidden intervals. */
  method FreeUsable(memory: MemoryManager, smap: seq<SmapEntry>, forbids: seq<MMIRange>)
    requires memory.Valid() && memory.live == map[] && memory.phys.free == {}
    requires SmapOk(smap, forbids) && AllAligned(forbids) && Forbidden(forbids, 0, 0)
    requires SmapOff(memory.reserve.foreign, memory.pml4.pa, smap, forbids)
    modifies memory.Repr()
    ensures memory.Valid() && fresh(memory.Repr() - old(memory.Repr()))
    ensures memory.Contents() == old(memory.Contents()).(phys := memory.phys.free)
    ensures memory.reserve.lockCnt == old(memory.reserve.lockCnt)
    ensures FreedSoFar(memory.phys.free, smap, |smap|, forbids)
  {
    hide MemoryManager.Valid, FreedSoFar, Freed, ToFree, Forbidden, SmapOk, SmapOff, AllAligned, NoTables;
    NothingFreed(smap, forbids);
    var i := 0;
    while i < |smap|
      invariant 0 <= i <= |smap| && memory.Valid() && fresh(memory.Repr() - old(memory.Repr()))
      invariant memory.Contents() == old(memory.Contents()).(phys := memory.phys.free)
      invariant memory.reserve.lockCnt == old(memory.reserve.lockCnt)
      invariant FreedSoFar(memory.phys.free, smap, i, forbids)
      modifies memory.Repr()
    {
      ghost var R := memory.phys.free;
      NextEntry(R, smap, i, forbids);
      EntryOff(memory.reserve.foreign, memory.pml4.pa, smap, forbids, i);
      var base := RoundedBase(smap[i].base);
      var end := smap[i].base + smap[i].size;
      end := end - end % 4096;
      if base < end {
        FreePhysical(memory, MMIRange(base, end), forbids, 0);
      }
      EntryDone(R, memory.phys.free, smap, i, forbids);
      i := i + 1;
    }
  }

  /** What is forbidden: the first megabyte, and the reserve of the given length at the given address. */
  function Forbids(reserve: nat, length: nat): seq<MMIRange> {
    [MMIRange(0, 0x10_0000), MMIRange(reserve, reserve + length)]
  }

  lemma ForbidsLow(reserve: nat, length: nat)
    requires reserve % 0x1000 == 0 && length % 0x1000 == 0
    ensures AllAligned(Forbids(reserve, length)) && Forbidden(Forbids(reserve, length), 0, 0)
  {
    assert In(Forbids(reserve, length)[0], 0);
  }

  lemma ForbidsBytes(reserve: nat, length: nat, b: nat)
    ensures Forbidden(Forbids(reserve, length), 0, b) <==> b < 0x10_0000 || reserve <= b < reserve + length
  {
    assert In(Forbids(reserve, length)[0], b) <==> b < 0x10_0000;
    assert In(Forbids(reserve, length)[1], b) <==> reserve <= b < reserve + length;
  }

  /** The map as the initialization needs it, for a reserve at physical address resPhy: its entries begin with pages,
      and above the first megabyte and beside the reserve they share no byte and hold no page tables. */
  ghost predicate MapOk(smap: seq<SmapEntry>, resPhy: nat, length: nat, foreign: set<nat>, root: nat) {
    && (forall k :: 0 <= k < |smap| ==> EntryOk(smap[k]))
    && (forall j, k, b: nat :: 0 <= j < k < |smap| && WholePage(smap[j], b) && WholePage(smap[k], b) ==>
          b < 0x10_0000 || resPhy <= b < resPhy + length)
    && (forall k, a: nat :: 0 <= k < |smap| && a % 0x1000 == 0 && WholePage(smap[k], a) ==>
          a < 0x10_0000 || resPhy <= a < resPhy + length || (a in foreign && a != root))
  }

  lemma MapForbids(smap: seq<SmapEntry>, resPhy: nat, length: nat, foreign: set<nat>, root: nat)
    requires MapOk(smap, resPhy, length, foreign, root)
    ensures SmapOk(smap, Forbids(resPhy, length)) && SmapOff(foreign, root, smap, Forbids(resPhy, length))
  {
    hide Forbids, Forbidden, EntryOk, WholePage;
    var forbids := Forbids(resPhy, length);
    forall j, k, b: nat | 0 <= j < k < |smap| && WholePage(smap[j], b) && WholePage(smap[k], b)
      ensures Forbidden(forbids, 0, b)
    {
      ForbidsBytes(resPhy, length, b);
    }
    forall k, a: nat | 0 <= k < |smap| && a % 0x1000 == 0 && WholePage(smap[k], a) && !Forbidden(forbids, 0, a)
      ensures a in foreign && a != root
    {
      ForbidsBytes(resPhy, length, a);
    }
  }

  /** Free is every byte of the map's whole pages above the first megabyte that is not the reserve's. */
  ghost predicate PhysicalGiven(R: set<RangePair>, smap: seq<SmapEntry>, resPhy: nat, length: nat) {
    forall b: nat :: IsFree(R, b) <==>
      && b >= 0x10_0000 && !(resPhy <= b < resPhy + length)
      && exists k :: 0 <= k < |smap| && WholePage(smap[k], b)
  }

  /** Free is every byte of the 47-bit linear space above the first megabyte that is not the reserve's. */
  ghost predicate LinearGiven(L: set<RangePair>, reserveStart: nat, length: nat) {
    forall b: nat :: IsFree(L, b) <==>
      0x10_0000 <= b < 0x8000_0000_0000 && !(reserveStart <= b < reserveStart + length)
  }

  lemma PhysicalFreed(R: set<RangePair>, smap: seq<SmapEntry>, resPhy: nat, length: nat)
    requires FreedSoFar(R, smap, |smap|, Forbids(resPhy, length))
    ensures PhysicalGiven(R, smap, resPhy, length)
  {
    hide Forbids, Forbidden, WholePage, IsFree;
    forall b: nat
      ensures Forbidden(Forbids(resPhy, length), 0, b) <==> b < 0x10_0000 || resPhy <= b < resPhy + length
    {
      ForbidsBytes(resPhy, length, b);
    }
  }

  lemma LinearFreed(L: set<RangePair>, reserveStart: nat, length: nat)
    requires Freed({}, L, MMIRange(0, LINEAR_END), Forbids(reserveStart, length), 0)
    ensures LinearGiven(L, reserveStart, length)
  {
    hide Forbids, Forbidden, IsFree;
    NothingFree();
    forall b: nat
      ensures Forbidden(Forbids(reserveStart, length), 0, b)
         <==> b < 0x10_0000 || reserveStart <= b < reserveStart + length
    {
      ForbidsBytes(reserveStart, length, b);
    }
  }

  /** No page of the linear space above the first megabyte is mapped but those of the reserve. */
  ghost predicate SpaceUnmapped(t: Table, reserveStart: nat, length: nat)
    requires |t.slots| == 512
  {
    forall q: nat ::
      0x10_0000 <= 0x1000 * q < 0x8000_0000_0000 && !(reserveStart <= 0x1000 * q < reserveStart + length) ==>
        Lookup(3, t, q) == None
  }

  lemma UnmappedAllowed(t: Table, reserveStart: nat, length: nat)
    requires |t.slots| == 512 && SpaceUnmapped(t, reserveStart, length)
    ensures ToMap(t, MMIRange(0, LINEAR_END), Forbids(reserveStart, length), 0)
  {
    hide Forbids, Forbidden, Lookup;
    forall q: nat | Allowed(MMIRange(0, LINEAR_END), Forbids(reserveStart, length), 0, 0x1000 * q)
      ensures Lookup(3, t, q) == None
    {
      ForbidsBytes(reserveStart, length, 0x1000 * q);
    }
  }

  /** Where the walk finds the first byte of page q; 0 stands for "not mapped". */
  ghost predicate FoundAt(t: Table, q: nat, phy: nat)
    requires |t.slots| == 512
  {
    match Lookup(3, t, q)
    case None => phy == 0
    case Some(m) => phy == m.frame
  }

  /** Sets up the managers: all usable memory becomes theirs, but for the first megabyte and the initial reserve, whose
      physical address is looked up by the walk. */
  method Initialize(memory: MemoryManager, smap: seq<SmapEntry>, reserveStart: u64, reserveLength: nat,
                    ghost resPhy: nat)
    requires memory.Valid() && memory.live == map[] && memory.phys.free == {} && memory.lin.free == {}
    requires reserveStart % 0x1000 == 0 && reserveLength % 0x1000 == 0 && |memory.pml4.model.slots| == 512
    requires SmallPatClear(3, memory.pml4.model, reserveStart / 0x1000 % 0x10_0000_0000)
    requires FoundAt(memory.pml4.model, reserveStart / 0x1000 % 0x10_0000_0000, resPhy)
    requires MapOk(smap, resPhy, reserveLength, memory.reserve.foreign, memory.pml4.pa)
    requires SpaceUnmapped(memory.pml4.model, reserveStart, reserveLength)
    modifies memory.Repr()
    ensures memory.Valid() && fresh(memory.Repr() - old(memory.Repr()))
    ensures memory.live == map[] && memory.pml4.model == old(memory.pml4.model)
    ensures PhysicalGiven(memory.phys.free, smap, resPhy, reserveLength)
    ensures LinearGiven(memory.lin.free, reserveStart, reserveLength)
    ensures memory.reserve.lockCnt == old(memory.reserve.lockCnt)
  {
    hide MemoryManager.Valid, FreedSoFar, Freed, SmapOk, SmapOff, ToMap, IsFree, Lookup, WellFormed, SmallPatClear,
      Forbids, Forbidden, AllAligned, MapOk, PhysicalGiven, LinearGiven, SpaceUnmapped;
    TreeOf(memory);
    var iResPhy := LinToPhy(memory.pml4, reserveStart);
    FrameFound(memory.pml4.model, reserveStart / 0x1000 % 0x10_0000_0000, iResPhy);
    assert iResPhy == resPhy;
    var psmForbids, lsmForbids := Forbids(iResPhy, reserveLength), Forbids(reserveStart, reserveLength);
    ForbidsLow(iResPhy, reserveLength);
    ForbidsLow(reserveStart, reserveLength);
    MapForbids(smap, resPhy, reserveLength, memory.reserve.foreign, memory.pml4.pa);
    FreeUsable(memory, smap, psmForbids);
    NothingFree();
    LowForbidden(lsmForbids);
    UnmappedAllowed(memory.pml4.model, reserveStart, reserveLength);
    FreeLinear(memory, MMIRange(0, LINEAR_END), lsmForbids, 0);
    PhysicalFreed(memory.phys.free, smap, resPhy, reserveLength);
    LinearFreed(memory.lin.free, reserveStart, reserveLength);
  }

  lemma FrameFound(t: Table, q: nat, phy: nat)
    requires WellFormed(3, t) && |t.slots| == 512 && FoundAt(t, q, phy)
    ensures phy % 0x1000 == 0
  {
    hide Lookup, WellFormed;
    WholeFrame(3, t, q);
  }

  lemma TreeOf(memory: MemoryManager)
    requires memory.Valid()
    ensures memory.pml4.Valid(3) && WellFormed(3, memory.pml4.model)
  {
    hide MemoryState.Consistent, Clear;
  }

  lemma LowForbidden(forbids: seq<MMIRange>)
    requires Forbidden(forbids, 0, 0)
    ensures ToFree({}, MMIRange(0, LINEAR_END), forbids, 0)
  {
    hide IsFree, Forbidden;
    NothingFree();
  }

  lemma NothingFree()
    ensures forall b: nat :: !IsFree({}, b)
  {
  }
}
