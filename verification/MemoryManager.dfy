/** The memory manager: blocks of physical memory, mapped at random places of the linear space. */
module MemoryManager {
  import opened Common
  import opened Pte
  import opened PageTree
  import opened PageIndex
  import opened RangePairs
  import opened RangeSets
  import opened Pager
  import opened SpaceManagers
  import opened MemoryState
  import opened Words
  import opened AvlModel
  import opened AslrModel
  import opened Placement
  import AslrTree

  /** Three parts and their owners have no object in common. */
  ghost predicate Disjoint(a: set<object>, b: set<object>, c: set<object>, owners: set<object>) {
    a !! b && a !! c && b !! c && owners !! a && owners !! b && owners !! c
  }

  /** Wherever in the linear space an aligned block of count pages comes to lie, the pager can index it. */
  ghost predicate AlwaysIndexable(count: nat, align: nat)
    requires align > 0
  {
    forall f: nat :: 0x1000 * f % align == 0 && 0x1000 * (f + count) <= LINEAR_END ==> Indexable(f, count)
  }

  /** That holds of less than 2^31 pages beside a page table's, or of less than 2^31 if blocks begin with one. */
  lemma ShortIndexable(count: nat, align: nat)
    requires 0 < count && align > 0
    requires count + 0x1FF < 0x8000_0000 || (count < 0x8000_0000 && align % 0x20_0000 == 0)
    ensures AlwaysIndexable(count, align)
  {
    forall f: nat | 0x1000 * f % align == 0 && 0x1000 * (f + count) <= LINEAR_END
      ensures Indexable(f, count)
    {
      if align % 0x20_0000 == 0 {
        AlignedTable(f, align);
      }
    }
  }

  lemma AlignedTable(f: nat, align: nat)
    requires align > 0 && align % 0x20_0000 == 0 && 0x1000 * f % align == 0
    ensures f % 0x200 == 0
  {
    var k, _ := Divide(0x1000 * f, align);
    var a, _ := Divide(align, 0x20_0000);
    var x := a * k;
    assert 0x20_0000 * a * k == 0x20_0000 * x;
    DivModUnique(f, 0x200, x, 0);
  }

  class MemoryManager {
    const phys: PhysicalSpaceManager
    const lin: LinearSpaceManager
    const pml4: PageTreeNode
    const reserve: Reserve
    const source: AslrTree.RandomSource

    ghost var live: Blocks

    ghost function Contents(): State
      reads this, phys, lin, pml4
    {
      State(phys.free, lin.free, live, pml4.model)
    }

    ghost function Owners(): set<object> {
      {this, phys, lin, reserve, source}
    }

    ghost function Repr(): set<object>
      reads phys.treeStart, phys.treeLength, lin.treeStart, lin.treeLength, pml4
    {
      phys.Repr() + lin.Repr() + pml4.tables + Owners()
    }

    ghost predicate Sound()
      reads phys, lin, pml4, pml4.tables, reserve`outstanding
      reads phys.treeStart, phys.treeStart.repr, phys.treeLength, phys.treeLength.repr
      reads lin.treeStart, lin.treeStart.repr, lin.treeLength, lin.treeLength.repr
    {
      phys.Valid() && lin.Valid() && Ready(pml4, reserve) && Disjoint(phys.Repr(), lin.Repr(), pml4.tables, Owners())
    }

    ghost predicate Valid()
      reads this, phys, lin, pml4, pml4.tables, reserve`outstanding
      reads phys.treeStart, phys.treeStart.repr, phys.treeLength, phys.treeLength.repr
      reads lin.treeStart, lin.treeStart.repr, lin.treeLength, lin.treeLength.repr
      ensures Valid() ==> this in Repr() && phys in Repr() && lin in Repr() && pml4 in Repr() && reserve in Repr()
      ensures Valid() ==> phys.treeStart in Repr() && phys.treeLength in Repr()
      ensures Valid() ==> lin.treeStart in Repr() && lin.treeLength in Repr()
    {
      Sound() && Consistent(Contents()) && Clear(Contents(), reserve.foreign, pml4.pa)
    }

    /** Managers that have no memory yet, over page tables that map something. */
    constructor (pml4: PageTreeNode, reserve: Reserve, source: AslrTree.RandomSource)
      requires Ready(pml4, reserve)
      requires exists q: nat :: q < LINEAR_PAGES && Translation(pml4, q).Some?
      ensures Valid() && live == map[] && phys.free == {} && lin.free == {}
      ensures this.pml4 == pml4 && this.reserve == reserve && this.source == source
      ensures fresh(Repr() - pml4.tables - {reserve, source})
    {
      hide PhysicalSpaceManager.Valid, LinearSpaceManager.Valid, Ready, Consistent, Clear;
      this.pml4, this.reserve, this.source := pml4, reserve, source;
      phys := new PhysicalSpaceManager();
      lin := new LinearSpaceManager();
      live := map[];
      new;
      Nothing(pml4.model);
      NothingClear(pml4.model, reserve.foreign, pml4.pa);
    }

    // The parts' operations, one by one: each leaves the other parts alone.

    method TakePhysical(length: nat) returns (phy: nat, ghost rp: RangePair)
      requires Sound() && length % 0x1000 == 0 && 0 < length
      modifies Repr()
      ensures Sound() && fresh(Repr() - old(Repr())) && pml4.model == old(pml4.model)
      ensures lin.free == old(lin.free) && live == old(live) && source.drawn == old(source.drawn)
      ensures Elsewhere(reserve, pml4) == old(Elsewhere(reserve, pml4))
      ensures phy == 0 <==> NoneHolds(old(phys.free), length)
      ensures phy == 0 ==> phys.free == old(phys.free) && reserve.lockCnt == old(reserve.lockCnt) + 1
      ensures phy != 0 ==>
                && reserve.lockCnt == old(reserve.lockCnt) && phy % 0x1000 == 0
                && BestFit(old(phys.free), length, rp) && rp in old(phys.free) && rp.x == phy && Contains(rp, phy,
                    length)
                && phys.free == Carve(old(phys.free), rp, phy, length)
      ensures phys.availableMemory == old(phys.availableMemory) - if phy == 0 then 0 else length
    {
      hide PhysicalSpaceManager.Valid, LinearSpaceManager.Valid, Ready, NoneHolds, BestFit, Carve, Coalesced;
      phy, rp := phys.Alloc(length, reserve);
    }

    method TakeLinear(length: nat, align: nat)
      returns (start: nat, ghost rl: RangePair, ghost t: Tree, ghost draws: seq<nat>)
      requires Sound() && length % 0x1000 == 0 && align % 0x1000 == 0
      requires 0 < length && 0 < align && length + align <= LIMIT
      modifies Repr()
      ensures Sound() && fresh(Repr() - old(Repr())) && pml4.model == old(pml4.model)
      ensures phys.free == old(phys.free) && live == old(live) && phys.availableMemory == old(phys.availableMemory)
      ensures Elsewhere(reserve, pml4) == old(Elsewhere(reserve, pml4))
      ensures start % align == 0 && (start == 0 <==> NoneHolds(old(lin.free), length + align - 1))
      ensures start == 0 ==> lin.free == old(lin.free) && reserve.lockCnt == old(reserve.lockCnt) + 1
      ensures source.drawn == old(source.drawn) + draws && |draws| == Draws(t, length + align - 1)
      ensures Holds(t, old(lin.free)) && (start != 0 ==> Drawn(t, length + align - 1, align, draws, rl, start))
      ensures start != 0 ==>
                && reserve.lockCnt == old(reserve.lockCnt) && rl in old(lin.free) && Contains(rl, start, length)
                && lin.free == Carve(old(lin.free), rl, start, length)
    {
      hide PhysicalSpaceManager.Valid, LinearSpaceManager.Valid, Ready, NoneHolds, Carve, Coalesced, Draws, Holds,
        Drawn;
      start, rl, t, draws := lin.AllocAslr(length, align, source, reserve);
    }

    method GivePhysical(phy: nat, length: nat)
      requires Sound() && phy % 0x1000 == 0 && length % 0x1000 == 0
      requires 0 < phy && 0 < length && phy + length <= PHYSICAL_END && NoneFree(phys.free, phy, length)
      modifies Repr()
      ensures Sound() && fresh(Repr() - old(Repr())) && pml4.model == old(pml4.model)
      ensures lin.free == old(lin.free) && live == old(live) && reserve.lockCnt == old(reserve.lockCnt)
      ensures Elsewhere(reserve, pml4) == old(Elsewhere(reserve, pml4))
      ensures Coalesced(old(phys.free)) && phys.free == Merge(old(phys.free), phy, length)
      ensures phys.availableMemory == old(phys.availableMemory) + length && source.drawn == old(source.drawn)
    {
      hide PhysicalSpaceManager.Valid, LinearSpaceManager.Valid, Ready, Merge, Coalesced;
      phys.Free(phy, length, reserve);
    }

    method GiveLinear(start: nat, length: nat)
      requires Sound() && start % 0x1000 == 0 && length % 0x1000 == 0
      requires 0 < start && 0 < length && start + length <= LINEAR_END && NoneFree(lin.free, start, length)
      modifies Repr()
      ensures Sound() && fresh(Repr() - old(Repr())) && pml4.model == old(pml4.model)
      ensures phys.free == old(phys.free) && live == old(live) && phys.availableMemory == old(phys.availableMemory)
      ensures Elsewhere(reserve, pml4) == old(Elsewhere(reserve, pml4)) && reserve.lockCnt == old(reserve.lockCnt)
      ensures Coalesced(old(lin.free)) && lin.free == Merge(old(lin.free), start, length)
    {
      hide PhysicalSpaceManager.Valid, LinearSpaceManager.Valid, Ready, Merge, Coalesced;
      lin.Free(start, length, reserve);
    }

    method MapBlock(phy: nat, start: nat, length: nat, ghost f: nat, ghost b: Block)
      requires Sound() && BlockOk(f, b) && phy == b.phys && start == 0x1000 * f && length == 0x1000 * b.count
      requires forall q: nat :: InBlock(f, b, q) ==> Translation(pml4, q) == None
      modifies Repr()
      ensures Sound() && fresh(Repr() - old(Repr()))
      ensures phys.free == old(phys.free) && lin.free == old(lin.free) && live == old(live)
      ensures source.drawn == old(source.drawn)
      ensures phys.availableMemory == old(phys.availableMemory) && reserve.lockCnt == old(reserve.lockCnt)
      ensures Elsewhere(reserve, pml4) == old(Elsewhere(reserve, pml4))
      ensures |old(pml4.model.slots)| == |pml4.model.slots| == 512 && MapsBlock(old(pml4.model), pml4.model, f, b)
      ensures KeepsRights(old(pml4.model), pml4.model)
    {
      hide PhysicalSpaceManager.Valid, LinearSpaceManager.Valid, Ready, PageTree.Mapped, PreferenceAttributes, Lookup,
        Path, LacksTable;
      ghost var t := pml4.model;
      PageIn(pml4, phy, start, length, 0, reserve, f, b.count);
      forall q: nat | q < LINEAR_PAGES
        ensures Path(3, pml4.model, q).write == Path(3, t, q).write
        ensures Path(3, pml4.model, q).execute == Path(3, t, q).execute
        ensures Lookup(3, t, q).Some? ==> Path(3, pml4.model, q) == Path(3, t, q)
      {
        assert Access(pml4, q) == Path(3, pml4.model, q) && old(Access(pml4, q)) == Path(3, t, q);
        assert old(Translation(pml4, q)) == Lookup(3, t, q);
      }
      forall q: nat | q < LINEAR_PAGES
        ensures Lookup(3, pml4.model, q) ==
                  if InBlock(f, b, q) then Some(Mapping(b.phys + 0x1000 * (q - f), PreferenceAttributes(0)))
                  else Lookup(3, t, q)
      {
        assert Translation(pml4, q) == Lookup(3, pml4.model, q) && old(Translation(pml4, q)) == Lookup(3, t, q);
      }
    }

    /** Where a live block is, found by walking the page tables as the pager does. */
    method PhysicalOf(start: nat, ghost f: nat) returns (phy: nat)
      requires Valid() && f in live && start == 0x1000 * f
      ensures phy == live[f].phys
      ensures BlockOk(f, live[f]) && phy != 0 && phy % 0x1000 == 0 && phy + 0x1000 * live[f].count <= PHYSICAL_END
      ensures 0 < start && start % 0x1000 == 0 && start + 0x1000 * live[f].count <= LINEAR_END && live[f].count > 0
      ensures forall q: nat :: InBlock(f, live[f], q) ==> Translation(pml4, q).Some?
      ensures exists q: nat :: q < LINEAR_PAGES && !InBlock(f, live[f], q) && Translation(pml4, q).Some?
      ensures NoneFree(lin.free, start, 0x1000 * live[f].count) && NoneFree(phys.free, phy, 0x1000 * live[f].count)
    {
      hide PhysicalSpaceManager.Valid, LinearSpaceManager.Valid, Coalesced, Lookup, PreferenceAttributes, SmallPatClear;
      ghost var s, b := Contents(), live[f];
      LiveBlock(s, f);
      assert InBlock(f, b, f);
      PageNumber(f);
      PreferencePatClear(0);
      UnmappedPatClear(3, pml4.model, f);
      phy := LinToPhy(pml4, start);
      assert Lookup(3, s.tree, f) == Some(Mapping(b.phys, PreferenceAttributes(0)));
      forall q: nat | InBlock(f, b, q)
        ensures Translation(pml4, q).Some?
      {
        assert Lookup(3, s.tree, q).Some?;
      }
      ghost var a: nat :| a < 0x10_0000_0000 && Lookup(3, s.tree, a).Some? && Unmanaged(s, a);
      assert Translation(pml4, a).Some? && !InBlock(f, b, a);
    }

    method UnmapBlock(start: nat, length: nat, ghost f: nat, ghost b: Block)
      requires Sound() && BlockOk(f, b) && start == 0x1000 * f && length == 0x1000 * b.count
      requires forall q: nat :: InBlock(f, b, q) ==> Translation(pml4, q).Some?
      requires exists q: nat :: q < LINEAR_PAGES && !InBlock(f, b, q) && Translation(pml4, q).Some?
      modifies Repr()
      ensures Sound() && fresh(Repr() - old(Repr()))
      ensures phys.free == old(phys.free) && lin.free == old(lin.free) && live == old(live)
      ensures phys.availableMemory == old(phys.availableMemory) && reserve.lockCnt == old(reserve.lockCnt)
      ensures Elsewhere(reserve, pml4) == old(Elsewhere(reserve, pml4))
      ensures |old(pml4.model.slots)| == |pml4.model.slots| == 512 && UnmapsBlock(old(pml4.model), pml4.model, f, b)
      ensures KeepsRights(old(pml4.model), pml4.model)
    {
      hide PhysicalSpaceManager.Valid, LinearSpaceManager.Valid, Ready, PageTree.Unmapped, Lookup, Path;
      ghost var t := pml4.model;
      PageOut(pml4, start, length, reserve, f, b.count);
      forall q: nat | q < LINEAR_PAGES
        ensures Wider(Path(3, pml4.model, q), Path(3, t, q))
        ensures Lookup(3, pml4.model, q).Some? ==> Path(3, pml4.model, q) == Path(3, t, q)
      {
        assert Access(pml4, q) == Path(3, pml4.model, q) && old(Access(pml4, q)) == Path(3, t, q);
        assert Translation(pml4, q) == Lookup(3, pml4.model, q);
      }
      forall q: nat | q < LINEAR_PAGES
        ensures Lookup(3, pml4.model, q) == if InBlock(f, b, q) then None else Lookup(3, t, q)
      {
        assert Translation(pml4, q) == Lookup(3, pml4.model, q) && old(Translation(pml4, q)) == Lookup(3, t, q);
      }
    }

    ghost method SetLive(newLive: Blocks)
      requires Sound()
      modifies `live
      ensures Sound() && live == newLive && Repr() == old(Repr())
    {
      hide PhysicalSpaceManager.Valid, LinearSpaceManager.Valid, Ready;
      live := newLive;
    }

    // Giving memory to the managers, as the initialization does.

    /** Physical memory that is neither free nor anybody's, page tables included, becomes free. */
    method AddPhysical(start: nat, length: nat)
      requires Valid() && OffTables(reserve.foreign, pml4.pa, start, length)
      requires PhysicalGift(Contents(), start, length, Contents().(phys := Merge(phys.free, start, length)))
      modifies Repr()
      ensures Valid() && fresh(Repr() - old(Repr()))
      ensures PhysicalGift(old(Contents()), start, length, Contents())
      ensures reserve.lockCnt == old(reserve.lockCnt) && phys.availableMemory == old(phys.availableMemory) + length
    {
      hide Sound, Consistent, Merge, Coalesced, NoneFree, Clear, OffTables;
      ghost var s := Contents();
      GivePhysical(start, length);
      PhysicalGiftKeeps(s, start, length, Contents());
      ClearGift(s, start, length, Contents(), reserve.foreign, pml4.pa);
    }

    /** Linear memory that is neither free, nor anybody's, nor mapped becomes free. */
    method AddLinear(start: nat, length: nat)
      requires Valid()
      requires LinearGift(Contents(), start, length, Contents().(lin := Merge(lin.free, start, length)))
      modifies Repr()
      ensures Valid() && fresh(Repr() - old(Repr()))
      ensures LinearGift(old(Contents()), start, length, Contents())
      ensures reserve.lockCnt == old(reserve.lockCnt) && phys.availableMemory == old(phys.availableMemory)
    {
      hide Sound, Consistent, Merge, Coalesced, NoneFree, Lookup, Clear;
      ghost var s := Contents();
      GiveLinear(start, length);
      LinearGiftKeeps(s, start, length, Contents());
      ClearSame(s, Contents(), reserve.foreign, pml4.pa);
    }

    // The manager's own operations.

    /** Takes length bytes on both sides. When either is short, nothing is taken and the reserve stays locked. */
    method TakeBoth(length: nat, align: nat)
      returns (phy: nat, start: nat, ghost rp: RangePair, ghost rl: RangePair, ghost t: Tree, ghost draws: seq<nat>)
      requires Sound() && length % 0x1000 == 0 && align % 0x1000 == 0
      requires 0 < length && 0 < align && length + align <= LIMIT
      requires Coalesced(phys.free) && Paged(phys.free, PHYSICAL_END)
      modifies Repr()
      ensures Sound() && fresh(Repr() - old(Repr())) && Elsewhere(reserve, pml4) == old(Elsewhere(reserve, pml4))
      ensures pml4.model == old(pml4.model) && live == old(live)
      ensures start == 0 <==> NoneHolds(old(phys.free), length) || NoneHolds(old(lin.free), length + align - 1)
      ensures start == 0 ==>
                && phys.free == old(phys.free) && lin.free == old(lin.free)
                && reserve.lockCnt == old(reserve.lockCnt) + 1 && phys.availableMemory == old(phys.availableMemory)
      ensures source.drawn == old(source.drawn) + draws
      ensures if NoneHolds(old(phys.free), length) then draws == [] else
                Holds(t, old(lin.free)) && |draws| == Draws(t, length + align - 1)
      ensures start != 0 ==> Drawn(t, length + align - 1, align, draws, rl, start)
      ensures start != 0 ==> BothTaken(old(phys.free), old(lin.free), phys.free, lin.free, length, phy, start, rp, rl)
      ensures start != 0 ==>
                && phy % 0x1000 == 0 && start % align == 0 && BestFit(old(phys.free), length, rp) && rp.x == phy
                && reserve.lockCnt == old(reserve.lockCnt)
                && phys.availableMemory == old(phys.availableMemory) - length
    {
      hide Sound, NoneHolds, BestFit, Carve, Merge, Coalesced, Paged, NoneFree, Elsewhere, BothTaken, Holds,
        Draws, Drawn;
      ghost var R, L := phys.free, lin.free;
      phy, rp := TakePhysical(length);
      if phy == 0 {
        return 0, 0, rp, rp, Nil, [];
      }
      start, rl, t, draws := TakeLinear(length, align);
      if start == 0 {
        FitUndone(R, length, rp);
        GivePhysical(phy, length);
        return 0, 0, rp, rl, t, draws;
      }
      TakenBoth(R, L, phys.free, lin.free, length, phy, start, rp, rl);
    }

    /** Maps what was taken from both sides of state s, and records it as a block. */
    method MapTaken(phy: nat, start: nat, length: nat, align: nat, ghost s: State, ghost rp: RangePair,
                    ghost rl: RangePair) returns (ghost b: Block)
      requires Sound() && Consistent(s) && Clear(s, reserve.foreign, pml4.pa) && pml4.model == s.tree && live == s.live
      requires BothTaken(s.phys, s.lin, phys.free, lin.free, length, phy, start, rp, rl)
      requires length % 0x1000 == 0 && align % 0x1000 == 0 && 0 < length && 0 < align && length + align <= LIMIT
      requires start > 0 && start % align == 0 && phy % 0x1000 == 0 && BestFit(s.phys, length, rp) && rp.x == phy
      requires AlwaysIndexable(length / 0x1000, align)
      modifies Repr()
      ensures Valid() && fresh(Repr() - old(Repr())) && Elsewhere(reserve, pml4) == old(Elsewhere(reserve, pml4))
      ensures start % 0x1000 == 0 && b == Block(length / 0x1000, phy)
      ensures AllocStep(s, rp, rl, start / 0x1000, b, Contents()) && BlockOk(start / 0x1000, b)
      ensures start / 0x1000 !in s.live && live == s.live[start / 0x1000 := b]
      ensures reserve.lockCnt == old(reserve.lockCnt) && phys.availableMemory == old(phys.availableMemory)
      ensures source.drawn == old(source.drawn)
      ensures LiveBytes(live) == LiveBytes(s.live) + length
    {
      hide Sound, Consistent, BestFit, Carve, Merge, Coalesced, Paged, LiveBytes, Lookup, BlockOk, NoneFree,
        MapsBlock, KeepsRights, Allocates, AllocStep, Elsewhere, Clear, BothTaken;
      RangesOf(s);
      BothParts(s.phys, s.lin, phys.free, lin.free, length, phy, start, rp, rl);
      PageMultiple(start, align);
      b := Block(length / 0x1000, phy);
      ghost var f := start / 0x1000;
      RangeInSpace(s.lin, rl, start, length);
      assert 0x1000 * f == start && 0x1000 * (f + b.count) == start + length;
      FreshBlock(s, rp, rl, start, length, f, b);
      MapBlock(phy, start, length, f, b);
      SetLive(live[f := b]);
      Allocated(s, rp, rl, start, length, f, b, Contents());
      ClearAlloc(s, rp, rl, f, b, Contents(), reserve.foreign, pml4.pa);
    }

    /** Allocates length bytes, contiguous on both sides, and maps them. When physical or linear memory is short it
        returns 0 and everything is as it was, but the reserve stays locked. The start is the place that the words
        drawn lead to in the tree t of the free linear ranges, rounded up. */
    method Alloc(length: nat, align: nat)
      returns (start: nat, ghost b: Block, ghost rp: RangePair, ghost rl: RangePair, ghost t: Tree,
               ghost draws: seq<nat>)
      requires Valid() && length % 0x1000 == 0 && align % 0x1000 == 0
      requires 0 < length && 0 < align && length + align <= LIMIT && AlwaysIndexable(length / 0x1000, align)
      modifies Repr()
      ensures Valid() && fresh(Repr() - old(Repr())) && Elsewhere(reserve, pml4) == old(Elsewhere(reserve, pml4))
      ensures start == 0 <==> NoneHolds(old(phys.free), length) || NoneHolds(old(lin.free), length + align - 1)
      ensures source.drawn == old(source.drawn) + draws
      ensures if NoneHolds(old(phys.free), length) then draws == [] else
                Holds(t, old(lin.free)) && |draws| == Draws(t, length + align - 1)
      ensures start != 0 ==> Drawn(t, length + align - 1, align, draws, rl, start)
      ensures start == 0 ==> Contents() == old(Contents()) && reserve.lockCnt == old(reserve.lockCnt) + 1
      ensures start != 0 ==>
                && start % align == 0 && start % 0x1000 == 0 && reserve.lockCnt == old(reserve.lockCnt)
                && BestFit(old(phys.free), length, rp) && b == Block(length / 0x1000, rp.x)
                && AllocStep(old(Contents()), rp, rl, start / 0x1000, b, Contents())
                && start / 0x1000 !in old(live) && live == old(live)[start / 0x1000 := b] && BlockOk(start / 0x1000, b)
      ensures phys.availableMemory + LiveBytes(live) == old(phys.availableMemory + LiveBytes(live))
    {
      hide Sound, Consistent, NoneHolds, BestFit, Carve, Merge, Coalesced, Paged, LiveBytes, Lookup, BlockOk, NoneFree,
        MapsBlock, KeepsRights, Allocates, AllocStep, Elsewhere, Clear, BothTaken, Holds,
        Draws, Drawn;
      ghost var s := Contents();
      RangesOf(s);
      var phy;
      phy, start, rp, rl, t, draws := TakeBoth(length, align);
      if start == 0 {
        b := Block(0, 0);
      } else {
        b := MapTaken(phy, start, length, align, s, rp, rl);
      }
    }

    method GiveBoth(phy: nat, start: nat, length: nat)
      requires Sound() && phy % 0x1000 == 0 && start % 0x1000 == 0 && length % 0x1000 == 0 && 0 < length
      requires 0 < phy && phy + length <= PHYSICAL_END && NoneFree(phys.free, phy, length)
      requires 0 < start && start + length <= LINEAR_END && NoneFree(lin.free, start, length)
      modifies Repr()
      ensures Sound() && fresh(Repr() - old(Repr())) && pml4.model == old(pml4.model) && live == old(live)
      ensures Elsewhere(reserve, pml4) == old(Elsewhere(reserve, pml4)) && reserve.lockCnt == old(reserve.lockCnt)
      ensures Coalesced(old(phys.free)) && phys.free == Merge(old(phys.free), phy, length)
      ensures Coalesced(old(lin.free)) && lin.free == Merge(old(lin.free), start, length)
      ensures phys.availableMemory == old(phys.availableMemory) + length
    {
      hide Sound, Merge, Coalesced, NoneFree, Elsewhere;
      GivePhysical(phy, length);
      GiveLinear(start, length);
    }

    /** Gives both sides of a live block of state s back, once it is unmapped, and forgets the block. */
    method GiveUnmapped(phy: nat, start: nat, length: nat, ghost s: State, ghost f: nat)
      requires Sound() && Consistent(s) && Clear(s, reserve.foreign, pml4.pa) && f in s.live
      requires phys.free == s.phys && lin.free == s.lin && live == s.live
      requires |s.tree.slots| == |pml4.model.slots| == 512 && UnmapsBlock(s.tree, pml4.model, f, s.live[f])
      requires KeepsRights(s.tree, pml4.model)
      requires phy == s.live[f].phys && start == 0x1000 * f && length == 0x1000 * s.live[f].count
      requires phy % 0x1000 == 0 && 0 < length && 0 < phy && phy + length <= PHYSICAL_END
      requires 0 < start && start + length <= LINEAR_END
      requires NoneFree(s.lin, start, length) && NoneFree(s.phys, phy, length)
      modifies Repr()
      ensures Valid() && fresh(Repr() - old(Repr())) && Elsewhere(reserve, pml4) == old(Elsewhere(reserve, pml4))
      ensures FreeStep(s, f, Contents()) && live == s.live - {f} && reserve.lockCnt == old(reserve.lockCnt)
      ensures phys.availableMemory == old(phys.availableMemory) + length
      ensures LiveBytes(live) == LiveBytes(s.live) - length
    {
      hide Sound, Consistent, Merge, Coalesced, LiveBytes, Lookup, NoneFree, UnmapsBlock, KeepsRights, FreeStep,
        Elsewhere, Clear;
      GiveBoth(phy, start, length);
      SetLive(live - {f});
      Released(s, f, Contents());
      ClearFree(s, f, Contents(), reserve.foreign, pml4.pa);
    }

    /** Unmaps and releases a live block. */
    method Free(start: nat, length: nat, ghost f: nat)
      requires Valid() && f in live && start == 0x1000 * f && length == 0x1000 * live[f].count
      modifies Repr()
      ensures Valid() && fresh(Repr() - old(Repr())) && Elsewhere(reserve, pml4) == old(Elsewhere(reserve, pml4))
      ensures FreeStep(old(Contents()), f, Contents()) && live == old(live) - {f}
      ensures reserve.lockCnt == old(reserve.lockCnt)
      ensures phys.availableMemory == old(phys.availableMemory) + length
      ensures phys.availableMemory + LiveBytes(live) == old(phys.availableMemory + LiveBytes(live))
    {
      hide Sound, Consistent, Merge, Coalesced, Paged, LiveBytes, Lookup, BlockOk, NoneFree, UnmapsBlock, KeepsRights,
        FreeStep, Elsewhere, Clear;
      ghost var s, b := Contents(), live[f];
      RangesOf(s);
      var phy := PhysicalOf(start, f);
      assert phy != 0 && phy % 0x1000 == 0;
      UnmapBlock(start, length, f, b);
      GiveUnmapped(phy, start, length, s, f);
    }

    lemma ValidParts()
      requires Valid()
      ensures Consistent(Contents()) && Ready(pml4, reserve) && Clear(Contents(), reserve.foreign, pml4.pa)
    {
      hide PhysicalSpaceManager.Valid, LinearSpaceManager.Valid, Consistent, Ready, Clear;
    }

    /** No page table is in memory that the manager hands out: not in free memory, and not in a live block. */
    lemma TablesOutside(n: PageTreeNode, a: nat)
      requires Valid() && (n in pml4.tables || n in reserve.outstanding) && n.pa <= a < n.pa + 0x1000
      ensures !Managed(Contents(), a)
    {
      hide Valid, Consistent, Managed, Ready;
      ValidParts();
      FrameOf(pml4, reserve, n);
      FrameStart(n.pa, a);
      if Managed(Contents(), a) {
        ManagedFrame(Contents(), a);
      }
    }
  }

  lemma FrameStart(pa: nat, a: nat)
    requires pa % 0x1000 == 0 && pa <= a < pa + 0x1000
    ensures a - a % 0x1000 == pa
  {
  }

  /** A table other than the root is in a frame of the reserve's own. */
  lemma FrameOf(pml4: PageTreeNode, reserve: Reserve, n: PageTreeNode)
    requires Ready(pml4, reserve) && (n in pml4.tables || n in reserve.outstanding)
    ensures n.pa % 0x1000 == 0 && (n.pa == pml4.pa || n.pa !in reserve.foreign)
  {
    hide PageTreeNode.Valid, Tidy;
    ValidShape(3, pml4);
  }

  /** The managed memory is foreign to the reserve, and the root is not in it. */
  ghost predicate Clear(s: State, foreign: set<nat>, root: nat) {
    forall a: nat :: a % 0x1000 == 0 && Managed(s, a) ==> a in foreign && a != root
  }

  /** So is memory that may be given to the manager. */
  ghost predicate OffTables(foreign: set<nat>, root: nat, start: nat, length: nat) {
    forall a: nat :: a % 0x1000 == 0 && start <= a < start + length ==> a in foreign && a != root
  }

  lemma NothingClear(t: Table, foreign: set<nat>, root: nat)
    ensures Clear(State({}, {}, map[], t), foreign, root)
  {
  }

  lemma ClearGift(s: State, start: nat, length: nat, s': State, foreign: set<nat>, root: nat)
    requires Clear(s, foreign, root) && PhysicalGift(s, start, length, s') && OffTables(foreign, root, start, length)
    ensures Clear(s', foreign, root)
  {
    hide Managed, PhysicalGift;
    forall a: nat | a % 0x1000 == 0 && Managed(s', a)
      ensures a in foreign && a != root
    {
      GiftManaged(s, start, length, s', a);
    }
  }

  lemma ClearSame(s: State, s': State, foreign: set<nat>, root: nat)
    requires Clear(s, foreign, root) && s'.phys == s.phys && s'.live == s.live
    ensures Clear(s', foreign, root)
  {
    hide IsFree, InLiveBlock;
    forall a: nat | a % 0x1000 == 0 && Managed(s', a)
      ensures a in foreign && a != root
    {
      assert Managed(s, a);
    }
  }

  lemma ClearAlloc(s: State, rp: RangePair, rl: RangePair, f: nat, b: Block, s': State, foreign: set<nat>, root: nat)
    requires Consistent(s) && AllocStep(s, rp, rl, f, b, s') && Clear(s, foreign, root)
    ensures Clear(s', foreign, root)
  {
    hide Managed, Consistent, AllocStep;
    forall a: nat | a % 0x1000 == 0 && Managed(s', a)
      ensures a in foreign && a != root
    {
      AllocManaged(s, rp, rl, f, b, s', a);
    }
  }

  lemma ClearFree(s: State, f: nat, s': State, foreign: set<nat>, root: nat)
    requires Consistent(s) && FreeStep(s, f, s') && Clear(s, foreign, root)
    ensures Clear(s', foreign, root)
  {
    hide Managed, Consistent, FreeStep;
    forall a: nat | a % 0x1000 == 0 && Managed(s', a)
      ensures a in foreign && a != root
    {
      FreeManaged(s, f, s', a);
    }
  }

  /** The ranges are taken out of a physical and out of a linear range. */
  ghost predicate BothTaken(R: set<RangePair>, L: set<RangePair>, R': set<RangePair>, L': set<RangePair>, length: nat,
                            phy: nat, start: nat, rp: RangePair, rl: RangePair)
  {
    && phy > 0 && start > 0 && rp in R && Contains(rp, phy, length) && R' == Carve(R, rp, phy, length)
    && rl in L && Contains(rl, start, length) && L' == Carve(L, rl, start, length)
  }

  lemma TakenBoth(R: set<RangePair>, L: set<RangePair>, R': set<RangePair>, L': set<RangePair>, length: nat, phy: nat,
                  start: nat, rp: RangePair, rl: RangePair)
    requires phy > 0 && start > 0 && rp in R && Contains(rp, phy, length) && R' == Carve(R, rp, phy, length)
    requires rl in L && Contains(rl, start, length) && L' == Carve(L, rl, start, length)
    ensures BothTaken(R, L, R', L', length, phy, start, rp, rl)
  {
    hide Carve;
  }

  lemma BothParts(R: set<RangePair>, L: set<RangePair>, R': set<RangePair>, L': set<RangePair>, length: nat, phy: nat,
                  start: nat, rp: RangePair, rl: RangePair)
    requires BothTaken(R, L, R', L', length, phy, start, rp, rl)
    ensures phy > 0 && start > 0 && rp in R && Contains(rp, phy, length) && R' == Carve(R, rp, phy, length)
    ensures rl in L && Contains(rl, start, length) && L' == Carve(L, rl, start, length)
  {
    hide Carve;
  }

  lemma Nothing(t: Table)
    requires |t.slots| == 512 && exists q: nat :: q < LINEAR_PAGES && Lookup(3, t, q).Some?
    ensures Consistent(State({}, {}, map[], t))
  {
    hide Lookup;
    var q: nat :| q < LINEAR_PAGES && Lookup(3, t, q).Some?;
    assert Unmanaged(State({}, {}, map[], t), q);
  }

  lemma RangesOf(s: State)
    requires Consistent(s)
    ensures Coalesced(s.phys) && Paged(s.phys, PHYSICAL_END) && Coalesced(s.lin) && Paged(s.lin, LINEAR_END)
  {
  }

  lemma RangeInSpace(R: set<RangePair>, r: RangePair, start: nat, length: nat)
    requires Paged(R, LINEAR_END) && r in R && Contains(r, start, length)
    ensures start + length <= LINEAR_END
  {
  }

  /** The ranges taken for a block make one, and none of its pages is mapped yet. */
  lemma FreshBlock(s: State, rp: RangePair, rl: RangePair, start: nat, length: nat, f: nat, b: Block)
    requires Consistent(s) && rp in s.phys && Contains(rp, b.phys, length) && rl in s.lin && Contains(rl, start, length)
    requires 0 < length && length % 0x1000 == 0 && b.count == length / 0x1000
    requires start + length <= LINEAR_END ==> Indexable(f, b.count)
    requires 0 < start && start % 0x1000 == 0 && f == start / 0x1000 && 0 < b.phys && b.phys % 0x1000 == 0
    ensures BlockOk(f, b) && start == 0x1000 * f && length == 0x1000 * b.count
    ensures forall q: nat :: InBlock(f, b, q) ==> Lookup(3, s.tree, q) == None
  {
    hide Lookup, Coalesced, BlocksOk, BlocksApart, Anchored;
    ContainedFree(s.lin, rl, start, length);
    forall q: nat | InBlock(f, b, q)
      ensures Lookup(3, s.tree, q) == None
    {
      PageInRange(f, b, q);
      assert IsFree(s.lin, 0x1000 * q);
    }
  }

  lemma Allocated(s: State, rp: RangePair, rl: RangePair, start: nat, length: nat, f: nat, b: Block, s': State)
    requires Consistent(s) && rp in s.phys && Contains(rp, b.phys, length) && rl in s.lin && Contains(rl, start, length)
    requires BlockOk(f, b) && start == 0x1000 * f && length == 0x1000 * b.count
    requires s'.phys == Carve(s.phys, rp, b.phys, length) && s'.lin == Carve(s.lin, rl, start, length)
    requires s'.live == s.live[f := b] && |s.tree.slots| == |s'.tree.slots| == 512 && MapsBlock(s.tree, s'.tree, f, b)
    requires KeepsRights(s.tree, s'.tree)
    ensures AllocStep(s, rp, rl, f, b, s') && Consistent(s') && f !in s.live
    ensures LiveBytes(s'.live) == LiveBytes(s.live) + length
  {
    hide Consistent, Lookup, Carve, LiveBytes, MapsBlock, KeepsRights;
    AllocKeeps(s, rp, rl, f, b, s');
    LiveBytesAdd(s.live, f, b);
  }

  lemma Released(s: State, f: nat, s': State)
    requires Consistent(s) && f in s.live && Coalesced(s.phys) && Coalesced(s.lin)
    requires s'.phys == Merge(s.phys, s.live[f].phys, 0x1000 * s.live[f].count)
    requires s'.lin == Merge(s.lin, 0x1000 * f, 0x1000 * s.live[f].count) && s'.live == s.live - {f}
    requires |s.tree.slots| == |s'.tree.slots| == 512 && UnmapsBlock(s.tree, s'.tree, f, s.live[f])
    requires KeepsRights(s.tree, s'.tree)
    ensures FreeStep(s, f, s') && Consistent(s')
    ensures LiveBytes(s.live) == LiveBytes(s'.live) + 0x1000 * s.live[f].count
  {
    hide Consistent, Lookup, Merge, LiveBytes, UnmapsBlock, KeepsRights, Coalesced;
    FreeKeeps(s, f, s');
    LiveBytesRemove(s.live, f);
  }

  lemma FitUndone(R: set<RangePair>, length: nat, r: RangePair)
    requires Coalesced(R) && Paged(R, PHYSICAL_END) && BestFit(R, length, r) && length > 0
    ensures Contains(r, r.x, length) && 0 < r.x && r.x + length <= PHYSICAL_END
    ensures Coalesced(Carve(R, r, r.x, length)) && NoneFree(Carve(R, r, r.x, length), r.x, length)
    ensures Merge(Carve(R, r, r.x, length), r.x, length) == R
  {
    hide Coalesced, Carve, Merge, NoneFree;
    MergeUndoesCarve(R, r, r.x, length);
  }
}
