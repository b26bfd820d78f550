/** The managers of physical and of linear memory, each over a pair of range trees. */
module SpaceManagers {
  import opened RangePairs
  import opened RangeSets
  import opened RangeTrees
  import opened AddressSpaceManager
  import opened Placement
  import opened Words
  import AvlModel
  import AslrModel
  import AslrTree
  import Pager
  import MemoryState

  /** Free ranges made of whole pages below `end`, kept in two trees. */
  ghost predicate Pages(treeStart: RangeTree, treeLength: RangeTree, R: set<RangePair>, end: nat)
    reads treeStart, treeStart.repr, treeLength, treeLength.repr
  {
    Trees(treeStart, treeLength, R) && Coalesced(R) && MemoryState.Paged(R, end)
  }

  lemma PagesParts(treeStart: RangeTree, treeLength: RangeTree, R: set<RangePair>, end: nat)
    requires Pages(treeStart, treeLength, R, end)
    ensures Trees(treeStart, treeLength, R) && Coalesced(R) && MemoryState.Paged(R, end)
    ensures treeStart.Valid() && treeStart in treeStart.repr && treeLength.Valid() && treeLength in treeLength.repr
    ensures multiset(treeLength.items) == multiset(FlipAll(R))
  {
    hide AtMost, RangeTree.Valid, Coalesced, MemoryState.Paged;
  }

  lemma PagesIntro(treeStart: RangeTree, treeLength: RangeTree, R: set<RangePair>, end: nat)
    requires Trees(treeStart, treeLength, R) && Coalesced(R) && MemoryState.Paged(R, end)
    ensures Pages(treeStart, treeLength, R, end) && treeStart in treeStart.repr && treeLength in treeLength.repr
  {
    hide AtMost, RangeTree.Valid, Coalesced, MemoryState.Paged;
  }

  /** No free range holds length bytes. */
  ghost predicate NoneHolds(R: set<RangePair>, length: nat) {
    forall r :: r in R ==> r.y < length
  }

  /** r is the shortest free range that holds length bytes, and the lowest of those as short. */
  ghost predicate BestFit(R: set<RangePair>, length: nat, r: RangePair) {
    r in R && r.y >= length && forall s :: s in R && s.y >= length ==> r.y < s.y || (r.y == s.y && r.x <= s.x)
  }

  lemma BoundIsBestFit(R: set<RangePair>, items: seq<RangePair>, length: nat, found: bool, bound: RangePair)
    requires multiset(items) == multiset(FlipAll(R))
    requires found ==> AvlModel.Nearest(items, RangePair(length, 0), false, bound)
    requires !found ==> forall z :: z in items ==> !AvlModel.Within(z, RangePair(length, 0), false)
    ensures found ==> BestFit(R, length, Flip(bound))
    ensures !found ==> NoneHolds(R, length)
  {
    SameMembers(items, FlipAll(R));
    forall r | r in R
      ensures Flip(r) in items && (r.y >= length ==> AvlModel.Within(Flip(r), RangePair(length, 0), false))
    {
    }
    if found {
      assert bound in FlipAll(R) && bound == Flip(Flip(bound));
      forall s | s in R && s.y >= length
        ensures bound.x < s.y || (bound.x == s.y && bound.y <= s.x)
      {
        assert AvlModel.Within(Flip(s), bound, false);
      }
    }
  }

  class PhysicalSpaceManager {
    const treeStart: RangeTree
    const treeLength: RangeTree
    var availableMemory: nat

    ghost var free: set<RangePair>

    ghost predicate Valid()
      reads this, treeStart, treeStart.repr, treeLength, treeLength.repr
      ensures Valid() ==> treeStart in treeStart.repr && treeLength in treeLength.repr
    {
      Pages(treeStart, treeLength, free, MemoryState.PHYSICAL_END) && availableMemory == Total(free)
    }

    ghost function Repr(): set<object>
      reads treeStart, treeLength
    {
      treeStart.repr + treeLength.repr
    }

    constructor ()
      ensures Valid() && free == {} && availableMemory == 0 && fresh(Repr()) && this !in Repr()
    {
      hide AtMost, RangeTree.Valid, Trees, Pages;
      treeStart := new RangeTree();
      treeLength := new RangeTree();
      availableMemory, free := 0, {};
      new;
      NoTrees(treeStart, treeLength);
      PagesIntro(treeStart, treeLength, {}, MemoryState.PHYSICAL_END);
    }

    /** Takes length bytes from the start of the best-fitting free range. When none is long enough, 0 is returned and
        the reserve stays locked. */
    method Alloc(length: nat, reserve: Pager.Reserve) returns (start: nat, ghost super: RangePair)
      requires Valid() && this !in Repr() && reserve !in Repr() && length % 0x1000 == 0 && length > 0
      modifies this, Repr(), reserve`lockCnt
      ensures Valid() && fresh(Repr() - old(Repr()))
      ensures start == 0 <==> NoneHolds(old(free), length)
      ensures start == 0 ==> free == old(free) && reserve.lockCnt == old(reserve.lockCnt) + 1
      ensures start != 0 ==>
                && reserve.lockCnt == old(reserve.lockCnt) && start % 0x1000 == 0
                && BestFit(old(free), length, super) && super in old(free) && super.x == start
                && Contains(super, start, length)
                && Coalesced(old(free)) && free == Carve(old(free), super, start, length)
      ensures availableMemory == old(availableMemory) - if start == 0 then 0 else length
    {
      hide AtMost, RangeTree.Valid, Total, Coalesced, Carve, CarvePair, AvlModel.Nearest, AvlModel.Within, Trees, Pages,
        BestFit, NoneHolds, FlipAll, MemoryState.Paged;
      PagesParts(treeStart, treeLength, free, MemoryState.PHYSICAL_END);
      reserve.Lock();
      var found, bound := treeLength.FindBound(RangePair(length, 0), false);
      BoundIsBestFit(free, treeLength.items, length, found, bound);
      if !found {
        return 0, bound;
      }
      super := Flip(bound);
      assert bound.x >= length;
      BestFitSplits(free, length, super);
      AllocSubrangeFromSuperRange(treeStart, treeLength, RangePair(length, bound.y), bound, free);
      PagesIntro(treeStart, treeLength, Carve(free, super, super.x, length), MemoryState.PHYSICAL_END);
      free := Carve(free, super, super.x, length);
      availableMemory := availableMemory - length;
      reserve.Unlock();
      return bound.y, super;
    }

    /** Gives start..start+length, no byte of which is free, back. */
    method Free(start: nat, length: nat, reserve: Pager.Reserve)
      requires Valid() && this !in Repr() && reserve !in Repr() && start % 0x1000 == 0 && length % 0x1000 == 0
      requires 0 < start && 0 < length && start + length <= MemoryState.PHYSICAL_END && NoneFree(free, start, length)
      modifies this, Repr(), reserve`lockCnt
      ensures Valid() && fresh(Repr() - old(Repr())) && reserve.lockCnt == old(reserve.lockCnt)
      ensures Coalesced(old(free)) && free == Merge(old(free), start, length)
      ensures availableMemory == old(availableMemory) + length
    {
      hide AtMost, RangeTree.Valid, Total, Coalesced, Merge, NoneFree, Trees, Pages, MemoryState.Paged;
      PagesParts(treeStart, treeLength, free, MemoryState.PHYSICAL_END);
      reserve.Lock();
      var _ := AddressSpaceManager.Free(treeStart, treeLength, start, length, free);
      MergeCoalesced(free, start, length);
      MemoryState.MergePaged(free, start, length, MemoryState.PHYSICAL_END);
      PagesIntro(treeStart, treeLength, Merge(free, start, length), MemoryState.PHYSICAL_END);
      TotalMerge(free, start, length);
      free := Merge(free, start, length);
      availableMemory := availableMemory + length;
      reserve.Unlock();
    }
  }

  /** Taking length bytes from the start of r. */
  lemma BestFitSplits(R: set<RangePair>, length: nat, r: RangePair)
    requires Coalesced(R) && MemoryState.Paged(R, MemoryState.PHYSICAL_END) && BestFit(R, length, r)
    requires length > 0 && length % 0x1000 == 0
    ensures !NoneHolds(R, length)
    ensures r in R && r.y >= length && Contains(r, r.x, length) && 0 < r.x && r.x % 0x1000 == 0
    ensures CarvePair(R, RangePair(length, r.x), Flip(r)) == Carve(R, r, r.x, length)
    ensures Coalesced(Carve(R, r, r.x, length))
    ensures MemoryState.Paged(Carve(R, r, r.x, length), MemoryState.PHYSICAL_END)
    ensures Total(Carve(R, r, r.x, length)) == Total(R) - length
  {
    hide Coalesced, Total, Carve, CarvePair;
    CarvePairIsCarve(R, RangePair(length, r.x), Flip(r));
    CarveCoalesced(R, r, r.x, length);
    MemoryState.CarvePaged(R, r, r.x, length, MemoryState.PHYSICAL_END);
    TotalCarve(R, r, r.x, length);
  }

  class LinearSpaceManager {
    const treeStart: RangeTree
    const treeLength: RangeTree

    ghost var free: set<RangePair>

    ghost predicate Valid()
      reads this, treeStart, treeStart.repr, treeLength, treeLength.repr
      ensures Valid() ==> treeStart in treeStart.repr && treeLength in treeLength.repr
    {
      Pages(treeStart, treeLength, free, MemoryState.LINEAR_END)
    }

    ghost function Repr(): set<object>
      reads treeStart, treeLength
    {
      treeStart.repr + treeLength.repr
    }

    constructor ()
      ensures Valid() && free == {} && fresh(Repr()) && this !in Repr()
    {
      hide AtMost, RangeTree.Valid, Trees, Pages;
      treeStart := new RangeTree();
      treeLength := new RangeTree();
      free := {};
      new;
      NoTrees(treeStart, treeLength);
      PagesIntro(treeStart, treeLength, {}, MemoryState.LINEAR_END);
    }

    /** Takes length bytes, aligned, from a place chosen at random. It looks for align - 1 bytes more than it needs;
        when no range is that long, 0 is returned and the reserve stays locked. The start is the place that the words
        drawn lead to in the tree t of the free ranges, rounded up. */
    method AllocAslr(length: nat, align: nat, source: AslrTree.RandomSource, reserve: Pager.Reserve)
      returns (start: nat, ghost super: RangePair, ghost t: AvlModel.Tree, ghost draws: seq<nat>)
      requires Valid() && this !in Repr() && reserve !in Repr() && source !in Repr()
      requires length % 0x1000 == 0 && align % 0x1000 == 0 && 0 < length && 0 < align && length + align <= LIMIT
      modifies this, Repr(), source, reserve`lockCnt
      ensures Valid() && fresh(Repr() - old(Repr())) && start % align == 0
      ensures start == 0 <==> NoneHolds(old(free), length + align - 1)
      ensures start == 0 ==> free == old(free) && reserve.lockCnt == old(reserve.lockCnt) + 1
      ensures source.drawn == old(source.drawn) + draws && |draws| == AslrModel.Draws(t, length + align - 1)
      ensures Holds(t, old(free)) && (start != 0 ==> Drawn(t, length + align - 1, align, draws, super, start))
      ensures start != 0 ==>
                && reserve.lockCnt == old(reserve.lockCnt)
                && super in old(free) && Contains(super, start, length)
                && Coalesced(old(free)) && free == Carve(old(free), super, start, length)
    {
      hide AtMost, RangeTree.Valid, Coalesced, Carve, CarvePair, Trees, Pages, NoneHolds, FlipAll, MemoryState.Paged,
        AvlModel.InOrder, AslrModel.Draws, AslrModel.Pick, AslrTree.Located, Drawn, RangePairs.Sorted;
      PagesParts(treeStart, treeLength, free, MemoryState.LINEAR_END);
      reserve.Lock();
      var found, s, bound;
      found, s, bound, draws := treeLength.FindRandomRange(length + align - 1, source);
      t := treeLength.Model();
      LongRange(free, treeLength.items, length + align - 1);
      if !found {
        return 0, bound, t, draws;
      }
      start := s;
      if start % align != 0 {
        start := start + (align - start % align);
      }
      super := Flip(bound);
      RoundUp(s, align, start);
      ItIsDrawn(t, length + align - 1, align, draws, bound, s, start);
      FlippedMember(free, treeLength.items, bound);
      assert start >= bound.y && start + length <= bound.y + bound.x;
      AlignedSplits(free, length, align, start, super);
      AllocSubrangeFromSuperRange(treeStart, treeLength, RangePair(length, start), bound, free);
      PagesIntro(treeStart, treeLength, Carve(free, super, start, length), MemoryState.LINEAR_END);
      free := Carve(free, super, start, length);
      reserve.Unlock();
    }

    method Free(start: nat, length: nat, reserve: Pager.Reserve)
      requires Valid() && this !in Repr() && reserve !in Repr() && start % 0x1000 == 0 && length % 0x1000 == 0
      requires 0 < start && 0 < length && start + length <= MemoryState.LINEAR_END && NoneFree(free, start, length)
      modifies this, Repr(), reserve`lockCnt
      ensures Valid() && fresh(Repr() - old(Repr())) && reserve.lockCnt == old(reserve.lockCnt)
      ensures Coalesced(old(free)) && free == Merge(old(free), start, length)
    {
      hide AtMost, RangeTree.Valid, Coalesced, Merge, NoneFree, Trees, Pages, MemoryState.Paged;
      PagesParts(treeStart, treeLength, free, MemoryState.LINEAR_END);
      reserve.Lock();
      var _ := AddressSpaceManager.Free(treeStart, treeLength, start, length, free);
      MergeCoalesced(free, start, length);
      MemoryState.MergePaged(free, start, length, MemoryState.LINEAR_END);
      PagesIntro(treeStart, treeLength, Merge(free, start, length), MemoryState.LINEAR_END);
      free := Merge(free, start, length);
      reserve.Unlock();
    }
  }

  lemma LongRange(R: set<RangePair>, items: seq<RangePair>, size: nat)
    requires multiset(items) == multiset(FlipAll(R))
    ensures (exists p :: p in items && p.x >= size) <==> !NoneHolds(R, size)
  {
    SameMembers(items, FlipAll(R));
    if !NoneHolds(R, size) {
      var r :| r in R && r.y >= size;
      assert Flip(r) in FlipAll(R) && Flip(r) in items;
    }
  }

  lemma FlippedMember(R: set<RangePair>, items: seq<RangePair>, p: RangePair)
    requires multiset(items) == multiset(FlipAll(R)) && p in items
    ensures Flip(p) in R && Flip(Flip(p)) == p
  {
    SameMembers(items, FlipAll(R));
  }

  lemma ItIsDrawn(t: AvlModel.Tree, size: nat, align: nat, draws: seq<nat>, bound: RangePair, s: nat, start: nat)
    requires align > 0 && |draws| == AslrModel.Draws(t, size)
    requires AslrTree.Located(t, size, AslrModel.Pick(t, size, draws), s, bound)
    requires start % align == 0 && s <= start < s + align
    ensures Drawn(t, size, align, draws, Flip(bound), start)
  {
    hide AslrTree.Located, AslrModel.Pick, AslrModel.Draws;
    assert Flip(Flip(bound)) == bound;
    assert Leads(t, size, draws, Flip(bound), s);
  }

  lemma RoundUp(s: nat, align: nat, start: nat)
    requires align > 0
    requires start == if s % align == 0 then s else s + (align - s % align)
    ensures start % align == 0 && s <= start < s + align
  {
    var q, r := Divide(s, align);
    if r != 0 {
      assert start == align * (q + 1) + 0;
      DivModUnique(start, align, q + 1, 0);
    }
  }

  /** A multiple of a multiple of the page size is one of the page size. */
  lemma PageMultiple(start: nat, align: nat)
    requires align > 0 && align % 0x1000 == 0 && start % align == 0
    ensures start % 0x1000 == 0
  {
    var k, _ := Divide(start, align);
    var a, _ := Divide(align, 0x1000);
    assert start == 0x1000 * (a * k) + 0 by {
      assert 0x1000 * a * k == 0x1000 * (a * k);
    }
    DivModUnique(start, 0x1000, a * k, 0);
  }

  lemma AlignedSplits(R: set<RangePair>, length: nat, align: nat, start: nat, r: RangePair)
    requires Coalesced(R) && MemoryState.Paged(R, MemoryState.LINEAR_END) && r in R && Contains(r, start, length)
    requires 0 < length && length % 0x1000 == 0 && align > 0 && align % 0x1000 == 0 && start % align == 0
    ensures 0 < start
    ensures CarvePair(R, RangePair(length, start), Flip(r)) == Carve(R, r, start, length)
    ensures Coalesced(Carve(R, r, start, length))
    ensures MemoryState.Paged(Carve(R, r, start, length), MemoryState.LINEAR_END)
  {
    hide Coalesced, Carve, CarvePair;
    PageMultiple(start, align);
    CarvePairIsCarve(R, RangePair(length, start), Flip(r));
    CarveCoalesced(R, r, start, length);
    MemoryState.CarvePaged(R, r, start, length, MemoryState.LINEAR_END);
  }
}
