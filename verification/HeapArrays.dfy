/** The heap's array space: blocks of up to half a chunk, cut from chunks of 512 KB from the memory manager. */
module HeapArrays {
  import opened RangePairs
  import opened RangeSets
  import opened RangeTrees
  import opened AddressSpaceManager
  import opened HeapTiling
  import opened MemoryManager
  import opened SpaceManagers
  import opened MemoryState
  import opened Words
  import AvlModel
  import Pager

  class ArraySpace {
    const treeStart: RangeTree
    const treeLength: RangeTree
    const memory: MemoryManager

    /** The free ranges, the addresses of the chunks, and the live blocks. */
    ghost var free: set<RangePair>
    ghost var owned: set<nat>
    ghost var live: Live

    ghost function TreeObjects(): set<object>
      reads treeStart, treeLength
    {
      treeStart.repr + treeLength.repr
    }

    ghost function Repr(): set<object>
      reads treeStart, treeLength, memory, memory.phys.treeStart, memory.phys.treeLength, memory.lin.treeStart
      reads memory.lin.treeLength, memory.pml4
    {
      TreeObjects() + {this} + memory.Repr()
    }

    /** The parts are sound and share no objects. */
    ghost predicate Sound()
      reads `free, treeStart, treeStart.repr, treeLength, treeLength.repr, memory, memory.phys, memory.lin, memory.pml4
      reads memory.pml4.tables, memory.reserve`outstanding
      reads memory.phys.treeStart, memory.phys.treeStart.repr, memory.phys.treeLength, memory.phys.treeLength.repr
      reads memory.lin.treeStart, memory.lin.treeStart.repr, memory.lin.treeLength, memory.lin.treeLength.repr
    {
      && Trees(treeStart, treeLength, free) && memory.Valid()
      && TreeObjects() !! memory.Repr() && this !in TreeObjects() && this !in memory.Repr()
    }

    ghost predicate Valid()
      reads this, treeStart, treeStart.repr, treeLength, treeLength.repr, memory, memory.phys, memory.lin, memory.pml4
      reads memory.pml4.tables, memory.reserve`outstanding
      reads memory.phys.treeStart, memory.phys.treeStart.repr, memory.phys.treeLength, memory.phys.treeLength.repr
      reads memory.lin.treeStart, memory.lin.treeStart.repr, memory.lin.treeLength, memory.lin.treeLength.repr
    {
      Sound() && Tiled(free, owned, live) && Backed(owned, memory.live)
    }

    constructor (memory: MemoryManager)
      requires memory.Valid()
      ensures Valid() && this.memory == memory && free == {} && owned == {} && live == map[]
      ensures fresh(Repr() - memory.Repr())
    {
      hide MemoryManager.Valid, RangeTree.Valid, Tiled, Trees, Sound, Repr;
      ghost var objects := memory.Repr();
      this.memory := memory;
      treeStart := new RangeTree();
      treeLength := new RangeTree();
      free, owned, live := {}, {}, map[];
      new;
      assert memory.Repr() == objects && treeStart !in objects && treeLength !in objects && this !in objects;
      NewSound();
      NothingTiled();
    }

    lemma NewSound()
      requires memory.Valid() && free == {} && this !in memory.Repr() && treeStart != treeLength
      requires treeStart.Valid() && treeStart.items == [] && treeStart.repr == {treeStart}
      requires treeLength.Valid() && treeLength.items == [] && treeLength.repr == {treeLength}
      requires treeStart !in memory.Repr() && treeLength !in memory.Repr()
      ensures Sound() && Repr() == {this, treeStart, treeLength} + memory.Repr()
    {
      hide MemoryManager.Valid, MemoryManager.Repr, RangeTree.Valid, Trees;
      assert TreeObjects() == {treeStart, treeLength};
      NoTrees(treeStart, treeLength);
    }

    // Operations of the parts, one by one.

    /** Takes sub, a pair (length, start), out of the range `super`. */
    method Cut(sub: RangePair, super: RangePair)
      requires Sound() && Coalesced(free) && Flip(super) in free && super.y < End(sub) <= End(super)
      modifies Repr()
      ensures Sound() && fresh(Repr() - old(Repr()))
      ensures owned == old(owned) && live == old(live) && memory.Contents() == old(memory.Contents())
      ensures memory.reserve.lockCnt == old(memory.reserve.lockCnt)
      ensures free == CarvePair(old(free), sub, super)
    {
      hide AtMost, MemoryManager.Valid, RangeTree.Valid, Trees, CarvePair;
      TreesRoots(treeStart, treeLength, free);
      AllocSubrangeFromSuperRange(treeStart, treeLength, sub, super, free);
      free := CarvePair(free, sub, super);
    }

    /** Gives start..start+size to the free ranges, and says which range it has become part of. */
    method Give(start: nat, size: nat) returns (merged: RangePair)
      requires Sound() && Coalesced(free) && NoneFree(free, start, size) && 0 < size && start + size < LIMIT
      modifies Repr()
      ensures Sound() && fresh(Repr() - old(Repr()))
      ensures owned == old(owned) && live == old(live) && memory.Contents() == old(memory.Contents())
      ensures memory.reserve.lockCnt == old(memory.reserve.lockCnt)
      ensures free == Merge(old(free), start, size) && merged in free && Contains(merged, start, size)
    {
      hide AtMost, MemoryManager.Valid, RangeTree.Valid, Trees, Merge, Coalesced, NoneFree;
      TreesRoots(treeStart, treeLength, free);
      merged := AddressSpaceManager.Free(treeStart, treeLength, start, size, free);
      free := Merge(free, start, size);
    }

    /** Takes a free range out. */
    method Take(range: RangePair) returns (ghost super: RangePair)
      requires Sound() && Coalesced(free) && range.x > 0 && AllFree(free, range.y, range.x)
      modifies Repr()
      ensures Sound() && fresh(Repr() - old(Repr()))
      ensures owned == old(owned) && live == old(live) && memory.Contents() == old(memory.Contents())
      ensures memory.reserve.lockCnt == old(memory.reserve.lockCnt)
      ensures super in old(free) && Contains(super, range.y, range.x) && free == Carve(old(free), super, range.y,
          range.x)
    {
      hide AtMost, MemoryManager.Valid, RangeTree.Valid, Trees, Carve, Coalesced, AllFree;
      TreesRoots(treeStart, treeLength, free);
      super := AddressSpaceManager.Alloc(treeStart, treeLength, range, free);
      free := Carve(free, super, range.y, range.x);
    }

    method NewChunk() returns (chunk: nat)
      requires Sound() && MemoryLeft()
      modifies Repr()
      ensures Sound() && fresh(Repr() - old(Repr()))
      ensures owned == old(owned) && live == old(live) && free == old(free)
      ensures ChunksOk({chunk}) && ChunkTaken(old(memory.live), memory.live, chunk)
    {
      hide MemoryManager.Valid, RangeTree.Valid, Trees, NoneHolds, AllocStep, BestFit, LiveBytes, Pager.Elsewhere;
      TreesRoots(treeStart, treeLength, free);
      ghost var b, rp, rl, t, draws;
      ShortIndexable(CHUNK / 0x1000, CHUNK);
      chunk, b, rp, rl, t, draws := memory.Alloc(CHUNK, CHUNK);
      assert chunk != 0;
      assert 0x1000 * b.count == CHUNK && 0x1000 * (chunk / 0x1000) == chunk;
    }

    method DropChunk(chunk: nat)
      requires Sound() && chunk % 0x1000 == 0 && chunk / 0x1000 in memory.live
      requires 0x1000 * memory.live[chunk / 0x1000].count == CHUNK
      modifies Repr()
      ensures Sound() && fresh(Repr() - old(Repr()))
      ensures owned == old(owned) && live == old(live) && free == old(free)
      ensures memory.live == old(memory.live) - {chunk / 0x1000}
    {
      hide MemoryManager.Valid, RangeTree.Valid, Trees, FreeStep, LiveBytes, Pager.Elsewhere;
      TreesRoots(treeStart, treeLength, free);
      memory.Free(chunk, CHUNK, chunk / 0x1000);
    }

    // The operations on blocks.

    /** Allocates a block of size bytes, from the best-fitting free range or at the start of a new chunk. */
    method AllocBlock(size: nat) returns (newPtr: nat)
      requires Valid() && 0 < size <= CHUNK / 2
      requires NoneHolds(free, size) ==> MemoryLeft()
      modifies Repr()
      ensures Valid() && fresh(Repr() - old(Repr()))
      ensures newPtr > 0 && newPtr !in old(live) && live == old(live)[newPtr := size]
      ensures !NoneHolds(old(free), size) ==>
                owned == old(owned) && memory.Contents() == old(memory.Contents())
                && exists r :: BestFit(old(free), size, r) && newPtr == r.x
      ensures NoneHolds(old(free), size) ==> ChunksOk({newPtr}) && owned == old(owned) + {newPtr}
      ensures NoneHolds(old(free), size) ==> ChunkTaken(old(memory.live), memory.live, newPtr)
      ensures Kept(old(owned), owned, old(memory.live), memory.live)
    {
      hide ChunkTaken, Sound, Tiled, NoneHolds, BestFit, Backed, MemoryLeft;
      var found, p := FindFit(size);
      if found {
        newPtr := FromRange(p, size);
      } else {
        newPtr := FromChunk(size);
      }
    }

    /** Cuts a block from the start of a free range p, a pair (length, start). The source swaps the parts of the pair
        (length, start) that the cut expects. */
    method FromRange(p: RangePair, size: nat) returns (newPtr: nat)
      requires Valid() && 0 < size <= CHUNK / 2 && BestFit(free, size, Flip(p))
      modifies Repr()
      ensures Valid() && fresh(Repr() - old(Repr()))
      ensures newPtr > 0 && newPtr !in old(live) && live == old(live)[newPtr := size] && newPtr == p.y
      ensures owned == old(owned) && memory.Contents() == old(memory.Contents())
    {
      hide Sound, Tiled, NoneHolds, BestFit, Backed, Carve, CarvePair, Coalesced;
      TiledCoalesced(free, owned, live);
      newPtr := p.y;
      FitFacts(free, owned, live, Flip(p), size);
      Cut(RangePair(p.y, size), p);
      Enter(owned, live[newPtr := size]);
    }

    /** Puts a block at the start of a new chunk; the rest of the chunk becomes free. */
    method FromChunk(size: nat) returns (newPtr: nat)
      requires Valid() && 0 < size <= CHUNK / 2 && MemoryLeft()
      modifies Repr()
      ensures Valid() && fresh(Repr() - old(Repr()))
      ensures newPtr > 0 && newPtr !in old(live) && live == old(live)[newPtr := size]
      ensures ChunksOk({newPtr}) && owned == old(owned) + {newPtr} && ChunkTaken(old(memory.live), memory.live, newPtr)
      ensures Kept(old(owned), owned, old(memory.live), memory.live)
    {
      hide ChunkTaken, Sound, Tiled, Backed, Merge, MemoryLeft, Coalesced, NoneFree;
      TiledCoalesced(free, owned, live);
      var chunkPtr := NewChunk();
      BackedNew(owned, old(memory.live), memory.live, chunkPtr);
      TileChunk(free, owned, live, chunkPtr, size);
      newPtr := chunkPtr;
      PutFirst(chunkPtr, size);
    }

    /** Puts a block at the start of a chunk that is not tiled yet. */
    method PutFirst(chunk: nat, size: nat)
      requires Sound() && Coalesced(free) && 0 < size < CHUNK && chunk + CHUNK < LIMIT
      requires NoneFree(free, chunk + size, CHUNK - size)
      modifies Repr()
      ensures Sound() && fresh(Repr() - old(Repr())) && memory.Contents() == old(memory.Contents())
      ensures Coalesced(old(free)) && free == Merge(old(free), chunk + size, CHUNK - size)
      ensures owned == old(owned) + {chunk} && live == old(live)[chunk := size]
    {
      hide Sound, MemoryManager.Contents, Merge, Coalesced, NoneFree;
      var _ := Give(chunk + size, CHUNK - size);
      Enter(owned + {chunk}, live[chunk := size]);
    }

    /** Frees a live block, and gives the chunk its first byte is in back to the memory manager if nothing in it is
        live. */
    method FreeBlock(p: nat, size: nat)
      requires Valid() && p in live && live[p] == size
      modifies Repr()
      ensures Valid() && fresh(Repr() - old(Repr())) && live == old(live) - {p}
      ensures Coalesced(old(free))
      ensures var gone := if AllFree(Merge(old(free), p, size), ChunkOf(p), CHUNK) then {ChunkOf(p)} else {};
        owned == old(owned) - gone && memory.live == old(memory.live) - set c | c in gone :: c / 0x1000
      ensures Kept(old(owned), owned, old(memory.live), memory.live)
    {
      hide Sound, Tiled, Backed, Merge, Coalesced, NoneFree, AllFree;
      TiledCoalesced(free, owned, live);
      TiledBlock(free, owned, live, p);
      TileFree(free, owned, live, p);
      var newRange := Give(p, size);
      Enter(owned, live - {p});
      var chunkStart := p - p % CHUNK;
      var chunkEnd := chunkStart + CHUNK;
      ChunkBytes(0, p);
      TiledCoalesced(free, owned, live);
      WholeChunk(free, newRange, chunkStart, p);
      ghost var whole := AllFree(Merge(old(free), p, size), ChunkOf(p), CHUNK);
      assert whole <==> Contains(newRange, chunkStart, CHUNK);
      assert chunkStart == ChunkOf(p);
      if newRange.x <= chunkStart && newRange.x + newRange.y >= chunkEnd {
        Release(chunkStart, newRange);
      }
    }

    /** Gives a chunk that is wholly free back. */
    method Release(chunkStart: nat, ghost r: RangePair)
      requires Valid() && chunkStart % CHUNK == 0 && r in free && Contains(r, chunkStart, CHUNK)
      modifies Repr()
      ensures Valid() && fresh(Repr() - old(Repr())) && live == old(live) && owned == old(owned) - {chunkStart}
      ensures memory.live == old(memory.live) - {chunkStart / 0x1000}
      ensures Kept(old(owned), owned, old(memory.live), memory.live)
    {
      hide Sound, Tiled, Carve, Coalesced, AllFree;
      TiledCoalesced(free, owned, live);
      TileRelease(free, owned, live, chunkStart, r);
      DropChunk(chunkStart);
      ContainedFree(free, r, chunkStart, CHUNK);
      ghost var super := Take(RangePair(CHUNK, chunkStart));
      TileRelease(old(free), owned, live, chunkStart, super);
      BackedLess(owned, old(memory.live), chunkStart);
      Enter(owned - {chunkStart}, live);
    }

    ghost method Enter(newOwned: set<nat>, newLive: Live)
      requires Sound()
      modifies `owned, `live
      ensures Sound() && owned == newOwned && live == newLive && Repr() == old(Repr())
      ensures memory.Contents() == old(memory.Contents())
    {
      hide MemoryManager.Valid, RangeTree.Valid, Trees;
      TreesRoots(treeStart, treeLength, free);
      owned, live := newOwned, newLive;
    }

    /** The search for the best fit among the free ranges. */
    method FindFit(size: nat) returns (found: bool, p: RangePair)
      requires Sound()
      ensures found <==> !NoneHolds(free, size)
      ensures found ==> BestFit(free, size, Flip(p))
    {
      hide MemoryManager.Valid, RangeTree.Valid, AvlModel.Nearest, AvlModel.Within;
      found, p := treeLength.FindBound(RangePair(size, 0), false);
      BoundIsBestFit(free, treeLength.items, size, found, p);
    }

    /** The memory manager can provide another chunk. */
    ghost predicate MemoryLeft()
      reads memory, memory.phys, memory.lin
    {
      !NoneHolds(memory.phys.free, CHUNK) && !NoneHolds(memory.lin.free, CHUNK + CHUNK - 1)
    }
  }

  lemma TiledCoalesced(R: set<RangePair>, owned: set<nat>, live: Live)
    requires Tiled(R, owned, live)
    ensures Coalesced(R)
  {
  }

  /** The memory manager has one block more, a chunk at c. */
  ghost predicate ChunkTaken(blocks: Blocks, blocks': Blocks, c: nat) {
    && c % 0x1000 == 0 && c / 0x1000 !in blocks
    && exists b :: blocks' == blocks[c / 0x1000 := b] && 0x1000 * b.count == CHUNK
  }

  /** The chunks the heap has kept are the memory manager's blocks they were. */
  ghost predicate Kept(owned: set<nat>, owned': set<nat>, blocks: Blocks, blocks': Blocks) {
    forall f :: f in blocks && f !in blocks' ==> 0x1000 * f in owned && 0x1000 * f !in owned'
  }

  /** What cutting a block from the start of the best fit does. */
  lemma FitFacts(R: set<RangePair>, owned: set<nat>, live: Live, r: RangePair, size: nat)
    requires Tiled(R, owned, live) && BestFit(R, size, r) && 0 < size <= CHUNK / 2
    ensures r in R && r.x < r.x + size <= End(r) && 0 < r.x && !NoneHolds(R, size) && Contains(r, r.x, size)
    ensures CarvePair(R, RangePair(r.x, size), Flip(r)) == Carve(R, r, r.x, size)
    ensures r.x !in live && Tiled(Carve(R, r, r.x, size), owned, live[r.x := size])
  {
    hide Coalesced, Carve, CarvePair, Tiled;
    TiledCoalesced(R, owned, live);
    InRange(R, r, r.x);
    FreeByteHigh(R, owned, live, r.x);
    assert Flip(Flip(r)) == r;
    SwappedCarve(R, Flip(r), size);
    TileBlock(R, owned, live, r, size);
  }

  lemma BackedNew(owned: set<nat>, blocks: Blocks, blocks': Blocks, c: nat)
    requires Backed(owned, blocks) && ChunkTaken(blocks, blocks', c)
    ensures c !in owned && Backed(owned + {c}, blocks') && forall f :: f in blocks ==> f in blocks'
  {
  }

  lemma TiledBlock(R: set<RangePair>, owned: set<nat>, live: Live, p: nat)
    requires Tiled(R, owned, live) && p in live
    ensures NoneFree(R, p, live[p]) && 0 < live[p]
  {
  }

  /** Whether the range that contains p contains the whole chunk is whether the chunk is free. */
  lemma WholeChunk(R: set<RangePair>, r: RangePair, c: nat, p: nat)
    requires Coalesced(R) && r in R && c <= p < c + CHUNK && r.x <= p < End(r)
    ensures AllFree(R, c, CHUNK) <==> Contains(r, c, CHUNK)
  {
    if AllFree(R, c, CHUNK) {
      var s := OneRange(R, c, CHUNK);
      assert s.x <= p < End(s);
    }
    if Contains(r, c, CHUNK) {
      ContainedFree(R, r, c, CHUNK);
    }
  }

  lemma BackedLess(owned: set<nat>, blocks: Blocks, c: nat)
    requires Backed(owned, blocks) && c in owned
    ensures Backed(owned - {c}, blocks - {c / 0x1000}) && 0x1000 * (c / 0x1000) == c
  {
  }

  lemma TreesRoots(treeStart: RangeTree, treeLength: RangeTree, R: set<RangePair>)
    requires Trees(treeStart, treeLength, R)
    ensures treeStart in treeStart.repr && treeLength in treeLength.repr
  {
  }

  lemma NothingTiled()
    ensures Tiled({}, {}, map[])
  {
  }

  /** Every chunk is a live block of the memory manager. */
  ghost predicate Backed(owned: set<nat>, blocks: Blocks) {
    forall c :: c in owned ==> c % 0x1000 == 0 && c / 0x1000 in blocks && 0x1000 * blocks[c / 0x1000].count == CHUNK
  }
}
