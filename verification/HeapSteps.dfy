/** The operations of the array space and of the slab allocator are steps of the layers. */
module HeapSteps {
  import opened Words
  import opened RangePairs
  import opened RangeSets
  import opened MemoryState
  import opened MemoryManager
  import opened HeapTiling
  import opened HeapArrays
  import opened HeapLayers
  import opened SpaceManagers
  import opened PrimitiveHeap

  // The array space.

  /** The blocks, chunks, free ranges and arrays of the layers are those of the array space and its memory manager. */
  ghost predicate Shows(h: Layers, space: ArraySpace)
    reads space, space.memory
  {
    && h.blocks == space.memory.live && h.uses.Keys <= h.blocks.Keys && Owned(h.uses) == space.owned
    && h.ranges == space.free && h.arrays == space.live
  }

  lemma SpaceParts(space: ArraySpace)
    requires space.Valid()
    ensures Consistent(space.memory.Contents()) && Tiled(space.free, space.owned, space.live)
    ensures Backed(space.owned, space.memory.live)
  {
    hide Tiled, Backed, Consistent;
  }

  /** What is free in the chunks is determined by what is live. */
  lemma TiledUnique(R: set<RangePair>, R': set<RangePair>, owned: set<nat>, live: Live)
    requires Tiled(R, owned, live) && Tiled(R', owned, live)
    ensures R == R'
  {
    hide Coalesced, IsFree, InLive;
    forall b: int
      ensures IsFree(R, b) <==> IsFree(R', b)
    {
      if b < 0 {
        NotBelow(R, b);
        NotBelow(R', b);
      } else {
        FreeOrLive(R, owned, live, b);
        FreeOrLive(R', owned, live, b);
      }
    }
    SameBytesSameRanges(R, R');
  }

  lemma NotBelow(R: set<RangePair>, b: int)
    requires b < 0
    ensures !IsFree(R, b)
  {
  }

  lemma FreeOrLive(R: set<RangePair>, owned: set<nat>, live: Live, b: nat)
    requires Tiled(R, owned, live)
    ensures IsFree(R, b) <==> ChunkOf(b) in owned && !InLive(live, b)
  {
    hide Coalesced, IsFree;
  }

  /** A cut keeps everything but the free ranges and the arrays. */
  lemma CutIsStep(h: Layers, h': Layers, r: RangePair, size: nat)
    requires Layered(h) && r in h.ranges && 0 < size <= r.y
    requires h' == h.(ranges := h'.ranges, arrays := h.arrays[r.x := size])
    requires Tiled(h'.ranges, Owned(h'.uses), h'.arrays)
    ensures Can(h, CutArray(r, size)) && h' == After(h, CutArray(r, size))
  {
    hide MemoryOk, UnitsOk, SlabsOk, Tiled, Carve, Owned, HeldFor;
    TileBlock(h.ranges, Owned(h.uses), h.arrays, r, size);
    TiledUnique(h'.ranges, Carve(h.ranges, r, r.x, size), Owned(h.uses), h'.arrays);
  }

  lemma ChunkIsStep(h: Layers, h': Layers, c: nat, size: nat) returns (b: Block)
    requires Layered(h) && ChunksOk({c}) && 0 < size < CHUNK && ChunkTaken(h.blocks, h'.blocks, c)
    requires MemoryOk(h'.blocks, h.uses)
    requires h' == h.(blocks := h'.blocks, uses := h.uses[c / 0x1000 := ForArrays], ranges := h'.ranges,
                      arrays := h.arrays[c := size])
    requires Tiled(h'.ranges, Owned(h'.uses), h'.arrays)
    ensures Can(h, NewArrayChunk(c / 0x1000, b, size)) && h' == After(h, NewArrayChunk(c / 0x1000, b, size))
    ensures 0x1000 * (c / 0x1000) == c
  {
    hide UnitsOk, SlabsOk, Tiled, Merge, Owned, HeldFor, MemoryOk;
    var f := c / 0x1000;
    b :| h'.blocks == h.blocks[f := b] && 0x1000 * b.count == CHUNK;
    TiledCoalesced(h.ranges, Owned(h.uses), h.arrays);
    BlockAdded(h, f, b, ForArrays);
    OwnedMember(h.uses, c);
    TileChunk(h.ranges, Owned(h.uses), h.arrays, c, size);
    TiledUnique(h'.ranges, Merge(h.ranges, c + size, CHUNK - size), Owned(h'.uses), h'.arrays);
  }

  lemma ReleaseIsStep(h: Layers, c: nat, h': Layers) returns (r: RangePair)
    requires Layered(h) && c % CHUNK == 0 && AllFree(h.ranges, c, CHUNK)
    requires var f := c / 0x1000; h' == h.(blocks := h.blocks - {f}, uses := h.uses - {f}, ranges := h'.ranges)
    requires Tiled(h'.ranges, Owned(h'.uses), h'.arrays)
    ensures Can(h, DropArrayChunk(c / 0x1000, r)) && h' == After(h, DropArrayChunk(c / 0x1000, r))
  {
    hide UnitsOk, SlabsOk, Tiled, Carve, Owned, HeldFor, MemoryOk, AllFree, Coalesced;
    var f := c / 0x1000;
    TiledCoalesced(h.ranges, Owned(h.uses), h.arrays);
    r := OneRange(h.ranges, c, CHUNK);
    TileRelease(h.ranges, Owned(h.uses), h.arrays, c, r);
    OwnedMember(h.uses, c);
    BlockRemoved(h, f);
    TiledUnique(h'.ranges, Carve(h.ranges, r, c, CHUNK), Owned(h'.uses), h'.arrays);
  }

  /** The layers after the array space has changed from h; the uses are as given. */
  ghost function SpaceLayers(h: Layers, space: ArraySpace, uses: map<nat, Use>): Layers
    reads space, space.memory
  {
    h.(blocks := space.memory.live, uses := uses, ranges := space.free, arrays := space.live)
  }

  /** Allocating a block cuts a range, or takes a chunk. */
  method AllocBlock(space: ArraySpace, size: nat, ghost h: Layers)
    returns (p: nat, ghost op: Op, ghost h': Layers)
    requires space.Valid() && 0 < size <= CHUNK / 2 && (NoneHolds(space.free, size) ==> space.MemoryLeft())
    requires Layered(h) && Shows(h, space)
    modifies space.Repr()
    ensures space.Valid() && fresh(space.Repr() - old(space.Repr()))
    ensures Can(h, op) && h' == After(h, op) && EffectOf(op) == Gain(Array(p)) && Shows(h', space)
  {
    hide ArraySpace.Valid, ArraySpace.MemoryLeft, Layered, ChunkTaken, NoneHolds, BestFit, Consistent, Tiled, Can,
      After;
    SpaceParts(space);
    p := space.AllocBlock(size);
    SpaceParts(space);
    if !old(NoneHolds(space.free, size)) {
      ghost var r :| BestFit(h.ranges, size, r) && p == r.x;
      h' := SpaceLayers(h, space, h.uses);
      op := CutArray(r, size);
      BestFits(h.ranges, size, r);
      CutIsStep(h, h', r, size);
    } else {
      h' := SpaceLayers(h, space, h.uses[p / 0x1000 := ForArrays]);
      ChunkUse(h, h'.blocks, p);
      MemoryFrom(space.memory.Contents(), h.uses);
      ghost var b := ChunkIsStep(h, h', p, size);
      op := NewArrayChunk(p / 0x1000, b, size);
    }
  }

  lemma BestFits(R: set<RangePair>, size: nat, r: RangePair)
    requires BestFit(R, size, r)
    ensures r in R && size <= r.y
  {
  }

  /** With its use recorded the new chunk is owned. */
  lemma ChunkUse(h: Layers, blocks: Blocks, c: nat)
    requires h.uses.Keys <= h.blocks.Keys && ChunkTaken(h.blocks, blocks, c)
    ensures Owned(h.uses[c / 0x1000 := ForArrays]) == Owned(h.uses) + {c}
    ensures h.uses.Keys <= blocks.Keys && h.uses[c / 0x1000 := ForArrays].Keys <= blocks.Keys
  {
    var uses := h.uses[c / 0x1000 := ForArrays];
    forall d
      ensures d in Owned(uses) <==> d in Owned(h.uses) || d == c
    {
      OwnedMember(uses, d);
      OwnedMember(h.uses, d);
    }
  }

  lemma MemoryFrom(s: State, uses: map<nat, Use>)
    requires Consistent(s) && uses.Keys <= s.live.Keys
    ensures MemoryOk(s.live, uses)
  {
    hide FreeUnmapped, Anchored, Coalesced, Paged, BlockMapped, NoneFree;
  }

  /** Freeing a block drops it, and then its chunk if nothing in it is live. */
  method FreeBlock(space: ArraySpace, p: nat, size: nat, ghost h: Layers)
    returns (ghost ops: seq<Op>, ghost run: seq<Layers>)
    requires space.Valid() && p in space.live && space.live[p] == size
    requires Layered(h) && Shows(h, space)
    modifies space.Repr()
    ensures space.Valid() && fresh(space.Repr() - old(space.Repr()))
    ensures Steps(run, ops) && run[0] == h && Shows(run[|run| - 1], space)
    ensures |ops| > 0 && ops[0] == DropArray(p) && forall k :: 0 < k < |ops| ==> EffectOf(ops[k]) == Same
  {
    hide ArraySpace.Valid, Layered, Consistent, Tiled, Merge, AllFree, Coalesced, Steps;
    SpaceParts(space);
    TiledCoalesced(h.ranges, space.owned, h.arrays);
    space.FreeBlock(p, size);
    SpaceParts(space);
    ops, run := FreeBlockRun(h, p, space.free, space.owned, space.memory.live);
  }

  /** What the release of a chunk, if there is one, leaves of the owned chunks and of the memory manager's blocks. */
  ghost predicate Freed(h: Layers, p: nat, owned: set<nat>, blocks: Blocks)
    requires Coalesced(h.ranges) && p in h.arrays
  {
    var gone := if AllFree(Merge(h.ranges, p, h.arrays[p]), ChunkOf(p), CHUNK) then {ChunkOf(p)} else {};
    owned == Owned(h.uses) - gone && blocks == h.blocks - set c | c in gone :: c / 0x1000
  }

  lemma FreeBlockRun(h: Layers, p: nat, ranges: set<RangePair>, owned: set<nat>, blocks: Blocks)
    returns (ops: seq<Op>, run: seq<Layers>)
    requires Layered(h) && p in h.arrays && Coalesced(h.ranges) && h.uses.Keys <= h.blocks.Keys
    requires Tiled(ranges, owned, h.arrays - {p}) && Freed(h, p, owned, blocks)
    ensures Steps(run, ops) && run[0] == h
    ensures var last := run[|run| - 1];
      && last.blocks == blocks && last.uses.Keys <= blocks.Keys && Owned(last.uses) == owned
      && last.ranges == ranges && last.arrays == h.arrays - {p}
    ensures |ops| > 0 && ops[0] == DropArray(p) && forall k :: 0 < k < |ops| ==> EffectOf(ops[k]) == Same
  {
    hide Layered, Tiled, Can, After, Merge, AllFree, Coalesced;
    var h1 := Dropped(h, p);
    var c := ChunkOf(p);
    ChunkBytes(0, p);
    if AllFree(h1.ranges, c, CHUNK) {
      var h2 := h1.(blocks := blocks, uses := h.uses - {c / 0x1000}, ranges := ranges);
      ChunkUnused(h1, c);
      assert (set d | d in {c} :: d / 0x1000) == {c / 0x1000};
      var r := ReleaseIsStep(h1, c, h2);
      ops, run := [DropArray(p), DropArrayChunk(c / 0x1000, r)], [h, h1, h2];
    } else {
      assert blocks == h.blocks && owned == Owned(h.uses);
      TiledUnique(ranges, h1.ranges, owned, h1.arrays);
      ops, run := [DropArray(p)], [h, h1];
    }
  }

  lemma Dropped(h: Layers, p: nat) returns (h': Layers)
    requires Layered(h) && p in h.arrays
    ensures Coalesced(h.ranges) && h' == h.(ranges := Merge(h.ranges, p, h.arrays[p]), arrays := h.arrays - {p})
    ensures Can(h, DropArray(p)) && h' == After(h, DropArray(p)) && Layered(h')
    ensures Tiled(h'.ranges, Owned(h'.uses), h'.arrays)
  {
    hide MemoryOk, UnitsOk, SlabsOk, Tiled, Merge, Owned, HeldFor;
    TiledCoalesced(h.ranges, Owned(h.uses), h.arrays);
    StepLayered(h, DropArray(p));
    h' := After(h, DropArray(p));
  }

  lemma ChunkUnused(h: Layers, c: nat)
    requires c % CHUNK == 0
    ensures Owned(h.uses - {c / 0x1000}) == Owned(h.uses) - {c} && c == 0x1000 * (c / 0x1000)
  {
    var k, _ := Divide(c, CHUNK);
    DivModUnique(c, 0x1000, 0x80 * k, 0);
    forall d
      ensures d in Owned(h.uses - {c / 0x1000}) <==> d in Owned(h.uses) && d != c
    {
      OwnedMember(h.uses - {c / 0x1000}, d);
      OwnedMember(h.uses, d);
    }
  }

  // The slab allocator.

  /** Allocation takes a slot, after a new chunk if the heap renews itself. */
  method SlabAlloc(p: PrimitiveHeap, ghost s: SlabState) returns (a: nat, ghost u: Unit, ghost c: nat)
    requires p.Valid() && s == StateOf(p) && (p.numAvailableUnits > 0 || p.lockCnt == 0)
    modifies p, p.source, p.chunks
    ensures p.Valid() && fresh(p.chunks - old(p.chunks)) && a == s.At(u)
    ensures var renews := old(p.numAvailableUnits <= p.minUnits && p.lockCnt == 0);
      AllocSteps(s, StateOf(p), u, renews, c)
  {
    hide PrimitiveHeap.Valid;
    a, u, c := p.Alloc(p.objectSize, p.align);
  }

  ghost predicate AllocSteps(s: SlabState, s': SlabState, u: Unit, renews: bool, c: nat) {
    var s1 := if renews then s.WithChunk(c) else s;
    (renews ==> c !in s.free) && s1.CanTake(u) && s' == s1.Taking(u)
  }

  /** Release gives the slot back; then unused chunks go, or a new one comes. */
  method SlabFree(p: PrimitiveHeap, a: nat, ghost u: Unit, ghost s: SlabState) returns (ghost gone: set<nat>,
      ghost c: nat)
    requires p.Valid() && s == StateOf(p) && s.Has(u) && a == s.At(u)
    modifies p, p.source, p.chunks
    ensures p.Valid() && fresh(p.chunks - old(p.chunks))
    ensures var renews := p.lockCnt == 0 && old(p.numAvailableUnits) < p.minUnits;
      FreeSteps(s, StateOf(p), u, renews, c, gone)
  {
    hide PrimitiveHeap.Valid, Taken;
    gone, c := p.Free(a, p.objectSize, u);
  }

  ghost predicate FreeSteps(s: SlabState, s': SlabState, u: Unit, renews: bool, c: nat, gone: set<nat>) {
    s.Has(u) &&
    var s1 := s.Giving(u);
    if renews then c !in s1.free && s' == s1.WithChunk(c)
    else (forall d :: d in gone ==> s1.Unused(d)) && s' == s1.(free := s1.free - gone)
  }

  /** In the layers allocation is these steps; a new chunk is a unit that can be taken. */
  lemma AllocRun(h: Layers, n: nat, s': SlabState, u: Unit, renews: bool, v: Unit) returns (ops: seq<Op>,
      run: seq<Layers>)
    requires Layered(h) && n in h.slabs && (renews ==> h.units.CanTake(v))
    requires AllocSteps(h.slabs[n], s', u, renews, h.units.At(v))
    ensures Steps(run, ops) && run[0] == h && run[|run| - 1].slabs == h.slabs[n := s'] && |ops| > 0
    ensures EffectOf(ops[|ops| - 1]) == Gain(Slot(n, u))
    ensures forall k :: 0 <= k < |ops| - 1 ==> EffectOf(ops[k]) == Same
  {
    hide Layered;
    if renews {
      StepLayered(h, NewSlabChunk(n, v));
      var h1 := After(h, NewSlabChunk(n, v));
      ops, run := [NewSlabChunk(n, v), TakeSlot(n, u)], [h, h1, After(h1, TakeSlot(n, u))];
    } else {
      ops, run := [TakeSlot(n, u)], [h, After(h, TakeSlot(n, u))];
    }
  }

  lemma FreeRun(h: Layers, n: nat, s': SlabState, u: Unit, renews: bool, v: Unit, gone: set<nat>)
    returns (ops: seq<Op>, run: seq<Layers>)
    requires Layered(h) && n in h.slabs && (renews ==> h.units.CanTake(v))
    requires FreeSteps(h.slabs[n], s', u, renews, h.units.At(v), gone)
    ensures Steps(run, ops) && run[0] == h && run[|run| - 1].slabs == h.slabs[n := s'] && |ops| > 0
    ensures ops[0] == GiveSlot(n, u) && forall k :: 0 < k < |ops| ==> EffectOf(ops[k]) == Same
  {
    hide Layered;
    StepLayered(h, GiveSlot(n, u));
    var h1 := After(h, GiveSlot(n, u));
    if renews {
      ops, run := [GiveSlot(n, u), NewSlabChunk(n, v)], [h, h1, After(h1, NewSlabChunk(n, v))];
    } else {
      var more, states := DropChunks(h1, n, gone);
      ops, run := [GiveSlot(n, u)] + more, [h] + states;
      RunAfter(h, GiveSlot(n, u), states, more);
    }
  }

  lemma RunAfter(h: Layers, op: Op, run: seq<Layers>, ops: seq<Op>)
    requires Layered(h) && Can(h, op) && Steps(run, ops) && run[0] == After(h, op)
    ensures Steps([h] + run, [op] + ops)
  {
    hide Layered, Can, After;
    var all, allOps := [h] + run, [op] + ops;
    forall k | 0 <= k < |allOps|
      ensures HeapLayers.Step(all[k], allOps[k], all[k + 1])
    {
      if k > 0 {
        var j := k - 1;
        assert HeapLayers.Step(run[j], ops[j], run[j + 1]);
      }
    }
  }

  /** Unused chunks go one by one. */
  lemma {:induction false} DropChunks(h: Layers, n: nat, gone: set<nat>) returns (ops: seq<Op>, run: seq<Layers>)
    requires Layered(h) && n in h.slabs && forall d :: d in gone ==> h.slabs[n].Unused(d)
    ensures Steps(run, ops) && run[0] == h
    ensures run[|run| - 1].slabs == h.slabs[n := h.slabs[n].(free := h.slabs[n].free - gone)]
    ensures forall k :: 0 <= k < |ops| ==> EffectOf(ops[k]) == Same
    decreases gone
  {
    hide Layered, SlabState.Unused, Can, After;
    var s := h.slabs[n];
    if gone == {} {
      assert s.free - gone == s.free;
      ops, run := [], [h];
    } else {
      var d :| d in gone;
      var v, h1 := DropChunk(h, n, d);
      forall e | e in gone - {d}
        ensures h1.slabs[n].Unused(e)
      {
        StillUnused(s, d, e);
      }
      var more, states := DropChunks(h1, n, gone - {d});
      assert s.free - {d} - (gone - {d}) == s.free - gone;
      ops, run := [DropSlabChunk(n, v)] + more, [h] + states;
      RunAfter(h, DropSlabChunk(n, v), states, more);
    }
  }

  lemma StillUnused(s: SlabState, d: nat, e: nat)
    requires s.Unused(e) && e != d
    ensures s.WithoutChunk(d).Unused(e)
  {
  }

  lemma DropChunk(h: Layers, n: nat, d: nat) returns (v: Unit, h': Layers)
    requires Layered(h) && n in h.slabs && h.slabs[n].Unused(d)
    ensures Can(h, DropSlabChunk(n, v)) && h' == After(h, DropSlabChunk(n, v)) && Layered(h')
    ensures h'.slabs == h.slabs[n := h.slabs[n].WithoutChunk(d)]
  {
    hide MemoryOk, ArraysOk, UnitsOk, SlabState.Has, SlabState.Sound;
    assert IsUnit(h.units, d);
    v :| h.units.Has(v) && h.units.At(v) == d;
    StepLayered(h, DropSlabChunk(n, v));
    h' := After(h, DropSlabChunk(n, v));
  }
}
