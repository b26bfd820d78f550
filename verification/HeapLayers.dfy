/** The allocators of the heap together, as values: what each has handed out, and to which of the others. Objects come
    from whole blocks of the memory manager, from the array space, or from slabs, which cut units of 2048 bytes that are
    cut from blocks in turn. */
module HeapLayers {
  import opened Words
  import opened ChunkLayout
  import opened PageTree
  import opened RangePairs
  import opened RangeSets
  import opened MemoryState
  import opened HeapTiling
  import opened HeapArrays
  import opened PrimitiveHeap

  const UNIT: nat := 0x800
  const UNIT_CHUNK: nat := 0x4_0000

  /** What the heap uses a block of the memory manager for. */
  datatype Use = ForObject | ForArrays | ForUnits

  /** A slab allocator: its sizes, and the free slots of its chunks. */
  datatype SlabState = SlabState(chunkSize: nat, objectSize: nat, padding: nat, eLength: nat, free: FreeSlots) {
    function At(u: Unit): nat {
      SlotAddress(u.chunk, padding, objectSize, u.index)
    }

    ghost predicate Has(u: Unit) {
      Taken(free, eLength, u)
    }

    ghost predicate Sound() {
      && chunkSize > 0 && objectSize > 0 && Fits(chunkSize, objectSize, padding, eLength)
      && forall c :: c in free ==> c % chunkSize == 0
    }

    ghost predicate CanTake(u: Unit) {
      u.chunk in free && u.index < eLength && u.index in free[u.chunk]
    }

    ghost function Taking(u: Unit): SlabState
      requires CanTake(u)
    {
      this.(free := free[u.chunk := free[u.chunk] - {u.index}])
    }

    ghost function Giving(u: Unit): SlabState
      requires Has(u)
    {
      this.(free := free[u.chunk := free[u.chunk] + {u.index}])
    }

    ghost function WithChunk(c: nat): SlabState {
      this.(free := free[c := Below(eLength)])
    }

    ghost function WithoutChunk(c: nat): SlabState {
      this.(free := free - {c})
    }

    /** No slot of the chunk is in use. */
    ghost predicate Unused(c: nat) {
      c in free && forall i: nat :: i < eLength ==> i in free[c]
    }
  }

  /** The memory manager's blocks and what they are used for; the array space; the slab of units; the slabs cut from
      units, those of the trees' entries among them. */
  datatype Layers = Layers(blocks: Blocks, uses: map<nat, Use>, ranges: set<RangePair>, arrays: Live, units: SlabState,
                           slabs: map<nat, SlabState>)

  /** What the heap has handed out: a block, by its first page, an array, by its address, or a slot of a slab. */
  datatype Object = Pages(first: nat) | Array(p: nat) | Slot(n: nat, u: Unit)

  ghost predicate InUse(h: Layers, x: Object) {
    match x
    case Pages(f) => f in h.uses && h.uses[f] == ForObject && f in h.blocks
    case Array(p) => p in h.arrays
    case Slot(n, u) => n in h.slabs && h.slabs[n].Has(u)
  }

  ghost function Address(h: Layers, x: Object): nat
    requires InUse(h, x)
  {
    match x
    case Pages(f) => 0x1000 * f
    case Array(p) => p
    case Slot(n, u) => h.slabs[n].At(u)
  }

  ghost function Size(h: Layers, x: Object): nat
    requires InUse(h, x)
  {
    match x
    case Pages(f) => 0x1000 * h.blocks[f].count
    case Array(p) => h.arrays[p]
    case Slot(n, u) => h.slabs[n].objectSize
  }

  // The invariant of the layers.

  ghost function Owned(uses: map<nat, Use>): set<nat> {
    set f | f in uses && uses[f] == ForArrays :: 0x1000 * f
  }

  /** Blocks in use are live, and live blocks have pages of their own. */
  ghost predicate MemoryOk(blocks: Blocks, uses: map<nat, Use>) {
    && uses.Keys <= blocks.Keys && (forall f :: f in blocks ==> 0 < blocks[f].count)
    && forall f, g :: f in blocks && g in blocks && f != g ==> Separate(f, blocks[f].count, g, blocks[g].count)
  }

  /** A block of the given size at c is used as given. */
  ghost predicate HeldFor(blocks: Blocks, uses: map<nat, Use>, c: nat, size: nat, use: Use) {
    var f := c / 0x1000;
    c % 0x1000 == 0 && f in uses && uses[f] == use && f in blocks && 0x1000 * blocks[f].count == size
  }

  ghost predicate ArraysOk(h: Layers) {
    && Tiled(h.ranges, Owned(h.uses), h.arrays)
    && forall c :: c in Owned(h.uses) ==> HeldFor(h.blocks, h.uses, c, CHUNK, ForArrays)
  }

  ghost predicate UnitsOk(h: Layers) {
    && h.units.Sound() && h.units.chunkSize == UNIT_CHUNK && h.units.objectSize == UNIT
    && h.units.padding == Padding(UNIT)
    && forall c :: c in h.units.free ==> HeldFor(h.blocks, h.uses, c, UNIT_CHUNK, ForUnits)
  }

  /** A unit in use is at c. */
  ghost predicate IsUnit(units: SlabState, c: nat) {
    exists u :: units.Has(u) && units.At(u) == c
  }

  ghost predicate SlabsOk(units: SlabState, slabs: map<nat, SlabState>) {
    && (forall n :: n in slabs ==> slabs[n].Sound() && slabs[n].chunkSize == UNIT)
    && (forall n, c :: n in slabs && c in slabs[n].free ==> IsUnit(units, c))
    && forall n, m, c :: n in slabs && m in slabs && c in slabs[n].free && c in slabs[m].free ==> n == m
  }

  ghost predicate Layered(h: Layers) {
    MemoryOk(h.blocks, h.uses) && ArraysOk(h) && UnitsOk(h) && SlabsOk(h.units, h.slabs)
  }

  /** The parts are what the memory manager's state and the array space's invariant give. */
  lemma PartsFit(s: State, uses: map<nat, Use>, h: Layers)
    requires Consistent(s) && h.blocks == s.live && h.uses == uses && uses.Keys <= s.live.Keys
    requires Tiled(h.ranges, Owned(uses), h.arrays) && Backed(Owned(uses), s.live)
    ensures MemoryOk(h.blocks, h.uses) && ArraysOk(h)
  {
    hide Tiled, FreeUnmapped, Anchored, Coalesced, Paged, BlockMapped, NoneFree;
    forall c | c in Owned(uses)
      ensures HeldFor(h.blocks, uses, c, CHUNK, ForArrays)
    {
      OwnedMember(uses, c);
    }
  }

  lemma OwnedMember(uses: map<nat, Use>, c: nat)
    ensures c in Owned(uses) <==> c % 0x1000 == 0 && c / 0x1000 in uses && uses[c / 0x1000] == ForArrays
  {
    var f := c / 0x1000;
    if c % 0x1000 == 0 && f in uses && uses[f] == ForArrays {
      assert c == 0x1000 * f;
    }
  }

  /** A slab allocator as a value. */
  ghost function StateOf(p: PrimitiveHeap): SlabState
    reads p
  {
    SlabState(p.chunkSize, p.objectSize, p.paddingSize, p.eLength, p.free)
  }

  lemma SlabFits(p: PrimitiveHeap, u: Unit)
    requires p.Valid()
    ensures StateOf(p).Sound() && StateOf(p).At(u) == p.AddressOf(u)
    ensures StateOf(p).Has(u) <==> Taken(p.free, p.eLength, u)
  {
    hide PrimitiveHeap.Links, Listed, Units, Sound, Taken, Fits;
  }

  /** The heap starts with all of its parts empty. */
  lemma StartLayered(s: State, units: SlabState)
    requires Consistent(s) && units.Sound() && units.free == map[]
    requires units.chunkSize == UNIT_CHUNK && units.objectSize == UNIT && units.padding == Padding(UNIT)
    ensures var h := Layers(s.live, map[], {}, map[], units, map[]); Layered(h) && forall x :: !InUse(h, x)
  {
    hide Consistent, SlabState.Sound;
    var h := Layers(s.live, map[], {}, map[], units, map[]);
    assert Owned(map[]) == {};
    PartsFit(s, map[], h);
  }

  // Objects have no byte in common.

  lemma SlotInChunk(s: SlabState, u: Unit)
    requires s.Sound() && s.Has(u)
    ensures u.chunk <= s.At(u) && s.At(u) + s.objectSize <= u.chunk + s.chunkSize
  {
    SlotInside(s.chunkSize, s.objectSize, s.padding, s.eLength, u.chunk, u.index);
  }

  lemma SlotsOfOne(s: SlabState, u: Unit, v: Unit)
    requires s.Sound() && s.Has(u) && s.Has(v) && u != v
    ensures Separate(s.At(u), s.objectSize, s.At(v), s.objectSize)
  {
    SlotsApart(s.chunkSize, s.objectSize, s.padding, s.eLength, u.chunk, u.index, v.chunk, v.index);
  }

  lemma SlotObjectsApart(h: Layers, x: Object, y: Object)
    requires UnitsOk(h) && SlabsOk(h.units, h.slabs) && InUse(h, x) && InUse(h, y) && x.Slot? && y.Slot? && x != y
    ensures Separate(Address(h, x), Size(h, x), Address(h, y), Size(h, y))
  {
    hide Fits, Taken;
    var s, t := h.slabs[x.n], h.slabs[y.n];
    TakenChunk(s, x.u);
    TakenChunk(t, y.u);
    if x.u.chunk == y.u.chunk {
      SlotsOfOne(s, x.u, y.u);
    } else {
      assert IsUnit(h.units, x.u.chunk) && IsUnit(h.units, y.u.chunk);
      var u :| h.units.Has(u) && h.units.At(u) == x.u.chunk;
      var v :| h.units.Has(v) && h.units.At(v) == y.u.chunk;
      SlotsOfOne(h.units, u, v);
      SlotInChunk(s, x.u);
      SlotInChunk(t, y.u);
    }
  }

  lemma TakenChunk(s: SlabState, u: Unit)
    requires s.Has(u)
    ensures u.chunk in s.free
  {
  }

  /** A block of the memory manager has the byte, and is used for objects of that kind. */
  ghost predicate HomeOf(h: Layers, x: Object, f: nat, b: nat) {
    && f in h.uses && f in h.blocks && 0x1000 * f <= b < 0x1000 * f + 0x1000 * h.blocks[f].count
    && match x
       case Pages(g) => g == f && h.uses[f] == ForObject
       case Array(_) => h.uses[f] == ForArrays
       case Slot(_, _) => h.uses[f] == ForUnits
  }

  lemma Home(h: Layers, x: Object, b: nat) returns (f: nat)
    requires Layered(h) && InUse(h, x) && Address(h, x) <= b < Address(h, x) + Size(h, x)
    ensures HomeOf(h, x, f, b)
  {
    hide Tiled, Fits, Taken;
    match x
    case Pages(g) =>
      f := g;
    case Array(p) =>
      f := ArrayHome(h, p, b);
    case Slot(n, u) =>
      TakenChunk(h.slabs[n], u);
      SlotInChunk(h.slabs[n], u);
      assert IsUnit(h.units, u.chunk);
      var v :| h.units.Has(v) && h.units.At(v) == u.chunk;
      TakenChunk(h.units, v);
      SlotInChunk(h.units, v);
      f := v.chunk / 0x1000;
      assert HeldFor(h.blocks, h.uses, v.chunk, UNIT_CHUNK, ForUnits);
  }

  lemma ArrayHome(h: Layers, p: nat, b: nat) returns (f: nat)
    requires ArraysOk(h) && p in h.arrays && p <= b < p + h.arrays[p]
    ensures HomeOf(h, Array(p), f, b)
  {
    LiveByte(h.arrays, p, b);
    var c := ChunkOf(b);
    ChunkBytes(0, b);
    f := c / 0x1000;
    assert HeldFor(h.blocks, h.uses, c, CHUNK, ForArrays);
  }

  lemma SizePositive(h: Layers, x: Object)
    requires Layered(h) && InUse(h, x)
    ensures Size(h, x) > 0
  {
    hide Coalesced, Covered, UnitsOk, IsUnit;
  }

  /** No two objects in use have a byte in common, whichever allocators they come from. */
  lemma ObjectsApart(h: Layers, x: Object, y: Object)
    requires Layered(h) && InUse(h, x) && InUse(h, y) && x != y
    ensures Separate(Address(h, x), Size(h, x), Address(h, y), Size(h, y))
  {
    hide UnitsOk, SlabsOk, Coalesced, Covered;
    if x.Slot? && y.Slot? {
      SlotObjectsApart(h, x, y);
    } else if x.Array? && y.Array? {
    } else {
      SizePositive(h, x);
      SizePositive(h, y);
      var a, c := Address(h, x), Address(h, y);
      var b := if a <= c then c else a;
      if a <= b < a + Size(h, x) && c <= b < c + Size(h, y) {
        var f := Home(h, x, b);
        var g := Home(h, y, b);
      }
    }
  }

  // What the allocators do, one step at a time.

  datatype Op =
    | NewBlock(f: nat, b: Block)
    | DropBlock(f: nat)
    | CutArray(r: RangePair, size: nat)
    | NewArrayChunk(f: nat, b: Block, size: nat)
    | DropArray(p: nat)
    | DropArrayChunk(f: nat, r: RangePair)
    | NewUnitChunk(f: nat, b: Block)
    | DropUnitChunk(f: nat)
    | NewSlab(n: nat, s: SlabState)
    | NewSlabChunk(n: nat, u: Unit)
    | DropSlabChunk(n: nat, u: Unit)
    | TakeSlot(n: nat, u: Unit)
    | GiveSlot(n: nat, u: Unit)

  /** The memory manager has put a block beside those that are live. */
  ghost predicate NewInMemory(h: Layers, f: nat, b: Block) {
    f !in h.blocks && MemoryOk(h.blocks[f := b], h.uses)
  }

  /** An allocation of the memory manager puts its block so. */
  lemma AllocIsNew(h: Layers, s: State, rp: RangePair, rl: RangePair, f: nat, b: Block, t': Table)
    requires CanAlloc(s, rp, rl, f, b, t') && h.blocks == s.live && h.uses.Keys <= s.live.Keys
    ensures NewInMemory(h, f, b)
  {
    hide CanAlloc, Tiled, Covered, Exclusive, FreeUnmapped, Anchored, Coalesced, Paged, BlockMapped, NoneFree;
    AllocConsistent(s, rp, rl, f, b, t');
  }

  ghost predicate Can(h: Layers, op: Op) {
    match op
    case NewBlock(f, b) => NewInMemory(h, f, b)
    case DropBlock(f) => InUse(h, Pages(f))
    case CutArray(r, size) => r in h.ranges && 0 < size <= r.y
    case NewArrayChunk(f, b, size) =>
      NewInMemory(h, f, b) && ChunksOk({0x1000 * f}) && 0x1000 * b.count == CHUNK && 0 < size < CHUNK
    case DropArray(p) => p in h.arrays
    case DropArrayChunk(f, r) => r in h.ranges && Contains(r, 0x1000 * f, CHUNK) && 0x1000 * f % CHUNK == 0
    case NewUnitChunk(f, b) =>
      NewInMemory(h, f, b) && 0x1000 * f % UNIT_CHUNK == 0 && 0x1000 * b.count == UNIT_CHUNK
    case DropUnitChunk(f) => h.units.Unused(0x1000 * f)
    case NewSlab(n, s) => n !in h.slabs && s.Sound() && s.chunkSize == UNIT && s.free == map[]
    case NewSlabChunk(n, u) => n in h.slabs && h.units.CanTake(u)
    case DropSlabChunk(n, u) => n in h.slabs && h.units.Has(u) && h.slabs[n].Unused(h.units.At(u))
    case TakeSlot(n, u) => n in h.slabs && h.slabs[n].CanTake(u)
    case GiveSlot(n, u) => InUse(h, Slot(n, u))
  }

  ghost function After(h: Layers, op: Op): Layers
    requires Layered(h) && Can(h, op)
  {
    match op
    case NewBlock(f, b) => h.(blocks := h.blocks[f := b], uses := h.uses[f := ForObject])
    case DropBlock(f) => h.(blocks := h.blocks - {f}, uses := h.uses - {f})
    case CutArray(r, size) => h.(ranges := Carve(h.ranges, r, r.x, size), arrays := h.arrays[r.x := size])
    case NewArrayChunk(f, b, size) =>
      h.(blocks := h.blocks[f := b], uses := h.uses[f := ForArrays],
         ranges := Merge(h.ranges, 0x1000 * f + size, CHUNK - size), arrays := h.arrays[0x1000 * f := size])
    case DropArray(p) => h.(ranges := Merge(h.ranges, p, h.arrays[p]), arrays := h.arrays - {p})
    case DropArrayChunk(f, r) =>
      h.(blocks := h.blocks - {f}, uses := h.uses - {f}, ranges := Carve(h.ranges, r, 0x1000 * f, CHUNK))
    case NewUnitChunk(f, b) =>
      h.(blocks := h.blocks[f := b], uses := h.uses[f := ForUnits], units := h.units.WithChunk(0x1000 * f))
    case DropUnitChunk(f) =>
      h.(blocks := h.blocks - {f}, uses := h.uses - {f}, units := h.units.WithoutChunk(0x1000 * f))
    case NewSlab(n, s) => h.(slabs := h.slabs[n := s])
    case NewSlabChunk(n, u) =>
      h.(units := h.units.Taking(u), slabs := h.slabs[n := h.slabs[n].WithChunk(h.units.At(u))])
    case DropSlabChunk(n, u) =>
      h.(units := h.units.Giving(u), slabs := h.slabs[n := h.slabs[n].WithoutChunk(h.units.At(u))])
    case TakeSlot(n, u) => h.(slabs := h.slabs[n := h.slabs[n].Taking(u)])
    case GiveSlot(n, u) => h.(slabs := h.slabs[n := h.slabs[n].Giving(u)])
  }

  // The steps keep the layers, and each changes at most one object.

  datatype Effect = Same | Gain(x: Object) | Lose(x: Object)

  ghost function EffectOf(op: Op): Effect {
    match op
    case NewBlock(f, _) => Gain(Pages(f))
    case DropBlock(f) => Lose(Pages(f))
    case CutArray(r, _) => Gain(Array(r.x))
    case NewArrayChunk(f, _, _) => Gain(Array(0x1000 * f))
    case DropArray(p) => Lose(Array(p))
    case TakeSlot(n, u) => Gain(Slot(n, u))
    case GiveSlot(n, u) => Lose(Slot(n, u))
    case _ => Same
  }

  /** The objects in use are those there were but for the effect, and they have stayed where they were. */
  ghost predicate Changed(h: Layers, h': Layers, e: Effect) {
    && (forall x :: InUse(h', x) <==> (InUse(h, x) && e != Lose(x)) || e == Gain(x))
    && (e.Gain? ==> !InUse(h, e.x)) && (e.Lose? ==> InUse(h, e.x))
    && forall x :: InUse(h, x) && InUse(h', x) ==> Address(h', x) == Address(h, x) && Size(h', x) == Size(h, x)
  }

  lemma BlockAdded(h: Layers, f: nat, b: Block, use: Use)
    requires MemoryOk(h.blocks, h.uses) && NewInMemory(h, f, b)
    ensures MemoryOk(h.blocks[f := b], h.uses[f := use]) && f !in h.uses
    ensures Owned(h.uses[f := use]) == Owned(h.uses) + if use == ForArrays then {0x1000 * f} else {}
    ensures forall c, n, u :: HeldFor(h.blocks, h.uses, c, n, u) ==>
              HeldFor(h.blocks[f := b], h.uses[f := use], c, n, u)
  {
    forall c
      ensures c in Owned(h.uses[f := use]) <==> c in Owned(h.uses) || (use == ForArrays && c == 0x1000 * f)
    {
      OwnedMember(h.uses, c);
      OwnedMember(h.uses[f := use], c);
    }
  }

  lemma BlockRemoved(h: Layers, f: nat)
    requires MemoryOk(h.blocks, h.uses)
    ensures MemoryOk(h.blocks - {f}, h.uses - {f})
    ensures Owned(h.uses - {f}) == Owned(h.uses) - {0x1000 * f}
    ensures forall c, n, u :: HeldFor(h.blocks, h.uses, c, n, u) && c != 0x1000 * f ==>
              HeldFor(h.blocks - {f}, h.uses - {f}, c, n, u)
  {
    forall c
      ensures c in Owned(h.uses - {f}) <==> c in Owned(h.uses) && c != 0x1000 * f
    {
      OwnedMember(h.uses, c);
      OwnedMember(h.uses - {f}, c);
    }
  }

  /** While the units that are in use stay so, the slabs have their chunks. */
  lemma SlabsStay(units: SlabState, units': SlabState, slabs: map<nat, SlabState>)
    requires SlabsOk(units, slabs) && units'.padding == units.padding && units'.objectSize == units.objectSize
    requires forall u :: units.Has(u) ==> units'.Has(u)
    ensures SlabsOk(units', slabs)
  {
    forall n, c | n in slabs && c in slabs[n].free
      ensures IsUnit(units', c)
    {
      assert IsUnit(units, c);
      var u :| units.Has(u) && units.At(u) == c;
      assert units'.Has(u) && units'.At(u) == c;
    }
  }

  // The blocks of the memory manager.

  lemma NewBlockKeeps(h: Layers, f: nat, b: Block)
    requires Layered(h) && NewInMemory(h, f, b)
    ensures Layered(After(h, NewBlock(f, b))) && Changed(h, After(h, NewBlock(f, b)), Gain(Pages(f)))
  {
    hide MemoryOk, Tiled, HeldFor, SlabsOk, Owned;
    BlockAdded(h, f, b, ForObject);
    assert Owned(h.uses[f := ForObject]) == Owned(h.uses);
  }

  lemma DropBlockKeeps(h: Layers, f: nat)
    requires Layered(h) && InUse(h, Pages(f))
    ensures Layered(After(h, DropBlock(f))) && Changed(h, After(h, DropBlock(f)), Lose(Pages(f)))
  {
    hide MemoryOk, Tiled, SlabsOk, Owned;
    BlockRemoved(h, f);
    OwnedMember(h.uses, 0x1000 * f);
    assert Owned(h.uses - {f}) == Owned(h.uses);
  }

  // The array space.

  lemma CutArrayKeeps(h: Layers, r: RangePair, size: nat)
    requires Layered(h) && Can(h, CutArray(r, size))
    ensures Layered(After(h, CutArray(r, size))) && Changed(h, After(h, CutArray(r, size)), Gain(Array(r.x)))
  {
    hide MemoryOk, Tiled, HeldFor, SlabsOk, Owned, UnitsOk, Carve;
    TileBlock(h.ranges, Owned(h.uses), h.arrays, r, size);
    UnitsStay(h, After(h, CutArray(r, size)));
  }

  lemma UnitsStay(h: Layers, h': Layers)
    requires UnitsOk(h) && h'.units == h.units
    requires forall c :: HeldFor(h.blocks, h.uses, c, UNIT_CHUNK, ForUnits) ==>
               HeldFor(h'.blocks, h'.uses, c, UNIT_CHUNK, ForUnits)
    ensures UnitsOk(h')
  {
  }

  lemma NewArrayChunkKeeps(h: Layers, f: nat, b: Block, size: nat)
    requires Layered(h) && Can(h, NewArrayChunk(f, b, size))
    ensures var h' := After(h, NewArrayChunk(f, b, size)); Layered(h') && Changed(h, h', Gain(Array(0x1000 * f)))
  {
    hide MemoryOk, Tiled, HeldFor, SlabsOk, Owned, UnitsOk, Merge, Changed;
    BlockAdded(h, f, b, ForArrays);
    OwnedMember(h.uses, 0x1000 * f);
    TileChunk(h.ranges, Owned(h.uses), h.arrays, 0x1000 * f, size);
    var h' := After(h, NewArrayChunk(f, b, size));
    UnitsStay(h, h');
    NewlyHeld(h'.blocks, h'.uses, f);
    ArrayAdded(h, f, b, h'.ranges, size);
  }

  lemma NewlyHeld(blocks: Blocks, uses: map<nat, Use>, f: nat)
    requires f in uses && uses[f] == ForArrays && f in blocks && 0x1000 * blocks[f].count == CHUNK
    ensures HeldFor(blocks, uses, 0x1000 * f, CHUNK, ForArrays)
  {
  }

  lemma ArrayAdded(h: Layers, f: nat, b: Block, ranges: set<RangePair>, size: nat)
    requires f !in h.uses && f !in h.blocks && 0x1000 * f !in h.arrays
    ensures Changed(h, h.(blocks := h.blocks[f := b], uses := h.uses[f := ForArrays], ranges := ranges,
                          arrays := h.arrays[0x1000 * f := size]), Gain(Array(0x1000 * f)))
  {
  }

  lemma DropArrayKeeps(h: Layers, p: nat)
    requires Layered(h) && p in h.arrays
    ensures Layered(After(h, DropArray(p))) && Changed(h, After(h, DropArray(p)), Lose(Array(p)))
  {
    hide MemoryOk, Tiled, HeldFor, SlabsOk, Owned, UnitsOk, Merge;
    TileFree(h.ranges, Owned(h.uses), h.arrays, p);
    UnitsStay(h, After(h, DropArray(p)));
  }

  lemma DropArrayChunkKeeps(h: Layers, f: nat, r: RangePair)
    requires Layered(h) && Can(h, DropArrayChunk(f, r))
    ensures Layered(After(h, DropArrayChunk(f, r))) && Changed(h, After(h, DropArrayChunk(f, r)), Same)
  {
    hide MemoryOk, Tiled, SlabsOk, Owned, UnitsOk, Carve;
    TileRelease(h.ranges, Owned(h.uses), h.arrays, 0x1000 * f, r);
    OwnedMember(h.uses, 0x1000 * f);
    BlockRemoved(h, f);
    UnitsStay(h, After(h, DropArrayChunk(f, r)));
  }

  // The slabs.

  lemma ChunkAdded(s: SlabState, c: nat)
    requires s.Sound() && c % s.chunkSize == 0 && c !in s.free
    ensures s.WithChunk(c).Sound() && forall u :: s.WithChunk(c).Has(u) <==> s.Has(u)
  {
    hide Fits;
  }

  lemma ChunkRemoved(s: SlabState, c: nat)
    requires s.Sound() && s.Unused(c)
    ensures s.WithoutChunk(c).Sound() && forall u :: s.WithoutChunk(c).Has(u) <==> s.Has(u)
  {
    hide Fits;
  }

  lemma UnitTaken(s: SlabState, u: Unit)
    requires s.Sound() && s.CanTake(u)
    ensures s.Taking(u).Sound() && s.Taking(u).free.Keys == s.free.Keys && !s.Has(u)
    ensures forall v :: s.Taking(u).Has(v) <==> s.Has(v) || v == u
  {
    hide Fits;
  }

  lemma UnitGiven(s: SlabState, u: Unit)
    requires s.Sound() && s.Has(u)
    ensures s.Giving(u).Sound() && s.Giving(u).free.Keys == s.free.Keys
    ensures forall v :: s.Giving(u).Has(v) <==> s.Has(v) && v != u
  {
    hide Fits;
  }

  lemma NewUnitChunkKeeps(h: Layers, f: nat, b: Block)
    requires Layered(h) && Can(h, NewUnitChunk(f, b))
    ensures Layered(After(h, NewUnitChunk(f, b))) && Changed(h, After(h, NewUnitChunk(f, b)), Same)
  {
    hide MemoryOk, Tiled, SlabsOk, Owned, SlabState.Has, SlabState.Sound, Changed;
    BlockAdded(h, f, b, ForUnits);
    assert Owned(h.uses[f := ForUnits]) == Owned(h.uses);
    assert 0x1000 * f in h.units.free ==> HeldFor(h.blocks, h.uses, 0x1000 * f, UNIT_CHUNK, ForUnits);
    ChunkAdded(h.units, 0x1000 * f);
    SlabsStay(h.units, After(h, NewUnitChunk(f, b)).units, h.slabs);
    UseAdded(h, f, b);
  }

  lemma UseAdded(h: Layers, f: nat, b: Block)
    requires f !in h.uses && f !in h.blocks
    ensures Changed(h, h.(blocks := h.blocks[f := b], uses := h.uses[f := ForUnits],
                          units := h.units.WithChunk(0x1000 * f)), Same)
  {
    hide SlabState.Has;
  }

  lemma DropUnitChunkKeeps(h: Layers, f: nat)
    requires Layered(h) && Can(h, DropUnitChunk(f))
    ensures Layered(After(h, DropUnitChunk(f))) && Changed(h, After(h, DropUnitChunk(f)), Same)
  {
    hide MemoryOk, Tiled, SlabsOk, Owned, Taken, Fits;
    assert HeldFor(h.blocks, h.uses, 0x1000 * f, UNIT_CHUNK, ForUnits);
    BlockRemoved(h, f);
    OwnedMember(h.uses, 0x1000 * f);
    assert Owned(h.uses - {f}) == Owned(h.uses);
    ChunkRemoved(h.units, 0x1000 * f);
    SlabsStay(h.units, After(h, DropUnitChunk(f)).units, h.slabs);
  }

  lemma SlabAdded(units: SlabState, slabs: map<nat, SlabState>, n: nat, s: SlabState)
    requires SlabsOk(units, slabs) && n !in slabs && s.Sound() && s.chunkSize == UNIT && s.free == map[]
    ensures SlabsOk(units, slabs[n := s])
  {
    hide SlabState.Sound, IsUnit;
  }

  lemma NothingChanged(h: Layers, n: nat, s: SlabState)
    requires n !in h.slabs && s.free == map[]
    ensures Changed(h, h.(slabs := h.slabs[n := s]), Same)
  {
  }

  lemma NewSlabKeeps(h: Layers, n: nat, s: SlabState)
    requires Layered(h) && Can(h, NewSlab(n, s))
    ensures Layered(After(h, NewSlab(n, s))) && Changed(h, After(h, NewSlab(n, s)), Same)
  {
    hide MemoryOk, ArraysOk, UnitsOk, SlabsOk, SlabState.Sound, Changed;
    ArraysUnits(h, After(h, NewSlab(n, s)));
    SlabAdded(h.units, h.slabs, n, s);
    NothingChanged(h, n, s);
  }

  /** The array space and the slab of units do not depend on the other slabs. */
  lemma ArraysUnits(h: Layers, h': Layers)
    requires ArraysOk(h) && h' == h.(slabs := h'.slabs, units := h'.units)
    ensures ArraysOk(h')
    ensures UnitsOk(h) && h'.units == h.units.(free := h'.units.free) && h'.units.free.Keys == h.units.free.Keys ==>
              UnitsOk(h')
  {
    hide Fits;
  }

  lemma SlabSound(h: Layers, n: nat)
    requires SlabsOk(h.units, h.slabs) && n in h.slabs
    ensures h.slabs[n].Sound() && h.slabs[n].chunkSize == UNIT
  {
    hide SlabState.Sound, IsUnit;
  }

  /** A slab that keeps its sizes and its chunks. */
  lemma SlabReplaced(units: SlabState, slabs: map<nat, SlabState>, n: nat, s: SlabState)
    requires SlabsOk(units, slabs) && n in slabs && s.Sound() && s == slabs[n].(free := s.free)
    requires s.free.Keys == slabs[n].free.Keys
    ensures SlabsOk(units, slabs[n := s])
  {
    hide SlabState.Sound, IsUnit;
    assert forall c :: c in s.free <==> c in slabs[n].free;
  }

  /** What is in use in a slab changes; everything else stays as it is. */
  lemma SlabChanged(h: Layers, n: nat, s: SlabState, e: Effect)
    requires n in h.slabs && s == h.slabs[n].(free := s.free) && (e.Gain? || e.Lose?) && e.x.Slot? && e.x.n == n
    requires e.Gain? <==> !h.slabs[n].Has(e.x.u)
    requires forall v :: s.Has(v) <==> (h.slabs[n].Has(v) && e != Lose(Slot(n, v))) || e == Gain(Slot(n, v))
    ensures Changed(h, h.(slabs := h.slabs[n := s]), e)
  {
    hide Taken;
  }

  lemma TakeSlotKeeps(h: Layers, n: nat, u: Unit)
    requires Layered(h) && Can(h, TakeSlot(n, u))
    ensures Layered(After(h, TakeSlot(n, u))) && Changed(h, After(h, TakeSlot(n, u)), Gain(Slot(n, u)))
  {
    hide MemoryOk, ArraysOk, UnitsOk, SlabsOk, SlabState.Sound, SlabState.Has, SlabState.CanTake, Changed;
    SlabSound(h, n);
    ArraysUnits(h, After(h, TakeSlot(n, u)));
    UnitTaken(h.slabs[n], u);
    SlabReplaced(h.units, h.slabs, n, h.slabs[n].Taking(u));
    SlabChanged(h, n, h.slabs[n].Taking(u), Gain(Slot(n, u)));
  }

  lemma GiveSlotKeeps(h: Layers, n: nat, u: Unit)
    requires Layered(h) && Can(h, GiveSlot(n, u))
    ensures Layered(After(h, GiveSlot(n, u))) && Changed(h, After(h, GiveSlot(n, u)), Lose(Slot(n, u)))
  {
    hide MemoryOk, ArraysOk, UnitsOk, SlabsOk, SlabState.Sound, SlabState.Has, Changed;
    SlabSound(h, n);
    ArraysUnits(h, After(h, GiveSlot(n, u)));
    UnitGiven(h.slabs[n], u);
    SlabReplaced(h.units, h.slabs, n, h.slabs[n].Giving(u));
    SlabChanged(h, n, h.slabs[n].Giving(u), Lose(Slot(n, u)));
  }

  // Slabs get chunks from the slab of units, and give them back.

  lemma NewSlabChunkKeeps(h: Layers, n: nat, u: Unit)
    requires Layered(h) && Can(h, NewSlabChunk(n, u))
    ensures Layered(After(h, NewSlabChunk(n, u))) && Changed(h, After(h, NewSlabChunk(n, u)), Same)
  {
    hide MemoryOk, ArraysOk, UnitsOk, SlabsOk, SlabState.Sound, SlabState.Has, SlabState.CanTake, Changed;
    var c, units', s := h.units.At(u), h.units.Taking(u), h.slabs[n];
    UnitsSound(h);
    SlabSound(h, n);
    UnitTaken(h.units, u);
    UnitIsNew(h, u);
    ArraysUnits(h, After(h, NewSlabChunk(n, u)));
    SlabsStay(h.units, units', h.slabs);
    assert units'.Has(u) && units'.At(u) == c;
    ChunkAdded(s, c);
    SlabExtended(units', h.slabs, n, c);
    SlotsStay(h, units', n, s.WithChunk(c));
  }

  lemma UnitsSound(h: Layers)
    requires UnitsOk(h)
    ensures h.units.Sound() && h.units.chunkSize == UNIT_CHUNK && h.units.objectSize == UNIT
    ensures h.units.padding == Padding(UNIT)
  {
  }

  /** A unit that can be taken is aligned, and is no slab's chunk. */
  lemma UnitIsNew(h: Layers, u: Unit)
    requires UnitsOk(h) && SlabsOk(h.units, h.slabs) && h.units.CanTake(u)
    ensures h.units.At(u) % UNIT == 0 && forall m :: m in h.slabs ==> h.units.At(u) !in h.slabs[m].free
  {
    SlotAligned(UNIT_CHUNK, UNIT, UNIT, u.chunk, u.index);
    forall m | m in h.slabs
      ensures h.units.At(u) !in h.slabs[m].free
    {
      if h.units.At(u) in h.slabs[m].free {
        assert IsUnit(h.units, h.units.At(u));
        var v :| h.units.Has(v) && h.units.At(v) == h.units.At(u);
        SlotsApart(UNIT_CHUNK, UNIT, h.units.padding, h.units.eLength, u.chunk, u.index, v.chunk, v.index);
      }
    }
  }

  lemma SlabExtended(units: SlabState, slabs: map<nat, SlabState>, n: nat, c: nat)
    requires SlabsOk(units, slabs) && n in slabs && slabs[n].WithChunk(c).Sound() && IsUnit(units, c)
    requires forall m :: m in slabs ==> c !in slabs[m].free
    ensures SlabsOk(units, slabs[n := slabs[n].WithChunk(c)])
  {
    hide SlabState.Sound, IsUnit;
  }

  /** The same slots of the slabs are in use. */
  lemma SlotsStay(h: Layers, units: SlabState, n: nat, s: SlabState)
    requires n in h.slabs && s == h.slabs[n].(free := s.free)
    requires forall v :: s.Has(v) <==> h.slabs[n].Has(v)
    ensures Changed(h, h.(units := units, slabs := h.slabs[n := s]), Same)
  {
    hide SlabState.Has;
  }

  lemma DropSlabChunkKeeps(h: Layers, n: nat, u: Unit)
    requires Layered(h) && Can(h, DropSlabChunk(n, u))
    ensures Layered(After(h, DropSlabChunk(n, u))) && Changed(h, After(h, DropSlabChunk(n, u)), Same)
  {
    hide MemoryOk, ArraysOk, UnitsOk, SlabsOk, SlabState.Sound, SlabState.Has, Changed;
    var c, units', s := h.units.At(u), h.units.Giving(u), h.slabs[n];
    UnitsSound(h);
    SlabSound(h, n);
    UnitGiven(h.units, u);
    ArraysUnits(h, After(h, DropSlabChunk(n, u)));
    ChunkRemoved(s, c);
    SlabReduced(h.units, units', h.slabs, n, u);
    SlotsStay(h, units', n, s.WithoutChunk(c));
  }

  lemma SlabReduced(units: SlabState, units': SlabState, slabs: map<nat, SlabState>, n: nat, u: Unit)
    requires SlabsOk(units, slabs) && n in slabs && slabs[n].WithoutChunk(units.At(u)).Sound()
    requires units.At(u) in slabs[n].free
    requires units' == units.(free := units'.free) && forall v :: units'.Has(v) <==> units.Has(v) && v != u
    ensures SlabsOk(units', slabs[n := slabs[n].WithoutChunk(units.At(u))])
  {
    hide SlabState.Sound, SlabState.Has;
    var c := units.At(u);
    var slabs' := slabs[n := slabs[n].WithoutChunk(c)];
    forall m, d | m in slabs' && d in slabs'[m].free
      ensures IsUnit(units', d)
    {
      assert d in slabs[m].free && IsUnit(units, d) && (d == c ==> m == n);
      var v :| units.Has(v) && units.At(v) == d;
      assert units'.Has(v) && units'.At(v) == d;
    }
  }

  // Every step, and every run.

  /** A step keeps the layers apart, and changes at most one object. */
  lemma StepLayered(h: Layers, op: Op)
    requires Layered(h) && Can(h, op)
    ensures Layered(After(h, op)) && Changed(h, After(h, op), EffectOf(op))
  {
    hide Layered, Changed, After;
    match op
    case NewBlock(f, b) => NewBlockKeeps(h, f, b);
    case DropBlock(f) => DropBlockKeeps(h, f);
    case CutArray(r, size) => CutArrayKeeps(h, r, size);
    case NewArrayChunk(f, b, size) => NewArrayChunkKeeps(h, f, b, size);
    case DropArray(p) => DropArrayKeeps(h, p);
    case DropArrayChunk(f, r) => DropArrayChunkKeeps(h, f, r);
    case NewUnitChunk(f, b) => NewUnitChunkKeeps(h, f, b);
    case DropUnitChunk(f) => DropUnitChunkKeeps(h, f);
    case NewSlab(n, s) => NewSlabKeeps(h, n, s);
    case NewSlabChunk(n, u) => NewSlabChunkKeeps(h, n, u);
    case DropSlabChunk(n, u) => DropSlabChunkKeeps(h, n, u);
    case TakeSlot(n, u) => TakeSlotKeeps(h, n, u);
    case GiveSlot(n, u) => GiveSlotKeeps(h, n, u);
  }

  ghost predicate Step(h: Layers, op: Op, h': Layers) {
    Layered(h) ==> Can(h, op) && h' == After(h, op)
  }

  ghost predicate Steps(run: seq<Layers>, ops: seq<Op>) {
    |run| == |ops| + 1 && forall k :: 0 <= k < |ops| ==> Step(run[k], ops[k], run[k + 1])
  }

  /** In every run no two objects ever have a byte in common, and an object in use throughout stays where it is. */
  lemma {:induction false} RunLayered(run: seq<Layers>, ops: seq<Op>, k: nat, x: Object)
    requires Steps(run, ops) && Layered(run[0]) && k < |run|
    ensures Layered(run[k])
    ensures forall y, z :: InUse(run[k], y) && InUse(run[k], z) && y != z ==>
              Separate(Address(run[k], y), Size(run[k], y), Address(run[k], z), Size(run[k], z))
    ensures (forall j :: 0 <= j <= k ==> InUse(run[j], x)) ==>
              Address(run[k], x) == Address(run[0], x) && Size(run[k], x) == Size(run[0], x)
  {
    hide Layered, Can, After, InUse;
    if k == 0 {
    } else {
      var j := k - 1;
      RunLayered(run, ops, j, x);
      assert Step(run[j], ops[j], run[j + 1]);
      StepLayered(run[j], ops[j]);
    }
    forall y, z | InUse(run[k], y) && InUse(run[k], z) && y != z
      ensures Separate(Address(run[k], y), Size(run[k], y), Address(run[k], z), Size(run[k], z))
    {
      ObjectsApart(run[k], y, z);
    }
  }
}
