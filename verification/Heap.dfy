/** The heap behind `new` and `delete`: it picks a sub-allocator by the size of the object, and records the size so that
    the object goes back where it came from. */
module Heap {
  import opened Words
  import opened ChunkLayout
  import HeapTiling
  import opened KeyedTrees
  import PrimitiveHeap

  /** Sizes that rounding does not carry past a 64-bit word. */
  const MAX_SIZE: nat := 0xFFFF_FFFF_FFFF_F000

  /** The addresses in use, whichever sub-allocator they come from. */
  class Arena {
    var used: set<nat>

    constructor ()
      ensures used == {}
    {
      used := {};
    }
  }

  /** A sub-allocator as the heap sees it: memory it hands out is nobody else's, and it must get back what it handed
      out, with the size it was asked for. A slab serves one size only. */
  class SubAllocator {
    const arena: Arena
    const slabSize: nat
    var live: map<nat, nat>

    constructor (arena: Arena, slabSize: nat)
      ensures live == map[] && this.arena == arena && this.slabSize == slabSize
    {
      this.arena, this.slabSize, live := arena, slabSize, map[];
    }

    method Alloc(size: nat) returns (p: nat)
      requires slabSize == 0 || size == slabSize
      modifies this, arena
      ensures p !in old(arena.used) && arena.used == old(arena.used) + {p} && live == old(live)[p := size]
    {
      ghost var b := PrimitiveHeap.SomeBound(arena.used);
      assert b !in arena.used;
      p :| p !in arena.used;
      arena.used := arena.used + {p};
      live := live[p := size];
    }

    method Free(p: nat, size: nat)
      requires (slabSize == 0 || size == slabSize) && p in live && live[p] == size
      modifies this, arena
      ensures arena.used == old(arena.used) - {p} && live == old(live) - {p}
    {
      arena.used := arena.used - {p};
      live := live - {p};
    }
  }

  datatype SizePHPair = SizePHPair(size: nat, ph: SubAllocator?)

  /** The slabs by size, in a tree of pairs of a size and a pointer, with a cache of five entries replaced in turn. */
  class Slabs {
    const arena: Arena
    const tree: RecordTree
    const sppCache: array<SizePHPair>
    var sppCacheIndex: nat

    /** The slabs in the order they were made: the pointer to a slab is modelled by its place. */
    var made: seq<SubAllocator>

    ghost var pHeaps: map<nat, SubAllocator>

    ghost predicate SlabMade(ph: SubAllocator, size: nat)
      reads ph
    {
      ph.arena == arena && ph.slabSize == size && ph.live == map[]
    }

    ghost predicate Valid()
      reads this, sppCache, tree, tree.tree, tree.tree.repr
    {
      && sppCache.Length == 5 && sppCacheIndex < 5 && 0 !in pHeaps
      && (forall i :: 0 <= i < 5 ==> CacheOk(sppCache[i], pHeaps))
      && tree.Valid() && PointersOk(tree.records, made, pHeaps)
      && {this, sppCache} !! tree.Repr()
    }

    constructor (arena: Arena)
      ensures Valid() && fresh(sppCache) && fresh(tree.Repr()) && pHeaps == map[] && this.arena == arena
    {
      this.arena := arena;
      tree := new RecordTree();
      sppCache := new SizePHPair[5](_ => SizePHPair(0, null));
      sppCacheIndex, made, pHeaps := 0, [], map[];
    }

    /** The slab for a size, or null if there is none yet: with the cache as without. */
    method GetPH(size: nat) returns (ph: SubAllocator?)
      requires Valid()
      modifies this`sppCacheIndex, sppCache
      ensures Valid() && ph == Lookup(pHeaps, size)
    {
      hide RecordTree.Valid;
      var i := 0;
      while i < 5
        invariant 0 <= i <= 5
        modifies {}
      {
        if sppCache[i].size == size {
          assert CacheOk(sppCache[i], pHeaps);
          return sppCache[i].ph;
        }
        i := i + 1;
      }
      var found, pointer := tree.Lookup(size);
      if found {
        ph := made[pointer];
        Remember(size, ph);
      } else {
        ph := null;
      }
    }

    /** Replaces the oldest entry of the cache. */
    method Remember(size: nat, ph: SubAllocator)
      requires Valid() && size in pHeaps && pHeaps[size] == ph
      modifies this`sppCacheIndex, sppCache
      ensures Valid() && sppCacheIndex == (old(sppCacheIndex) + 1) % 5
      ensures sppCache[..] == old(sppCache[..])[old(sppCacheIndex) := SizePHPair(size, ph)]
    {
      hide RecordTree.Valid;
      sppCache[sppCacheIndex] := SizePHPair(size, ph);
      sppCacheIndex := (sppCacheIndex + 1) % 5;
    }

    /** The slab for a size, which is made if there is none. */
    method SlabFor(size: nat) returns (ph: SubAllocator)
      requires Valid() && size > 0
      modifies this, sppCache, tree.Repr()
      ensures Valid() && fresh(tree.Repr() - old(tree.Repr()))
      ensures size in pHeaps && ph == pHeaps[size]
      ensures size in old(pHeaps) ==> pHeaps == old(pHeaps)
      ensures size !in old(pHeaps) ==>
                SlabMade(ph, size) && fresh(ph) && ph !in tree.Repr() && pHeaps == old(pHeaps)[size := ph]
    {
      hide RecordTree.Valid;
      var found := GetPH(size);
      if found == null {
        found := new SubAllocator(arena, size);
        Enter(size, found);
        Remember(size, found);
      }
      ph := found;
    }

    /** Records a slab under its size. */
    method Enter(size: nat, ph: SubAllocator)
      requires Valid() && size > 0 && size !in pHeaps && ph !in tree.Repr()
      modifies this, tree.Repr()
      ensures Valid() && fresh(tree.Repr() - old(tree.Repr())) && ph !in tree.Repr()
      ensures pHeaps == old(pHeaps)[size := ph]
    {
      hide RecordTree.Valid, CacheOk;
      tree.Insert(size, |made|);
      made, pHeaps := made + [ph], pHeaps[size := ph];
      forall i | 0 <= i < 5
        ensures CacheOk(sppCache[i], pHeaps)
      {
        assert old(CacheOk(sppCache[i], pHeaps));
        CacheStillOk(sppCache[i], old(pHeaps), size, ph);
      }
    }
  }

  /** The tree has the pointer to each slab under the slab's size. */
  ghost predicate PointersOk(records: map<nat, nat>, made: seq<SubAllocator>, pHeaps: map<nat, SubAllocator>) {
    records.Keys == pHeaps.Keys && forall n :: n in records ==> records[n] < |made| && made[records[n]] == pHeaps[n]
  }

  lemma CacheStillOk(e: SizePHPair, pHeaps: map<nat, SubAllocator>, size: nat, ph: SubAllocator)
    requires CacheOk(e, pHeaps) && size !in pHeaps
    ensures CacheOk(e, pHeaps[size := ph])
  {
  }

  predicate CacheOk(e: SizePHPair, pHeaps: map<nat, SubAllocator>) {
    if e.size == 0 then e.ph == null else e.size in pHeaps && e.ph == pHeaps[e.size]
  }

  function Lookup(pHeaps: map<nat, SubAllocator>, size: nat): SubAllocator? {
    if size in pHeaps then pHeaps[size] else null
  }

  /** The slabs the heap makes are such as the slab allocator's constructor accepts. */
  lemma SlabSizesLegal(size: nat)
    requires 0 < size <= 128 && size % 8 == 0
    ensures LegalSizes(2048, size, 8)
    ensures forall e: nat :: Optimal(2048, size, Padding(8), e) ==> 1 < e && 0 < e <= 2048 / size
  {
    assert Fits(2048, size, Padding(8), 15);
    forall e: nat | Optimal(2048, size, Padding(8), e)
      ensures 1 < e && 0 < e <= 2048 / size
    {
      var q, r := Divide(2048, size);
      NextMultiple(size, q, e);
      assert size * e == e * size;
    }
  }

  // Where an object of a given size goes.

  /** The sub-allocator that serves an object, and the size it is asked for. */
  datatype Route = Slab(n: nat) | Chunks(n: nat) | Pages(n: nat)

  function RoundUp(size: nat, unit: nat): nat
    requires unit > 0
  {
    if size % unit != 0 then size + (unit - size % unit) else size
  }

  function SingleRoute(size: nat): Route {
    var n := RoundUp(if size == 0 then 8 else size, 8);
    if n > 128 then ArrayRoute(n) else Slab(n)
  }

  function ArrayRoute(size: nat): Route {
    if size == 0 then Slab(8)
    else
      var n := RoundUp(size, 8);
      if n <= HeapTiling.CHUNK / 2 then Chunks(n) else Pages(RoundUp(n, 4096))
  }

  /** n is the least multiple of the unit that is not below the size. */
  predicate Rounded(size: nat, unit: nat, n: nat)
    requires unit > 0
  {
    n % unit == 0 && size <= n < size + unit
  }

  /** Which sub-allocator serves an object is decided by its size: a slab up to 128 bytes, the array space up to half a
      chunk, the memory manager above. Objects get what they ask for, rounded up to 8 bytes or to pages. */
  lemma RouteEnough(size: nat)
    ensures SingleRoute(0) == ArrayRoute(0) == Slab(8)
    ensures 0 < size <= 128 ==> var r := SingleRoute(size); r.Slab? && Rounded(size, 8, r.n) && r.n <= 128
    ensures size > 128 ==> SingleRoute(size) == ArrayRoute(size)
    ensures 0 < size <= 0x4_0000 ==> var r := ArrayRoute(size); r.Chunks? && Rounded(size, 8, r.n) && r.n <= 0x4_0000
    ensures size > 0x4_0000 ==> var r := ArrayRoute(size); r.Pages? && Rounded(size, 4096, r.n)
  {
    RoundUpFacts(size, 8);
    RoundUpFacts(RoundUp(size, 8), 4096);
    var c, _ := Divide(RoundUp(size, 8), 8);
    var d, _ := Divide(RoundUp(RoundUp(size, 8), 4096), 4096);
    PagesRounded(size, c, 512 * d);
  }

  /** Rounding up to 8 bytes first makes no difference to pages. */
  lemma PagesRounded(size: nat, c: nat, e: nat)
    requires size <= 8 * c < size + 8 && 8 * c <= 8 * e < 8 * c + 4096
    ensures size <= 8 * e < size + 4096
  {
    assert e <= c + 511;
  }

  lemma RoundUpFacts(size: nat, unit: nat)
    requires unit == 8 || unit == 4096
    ensures size <= RoundUp(size, unit) < size + unit && RoundUp(size, unit) % unit == 0
    ensures RoundUp(RoundUp(size, unit), unit) == RoundUp(size, unit)
  {
    var q, r := Divide(size, unit);
    if r != 0 {
      DivModUnique(RoundUp(size, unit), unit, q + 1, 0);
    }
  }

  // What the sub-allocators have handed out, with the sizes.

  ghost predicate SlabLive(live: map<nat, nat>, n: nat, routes: map<nat, Route>) {
    forall p :: (p in live <==> p in routes && routes[p] == Slab(n)) && (p in live ==> live[p] == n)
  }

  ghost predicate ChunksLive(live: map<nat, nat>, routes: map<nat, Route>) {
    forall p :: (p in live <==> p in routes && routes[p].Chunks?) && (p in live ==> routes[p] == Chunks(live[p]))
  }

  ghost predicate PagesLive(live: map<nat, nat>, routes: map<nat, Route>) {
    forall p :: (p in live <==> p in routes && routes[p].Pages?) && (p in live ==> routes[p] == Pages(live[p]))
  }

  lemma NewSlab(n: nat, routes: map<nat, Route>)
    requires forall p :: p in routes ==> routes[p] != Slab(n)
    ensures SlabLive(map[], n, routes)
  {
  }

  lemma Handed(live: map<nat, nat>, routes: map<nat, Route>, p: nat)
    requires p in routes
    requires match routes[p]
      case Slab(n) => SlabLive(live, n, routes)
      case Chunks(_) => ChunksLive(live, routes)
      case Pages(_) => PagesLive(live, routes)
    ensures p in live && live[p] == routes[p].n
  {
  }

  /** An allocation changes what one sub-allocator has handed out. */
  lemma Taken(routes: map<nat, Route>, p: nat, r: Route)
    requires p !in routes
    ensures forall n, live :: SlabLive(live, n, routes) ==>
              SlabLive(if r == Slab(n) then live[p := n] else live, n, routes[p := r])
    ensures forall live :: ChunksLive(live, routes) ==>
              ChunksLive(if r.Chunks? then live[p := r.n] else live, routes[p := r])
    ensures forall live :: PagesLive(live, routes) ==>
              PagesLive(if r.Pages? then live[p := r.n] else live, routes[p := r])
  {
  }

  lemma Given(routes: map<nat, Route>, p: nat)
    requires p in routes
    ensures forall n, live :: SlabLive(live, n, routes) ==>
              SlabLive(if routes[p] == Slab(n) then live - {p} else live, n, routes - {p})
    ensures forall live :: ChunksLive(live, routes) ==>
              ChunksLive(if routes[p].Chunks? then live - {p} else live, routes - {p})
    ensures forall live :: PagesLive(live, routes) ==>
              PagesLive(if routes[p].Pages? then live - {p} else live, routes - {p})
  {
  }

  /** The routes of all recorded objects, and of nothing else. */
  ghost predicate Recorded(singles: map<nat, nat>, arrays: map<nat, nat>, routes: map<nat, Route>) {
    && routes.Keys == singles.Keys + arrays.Keys && singles.Keys !! arrays.Keys
    && (forall p :: p in singles ==> routes[p] == SingleRoute(singles[p]))
    && (forall p :: p in arrays ==> routes[p] == ArrayRoute(arrays[p]))
  }

  lemma RecordedKeys(singles: map<nat, nat>, arrays: map<nat, nat>, routes: map<nat, Route>)
    requires Recorded(singles, arrays, routes)
    ensures routes.Keys == singles.Keys + arrays.Keys
  {
  }

  lemma RecordSingle(singles: map<nat, nat>, arrays: map<nat, nat>, routes: map<nat, Route>, p: nat, size: nat)
    requires Recorded(singles, arrays, routes) && p !in routes
    ensures Recorded(singles[p := size], arrays, routes[p := SingleRoute(size)])
  {
    hide SingleRoute, ArrayRoute;
  }

  lemma RecordArray(singles: map<nat, nat>, arrays: map<nat, nat>, routes: map<nat, Route>, p: nat, size: nat)
    requires Recorded(singles, arrays, routes) && p !in routes
    ensures Recorded(singles, arrays[p := size], routes[p := ArrayRoute(size)])
  {
    hide SingleRoute, ArrayRoute;
  }

  lemma ForgetSingle(singles: map<nat, nat>, arrays: map<nat, nat>, routes: map<nat, Route>, p: nat)
    requires Recorded(singles, arrays, routes) && p in singles
    ensures p in routes && routes[p] == SingleRoute(singles[p]) && Recorded(singles - {p}, arrays, routes - {p})
  {
    hide SingleRoute, ArrayRoute;
  }

  lemma ForgetArray(singles: map<nat, nat>, arrays: map<nat, nat>, routes: map<nat, Route>, p: nat)
    requires Recorded(singles, arrays, routes) && p in arrays
    ensures p in routes && routes[p] == ArrayRoute(arrays[p]) && Recorded(singles, arrays - {p}, routes - {p})
  {
    hide SingleRoute, ArrayRoute;
  }

  lemma NothingRecorded()
    ensures Recorded(map[], map[], map[])
  {
  }

  class Heap {
    const slabs: Slabs
    const chunks: SubAllocator
    const pages: SubAllocator

    /** The sizes asked for, by address: of objects made by `new`, and of arrays made by `new[]`. */
    const singleObjects: RecordTree
    const arrayObjects: RecordTree

    /** The sub-allocator that serves each address in use. */
    ghost var routes: map<nat, Route>

    /** The objects that an allocation without its record may change: a set that has them all. */
    ghost var stores: set<object>

    ghost function Parts(): set<object>
      reads slabs, slabs.tree.tree
    {
      {slabs, slabs.sppCache, slabs.arena, chunks, pages} + slabs.pHeaps.Values + slabs.tree.Repr()
    }

    /** The sub-allocators are set up, and no two of them share an object. */
    ghost predicate Laid()
      reads slabs, slabs.sppCache, slabs.tree, slabs.tree.tree, slabs.tree.tree.repr
    {
      && slabs.Valid() && chunks != pages && chunks !in slabs.pHeaps.Values && pages !in slabs.pHeaps.Values
      && ({this, chunks, pages, slabs.arena} + slabs.pHeaps.Values) !! slabs.tree.Repr()
      && chunks.arena == pages.arena == slabs.arena && chunks.slabSize == pages.slabSize == 0
      && forall n :: n in slabs.pHeaps ==> slabs.pHeaps[n].slabSize == n && slabs.pHeaps[n].arena == slabs.arena
    }

    lemma LaidApart()
      requires Laid()
      ensures chunks != pages && chunks !in slabs.pHeaps.Values && pages !in slabs.pHeaps.Values
      ensures ({this, chunks, pages, slabs.arena} + slabs.pHeaps.Values) !! slabs.tree.Repr()
      ensures chunks.arena == pages.arena == slabs.arena && chunks.slabSize == pages.slabSize == 0
      ensures forall n :: n in slabs.pHeaps ==> slabs.pHeaps[n].slabSize == n && slabs.pHeaps[n].arena == slabs.arena
    {
    }

    /** The sub-allocators have handed out what the routes say and nothing else. */
    ghost predicate Stored()
      reads `routes, slabs, slabs.sppCache, slabs.tree, slabs.tree.tree, slabs.tree.tree.repr
      reads slabs.arena, chunks, pages, slabs.pHeaps.Values
    {
      && Laid() && slabs.arena.used == routes.Keys
      && (forall n :: n in slabs.pHeaps ==> SlabLive(slabs.pHeaps[n].live, n, routes))
      && (forall p :: p in routes && routes[p].Slab? ==> routes[p].n in slabs.pHeaps)
      && ChunksLive(chunks.live, routes) && PagesLive(pages.live, routes)
    }

    ghost predicate Kept()
      reads this, stores
    {
      slabs in stores && slabs.tree.tree in stores && Parts() <= stores && this !in stores && Stored()
    }

    ghost predicate Valid()
      reads this, stores, singleObjects, singleObjects.tree, singleObjects.tree.repr
      reads arrayObjects, arrayObjects.tree, arrayObjects.tree.repr
    {
      && Kept() && singleObjects.Valid() && arrayObjects.Valid()
      && Recorded(singleObjects.records, arrayObjects.records, routes)
      && this !in stores + singleObjects.Repr() + arrayObjects.Repr() && slabs in stores
      && stores !! singleObjects.Repr() && stores !! arrayObjects.Repr() && singleObjects.Repr() !! arrayObjects.Repr()
    }

    constructor (slabs: Slabs, chunks: SubAllocator, pages: SubAllocator, singles: RecordTree, arrays: RecordTree)
      requires slabs.Valid() && slabs.pHeaps == map[] && chunks != pages && chunks.arena == pages.arena == slabs.arena
      requires chunks.live == map[] && pages.live == map[] && chunks.slabSize == 0 && pages.slabSize == 0
      requires slabs.arena.used == {} && singles.Valid() && arrays.Valid()
      requires singles.records == map[] && arrays.records == map[]
      requires {slabs, slabs.sppCache, chunks, pages, slabs.arena} !! slabs.tree.Repr()
      requires {slabs, slabs.sppCache, chunks, pages, slabs.arena} !! singles.Repr()
      requires {slabs, slabs.sppCache, chunks, pages, slabs.arena} !! arrays.Repr()
      requires slabs.tree.Repr() !! singles.Repr() && slabs.tree.Repr() !! arrays.Repr()
      requires singles.Repr() !! arrays.Repr()
      ensures Valid() && singleObjects == singles && arrayObjects == arrays && this.slabs == slabs
      ensures stores == {slabs, slabs.sppCache, slabs.arena, chunks, pages} + slabs.tree.Repr()
    {
      hide Slabs.Valid, RecordTree.Valid, Laid, Stored, Kept, Recorded;
      this.slabs, this.chunks, this.pages, singleObjects, arrayObjects := slabs, chunks, pages, singles, arrays;
      routes, stores := map[], {};
      new;
      stores := Parts();
      assert slabs.pHeaps.Values == {};
      NothingStored();
      ItIsKept();
      NothingRecorded();
    }

    lemma ItIsKept()
      requires slabs in stores && slabs.tree.tree in stores && Parts() <= stores && this !in stores && Stored()
      ensures Kept()
    {
      hide Stored;
    }

    lemma NothingStored()
      requires slabs.Valid() && slabs.pHeaps == map[] && chunks != pages && chunks.arena == pages.arena == slabs.arena
      requires {this, chunks, pages, slabs.arena} !! slabs.tree.Repr()
      requires chunks.live == map[] && pages.live == map[] && chunks.slabSize == 0 && pages.slabSize == 0
      requires slabs.arena.used == {} && routes == map[]
      ensures Stored()
    {
    }

    /** Serves an object, without recording it. */
    method Serve(size: nat, single: bool) returns (res: nat)
      requires Kept() && size <= MAX_SIZE
      modifies `routes, `stores, stores
      ensures Kept() && old(stores) <= stores && fresh(stores - old(stores))
      ensures res !in old(routes)
      ensures routes == old(routes)[res := if single then SingleRoute(size) else ArrayRoute(size)]
    {
      hide Stored;
      if single {
        res := AllocSingleNoCreateEntry(size);
      } else {
        res := AllocArrayNoCreateEntry(size);
      }
      stores := stores + Parts();
    }

    method AllocSingle(size: nat) returns (res: nat)
      requires Valid() && size <= MAX_SIZE
      modifies this, stores, singleObjects.Repr()
      ensures Valid() && fresh(stores - old(stores)) && fresh(singleObjects.Repr() - old(singleObjects.Repr()))
      ensures res !in old(singleObjects.records) && res !in arrayObjects.records
      ensures singleObjects.records == old(singleObjects.records)[res := size]
      ensures arrayObjects.records == old(arrayObjects.records) && arrayObjects.Repr() == old(arrayObjects.Repr())
      ensures routes == old(routes)[res := SingleRoute(size)]
    {
      hide Kept, Recorded, RecordTree.Valid;
      RecordedKeys(singleObjects.records, arrayObjects.records, routes);
      res := Serve(size, true);
      RecordSingle(singleObjects.records, arrayObjects.records, old(routes), res, size);
      singleObjects.Insert(res, size);
    }

    method AllocArray(size: nat) returns (res: nat)
      requires Valid() && size <= MAX_SIZE
      modifies this, stores, arrayObjects.Repr()
      ensures Valid() && fresh(stores - old(stores)) && fresh(arrayObjects.Repr() - old(arrayObjects.Repr()))
      ensures res !in singleObjects.records && res !in old(arrayObjects.records)
      ensures arrayObjects.records == old(arrayObjects.records)[res := size]
      ensures singleObjects.records == old(singleObjects.records) && singleObjects.Repr() == old(singleObjects.Repr())
      ensures routes == old(routes)[res := ArrayRoute(size)]
    {
      hide Kept, Recorded, RecordTree.Valid;
      RecordedKeys(singleObjects.records, arrayObjects.records, routes);
      res := Serve(size, false);
      RecordArray(singleObjects.records, arrayObjects.records, old(routes), res, size);
      arrayObjects.Insert(res, size);
    }

    method AllocSingleNoCreateEntry(size0: nat) returns (res: nat)
      requires Stored() && size0 <= MAX_SIZE
      modifies `routes, Parts()
      ensures Stored() && fresh(Parts() - old(Parts()))
      ensures res !in old(routes) && routes == old(routes)[res := SingleRoute(size0)]
      decreases 1
    {
      hide Stored;
      var size := size0;
      if size == 0 {
        size := 8;
      }
      if size % 8 != 0 {
        size := size + (8 - size % 8);
      }
      RoundUpFacts(if size0 == 0 then 8 else size0, 8);
      if size > 128 {
        res := AllocArrayNoCreateEntry(size);
      } else {
        res := FromSlab(size);
      }
    }

    method AllocArrayNoCreateEntry(size0: nat) returns (res: nat)
      requires Stored() && size0 <= MAX_SIZE + 8
      modifies `routes, Parts()
      ensures Stored() && fresh(Parts() - old(Parts()))
      ensures res !in old(routes) && routes == old(routes)[res := ArrayRoute(size0)]
      decreases if size0 == 0 then 2 else 0
    {
      hide SlabLive, ChunksLive, PagesLive, Laid;
      var size := size0;
      if size == 0 {
        res := AllocSingleNoCreateEntry(0);
        return;
      }
      if size % 8 != 0 {
        size := size + (8 - size % 8);
      }
      if size <= HeapTiling.CHUNK / 2 {
        res := TakeFromChunks(size);
      } else {
        if size % 4096 != 0 {
          size := size + (4096 - size % 4096);
        }
        res := TakeFromPages(size);
      }
    }

    /** The slab for a size, made if there is none. */
    method SlabOf(size: nat) returns (ph: SubAllocator)
      requires Stored() && size > 0
      modifies slabs, slabs.sppCache, slabs.tree.Repr()
      ensures Stored() && size in slabs.pHeaps && ph == slabs.pHeaps[size] && ph in slabs.pHeaps.Values
      ensures fresh(Parts() - old(Parts()))
    {
      hide SlabLive, ChunksLive, PagesLive, Slabs.Valid;
      ghost var before := slabs.pHeaps;
      ph := slabs.SlabFor(size);
      if size !in before {
        assert SlabLive(ph.live, size, routes) by { NewSlab(size, routes); }
      }
      forall n | n in slabs.pHeaps
        ensures SlabLive(slabs.pHeaps[n].live, n, routes)
      {
        if n in before {
          assert old(SlabLive(slabs.pHeaps[n].live, n, routes));
        }
      }
    }

    method FromSlab(size: nat) returns (res: nat)
      requires Stored() && size > 0
      modifies `routes, Parts()
      ensures Stored() && fresh(Parts() - old(Parts()))
      ensures res !in old(routes) && routes == old(routes)[res := Slab(size)]
    {
      hide SlabLive, ChunksLive, PagesLive, Laid;
      LaidApart();
      var ph := SlabOf(size);
      res := TakeFromSlab(ph, size);
    }

    method TakeFromSlab(ph: SubAllocator, size: nat) returns (res: nat)
      requires Stored() && size in slabs.pHeaps && ph == slabs.pHeaps[size]
      modifies `routes, slabs.arena, ph
      ensures Stored() && res !in old(routes) && routes == old(routes)[res := Slab(size)]
    {
      hide SlabLive, ChunksLive, PagesLive, Laid;
      LaidApart();
      res := ph.Alloc(size);
      Taken(routes, res, Slab(size));
      routes := routes[res := Slab(size)];
      forall n | n in slabs.pHeaps
        ensures SlabLive(slabs.pHeaps[n].live, n, routes)
      {
        assert old(SlabLive(slabs.pHeaps[n].live, n, routes));
      }
      assert old(ChunksLive(chunks.live, routes)) && old(PagesLive(pages.live, routes));
    }

    method TakeFromChunks(size: nat) returns (res: nat)
      requires Stored()
      modifies `routes, slabs.arena, chunks
      ensures Stored() && res !in old(routes) && routes == old(routes)[res := Chunks(size)]
    {
      hide SlabLive, ChunksLive, PagesLive, Laid;
      LaidApart();
      res := chunks.Alloc(size);
      Taken(routes, res, Chunks(size));
      routes := routes[res := Chunks(size)];
      forall n | n in slabs.pHeaps
        ensures SlabLive(slabs.pHeaps[n].live, n, routes)
      {
        assert old(SlabLive(slabs.pHeaps[n].live, n, routes));
      }
      assert old(ChunksLive(chunks.live, routes)) && old(PagesLive(pages.live, routes));
    }

    method TakeFromPages(size: nat) returns (res: nat)
      requires Stored()
      modifies `routes, slabs.arena, pages
      ensures Stored() && res !in old(routes) && routes == old(routes)[res := Pages(size)]
    {
      hide SlabLive, ChunksLive, PagesLive, Laid;
      LaidApart();
      res := pages.Alloc(size);
      Taken(routes, res, Pages(size));
      routes := routes[res := Pages(size)];
      forall n | n in slabs.pHeaps
        ensures SlabLive(slabs.pHeaps[n].live, n, routes)
      {
        assert old(SlabLive(slabs.pHeaps[n].live, n, routes));
      }
      assert old(ChunksLive(chunks.live, routes)) && old(PagesLive(pages.live, routes));
    }

    /** Gives an object back to the sub-allocator that served it. */
    method Return(p: nat, size: nat, single: bool)
      requires Kept() && p in routes && routes[p] == if single then SingleRoute(size) else ArrayRoute(size)
      modifies `routes, stores
      ensures Kept() && routes == old(routes) - {p} && slabs.pHeaps == old(slabs.pHeaps)
    {
      hide Stored;
      if single {
        FreeSingleNoDeleteEntry(p, size);
      } else {
        FreeArrayNoDeleteEntry(p, size);
      }
    }

    /** Frees an object made by `AllocSingle`: the sub-allocator that served it gets it back with the size it was asked
        for. The assertions, whose conjunction is returned, hold exactly for such objects. */
    method FreeSingle(p: nat) returns (ok: bool)
      requires Valid()
      modifies this, stores, singleObjects.Repr()
      ensures Valid() && stores == old(stores) && fresh(singleObjects.Repr() - old(singleObjects.Repr()))
      ensures ok <==> p in old(singleObjects.records)
      ensures singleObjects.records == old(singleObjects.records) - {p}
      ensures arrayObjects.records == old(arrayObjects.records) && arrayObjects.Repr() == old(arrayObjects.Repr())
      ensures routes == (if ok then old(routes) - {p} else old(routes)) && slabs.pHeaps == old(slabs.pHeaps)
    {
      hide Kept, Recorded, RecordTree.Valid;
      var size;
      ok, size := singleObjects.Lookup(p);
      if !ok {
        assert singleObjects.records - {p} == singleObjects.records;
        return;
      }
      ForgetSingle(singleObjects.records, arrayObjects.records, routes, p);
      singleObjects.Remove(p, size);
      Return(p, size, true);
    }

    method FreeArray(p: nat) returns (ok: bool)
      requires Valid()
      modifies this, stores, arrayObjects.Repr()
      ensures Valid() && stores == old(stores) && fresh(arrayObjects.Repr() - old(arrayObjects.Repr()))
      ensures ok <==> p in old(arrayObjects.records)
      ensures arrayObjects.records == old(arrayObjects.records) - {p}
      ensures singleObjects.records == old(singleObjects.records) && singleObjects.Repr() == old(singleObjects.Repr())
      ensures routes == (if ok then old(routes) - {p} else old(routes)) && slabs.pHeaps == old(slabs.pHeaps)
    {
      hide Kept, Recorded, RecordTree.Valid;
      var size;
      ok, size := arrayObjects.Lookup(p);
      if !ok {
        assert arrayObjects.records - {p} == arrayObjects.records;
        return;
      }
      ForgetArray(singleObjects.records, arrayObjects.records, routes, p);
      arrayObjects.Remove(p, size);
      Return(p, size, false);
    }

    method FreeSingleNoDeleteEntry(p: nat, size0: nat)
      requires Stored() && p in routes && routes[p] == SingleRoute(size0)
      modifies `routes, slabs`sppCacheIndex, slabs.sppCache, slabs.arena, chunks, pages, slabs.pHeaps.Values
      ensures Stored() && routes == old(routes) - {p}
      decreases 1
    {
      hide SlabLive, ChunksLive, PagesLive, Slabs.Valid;
      var size := size0;
      if size == 0 {
        size := 8;
      }
      if size % 8 != 0 {
        size := size + (8 - size % 8);
      }
      RoundUpFacts(if size0 == 0 then 8 else size0, 8);
      if size > 128 {
        FreeArrayNoDeleteEntry(p, size);
      } else {
        var ph := slabs.GetPH(size);
        assert ph != null;
        GiveToSlab(ph, p, size);
      }
    }

    method FreeArrayNoDeleteEntry(p: nat, size0: nat)
      requires Stored() && p in routes && routes[p] == ArrayRoute(size0)
      modifies `routes, slabs`sppCacheIndex, slabs.sppCache, slabs.arena, chunks, pages, slabs.pHeaps.Values
      ensures Stored() && routes == old(routes) - {p}
      decreases if size0 == 0 then 2 else 0
    {
      hide SlabLive, ChunksLive, PagesLive, Laid;
      var size := size0;
      if size == 0 {
        FreeSingleNoDeleteEntry(p, 0);
        return;
      }
      if size % 8 != 0 {
        size := size + (8 - size % 8);
      }
      if size <= HeapTiling.CHUNK / 2 {
        GiveToChunks(p, size);
      } else {
        if size % 4096 != 0 {
          size := size + (4096 - size % 4096);
        }
        GiveToPages(p, size);
      }
    }

    method GiveToSlab(ph: SubAllocator, p: nat, size: nat)
      requires Stored() && size in slabs.pHeaps && ph == slabs.pHeaps[size] && p in routes && routes[p] == Slab(size)
      modifies `routes, slabs.arena, ph
      ensures Stored() && routes == old(routes) - {p}
    {
      hide SlabLive, ChunksLive, PagesLive, Laid;
      LaidApart();
      Handed(ph.live, routes, p);
      ph.Free(p, size);
      Given(routes, p);
      routes := routes - {p};
      forall n | n in slabs.pHeaps
        ensures SlabLive(slabs.pHeaps[n].live, n, routes)
      {
        assert old(SlabLive(slabs.pHeaps[n].live, n, routes));
      }
      assert old(ChunksLive(chunks.live, routes)) && old(PagesLive(pages.live, routes));
    }

    method GiveToChunks(p: nat, size: nat)
      requires Stored() && p in routes && routes[p] == Chunks(size)
      modifies `routes, slabs.arena, chunks
      ensures Stored() && routes == old(routes) - {p}
    {
      hide SlabLive, ChunksLive, PagesLive, Laid;
      LaidApart();
      Handed(chunks.live, routes, p);
      chunks.Free(p, size);
      Given(routes, p);
      routes := routes - {p};
      forall n | n in slabs.pHeaps
        ensures SlabLive(slabs.pHeaps[n].live, n, routes)
      {
        assert old(SlabLive(slabs.pHeaps[n].live, n, routes));
      }
      assert old(ChunksLive(chunks.live, routes)) && old(PagesLive(pages.live, routes));
    }

    method GiveToPages(p: nat, size: nat)
      requires Stored() && p in routes && routes[p] == Pages(size)
      modifies `routes, slabs.arena, pages
      ensures Stored() && routes == old(routes) - {p}
    {
      hide SlabLive, ChunksLive, PagesLive, Laid;
      LaidApart();
      Handed(pages.live, routes, p);
      pages.Free(p, size);
      Given(routes, p);
      routes := routes - {p};
      forall n | n in slabs.pHeaps
        ensures SlabLive(slabs.pHeaps[n].live, n, routes)
      {
        assert old(SlabLive(slabs.pHeaps[n].live, n, routes));
      }
      assert old(ChunksLive(chunks.live, routes)) && old(PagesLive(pages.live, routes));
    }
  }

  /** The heap as it starts, with nothing allocated. */
  method Init() returns (h: Heap)
    ensures h.Valid() && h.singleObjects.records == map[] && h.arrayObjects.records == map[]
    ensures fresh(h) && fresh(h.stores) && fresh(h.singleObjects.Repr()) && fresh(h.arrayObjects.Repr())
  {
    hide Slabs.Valid, RecordTree.Valid, Heap.Valid;
    var arena := new Arena();
    var slabs := new Slabs(arena);
    var chunks := new SubAllocator(arena, 0);
    var pages := new SubAllocator(arena, 0);
    var singles := new RecordTree();
    var arrays := new RecordTree();
    h := new Heap(slabs, chunks, pages, singles, arrays);
  }
}
