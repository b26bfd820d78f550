/** The heap's array space as values: the chunks it owns are tiled by free ranges and live blocks. */
module HeapTiling {
  import opened Words
  import opened RangePairs
  import opened RangeSets
  import opened AddressSpaceManager

  const CHUNK: nat := 0x8_0000

  /** Live blocks: the size by the address. */
  type Live = map<nat, nat>

  function ChunkOf(b: nat): nat {
    b - b % CHUNK
  }

  ghost predicate InLive(live: Live, b: nat) {
    exists s :: s in live && s <= b < s + live[s]
  }

  /** The chunks are aligned, and none is at address 0 or ends beyond the linear space. */
  ghost predicate ChunksOk(owned: set<nat>) {
    forall c :: c in owned ==> c % CHUNK == 0 && 0 < c && c + CHUNK <= 0x8000_0000_0000
  }

  /** The bytes of the chunks are those that are free and those of live blocks. */
  ghost predicate Covered(R: set<RangePair>, owned: set<nat>, live: Live) {
    forall b: nat :: ChunkOf(b) in owned <==> IsFree(R, b) || InLive(live, b)
  }

  /** No byte is both free and live, or in two live blocks. */
  ghost predicate Exclusive(R: set<RangePair>, live: Live) {
    && (forall s :: s in live ==> 0 < live[s] && NoneFree(R, s, live[s]))
    && forall s, t :: s in live && t in live && s != t ==> s + live[s] <= t || t + live[t] <= s
  }

  ghost predicate Tiled(R: set<RangePair>, owned: set<nat>, live: Live) {
    Coalesced(R) && ChunksOk(owned) && Covered(R, owned, live) && Exclusive(R, live)
  }

  lemma ChunkBytes(c: nat, b: nat)
    requires c % CHUNK == 0
    ensures ChunkOf(b) == c <==> c <= b < c + CHUNK
    ensures ChunkOf(b) % CHUNK == 0 && ChunkOf(b) <= b < ChunkOf(b) + CHUNK
  {
    var k, _ := Divide(c, CHUNK);
    var q, r := Divide(b, CHUNK);
    DivModUnique(ChunkOf(b), CHUNK, q, 0);
  }

  lemma LiveByte(live: Live, s: nat, b: nat)
    requires s in live && s <= b < s + live[s]
    ensures InLive(live, b)
  {
  }

  lemma InLiveAdd(live: Live, s: nat, n: nat, b: nat)
    requires s !in live
    ensures InLive(live[s := n], b) <==> InLive(live, b) || s <= b < s + n
  {
    if InLive(live, b) {
      var t :| t in live && t <= b < t + live[t];
      LiveByte(live[s := n], t, b);
    }
    if s <= b < s + n {
      LiveByte(live[s := n], s, b);
    }
  }

  /** A free byte is in a chunk the heap owns, so its address is at least the size of a chunk. */
  lemma FreeByteHigh(R: set<RangePair>, owned: set<nat>, live: Live, b: nat)
    requires Tiled(R, owned, live) && (IsFree(R, b) || InLive(live, b))
    ensures ChunkOf(b) in owned && CHUNK <= b < 0x8000_0000_0000
  {
    hide Coalesced, IsFree, InLive;
    var c := ChunkOf(b);
    ChunkBytes(0, b);
    var k, _ := Divide(c, CHUNK);
  }

  // The branch that takes a block out of a free range passes (start, size) where (size, start) is expected.

  /** That carves the block from the start of the range exactly when the start is not below the size. */
  lemma SwappedCarve(R: set<RangePair>, super: RangePair, size: nat)
    requires Coalesced(R) && Flip(super) in R && 0 < size <= super.x
    ensures CarvePair(R, RangePair(super.y, size), super) == Carve(R, Flip(super), super.y, size) <==> size <= super.y
  {
    var r := Flip(super);
    var C, D := CarvePair(R, RangePair(super.y, size), super), Carve(R, r, super.y, size);
    if super.y < size {
      var extra := RangePair(super.y, size - super.y);
      assert extra in C;
      assert forall s :: s in R && s.x == super.y ==> s == r;
      assert extra !in D;
    }
  }

  /** A range at the bottom of memory for which the swap would leave a range that is not free. */
  lemma SwapMatters()
    ensures var R, super := {RangePair(8, 64)}, RangePair(64, 8);
      && Coalesced(R) && Flip(super) in R
      && CarvePair(R, RangePair(8, 32), super) != Carve(R, RangePair(8, 64), 8, 32)
  {
    SwappedCarve({RangePair(8, 64)}, RangePair(64, 8), 32);
  }

  // What the operations do to the tiling.

  lemma TileBlock(R: set<RangePair>, owned: set<nat>, live: Live, r: RangePair, size: nat)
    requires Tiled(R, owned, live) && r in R && 0 < size <= r.y
    ensures r.x !in live && Tiled(Carve(R, r, r.x, size), owned, live[r.x := size])
  {
    hide Coalesced, IsFree, Carve, InLive;
    var R', live' := Carve(R, r, r.x, size), live[r.x := size];
    CarveCoalesced(R, r, r.x, size);
    RangeApart(R, live, r);
    forall b: nat
      ensures ChunkOf(b) in owned <==> IsFree(R', b) || InLive(live', b)
    {
      CarveBytes(R, r, r.x, size, b);
      InLiveAdd(live, r.x, size, b);
      if r.x <= b < r.x + size {
        InRange(R, r, b);
      }
    }
    forall s | s in live'
      ensures 0 < live'[s] && NoneFree(R', s, live'[s])
    {
      forall b | s <= b < s + live'[s]
        ensures !IsFree(R', b)
      {
        CarveBytes(R, r, r.x, size, b);
      }
    }
  }

  /** A free range and a live block have no byte in common. */
  lemma RangeApart(R: set<RangePair>, live: Live, r: RangePair)
    requires Exclusive(R, live) && r in R && r.y > 0
    ensures r.x !in live && forall s :: s in live ==> s + live[s] <= r.x || End(r) <= s
  {
    hide IsFree;
    forall s | s in live
      ensures s != r.x && (s + live[s] <= r.x || End(r) <= s)
    {
      var b := if s <= r.x then r.x else s;
      assert r.x <= b < End(r) ==> IsFree(R, b) by {
        if r.x <= b < End(r) {
          InRange(R, r, b);
        }
      }
      assert s <= b < s + live[s] ==> !IsFree(R, b);
    }
  }

  lemma TileChunk(R: set<RangePair>, owned: set<nat>, live: Live, c: nat, size: nat)
    requires Tiled(R, owned, live) && ChunksOk({c}) && c !in owned && 0 < size < CHUNK
    ensures NoneFree(R, c + size, CHUNK - size) && c !in live
    ensures Tiled(Merge(R, c + size, CHUNK - size), owned + {c}, live[c := size])
  {
    hide Coalesced, IsFree, Merge, InLive;
    var R', owned', live' := Merge(R, c + size, CHUNK - size), owned + {c}, live[c := size];
    forall b: nat | c <= b < c + CHUNK
      ensures !IsFree(R, b) && !InLive(live, b)
    {
      ChunkBytes(c, b);
    }
    OutsideChunk(R, live, c);
    MergeCoalesced(R, c + size, CHUNK - size);
    forall b: nat
      ensures ChunkOf(b) in owned' <==> IsFree(R', b) || InLive(live', b)
    {
      ChunkBytes(c, b);
      MergeBytes(R, c + size, CHUNK - size, b);
      InLiveAdd(live, c, size, b);
    }
    forall s | s in live'
      ensures 0 < live'[s] && NoneFree(R', s, live'[s])
    {
      forall b | s <= b < s + live'[s]
        ensures !IsFree(R', b)
      {
        MergeBytes(R, c + size, CHUNK - size, b);
      }
    }
  }

  lemma OutsideChunk(R: set<RangePair>, live: Live, c: nat)
    requires Exclusive(R, live)
    requires forall b: nat :: c <= b < c + CHUNK ==> !InLive(live, b)
    ensures c !in live && forall s :: s in live ==> s + live[s] <= c || c + CHUNK <= s
  {
    hide NoneFree;
    forall s | s in live
      ensures s != c && (s + live[s] <= c || c + CHUNK <= s)
    {
      var b := if s <= c then c else s;
      if s <= b < s + live[s] {
        LiveByte(live, s, b);
      }
    }
  }

  lemma TileFree(R: set<RangePair>, owned: set<nat>, live: Live, p: nat)
    requires Tiled(R, owned, live) && p in live
    ensures p + live[p] < LIMIT && Tiled(Merge(R, p, live[p]), owned, live - {p})
  {
    hide Coalesced, IsFree, Merge, InLive;
    var size := live[p];
    LiveByte(live, p, p + size - 1);
    FreeByteHigh(R, owned, live, p + size - 1);
    var R', live' := Merge(R, p, size), live - {p};
    MergeCoalesced(R, p, size);
    assert live == live'[p := size];
    forall b: nat
      ensures ChunkOf(b) in owned <==> IsFree(R', b) || InLive(live', b)
    {
      MergeBytes(R, p, size, b);
      InLiveAdd(live', p, size, b);
    }
    forall s | s in live'
      ensures 0 < live'[s] && NoneFree(R', s, live'[s])
    {
      forall b | s <= b < s + live'[s]
        ensures !IsFree(R', b)
      {
        MergeBytes(R, p, size, b);
      }
    }
  }

  /** A chunk that one free range contains can go: no live block has a byte in it. */
  lemma TileRelease(R: set<RangePair>, owned: set<nat>, live: Live, c: nat, r: RangePair)
    requires Tiled(R, owned, live) && c % CHUNK == 0 && r in R && Contains(r, c, CHUNK)
    ensures c in owned && Tiled(Carve(R, r, c, CHUNK), owned - {c}, live)
    ensures forall s :: s in live ==> s + live[s] <= c || c + CHUNK <= s
  {
    hide Coalesced, IsFree, Carve, InLive;
    var R', owned' := Carve(R, r, c, CHUNK), owned - {c};
    CarveCoalesced(R, r, c, CHUNK);
    InRange(R, r, c);
    ChunkBytes(c, c);
    forall s | s in live
      ensures s + live[s] <= c || c + CHUNK <= s
    {
      RangeApart(R, live, r);
    }
    forall b: nat
      ensures ChunkOf(b) in owned' <==> IsFree(R', b) || InLive(live, b)
    {
      ChunkBytes(c, b);
      CarveBytes(R, r, c, CHUNK, b);
      NotLiveIn(live, c, b);
    }
    forall s | s in live
      ensures 0 < live[s] && NoneFree(R', s, live[s])
    {
      forall b | s <= b < s + live[s]
        ensures !IsFree(R', b)
      {
        CarveBytes(R, r, c, CHUNK, b);
      }
    }
  }

  lemma NotLiveIn(live: Live, c: nat, b: nat)
    requires forall s :: s in live ==> s + live[s] <= c || c + CHUNK <= s
    ensures c <= b < c + CHUNK ==> !InLive(live, b)
  {
  }
}
