/** The slab allocator: chunks of equal slots, bitmaps of the free ones, and two lists of chunks that have any. */
module PrimitiveHeap {
  import opened Common
  import opened Words
  import opened Bitmap
  import opened ChunkLayout

  class PrimitiveHeapChunk {
    const address: nat
    var next: PrimitiveHeapChunk?
    var prev: PrimitiveHeapChunk?
    var numavailableentry: nat
    var bm: seq<u64>

    /** The free slots. */
    ghost var slots: set<nat>

    constructor (address: nat)
      ensures this.address == address && next == null && prev == null && bm == []
    {
      this.address := address;
      next, prev, numavailableentry, bm := null, null, 0, [];
    }

    /** The bitmap and the count say which of the eLength slots are free. */
    ghost predicate Valid(eLength: nat)
      reads `bm, `slots, `numavailableentry
    {
      && |bm| == BitmapWords(eLength) && numavailableentry == |slots|
      && (forall i :: i in slots ==> i < eLength)
      && (forall i: nat :: i < 64 * |bm| ==> (Slot(bm, i) <==> i in slots))
    }

    /** Takes the lowest free slot. */
    method Take(eLength: nat) returns (index: nat)
      requires Valid(eLength) && slots != {}
      modifies `bm, `slots, `numavailableentry
      ensures Valid(eLength) && index in old(slots) && slots == old(slots) - {index}
      ensures forall i :: i in old(slots) ==> index <= i
    {
      hide Slot;
      SomeSlot(bm, slots, eLength);
      var bmindex := 0;
      while bm[bmindex] == 0
        invariant 0 <= bmindex < |bm|
        invariant forall k :: 0 <= k < bmindex ==> bm[k] == 0
        modifies {}
        decreases |bm| - bmindex
      {
        NextWord(bm, slots, eLength, bmindex);
        bmindex := bmindex + 1;
      }
      var w := bm[bmindex];
      LeastBit(w);
      var bit := BinaryLog(LeastSignificantSetBitOf(w), Lowest(w));
      index := 64 * bmindex + bit;
      LowestSlot(bm, slots, bmindex, index);
      ClearLowest(w, 0);
      ClearedBitmap(bm, bmindex);
      bm := bm[bmindex := And(w, Not(LeastSignificantSetBitOf(w)))];
      slots := slots - {index};
      numavailableentry := numavailableentry - 1;
    }

    /** Makes a taken slot free. */
    method Give(index: nat, eLength: nat)
      requires Valid(eLength) && index < eLength && index !in slots
      modifies `bm, `slots, `numavailableentry
      ensures Valid(eLength) && slots == old(slots) + {index}
    {
      hide Slot;
      SetBit(bm[index / 64], index % 64, 0);
      MarkedBitmap(bm, index);
      bm := bm[index / 64 := Or(bm[index / 64], Pow2(index % 64))];
      slots := slots + {index};
      numavailableentry := numavailableentry + 1;
    }

    /** Makes all slots free. */
    method Fill(eLength: nat)
      requires eLength > 0
      modifies `bm, `slots, `numavailableentry
      ensures Valid(eLength) && |slots| == eLength && forall i :: i in slots <==> 0 <= i < eLength
    {
      hide Bit, Pow2;
      Pow2Values();
      var bmLength := BitmapWords(eLength);
      bm := seq(bmLength, _ => 0);
      var i := 0;
      while i < bmLength - 1
        invariant 0 <= i <= bmLength - 1 && |bm| == bmLength
        invariant forall k :: 0 <= k < i ==> bm[k] == 0xFFFF_FFFF_FFFF_FFFF
      {
        bm := bm[i := 0xFFFF_FFFF_FFFF_FFFF];
        i := i + 1;
      }
      if eLength % 64 == 0 {
        bm := bm[bmLength - 1 := 0xFFFF_FFFF_FFFF_FFFF];
      } else {
        LastWord(eLength % 64);
        bm := bm[bmLength - 1 := Pow2(eLength % 64) - 1];
      }
      numavailableentry := eLength;
      slots := Below(eLength);
      AllOnes(bm, eLength);
    }
  }

  lemma LastWord(n: nat)
    requires n < 64
    ensures Pow2(n) - 1 < TWO_64
  {
    Pow2Values();
    Pow2Monotone(n, 64);
  }

  function Below(n: nat): (s: set<nat>)
    ensures |s| == n && forall i: nat :: i in s <==> i < n
  {
    if n == 0 then {} else Below(n - 1) + {n - 1}
  }

  lemma AllOnes(bm: seq<u64>, eLength: nat)
    requires eLength > 0 && |bm| == BitmapWords(eLength)
    requires forall k :: 0 <= k < |bm| - 1 ==> bm[k] == 0xFFFF_FFFF_FFFF_FFFF
    requires bm[|bm| - 1] == if eLength % 64 == 0 then 0xFFFF_FFFF_FFFF_FFFF else Pow2(eLength % 64) - 1
    ensures forall i: nat :: i < 64 * |bm| ==> (Slot(bm, i) <==> i < eLength)
  {
    hide Bit, Pow2;
    Pow2Values();
    forall i: nat | i < 64 * |bm|
      ensures Slot(bm, i) <==> i < eLength
    {
      BitOfOnes(64, i % 64);
      BitOfOnes(eLength % 64, i % 64);
    }
  }

  /** A bitmap with a free slot has a word that is not zero. */
  lemma SomeSlot(bm: seq<u64>, slots: set<nat>, eLength: nat)
    requires |bm| == BitmapWords(eLength) && slots != {}
    requires forall i :: i in slots ==> i < eLength
    ensures |bm| > 0
  {
    var i :| i in slots;
    assert i < eLength;
  }

  lemma NextWord(bm: seq<u64>, slots: set<nat>, eLength: nat, w: nat)
    requires |bm| == BitmapWords(eLength) && slots != {} && w < |bm|
    requires forall i :: i in slots ==> i < eLength
    requires forall i: nat :: i < 64 * |bm| ==> (Slot(bm, i) <==> i in slots)
    requires forall k :: 0 <= k <= w ==> bm[k] == 0
    ensures w + 1 < |bm|
  {
    var i :| i in slots;
    assert i < 64 * |bm| && Slot(bm, i);
    NoBits(i % 64);
    assert i / 64 > w;
  }

  lemma LowestSlot(bm: seq<u64>, slots: set<nat>, w: nat, index: nat)
    requires w < |bm| && bm[w] != 0 && forall k :: 0 <= k < w ==> bm[k] == 0
    requires forall i :: i in slots ==> i < 64 * |bm|
    requires forall i: nat :: i < 64 * |bm| ==> (Slot(bm, i) <==> i in slots)
    requires Lowest(bm[w]) < 64 && index == 64 * w + Lowest(bm[w])
    ensures index in slots && forall i :: i in slots ==> index <= i
  {
    hide Bit;
    LeastBit(bm[w]);
    DivModUnique(index, 64, w, Lowest(bm[w]));
    assert Slot(bm, index);
    forall i | i in slots
      ensures index <= i
    {
      assert Slot(bm, i);
      NoBits(i % 64);
      var j := i % 64;
      assert i == 64 * (i / 64) + j;
      assert j < Lowest(bm[w]) ==> !Bit(bm[w], j);
    }
  }

  lemma ClearedBitmap(bm: seq<u64>, w: nat)
    requires w < |bm| && bm[w] != 0
    ensures And(bm[w], Not(LeastSignificantSetBitOf(bm[w]))) < TWO_64
    ensures var bm' := bm[w := And(bm[w], Not(LeastSignificantSetBitOf(bm[w])))];
      forall i: nat :: i < 64 * |bm| ==> (Slot(bm', i) <==> Slot(bm, i) && i != 64 * w + Lowest(bm[w]))
  {
    hide Bit, And, LeastSignificantSetBitOf;
    LeastBit(bm[w]);
    ClearLowest(bm[w], 0);
    forall i: nat | i < 64 * |bm|
      ensures var bm' := bm[w := And(bm[w], Not(LeastSignificantSetBitOf(bm[w])))];
        Slot(bm', i) <==> Slot(bm, i) && i != 64 * w + Lowest(bm[w])
    {
      var q, r := Divide(i, 64);
      ClearLowest(bm[w], r);
    }
  }

  lemma MarkedBitmap(bm: seq<u64>, index: nat)
    requires index < 64 * |bm|
    ensures Or(bm[index / 64], Pow2(index % 64)) < TWO_64
    ensures var bm' := bm[index / 64 := Or(bm[index / 64], Pow2(index % 64))];
      forall i: nat :: i < 64 * |bm| ==> (Slot(bm', i) <==> Slot(bm, i) || i == index)
  {
    hide Bit, Or, Pow2, Slot;
    var w, j := Divide(index, 64);
    SetBit(bm[w], j, 0);
    var bm' := bm[w := Or(bm[w], Pow2(j))];
    forall i: nat | i < 64 * |bm|
      ensures Slot(bm', i) <==> Slot(bm, i) || i == index
    {
      MarkedSlot(bm, w, j, bm', i);
    }
  }

  lemma MarkedSlot(bm: seq<u64>, w: nat, j: nat, bm': seq<u64>, i: nat)
    requires w < |bm| && j < 64 && i < 64 * |bm|
    requires Or(bm[w], Pow2(j)) < TWO_64 && bm' == bm[w := Or(bm[w], Pow2(j))]
    ensures Slot(bm', i) <==> Slot(bm, i) || i == 64 * w + j
  {
    hide Bit, Or, Pow2;
    var q, r := Divide(i, 64);
    SetBit(bm[w], j, r);
  }

  // The lists.

  function At(s: seq<PrimitiveHeapChunk>, k: int): PrimitiveHeapChunk? {
    if 0 <= k < |s| then s[k] else null
  }

  ghost function Elems(s: seq<PrimitiveHeapChunk>): set<PrimitiveHeapChunk> {
    set c | c in s
  }

  /** The list that starts at root holds the chunks s, each once, linked both ways. */
  ghost predicate Linked(root: PrimitiveHeapChunk?, s: seq<PrimitiveHeapChunk>)
    reads Elems(s)`next, Elems(s)`prev
  {
    && root == At(s, 0)
    && (forall k :: 0 <= k < |s| ==> s[k].prev == At(s, k - 1) && s[k].next == At(s, k + 1))
    && Once(s)
  }

  predicate Once(s: seq<PrimitiveHeapChunk>) {
    forall j, k :: 0 <= j < k < |s| ==> s[j] != s[k]
  }

  method RemoveChunkFromLL(chunk: PrimitiveHeapChunk, root: PrimitiveHeapChunk?, ghost s: seq<PrimitiveHeapChunk>,
      ghost k: nat)
    returns (newRoot: PrimitiveHeapChunk?)
    requires Linked(root, s) && k < |s| && s[k] == chunk
    modifies Elems(s)`next, Elems(s)`prev
    ensures Linked(newRoot, s[..k] + s[k + 1..])
  {
    hide Once, Linked, At;
    LinksOf(root, s, k);
    OnceHere(s, k);
    newRoot := root;
    if chunk.prev == null {
      newRoot := chunk.next;
    } else {
      chunk.prev.next := chunk.next;
    }
    if chunk.next != null {
      chunk.next.prev := chunk.prev;
    }
    forall i | 0 <= i < |s| && i != k
      ensures LinkedPast(s[i], s, k, i)
    {
      Neighbours(s, k, i);
      assert old(s[i].prev == At(s, i - 1) && s[i].next == At(s, i + 1));
    }
    RestLinked(s, k, newRoot);
  }

  /** The entry c, at i, is linked to its neighbours, past entry k. */
  ghost predicate LinkedPast(c: PrimitiveHeapChunk, s: seq<PrimitiveHeapChunk>, k: nat, i: nat)
    reads c`next, c`prev
  {
    c.prev == At(s, if i - 1 == k then k - 1 else i - 1) && c.next == At(s, if i + 1 == k then k + 1 else i + 1)
  }

  lemma LinksOf(root: PrimitiveHeapChunk?, s: seq<PrimitiveHeapChunk>, k: nat)
    requires Linked(root, s) && k < |s|
    ensures root == At(s, 0) && Once(s)
    ensures forall i :: 0 <= i < |s| ==> s[i].prev == At(s, i - 1) && s[i].next == At(s, i + 1)
    ensures s[k].prev == (if k > 0 then s[k - 1] else null) && s[k].next == (if k + 1 < |s| then s[k + 1] else null)
  {
  }

  /** Only the entries beside k are the ones beside k. */
  lemma Neighbours(s: seq<PrimitiveHeapChunk>, k: nat, i: nat)
    requires k < |s| && i < |s|
    ensures k > 0 ==> At(s, k - 1) == s[k - 1]
    ensures k + 1 < |s| ==> At(s, k + 1) == s[k + 1]
    ensures k == 0 ==> At(s, k - 1) == null
    ensures k + 1 == |s| ==> At(s, k + 1) == null
  {
  }

  lemma RestLinked(s: seq<PrimitiveHeapChunk>, k: nat, root: PrimitiveHeapChunk?)
    requires Once(s) && k < |s| && (forall i :: 0 <= i < |s| && i != k ==> LinkedPast(s[i], s, k, i))
    requires root == if k == 0 then At(s, 1) else At(s, 0)
    ensures Linked(root, s[..k] + s[k + 1..])
  {
    hide Once, At;
    OnceBut(s, k);
    var rest := s[..k] + s[k + 1..];
    RestAt(s, k, 0);
    forall j: nat | j < |rest|
      ensures rest[j].prev == At(rest, j - 1) && rest[j].next == At(rest, j + 1)
    {
      RestAt(s, k, j - 1);
      RestAt(s, k, j);
      RestAt(s, k, j + 1);
      var i := if j < k then j else j + 1;
      InRange(s, i, rest, j);
      assert LinkedPast(s[i], s, k, i);
    }
  }

  lemma InRange(s: seq<PrimitiveHeapChunk>, i: nat, rest: seq<PrimitiveHeapChunk>, j: nat)
    requires i < |s| && j < |rest|
    ensures At(s, i) == s[i] && At(rest, j) == rest[j]
  {
  }

  /** What is at j once entry k has gone. */
  lemma RestAt(s: seq<PrimitiveHeapChunk>, k: nat, j: int)
    requires k < |s|
    ensures At(s[..k] + s[k + 1..], j) == At(s, if j < k then j else j + 1)
  {
  }

  lemma OnceHere(s: seq<PrimitiveHeapChunk>, k: nat)
    requires Once(s) && k < |s|
    ensures forall j :: 0 <= j < |s| && j != k ==> s[j] != s[k]
    ensures forall j :: 0 <= j < |s| && k > 0 && j != k - 1 ==> s[j] != s[k - 1]
    ensures forall j :: 0 <= j < |s| && k + 1 < |s| && j != k + 1 ==> s[j] != s[k + 1]
  {
  }

  lemma OnceBut(s: seq<PrimitiveHeapChunk>, k: nat)
    requires Once(s) && k < |s|
    ensures Once(s[..k] + s[k + 1..]) && Elems(s[..k] + s[k + 1..]) == Elems(s) - {s[k]}
  {
    var rest := s[..k] + s[k + 1..];
    forall c | c in s && c != s[k]
      ensures c in rest
    {
      var i :| 0 <= i < |s| && s[i] == c;
      assert c == rest[if i < k then i else i - 1];
    }
  }

  lemma Position(s: seq<PrimitiveHeapChunk>, c: PrimitiveHeapChunk) returns (k: nat)
    requires c in Elems(s)
    ensures k < |s| && s[k] == c
  {
    k :| 0 <= k < |s| && s[k] == c;
  }

  lemma LinkedBut(root: PrimitiveHeapChunk?, s: seq<PrimitiveHeapChunk>, k: nat)
    requires Linked(root, s) && k < |s|
    ensures Elems(s[..k] + s[k + 1..]) == Elems(s) - {s[k]}
  {
    OnceBut(s, k);
  }

  method AddChunkToLL(chunk: PrimitiveHeapChunk, root: PrimitiveHeapChunk?, ghost s: seq<PrimitiveHeapChunk>)
    returns (newRoot: PrimitiveHeapChunk)
    requires Linked(root, s) && chunk !in s
    modifies chunk`next, chunk`prev, Elems(s)`prev
    ensures newRoot == chunk && Linked(newRoot, [chunk] + s)
  {
    chunk.prev := null;
    chunk.next := root;
    if root != null {
      assert root.prev == null;
      root.prev := chunk;
    }
    newRoot := chunk;
  }

  // The heap.

  /** A slot of a chunk, wherever it is. */
  datatype Unit = Unit(chunk: nat, index: nat)

  /** The free slots of each chunk, by the chunk's address. */
  type FreeSlots = map<nat, set<nat>>

  /** The number of free units. */
  ghost function Units(free: FreeSlots): nat {
    if free == map[] then 0 else var a :| a in free; |free[a]| + Units(free - {a})
  }

  lemma {:induction false} UnitsRemove(free: FreeSlots, a: nat)
    requires a in free
    ensures Units(free) == |free[a]| + Units(free - {a})
    decreases |free|
  {
    var b :| b in free && Units(free) == |free[b]| + Units(free - {b});
    if b != a {
      assert |free - {b}| < |free| && |free - {a}| < |free| by {
        assert (free - {b}).Keys == free.Keys - {b};
        assert (free - {a}).Keys == free.Keys - {a};
      }
      UnitsRemove(free - {b}, a);
      UnitsRemove(free - {a}, b);
      assert free - {b} - {a} == free - {a} - {b};
    }
  }

  lemma UnitsUpdate(free: FreeSlots, a: nat, slots: set<nat>)
    ensures Units(free[a := slots]) == Units(free) + |slots| - if a in free then |free[a]| else 0
  {
    UnitsRemove(free[a := slots], a);
    if a in free {
      UnitsRemove(free, a);
      assert free[a := slots] - {a} == free - {a};
    } else {
      assert free[a := slots] - {a} == free;
    }
  }

  lemma {:induction false} SomeUnit(free: FreeSlots)
    requires Units(free) > 0
    ensures exists a :: a in free && free[a] != {}
    decreases |free|
  {
    var a :| a in free && Units(free) == |free[a]| + Units(free - {a});
    if free[a] == {} {
      assert (free - {a}).Keys == free.Keys - {a};
      SomeUnit(free - {a});
    }
  }

  /** What taking a unit, giving it back, and a new chunk make of the free slots. */
  ghost function Taking(free: FreeSlots, u: Unit): FreeSlots
    requires u.chunk in free
  {
    free[u.chunk := free[u.chunk] - {u.index}]
  }

  ghost function Giving(free: FreeSlots, u: Unit): FreeSlots
    requires u.chunk in free
  {
    free[u.chunk := free[u.chunk] + {u.index}]
  }

  ghost function Extended(free: FreeSlots, eLength: nat, a: nat): FreeSlots {
    free[a := Below(eLength)]
  }

  /** The slot can be taken. */
  ghost predicate Available(free: FreeSlots, eLength: nat, u: Unit) {
    u.chunk in free && u.index < eLength && u.index in free[u.chunk]
  }

  /** A chunk is opened only when no other is partly used, and the slot is the lowest free one of its chunk. */
  ghost predicate Thrifty(free: FreeSlots, eLength: nat, u: Unit) {
    && u.chunk in free && (forall i :: i in free[u.chunk] ==> u.index <= i)
    && (|free[u.chunk]| == eLength ==> forall a :: a in free ==> |free[a]| == 0 || |free[a]| >= eLength)
  }

  /** No slot of the chunk is in use. */
  ghost predicate Unused(free: FreeSlots, eLength: nat, a: nat) {
    a in free && forall i: nat :: i < eLength ==> i in free[a]
  }

  /** free' has one chunk more, at a, all of its slots free. */
  ghost predicate Grown(free: FreeSlots, free': FreeSlots, eLength: nat, chunkSize: nat, a: nat) {
    chunkSize > 0 && a % chunkSize == 0 && a !in free && free' == Extended(free, eLength, a)
  }

  /** free' lacks the chunks of `gone`, none of which had a slot in use. */
  ghost predicate Shrunk(free: FreeSlots, free': FreeSlots, eLength: nat, gone: set<nat>) {
    (forall a :: a in gone ==> Unused(free, eLength, a)) && free' == free - gone
  }

  lemma ShrunkNot(free: FreeSlots, eLength: nat)
    ensures Shrunk(free, free, eLength, {})
  {
  }

  lemma ShrunkMore(free: FreeSlots, free1: FreeSlots, free2: FreeSlots, eLength: nat, gone: set<nat>, more: set<nat>)
    requires Shrunk(free, free1, eLength, gone) && Shrunk(free1, free2, eLength, more)
    ensures Shrunk(free, free2, eLength, gone + more)
  {
  }

  /** A trim that found nothing to do leaves the growth what it is. */
  lemma GrownFrom(free: FreeSlots, free1: FreeSlots, free2: FreeSlots, eLength: nat, chunkSize: nat, a: nat)
    requires Shrunk(free, free1, eLength, {}) && Grown(free1, free2, eLength, chunkSize, a)
    ensures Grown(free, free2, eLength, chunkSize, a)
  {
    assert free - {} == free;
  }

  lemma ShrunkBy(free: FreeSlots, free': FreeSlots, eLength: nat, a: nat)
    requires Unused(free, eLength, a) && free' == free - {a}
    ensures Shrunk(free, free', eLength, {a})
  {
  }

  /** The unit has been handed out and has not come back. */
  ghost predicate Taken(free: FreeSlots, eLength: nat, u: Unit) {
    u.chunk in free && u.index < eLength && u.index !in free[u.chunk]
  }

  /** The chunks are found by their addresses. */
  ghost predicate Addressed(chunkAt: map<nat, PrimitiveHeapChunk>, chunks: set<PrimitiveHeapChunk>) {
    && (forall a :: a in chunkAt ==> chunkAt[a] in chunks && chunkAt[a].address == a)
    && (forall c :: c in chunks ==> c.address in chunkAt && chunkAt[c.address] == c)
  }

  ghost predicate Placed(addresses: set<nat>, chunkSize: nat, given: set<nat>) {
    addresses <= given && chunkSize > 0 && forall a :: a in addresses ==> a % chunkSize == 0
  }

  ghost predicate Sound(c: PrimitiveHeapChunk, slots: set<nat>, eLength: nat)
    reads c`bm, c`slots, c`numavailableentry
  {
    c.Valid(eLength) && c.slots == slots
  }

  /** A chunk is in the first list, `partly`, if some but not all of its slots are free, and in the second, `unused`, if
      all are. In the middle of an operation, `but` is in the first list whatever its count. */
  ghost predicate Listed(chunkAt: map<nat, PrimitiveHeapChunk>, free: FreeSlots, eLength: nat,
                         partly: set<PrimitiveHeapChunk>, unused: set<PrimitiveHeapChunk>, but: PrimitiveHeapChunk?)
  {
    && free.Keys == chunkAt.Keys && partly + unused <= chunkAt.Values
    && forall a :: a in chunkAt ==> ListedAt(chunkAt[a], |free[a]|, eLength, partly, unused, but)
  }

  ghost predicate ListedAt(c: PrimitiveHeapChunk, count: nat, eLength: nat,
                           partly: set<PrimitiveHeapChunk>, unused: set<PrimitiveHeapChunk>, but: PrimitiveHeapChunk?)
  {
    if c == but then
      c in partly && c !in unused
    else
      && (c in partly <==> 0 < count < eLength)
      && (c in unused <==> count == eLength)
  }

  lemma {:induction false} SomeBound(s: set<nat>) returns (b: nat)
    ensures forall x :: x in s ==> x < b
    decreases s
  {
    if s == {} {
      b := 0;
    } else {
      var x :| x in s;
      var c := SomeBound(s - {x});
      b := if x < c then c else x + 1;
      assert forall y :: y in s ==> y == x || y in s - {x};
    }
  }

  lemma AlignedOutside(s: set<nat>, align: nat) returns (p: nat)
    requires align > 0
    ensures p % align == 0 && p !in s
  {
    var b := SomeBound(s);
    p := align * b;
    DivModUnique(p, align, b, 0);
    MulMonotone(b, 1, align);
  }

  /** Where chunks come from and go back to. It never fails, and hands out no chunk twice. */
  class ChunkSource {
    var given: set<nat>

    method Allocate(size: nat, align: nat) returns (p: nat)
      requires align > 0
      modifies this
      ensures p % align == 0 && p !in old(given) && given == old(given) + {p}
    {
      ghost var q := AlignedOutside(given, align);
      p :| p % align == 0 && p !in given;
      given := given + {p};
    }

    method Deallocate(p: nat, size: nat)
      requires p in given
      modifies this
      ensures given == old(given) - {p}
    {
      given := given - {p};
    }
  }

  class PrimitiveHeap {
    const chunkSize: nat
    const objectSize: nat
    const align: nat
    const paddingSize: nat
    const eLength: nat
    const bmLength: nat
    const minUnits: nat
    const maxUnits: nat
    const source: ChunkSource

    /** The first chunk that is partly used, and the first that is not used at all. */
    var nonemptyRoot: PrimitiveHeapChunk?
    var emptyRoot: PrimitiveHeapChunk?
    var numAvailableUnits: int
    var lockCnt: nat

    /** The chunk at an address: what turning a pointer into one to a chunk gives. */
    var chunkAt: map<nat, PrimitiveHeapChunk>

    ghost var nonempty: seq<PrimitiveHeapChunk>
    ghost var empty: seq<PrimitiveHeapChunk>
    ghost var free: FreeSlots
    ghost var chunks: set<PrimitiveHeapChunk>

    /** What the constructor establishes of the sizes and the watermarks. */
    ghost predicate Geometry() {
      && LegalSizes(chunkSize, objectSize, align) && paddingSize == Padding(align)
      && Fits(chunkSize, objectSize, paddingSize, eLength) && bmLength == BitmapWords(eLength)
      && 1 < eLength && minUnits < eLength <= maxUnits - minUnits
    }

    /** Every chunk is aligned, came from the source, and its bitmap shows which of its slots are free. */
    ghost predicate Owned()
      reads `chunkAt, `free, `chunks, source, chunks`bm, chunks`slots, chunks`numavailableentry
    {
      && Addressed(chunkAt, chunks) && Placed(chunkAt.Keys, chunkSize, source.given) && free.Keys == chunkAt.Keys
      && forall a :: a in chunkAt ==> Sound(chunkAt[a], free[a], eLength)
    }

    /** The two lists are linked and have no chunk in common. */
    ghost predicate Links()
      reads `nonemptyRoot, `nonempty, `emptyRoot, `empty
      reads Elems(nonempty)`next, Elems(nonempty)`prev, Elems(empty)`next, Elems(empty)`prev
    {
      Linked(nonemptyRoot, nonempty) && Linked(emptyRoot, empty) && Elems(nonempty) !! Elems(empty)
    }

    ghost predicate Valid()
      reads this, source, chunks, Elems(nonempty)`next, Elems(nonempty)`prev, Elems(empty)`next, Elems(empty)`prev
    {
      && Geometry() && Owned() && Links() && Listed(chunkAt, free, eLength, Elems(nonempty), Elems(empty), null)
      && numAvailableUnits == Units(free)
    }

    method PushEmpty(chunk: PrimitiveHeapChunk)
      requires Links() && chunk !in Elems(nonempty) && chunk !in Elems(empty)
      modifies `emptyRoot, `empty, chunk`next, chunk`prev, Elems(empty)`prev
      ensures Links() && Elems(empty) == Elems(old(empty)) + {chunk}
    {
      emptyRoot := AddChunkToLL(chunk, emptyRoot, empty);
      empty := [chunk] + empty;
    }

    method PushNonempty(chunk: PrimitiveHeapChunk)
      requires Links() && chunk !in Elems(nonempty) && chunk !in Elems(empty)
      modifies `nonemptyRoot, `nonempty, chunk`next, chunk`prev, Elems(nonempty)`prev
      ensures Links() && Elems(nonempty) == Elems(old(nonempty)) + {chunk} && nonemptyRoot == chunk
    {
      nonemptyRoot := AddChunkToLL(chunk, nonemptyRoot, nonempty);
      nonempty := [chunk] + nonempty;
    }

    method DropEmpty(chunk: PrimitiveHeapChunk)
      requires Links() && chunk in Elems(empty)
      modifies `emptyRoot, `empty, Elems(empty)`next, Elems(empty)`prev
      ensures Links() && Elems(empty) == Elems(old(empty)) - {chunk}
    {
      hide Linked, Once;
      ghost var k := Position(empty, chunk);
      LinkedBut(emptyRoot, empty, k);
      emptyRoot := RemoveChunkFromLL(chunk, emptyRoot, empty, k);
      empty := empty[..k] + empty[k + 1..];
    }

    method DropNonempty(chunk: PrimitiveHeapChunk)
      requires Links() && chunk in Elems(nonempty)
      modifies `nonemptyRoot, `nonempty, Elems(nonempty)`next, Elems(nonempty)`prev
      ensures Links() && Elems(nonempty) == Elems(old(nonempty)) - {chunk}
    {
      hide Linked, Once;
      ghost var k := Position(nonempty, chunk);
      LinkedBut(nonemptyRoot, nonempty, k);
      nonemptyRoot := RemoveChunkFromLL(chunk, nonemptyRoot, nonempty, k);
      nonempty := nonempty[..k] + nonempty[k + 1..];
    }

    function AddressOf(u: Unit): nat {
      SlotAddress(u.chunk, paddingSize, objectSize, u.index)
    }

    constructor (chunkSize: nat, objectSize: nat, align: nat, source: ChunkSource, initChunk: nat, minUnits: nat,
        maxUnits: nat)
      requires LegalSizes(chunkSize, objectSize, align)
      requires initChunk != 0 ==> initChunk % chunkSize == 0 && initChunk in source.given
      requires forall e: nat :: Optimal(chunkSize, objectSize, Padding(align), e) ==>
                 1 < e && minUnits < e <= maxUnits - minUnits
      ensures Valid() && fresh(chunks) && lockCnt == 0
      ensures this.chunkSize == chunkSize && this.objectSize == objectSize && this.align == align
          && this.source == source
      ensures this.minUnits == minUnits && this.maxUnits == maxUnits && Optimal(chunkSize, objectSize, paddingSize,
          eLength)
      ensures numAvailableUnits == if initChunk != 0 then eLength else 0
      ensures forall u :: !Taken(free, eLength, u)
    {
      this.chunkSize, this.objectSize, this.align, this.source := chunkSize, objectSize, align, source;
      this.minUnits, this.maxUnits := minUnits, maxUnits;
      paddingSize := Padding(align);
      PaddingFits(chunkSize, objectSize, align);
      var e := FindOptimalELength(chunkSize, objectSize, Padding(align));
      assert Optimal(chunkSize, objectSize, Padding(align), e);
      eLength, bmLength := e, BitmapWords(e);
      nonemptyRoot, emptyRoot, numAvailableUnits, lockCnt, chunkAt := null, null, 0, 0, map[];
      nonempty, empty, free, chunks := [], [], map[], {};
      new;
      if initChunk != 0 {
        Embrace(initChunk);
      }
    }

    lemma GeometryFacts()
      requires Geometry()
      ensures 1 < eLength && 0 < chunkSize && 0 < objectSize && bmLength == BitmapWords(eLength)
    {
    }

    /** Takes a chunk in, all of its slots free. */
    method Embrace(p: nat)
      requires Valid() && p % chunkSize == 0 && p in source.given && p !in chunkAt
      modifies this, Elems(empty)`prev
      ensures Valid() && lockCnt == old(lockCnt) && numAvailableUnits == old(numAvailableUnits) + eLength
      ensures fresh(chunks - old(chunks)) && old(chunks) <= chunks
      ensures p !in old(free) && free == Extended(old(free), eLength, p)
      ensures forall u :: Taken(free, eLength, u) <==> Taken(old(free), eLength, u)
    {
      hide Links, Listed, Owned, Taken, PrimitiveHeapChunk.Valid, Geometry, Units;
      GeometryFacts();
      Lists(Elems(nonempty), Elems(empty), null);
      var chunk := new PrimitiveHeapChunk(p);
      chunk.Fill(eLength);
      PushEmpty(chunk);
      assert Elems(empty) - {chunk} == Elems(old(empty));
      assert chunk.slots == Below(eLength);
      Register(chunk);
    }

    /** The lists hold chunks of the heap. */
    lemma Lists(partly: set<PrimitiveHeapChunk>, unused: set<PrimitiveHeapChunk>, but: PrimitiveHeapChunk?)
      requires Owned() && Listed(chunkAt, free, eLength, partly, unused, but)
      ensures partly <= chunks && unused <= chunks
    {
    }

    /** Records a chunk that has been put in the second list. */
    method Register(chunk: PrimitiveHeapChunk)
      requires Owned() && numAvailableUnits == Units(free) && Sound(chunk, chunk.slots, eLength) && chunk !in chunks
      requires Placed({chunk.address}, chunkSize, source.given) && chunk.address !in chunkAt
      requires |chunk.slots| == eLength && forall i :: i in chunk.slots <==> 0 <= i < eLength
      requires chunk in Elems(empty) && chunk !in Elems(nonempty)
      requires Listed(chunkAt, free, eLength, Elems(nonempty), Elems(empty) - {chunk}, null)
      modifies `chunkAt, `free, `chunks, `numAvailableUnits
      ensures Owned() && numAvailableUnits == Units(free) == old(numAvailableUnits) + eLength
          && chunks == old(chunks) + {chunk}
      ensures Listed(chunkAt, free, eLength, Elems(nonempty), Elems(empty), null)
      ensures chunk.address !in old(free) && free == old(free)[chunk.address := chunk.slots]
      ensures forall u :: Taken(free, eLength, u) <==> Taken(old(free), eLength, u)
    {
      hide Units, Sound, Elems, Listed;
      var p := chunk.address;
      UnitsUpdate(free, p, chunk.slots);
      ListedNew(chunkAt, free, eLength, Elems(nonempty), Elems(empty), p, chunk, chunk.slots);
      chunkAt, chunks, free := chunkAt[p := chunk], chunks + {chunk}, free[p := chunk.slots];
      numAvailableUnits := numAvailableUnits + eLength;
    }

    /** Takes the lowest free slot of a chunk of the first list. */
    method TakeFrom(chunk: PrimitiveHeapChunk) returns (index: nat)
      requires Owned() && numAvailableUnits == Units(free) && chunk in chunks && chunk.slots != {}
      requires Listed(chunkAt, free, eLength, Elems(nonempty), Elems(empty), chunk)
      modifies `free, `numAvailableUnits, chunk`bm, chunk`slots, chunk`numavailableentry
      ensures Owned() && numAvailableUnits == Units(free) == old(numAvailableUnits) - 1
      ensures var a := chunk.address;
        && a in old(free) && index in old(free[a]) && index < eLength
        && free == old(free)[a := old(free[a]) - {index}] && Sound(chunk, free[a], eLength) && |free[a]| < eLength
        && forall i :: i in old(free[a]) ==> index <= i
      ensures Listed(chunkAt, free, eLength, Elems(nonempty), Elems(empty), chunk)
    {
      hide Units, Elems, Listed, PrimitiveHeapChunk.Valid;
      ghost var a := chunk.address;
      assert chunkAt[a] == chunk && Sound(chunk, free[a], eLength);
      SoundBound(chunk, free[a], eLength);
      index := chunk.Take(eLength);
      UnitsUpdate(free, a, chunk.slots);
      ListedCount(chunkAt, free, eLength, Elems(nonempty), Elems(empty), a, chunk.slots);
      free := free[a := chunk.slots];
      numAvailableUnits := numAvailableUnits - 1;
      forall b | b in chunkAt
        ensures Sound(chunkAt[b], free[b], eLength)
      {
        if b != a {
          assert old(Sound(chunkAt[b], free[b], eLength)) && chunkAt[b].address == b;
        }
      }
    }

    /** Gives a slot back to its chunk, which is in the first list. */
    method GiveTo(chunk: PrimitiveHeapChunk, index: nat)
      requires Owned() && numAvailableUnits == Units(free) && chunk in chunks && index < eLength
      requires index !in chunk.slots
      modifies `free, `numAvailableUnits, chunk`bm, chunk`slots, chunk`numavailableentry
      ensures Owned() && numAvailableUnits == Units(free) == old(numAvailableUnits) + 1
      ensures var a := chunk.address;
        a in old(free) && free == old(free)[a := old(free[a]) + {index}] && Sound(chunk, free[a], eLength)
    {
      hide Units, Elems, PrimitiveHeapChunk.Valid;
      ghost var a := chunk.address;
      assert chunkAt[a] == chunk && Sound(chunk, free[a], eLength);
      chunk.Give(index, eLength);
      UnitsUpdate(free, a, chunk.slots);
      free := free[a := chunk.slots];
      numAvailableUnits := numAvailableUnits + 1;
      forall b | b in chunkAt
        ensures Sound(chunkAt[b], free[b], eLength)
      {
        if b != a {
          assert old(Sound(chunkAt[b], free[b], eLength)) && chunkAt[b].address == b;
        }
      }
    }

    /** Removes from the records a chunk that has been taken out of the second list. */
    method Unregister(chunk: PrimitiveHeapChunk)
      requires Owned() && numAvailableUnits == Units(free) && chunk in chunks && eLength > 0
      requires chunk !in Elems(empty) && chunk !in Elems(nonempty)
      requires Listed(chunkAt, free, eLength, Elems(nonempty), Elems(empty) + {chunk}, null)
      modifies `chunkAt, `free, `chunks, `numAvailableUnits
      ensures Owned() && numAvailableUnits == Units(free) == old(numAvailableUnits) - eLength
      ensures chunks == old(chunks) - {chunk} && chunkAt == old(chunkAt) - {chunk.address}
      ensures Listed(chunkAt, free, eLength, Elems(nonempty), Elems(empty), null)
      ensures Unused(old(free), eLength, chunk.address) && free == old(free) - {chunk.address}
      ensures forall u :: Taken(free, eLength, u) <==> Taken(old(free), eLength, u)
    {
      hide Units, Sound, Elems, Listed;
      var a := chunk.address;
      assert Sound(chunkAt[a], free[a], eLength);
      SoundBound(chunk, free[a], eLength);
      UnitsRemove(free, a);
      ListedGone(chunkAt, free, eLength, Elems(nonempty), Elems(empty), a, chunk);
      chunkAt, chunks, free := chunkAt - {a}, chunks - {chunk}, free - {a};
      numAvailableUnits := numAvailableUnits - eLength;
    }

    /** Gets a chunk from the source. */
    method Replenish() returns (ghost p: nat)
      requires Valid()
      modifies this, source, chunks
      ensures Valid() && lockCnt == old(lockCnt) && numAvailableUnits == old(numAvailableUnits) + eLength
      ensures fresh(chunks - old(chunks)) && old(chunks) <= chunks
      ensures p !in old(source.given) && Grown(old(free), free, eLength, chunkSize, p)
      ensures forall u :: Taken(free, eLength, u) <==> Taken(old(free), eLength, u)
    {
      hide Links, Listed, Sound, Geometry, Units, Taken;
      GeometryFacts();
      Lists(Elems(nonempty), Elems(empty), null);
      var a := source.Allocate(chunkSize, chunkSize);
      Embrace(a);
      p := a;
    }

    /** Gives unused chunks back to the source until few enough units are left, or no chunk is unused. */
    method Trim() returns (ghost gone: set<nat>)
      requires Valid()
      modifies this, source, chunks
      ensures Valid() && lockCnt == old(lockCnt) && chunks <= old(chunks)
      ensures old(numAvailableUnits) <= maxUnits ==> numAvailableUnits == old(numAvailableUnits)
      ensures old(numAvailableUnits) > maxUnits ==> maxUnits - eLength < numAvailableUnits <= old(numAvailableUnits)
      ensures numAvailableUnits <= maxUnits || emptyRoot == null
      ensures Shrunk(old(free), free, eLength, gone) && (old(numAvailableUnits) <= maxUnits ==> gone == {})
      ensures forall u :: Taken(free, eLength, u) <==> Taken(old(free), eLength, u)
    {
      hide Links, Listed, Sound, Geometry, Units, Taken, Elems, Shrunk;
      GeometryFacts();
      gone := {};
      ShrunkNot(free, eLength);
      while emptyRoot != null && numAvailableUnits > maxUnits
        invariant Valid() && lockCnt == old(lockCnt) && chunks <= old(chunks)
        invariant old(numAvailableUnits) <= maxUnits ==> numAvailableUnits == old(numAvailableUnits)
        invariant old(numAvailableUnits) > maxUnits ==> maxUnits - eLength < numAvailableUnits <= old(numAvailableUnits)
        invariant Shrunk(old(free), free, eLength, gone) && (old(numAvailableUnits) <= maxUnits ==> gone == {})
        invariant forall u :: Taken(free, eLength, u) <==> Taken(old(free), eLength, u)
        modifies this, source, chunks
        decreases numAvailableUnits
      {
        ghost var before := free;
        ghost var a := TrimOne();
        ShrunkMore(old(free), before, free, eLength, gone, {a});
        gone := gone + {a};
      }
    }

    method TrimOne() returns (ghost a: nat)
      requires Valid() && emptyRoot != null
      modifies this, source, chunks
      ensures Valid() && lockCnt == old(lockCnt) && chunks <= old(chunks)
      ensures numAvailableUnits == old(numAvailableUnits) - eLength
      ensures Shrunk(old(free), free, eLength, {a})
      ensures forall u :: Taken(free, eLength, u) <==> Taken(old(free), eLength, u)
    {
      hide Links, Listed, Owned, Sound, Geometry, Units, Taken, Linked;
      GeometryFacts();
      Lists(Elems(nonempty), Elems(empty), null);
      RootOf();
      OwnedChunk(emptyRoot);
      var oldRoot := emptyRoot;
      ghost var unused := Elems(empty);
      DropEmpty(oldRoot);
      assert Elems(empty) + {oldRoot} == unused;
      Unregister(oldRoot);
      Release(oldRoot.address);
      a := oldRoot.address;
      ShrunkBy(old(free), free, eLength, a);
    }

    method Lock()
      requires Valid()
      modifies `lockCnt
      ensures Valid() && lockCnt == old(lockCnt) + 1
    {
      hide Owned, Links, Listed, Geometry, Units;
      lockCnt := lockCnt + 1;
    }

    /** When the last lock goes, the heap renews itself if few units are left or trims itself if many; never both. */
    method Unlock() returns (ghost gone: set<nat>, ghost c: nat)
      requires Valid() && lockCnt > 0
      modifies this, source, chunks
      ensures Valid() && lockCnt == old(lockCnt) - 1 && fresh(chunks - old(chunks))
      ensures old(lockCnt) > 1 || minUnits < old(numAvailableUnits) <= maxUnits ==>
                numAvailableUnits == old(numAvailableUnits) && chunks == old(chunks) && free == old(free)
      ensures old(lockCnt) == 1 && old(numAvailableUnits) <= minUnits ==>
                numAvailableUnits == old(numAvailableUnits) + eLength
      ensures old(lockCnt) == 1 && old(numAvailableUnits) > maxUnits ==>
                maxUnits - eLength < numAvailableUnits <= old(numAvailableUnits)
      ensures lockCnt == 0 ==> minUnits < numAvailableUnits && (numAvailableUnits <= maxUnits || emptyRoot == null)
      ensures old(lockCnt) > 1 || old(numAvailableUnits) > minUnits ==> chunks <= old(chunks)
      ensures old(lockCnt) == 1 && old(numAvailableUnits) <= minUnits ==> old(chunks) <= chunks
      ensures if old(lockCnt) == 1 && old(numAvailableUnits) <= minUnits then
                Grown(old(free), free, eLength, chunkSize, c)
              else Shrunk(old(free), free, eLength, gone)
      ensures forall u :: Taken(free, eLength, u) <==> Taken(old(free), eLength, u)
    {
      hide Owned, Links, Listed, Units, Taken, LegalSizes, Fits, Shrunk, Grown;
      gone, c := {}, 0;
      ShrunkNot(free, eLength);
      lockCnt := lockCnt - 1;
      if lockCnt == 0 {
        lockCnt := lockCnt + 1;
        if numAvailableUnits <= minUnits {
          c := Replenish();
        } else if numAvailableUnits > maxUnits {
          gone := Trim();
        }
        lockCnt := lockCnt - 1;
      }
    }

    /** The chunk the next unit comes from: the first partly used one, or an unused one moved to that list. */
    method Pick() returns (chunk: PrimitiveHeapChunk)
      requires Valid() && numAvailableUnits > 0
      modifies this, chunks`next, chunks`prev
      ensures Geometry() && Owned() && Links() && Listed(chunkAt, free, eLength, Elems(nonempty), Elems(empty), chunk)
      ensures chunk == nonemptyRoot && chunk in chunks && chunk in Elems(nonempty) && chunk.slots != {}
      ensures chunk.address in free
      ensures |free[chunk.address]| == eLength ==> forall a :: a in free ==> |free[a]| == 0 || |free[a]| >= eLength
      ensures numAvailableUnits == Units(free) == old(numAvailableUnits)
      ensures free == old(free) && chunks == old(chunks) && lockCnt == old(lockCnt) && chunkAt == old(chunkAt)
    {
      hide Links, Listed, Sound, Geometry, Units, Elems, Owned;
      GeometryFacts();
      SomeChunk();
      FirstList();
      if nonemptyRoot == null {
        assert emptyRoot != null;
        chunk := emptyRoot;
        ListedOpen(chunkAt, free, eLength, Elems(nonempty), Elems(empty), chunk);
        Move(chunk);
      } else {
        chunk := nonemptyRoot;
        ListedOpen(chunkAt, free, eLength, Elems(nonempty), Elems(empty), chunk);
        assert Elems(nonempty) + {chunk} == Elems(nonempty) && Elems(empty) - {chunk} == Elems(empty);
      }
    }

    /** The chunks of the first list are those partly used. */
    lemma FirstList()
      requires Valid()
      ensures nonemptyRoot == null ==> forall a :: a in free ==> |free[a]| == 0 || |free[a]| >= eLength
      ensures nonemptyRoot != null ==> nonemptyRoot.address in free && |free[nonemptyRoot.address]| < eLength
    {
      hide Links, Sound, Geometry, Units, Elems;
      RootOf();
      forall a | a in chunkAt
        ensures chunkAt[a].address == a
        ensures ListedAt(chunkAt[a], |free[a]|, eLength, Elems(nonempty), Elems(empty), null)
      {
      }
    }

    method Move(chunk: PrimitiveHeapChunk)
      requires Links() && chunk in Elems(empty)
      modifies `nonemptyRoot, `nonempty, `emptyRoot, `empty
      modifies Elems(nonempty)`prev, Elems(nonempty)`next, Elems(empty)`next, Elems(empty)`prev
      ensures Links() && nonemptyRoot == chunk
      ensures Elems(nonempty) == Elems(old(nonempty)) + {chunk} && Elems(empty) == Elems(old(empty)) - {chunk}
    {
      hide Linked, Elems;
      DropEmpty(chunk);
      PushNonempty(chunk);
    }

    /** With a free unit there is a chunk in one of the lists, and the chunks of the lists have free units. */
    lemma SomeChunk()
      requires Valid() && numAvailableUnits > 0
      ensures Elems(nonempty) <= chunks && Elems(empty) <= chunks
      ensures forall a :: a in chunkAt ==> chunkAt[a].address == a
      ensures nonemptyRoot != null ==> nonemptyRoot in Elems(nonempty) && nonemptyRoot !in Elems(empty)
      ensures nonemptyRoot != null ==> nonemptyRoot.slots != {}
      ensures emptyRoot != null ==> emptyRoot in Elems(empty) && emptyRoot !in Elems(nonempty) && emptyRoot.slots != {}
      ensures nonemptyRoot != null || emptyRoot != null
    {
      hide Links, Listed, Sound, Geometry, Units, Elems;
      GeometryFacts();
      Lists(Elems(nonempty), Elems(empty), null);
      RootOf();
      SomeUnit(free);
      forall a | a in chunkAt
        ensures |free[a]| <= eLength && chunkAt[a].slots == free[a]
      {
        SoundBound(chunkAt[a], free[a], eLength);
      }
      ListedSome(chunkAt, free, eLength, Elems(nonempty), Elems(empty));
      if nonemptyRoot != null {
        ListedOpen(chunkAt, free, eLength, Elems(nonempty), Elems(empty), nonemptyRoot);
      }
      if emptyRoot != null {
        ListedOpen(chunkAt, free, eLength, Elems(nonempty), Elems(empty), emptyRoot);
      }
    }

    /** Allocates a unit. A locked heap must not be empty. */
    method Alloc(size: nat, align': nat) returns (p: nat, ghost u: Unit, ghost c: nat)
      requires Valid() && size == objectSize && align' == align
      requires numAvailableUnits > 0 || lockCnt == 0
      modifies this, source, chunks
      ensures Valid() && lockCnt == old(lockCnt) && fresh(chunks - old(chunks))
      ensures p == AddressOf(u) && p % align == 0
      ensures !Taken(old(free), eLength, u)
      ensures forall v :: Taken(free, eLength, v) <==> Taken(old(free), eLength, v) || v == u
      ensures numAvailableUnits == old(numAvailableUnits) - 1
                + if old(numAvailableUnits <= minUnits && lockCnt == 0) then eLength else 0
      ensures old(chunks) <= chunks
      ensures var renews := old(numAvailableUnits <= minUnits && lockCnt == 0);
        var before := if renews then Extended(old(free), eLength, c) else old(free);
        && (renews ==> Grown(old(free), before, eLength, chunkSize, c))
        && Available(before, eLength, u) && free == Taking(before, u) && Thrifty(before, eLength, u)
    {
      hide Links, Listed, Owned, LegalSizes, Fits, Units, Elems, Taken, Available, Taking, Extended, Thrifty;
      c := 0;
      if numAvailableUnits <= minUnits && lockCnt == 0 {
        Lock();
        c := Replenish();
        ghost var gone, c' := Unlock();
      }
      assert numAvailableUnits > 0;
      p, u := AllocUnit();
    }

    /** The second half: takes a unit that is there. */
    method AllocUnit() returns (p: nat, ghost u: Unit)
      requires Valid() && numAvailableUnits > 0
      modifies this, chunks
      ensures Valid() && lockCnt == old(lockCnt) && chunks == old(chunks)
      ensures p == AddressOf(u) && p % align == 0
      ensures Available(old(free), eLength, u) && free == Taking(old(free), u) && Thrifty(old(free), eLength, u)
      ensures !Taken(old(free), eLength, u)
      ensures forall v :: Taken(free, eLength, v) <==> Taken(old(free), eLength, v) || v == u
      ensures numAvailableUnits == old(numAvailableUnits) - 1
    {
      hide Links, Listed, Geometry, Units, Sound;
      GeometryFacts();
      var chunk := Pick();
      var index := TakeFrom(chunk);
      u := Unit(chunk.address, index);
      p := SlotAddress(chunk.address, paddingSize, objectSize, index);
      SlotIsAligned(chunk.address, index);
      SoundBound(chunk, free[chunk.address], eLength);
      SettleUsed(chunk);
    }

    lemma SlotIsAligned(base: nat, index: nat)
      requires Geometry() && chunkSize > 0 && base % chunkSize == 0
      ensures align > 0 && SlotAddress(base, paddingSize, objectSize, index) % align == 0
    {
      SlotAligned(chunkSize, objectSize, align, base, index);
    }

    /** A chunk of the first list that has no free slot left leaves it. */
    method SettleUsed(chunk: PrimitiveHeapChunk)
      requires Geometry() && Owned() && Links() && numAvailableUnits == Units(free) && chunk in chunks
      requires Listed(chunkAt, free, eLength, Elems(nonempty), Elems(empty), chunk)
      requires chunk.address in free && |free[chunk.address]| < eLength
      requires chunk.numavailableentry == |free[chunk.address]|
      modifies `nonemptyRoot, `nonempty, chunks`next, chunks`prev
      ensures Valid()
    {
      hide Links, Sound, Geometry, Units, Elems, Listed;
      GeometryFacts();
      Lists(Elems(nonempty), Elems(empty), chunk);
      ListedFor(chunkAt, free, eLength, Elems(nonempty), Elems(empty), chunk);
      if chunk.numavailableentry == 0 {
        ListedUsed(chunkAt, free, eLength, Elems(nonempty), Elems(empty), chunk);
        DropNonempty(chunk);
      } else {
        ListedClose(chunkAt, free, eLength, Elems(nonempty), Elems(empty), chunk);
      }
    }

    /** Frees the unit at p. Units that come back to an unlocked heap may make it trim itself. */
    method Free(p: nat, size: nat, ghost u: Unit) returns (ghost gone: set<nat>, ghost c: nat)
      requires Valid() && size == objectSize && Taken(free, eLength, u) && p == AddressOf(u)
      modifies this, source, chunks
      ensures Valid() && lockCnt == old(lockCnt) && fresh(chunks - old(chunks))
      ensures forall v :: Taken(free, eLength, v) <==> Taken(old(free), eLength, v) && v != u
      ensures lockCnt > 0 || minUnits <= old(numAvailableUnits) < maxUnits ==>
                numAvailableUnits == old(numAvailableUnits) + 1
      ensures lockCnt == 0 && old(numAvailableUnits) >= maxUnits ==>
                maxUnits - eLength < numAvailableUnits <= old(numAvailableUnits) + 1
      ensures u.chunk in old(free)
      ensures var after := Giving(old(free), u);
        if lockCnt == 0 && old(numAvailableUnits) < minUnits then Grown(after, free, eLength, chunkSize, c)
        else Shrunk(after, free, eLength, gone)
      ensures old(numAvailableUnits) >= minUnits ==> chunks <= old(chunks)
      ensures lockCnt == 0 ==> minUnits < numAvailableUnits && (numAvailableUnits <= maxUnits || emptyRoot == null)
    {
      hide Links, Listed, Owned, LegalSizes, Fits, Units, Elems, Taken, Shrunk, Grown, Giving;
      FreeUnit(p, u);
      gone, c := {}, 0;
      ghost var after := free;
      ShrunkNot(after, eLength);
      if lockCnt == 0 {
        Lock();
        gone := Trim();
        ghost var more;
        ghost var trimmed := free;
        more, c := Unlock();
        if old(numAvailableUnits) < minUnits {
          GrownFrom(after, trimmed, free, eLength, chunkSize, c);
        } else {
          ShrunkMore(after, trimmed, free, eLength, gone, more);
          gone := gone + more;
        }
      }
    }

    /** The first half: puts the unit back into its chunk, and the chunk into the list it now belongs to. */
    method FreeUnit(p: nat, ghost u: Unit)
      requires Valid() && Taken(free, eLength, u) && p == AddressOf(u)
      modifies this, chunks
      ensures Valid() && lockCnt == old(lockCnt) && chunks == old(chunks)
      ensures forall v :: Taken(free, eLength, v) <==> Taken(old(free), eLength, v) && v != u
      ensures numAvailableUnits == old(numAvailableUnits) + 1
      ensures u.chunk in old(free) && free == Giving(old(free), u)
    {
      hide Links, Listed, Geometry, Units, Sound;
      GeometryFacts();
      UnitFound(u);
      var base := p - p % chunkSize;
      var chunk := chunkAt[base];
      var index := (p - SlotAddress(base, paddingSize, objectSize, 0)) / objectSize;
      assert index < eLength;
      GiveTo(chunk, index);
      SoundBound(chunk, free[base], eLength);
      ListedGiven(chunkAt, old(free), eLength, Elems(nonempty), Elems(empty), base, free[base]);
      SettleFree(chunk);
    }

    lemma UnitFound(u: Unit)
      requires Geometry() && Owned() && Taken(free, eLength, u)
      ensures var p := AddressOf(u);
        && chunkSize > 0 && p - p % chunkSize == u.chunk && u.chunk in chunkAt && chunkAt[u.chunk] in chunks
        && objectSize > 0 && p >= SlotAddress(u.chunk, paddingSize, objectSize, 0)
        && (p - SlotAddress(u.chunk, paddingSize, objectSize, 0)) / objectSize == u.index
        && chunkAt[u.chunk].slots == free[u.chunk]
    {
      hide LegalSizes, Fits, SlotAddress, PrimitiveHeapChunk.Valid;
      GeometryFacts();
      assert Sound(chunkAt[u.chunk], free[u.chunk], eLength);
      SlotRecovered(chunkSize, objectSize, paddingSize, eLength, u.chunk, u.index);
    }

    /** A chunk that has got a slot back enters the first list if this is its only one, and moves to the second if all
        are free. */
    method SettleFree(chunk: PrimitiveHeapChunk)
      requires Geometry() && Owned() && Links() && numAvailableUnits == Units(free) && chunk in chunks
      requires chunk.address in free && chunk !in Elems(empty)
      requires Listed(chunkAt, free, eLength, Elems(nonempty) + {chunk}, Elems(empty), chunk)
      requires chunk.numavailableentry == |free[chunk.address]| <= eLength
      requires chunk.numavailableentry > 1 <==> chunk in Elems(nonempty)
      requires chunk.numavailableentry > 0
      modifies `nonemptyRoot, `nonempty, `emptyRoot, `empty, chunks`next, chunks`prev
      ensures Valid()
    {
      hide Links, Sound, Geometry, Units, Listed;
      GeometryFacts();
      Lists(Elems(nonempty) + {chunk}, Elems(empty), chunk);
      if chunk.numavailableentry == 1 {
        PushNonempty(chunk);
      }
      assert Elems(nonempty) == Elems(old(nonempty)) + {chunk};
      if chunk.numavailableentry == eLength {
        ListedFull(chunkAt, free, eLength, Elems(nonempty), Elems(empty), chunk);
        DropNonempty(chunk);
        PushEmpty(chunk);
      } else {
        ListedClose(chunkAt, free, eLength, Elems(nonempty), Elems(empty), chunk);
      }
    }

    lemma OwnedChunk(c: PrimitiveHeapChunk)
      requires Owned() && c in chunks
      ensures c.address in chunkAt && c.address in source.given
    {
    }

    method Release(p: nat)
      requires Owned() && p in source.given && p !in chunkAt
      modifies source
      ensures Owned()
    {
      hide Sound;
      source.Deallocate(p, chunkSize);
    }

    /** Two units in use have no byte in common, and each lies clear of its chunk's header and bitmap. */
    lemma TakenApart(u: Unit, v: Unit)
      requires Valid() && Taken(free, eLength, u) && Taken(free, eLength, v) && u != v
      ensures AddressOf(u) + objectSize <= AddressOf(v) || AddressOf(v) + objectSize <= AddressOf(u)
      ensures u.chunk + 24 + paddingSize <= AddressOf(u)
      ensures AddressOf(u) + objectSize <= SlotAddress(u.chunk, paddingSize, objectSize, eLength)
      ensures SlotAddress(u.chunk, paddingSize, objectSize, eLength) + 8 * bmLength <= u.chunk + chunkSize
    {
      hide LegalSizes, Fits, Links, Listed, Units, Sound;
      GeometryFacts();
      SlotsApart(chunkSize, objectSize, paddingSize, eLength, u.chunk, u.index, v.chunk, v.index);
      SlotInside(chunkSize, objectSize, paddingSize, eLength, u.chunk, u.index);
    }

    lemma RootOf()
      requires Links()
      ensures emptyRoot != null ==> emptyRoot in Elems(empty) && emptyRoot !in Elems(nonempty)
      ensures emptyRoot == null ==> Elems(empty) == {}
      ensures nonemptyRoot != null ==> nonemptyRoot in Elems(nonempty) && nonemptyRoot !in Elems(empty)
      ensures nonemptyRoot == null ==> Elems(nonempty) == {}
    {
    }
  }

  lemma ListedSome(chunkAt: map<nat, PrimitiveHeapChunk>, free: FreeSlots, eLength: nat,
                   partly: set<PrimitiveHeapChunk>, unused: set<PrimitiveHeapChunk>)
    requires Listed(chunkAt, free, eLength, partly, unused, null)
    requires exists a :: a in free && free[a] != {}
    requires forall a :: a in free ==> |free[a]| <= eLength
    ensures partly != {} || unused != {}
  {
    var a :| a in free && free[a] != {};
    assert ListedAt(chunkAt[a], |free[a]|, eLength, partly, unused, null);
  }

  /** A chunk that has a free slot may be handed over to an operation. */
  lemma ListedOpen(chunkAt: map<nat, PrimitiveHeapChunk>, free: FreeSlots, eLength: nat,
      partly: set<PrimitiveHeapChunk>,
                   unused: set<PrimitiveHeapChunk>, chunk: PrimitiveHeapChunk)
    requires Listed(chunkAt, free, eLength, partly, unused, null) && (chunk in partly || chunk in unused) && eLength > 0
    requires forall a :: a in chunkAt ==> chunkAt[a].address == a
    ensures Listed(chunkAt, free, eLength, partly + {chunk}, unused - {chunk}, chunk)
    ensures chunk.address in chunkAt && chunkAt[chunk.address] == chunk && |free[chunk.address]| > 0
  {
    var a :| a in chunkAt && chunkAt[a] == chunk;
    forall b | b in chunkAt
      ensures ListedAt(chunkAt[b], |free[b]|, eLength, partly + {chunk}, unused - {chunk}, chunk)
    {
      assert ListedAt(chunkAt[b], |free[b]|, eLength, partly, unused, null);
    }
    assert (partly + {chunk}) + (unused - {chunk}) <= chunkAt.Values;
  }

  lemma ListedFor(chunkAt: map<nat, PrimitiveHeapChunk>, free: FreeSlots, eLength: nat, partly: set<PrimitiveHeapChunk>,
                  unused: set<PrimitiveHeapChunk>, chunk: PrimitiveHeapChunk)
    requires Listed(chunkAt, free, eLength, partly, unused, chunk) && chunk.address in chunkAt
    requires chunkAt[chunk.address] == chunk
    ensures chunk in partly && chunk !in unused
  {
    assert ListedAt(chunkAt[chunk.address], |free[chunk.address]|, eLength, partly, unused, chunk);
  }

  lemma ListedClose(chunkAt: map<nat, PrimitiveHeapChunk>, free: FreeSlots, eLength: nat,
      partly: set<PrimitiveHeapChunk>,
                    unused: set<PrimitiveHeapChunk>, chunk: PrimitiveHeapChunk)
    requires Listed(chunkAt, free, eLength, partly, unused, chunk) && chunk.address in free
    requires forall a :: a in chunkAt ==> chunkAt[a].address == a
    requires 0 < |free[chunk.address]| < eLength
    ensures Listed(chunkAt, free, eLength, partly, unused, null)
  {
    forall a | a in chunkAt
      ensures ListedAt(chunkAt[a], |free[a]|, eLength, partly, unused, null)
    {
      assert ListedAt(chunkAt[a], |free[a]|, eLength, partly, unused, chunk);
    }
  }

  lemma ListedUsed(chunkAt: map<nat, PrimitiveHeapChunk>, free: FreeSlots, eLength: nat,
      partly: set<PrimitiveHeapChunk>,
                   unused: set<PrimitiveHeapChunk>, chunk: PrimitiveHeapChunk)
    requires Listed(chunkAt, free, eLength, partly, unused, chunk) && chunk.address in free && eLength > 0
    requires forall a :: a in chunkAt ==> chunkAt[a].address == a
    requires |free[chunk.address]| == 0
    ensures Listed(chunkAt, free, eLength, partly - {chunk}, unused, null)
  {
    forall a | a in chunkAt
      ensures ListedAt(chunkAt[a], |free[a]|, eLength, partly - {chunk}, unused, null)
    {
      assert ListedAt(chunkAt[a], |free[a]|, eLength, partly, unused, chunk);
    }
  }

  lemma ListedGiven(chunkAt: map<nat, PrimitiveHeapChunk>, free: FreeSlots, eLength: nat,
      partly: set<PrimitiveHeapChunk>,
                    unused: set<PrimitiveHeapChunk>, a: nat, slots: set<nat>)
    requires Listed(chunkAt, free, eLength, partly, unused, null) && a in chunkAt
    requires forall b :: b in chunkAt ==> chunkAt[b].address == b
    requires |slots| == |free[a]| + 1 <= eLength
    ensures Listed(chunkAt, free[a := slots], eLength, partly + {chunkAt[a]}, unused, chunkAt[a])
    ensures chunkAt[a] !in unused && (|slots| > 1 <==> chunkAt[a] in partly)
  {
    forall b | b in chunkAt
      ensures ListedAt(chunkAt[b], |free[a := slots][b]|, eLength, partly + {chunkAt[a]}, unused, chunkAt[a])
    {
      assert ListedAt(chunkAt[b], |free[b]|, eLength, partly, unused, null);
    }
    assert chunkAt[a] in chunkAt.Values;
    assert ListedAt(chunkAt[a], |free[a]|, eLength, partly, unused, null);
  }

  lemma ListedFull(chunkAt: map<nat, PrimitiveHeapChunk>, free: FreeSlots, eLength: nat,
      partly: set<PrimitiveHeapChunk>,
                   unused: set<PrimitiveHeapChunk>, chunk: PrimitiveHeapChunk)
    requires Listed(chunkAt, free, eLength, partly, unused, chunk) && chunk.address in free && chunk in partly
    requires forall a :: a in chunkAt ==> chunkAt[a].address == a
    requires |free[chunk.address]| == eLength
    ensures Listed(chunkAt, free, eLength, partly - {chunk}, unused + {chunk}, null)
  {
    forall a | a in chunkAt
      ensures ListedAt(chunkAt[a], |free[a]|, eLength, partly - {chunk}, unused + {chunk}, null)
    {
      assert ListedAt(chunkAt[a], |free[a]|, eLength, partly, unused, chunk);
    }
    assert (partly - {chunk}) + (unused + {chunk}) <= chunkAt.Values;
  }

  lemma SoundBound(c: PrimitiveHeapChunk, slots: set<nat>, eLength: nat)
    requires Sound(c, slots, eLength)
    ensures c.slots == slots && c.numavailableentry == |slots| && |slots| <= eLength
    ensures forall i :: i in slots ==> i < eLength
    ensures |slots| == eLength ==> forall i: nat :: i < eLength ==> i in slots
  {
    SubsetCount(slots, Below(eLength));
  }

  lemma ListedGone(chunkAt: map<nat, PrimitiveHeapChunk>, free: FreeSlots, eLength: nat,
      partly: set<PrimitiveHeapChunk>,
                   unused: set<PrimitiveHeapChunk>, a: nat, chunk: PrimitiveHeapChunk)
    requires Listed(chunkAt, free, eLength, partly, unused + {chunk}, null)
    requires a in chunkAt && chunkAt[a] == chunk && (forall b :: b in chunkAt && b != a ==> chunkAt[b] != chunk)
    requires chunk !in unused && chunk !in partly
    requires forall i: nat :: |free[a]| == eLength && i < eLength ==> i in free[a]
    ensures |free[a]| == eLength && Listed(chunkAt - {a}, free - {a}, eLength, partly, unused, null)
    ensures forall u :: Taken(free - {a}, eLength, u) <==> Taken(free, eLength, u)
  {
    assert ListedAt(chunkAt[a], |free[a]|, eLength, partly, unused + {chunk}, null);
    forall c | c in partly + unused
      ensures c in (chunkAt - {a}).Values
    {
      var b :| b in chunkAt && chunkAt[b] == c;
      assert (chunkAt - {a})[b] == c;
    }
  }

  lemma ListedNew(chunkAt: map<nat, PrimitiveHeapChunk>, free: FreeSlots, eLength: nat, partly: set<PrimitiveHeapChunk>,
                  unused: set<PrimitiveHeapChunk>, a: nat, chunk: PrimitiveHeapChunk, slots: set<nat>)
    requires Listed(chunkAt, free, eLength, partly, unused - {chunk}, null)
    requires a !in chunkAt && (forall b :: b in chunkAt ==> chunkAt[b] != chunk) && chunk in unused && chunk !in partly
    requires |slots| == eLength && forall i :: i in slots <==> 0 <= i < eLength
    ensures Listed(chunkAt[a := chunk], free[a := slots], eLength, partly, unused, null)
    ensures forall u :: Taken(free[a := slots], eLength, u) <==> Taken(free, eLength, u)
  {
    assert chunkAt[a := chunk][a] == chunk;
    forall c | c in partly + unused
      ensures c in chunkAt[a := chunk].Values
    {
      if c != chunk {
        var b :| b in chunkAt && chunkAt[b] == c;
        assert chunkAt[a := chunk][b] == c;
      }
    }
  }

  lemma ListedCount(chunkAt: map<nat, PrimitiveHeapChunk>, free: FreeSlots, eLength: nat,
      partly: set<PrimitiveHeapChunk>,
                    unused: set<PrimitiveHeapChunk>, a: nat, slots: set<nat>)
    requires a in chunkAt && Listed(chunkAt, free, eLength, partly, unused, chunkAt[a])
    ensures Listed(chunkAt, free[a := slots], eLength, partly, unused, chunkAt[a])
  {
  }

  lemma PaddingFits(chunkSize: nat, objectSize: nat, align: nat)
    requires LegalSizes(chunkSize, objectSize, align)
    ensures objectSize >= 8 && 24 + Padding(align) <= chunkSize
  {
    var k, _ := Divide(objectSize, align);
    MulMonotone(align, 1, k);
  }
}
