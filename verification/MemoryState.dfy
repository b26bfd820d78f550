/** What the memory manager keeps, as values: the free physical and linear ranges, the live blocks and the page tree. */
module MemoryState {
  import opened Common
  import opened Words
  import opened Pte
  import opened PageIndex
  import opened PageTree
  import opened RangePairs
  import opened RangeSets

  const LINEAR_END: nat := 0x8000_0000_0000
  const PHYSICAL_END: nat := 0x10_0000_0000_0000

  /** A live block: its length in pages, and the physical address its first page is mapped to. */
  datatype Block = Block(count: nat, phys: nat)

  /** The live blocks by the number of their first page. */
  type Blocks = map<nat, Block>

  datatype State = State(phys: set<RangePair>, lin: set<RangePair>, live: Blocks, tree: Table)

  /** Free ranges are made of whole pages, below the given end and above address 0. */
  ghost predicate Paged(R: set<RangePair>, end: nat) {
    forall r :: r in R ==> r.x % 0x1000 == 0 && r.y % 0x1000 == 0 && 0 < r.x && End(r) <= end
  }

  predicate BlockOk(first: nat, b: Block) {
    && 0 < first && Indexable(first, b.count) && 0x1000 * (first + b.count) <= LINEAR_END
    && 0 < b.phys && b.phys % 0x1000 == 0 && b.phys + 0x1000 * b.count <= PHYSICAL_END
  }

  /** Two stretches of memory have no byte in common. */
  predicate Separate(a: nat, n: nat, b: nat, m: nat) {
    a + n <= b || b + m <= a
  }

  /** Page q is one of the block's. */
  predicate InBlock(first: nat, b: Block, q: nat) {
    first <= q < first + b.count
  }

  ghost predicate BlockMapped(t: Table, first: nat, b: Block)
    requires |t.slots| == 512
  {
    forall q: nat :: InBlock(first, b, q) ==>
      Lookup(3, t, q) == Some(Mapping(b.phys + 0x1000 * (q - first), PreferenceAttributes(0)))
  }

  /** Live blocks are sound, are nobody else's memory on either side, and are mapped to their own physical ranges. */
  ghost predicate BlocksOk(s: State)
    requires |s.tree.slots| == 512
  {
    forall f :: f in s.live ==>
      && BlockOk(f, s.live[f]) && BlockMapped(s.tree, f, s.live[f])
      && NoneFree(s.lin, 0x1000 * f, 0x1000 * s.live[f].count)
      && NoneFree(s.phys, s.live[f].phys, 0x1000 * s.live[f].count)
  }

  ghost predicate BlocksApart(live: Blocks) {
    forall f, g :: f in live && g in live && f != g ==>
      && Separate(f, live[f].count, g, live[g].count)
      && Separate(live[f].phys, 0x1000 * live[f].count, live[g].phys, 0x1000 * live[g].count)
  }

  /** Pages of free linear ranges are not mapped. */
  ghost predicate FreeUnmapped(s: State)
    requires |s.tree.slots| == 512
  {
    forall q: nat :: IsFree(s.lin, 0x1000 * q) ==> Lookup(3, s.tree, q) == None
  }

  /** Some page outside the manager's hands stays mapped: the tables themselves and the code live there. */
  ghost predicate Anchored(s: State)
    requires |s.tree.slots| == 512
  {
    exists q: nat :: q < 0x10_0000_0000 && Lookup(3, s.tree, q).Some? && Unmanaged(s, q)
  }

  ghost predicate Unmanaged(s: State, q: nat) {
    !IsFree(s.lin, 0x1000 * q) && forall f :: f in s.live ==> !InBlock(f, s.live[f], q)
  }

  ghost predicate Consistent(s: State) {
    && |s.tree.slots| == 512
    && Coalesced(s.phys) && Paged(s.phys, PHYSICAL_END) && Coalesced(s.lin) && Paged(s.lin, LINEAR_END)
    && BlocksOk(s) && BlocksApart(s.live) && FreeUnmapped(s) && Anchored(s)
  }

  // The bytes in live blocks.

  ghost function LiveBytes(live: Blocks): nat {
    if live == map[] then 0 else var f :| f in live; 0x1000 * live[f].count + LiveBytes(live - {f})
  }

  lemma {:induction false} LiveBytesRemove(live: Blocks, f: nat)
    requires f in live
    ensures LiveBytes(live) == 0x1000 * live[f].count + LiveBytes(live - {f})
    decreases |live|
  {
    var g :| g in live && LiveBytes(live) == 0x1000 * live[g].count + LiveBytes(live - {g});
    if g != f {
      assert |live - {g}| < |live| && |live - {f}| < |live| by {
        assert (live - {g}).Keys == live.Keys - {g};
        assert (live - {f}).Keys == live.Keys - {f};
      }
      LiveBytesRemove(live - {g}, f);
      LiveBytesRemove(live - {f}, g);
      assert live - {g} - {f} == live - {f} - {g};
    }
  }

  lemma LiveBytesAdd(live: Blocks, f: nat, b: Block)
    requires f !in live
    ensures LiveBytes(live[f := b]) == LiveBytes(live) + 0x1000 * b.count
  {
    LiveBytesRemove(live[f := b], f);
    assert live[f := b] - {f} == live;
  }

  // Allocation and release, as steps of the state.

  /** t' translates the block's pages to its frames and every other page as t does. */
  ghost predicate MapsBlock(t: Table, t': Table, first: nat, b: Block)
    requires |t.slots| == |t'.slots| == 512
  {
    forall q: nat :: q < 0x10_0000_0000 ==>
      Lookup(3, t', q) ==
        if InBlock(first, b, q) then Some(Mapping(b.phys + 0x1000 * (q - first), PreferenceAttributes(0)))
        else Lookup(3, t, q)
  }

  /** No page of t' may be written or executed less than in t, and pages mapped in both have the same rights. */
  ghost predicate KeepsRights(t: Table, t': Table)
    requires |t.slots| == |t'.slots| == 512
  {
    forall q: nat :: q < 0x10_0000_0000 ==>
      && (Path(3, t, q).write ==> Path(3, t', q).write) && (Path(3, t, q).execute ==> Path(3, t', q).execute)
      && (Lookup(3, t, q).Some? && Lookup(3, t', q).Some? ==> Path(3, t', q) == Path(3, t, q))
  }

  ghost predicate UnmapsBlock(t: Table, t': Table, first: nat, b: Block)
    requires |t.slots| == |t'.slots| == 512
  {
    forall q: nat :: q < 0x10_0000_0000 ==>
      Lookup(3, t', q) == if InBlock(first, b, q) then None else Lookup(3, t, q)
  }

  /** A block's pages are bytes of its linear range. */
  lemma PageInRange(first: nat, b: Block, q: nat)
    ensures InBlock(first, b, q) <==> 0x1000 * first <= 0x1000 * q < 0x1000 * first + 0x1000 * b.count
  {
  }

  lemma CarvePaged(R: set<RangePair>, r: RangePair, start: nat, size: nat, end: nat)
    requires Paged(R, end) && r in R && Contains(r, start, size) && start % 0x1000 == 0 && size % 0x1000 == 0
    ensures Paged(Carve(R, r, start, size), end)
  {
    Multiples(r.x, start - r.x);
    Multiples(start, size);
    Multiples(r.x, r.y);
    Multiples(start + size, End(r) - (start + size));
  }

  lemma MergePaged(R: set<RangePair>, start: nat, size: nat, end: nat)
    requires Coalesced(R) && Paged(R, end) && start % 0x1000 == 0 && size % 0x1000 == 0
    requires 0 < start && 0 < size && start + size <= end
    ensures Paged(Merge(R, start, size), end)
  {
    hide Coalesced, MergedStart, MergedEnd;
    MergedBounds(R, start);
    MergedBounds(R, start + size);
    MergedPaged(R, start, end);
    Multiples(start, size);
    MergedPaged(R, start + size, end);
    Multiples(MergedStart(R, start), MergedEnd(R, start + size) - MergedStart(R, start));
  }

  lemma MergedPaged(R: set<RangePair>, b: nat, end: nat)
    requires Coalesced(R) && Paged(R, end) && b % 0x1000 == 0 && 0 < b <= end
    ensures MergedStart(R, b) % 0x1000 == 0 && MergedEnd(R, b) % 0x1000 == 0
    ensures 0 < MergedStart(R, b) && MergedEnd(R, b) <= end
  {
    hide Coalesced;
    MergedBounds(R, b);
    if exists r :: EndsAt(R, r, b) {
      var r :| EndsAt(R, r, b);
    }
    if exists r :: StartsAt(R, r, b) {
      var r :| StartsAt(R, r, b);
      Multiples(r.x, r.y);
    }
  }

  lemma Multiples(a: nat, n: nat)
    ensures a % 0x1000 == 0 ==> ((a + n) % 0x1000 == 0 <==> n % 0x1000 == 0)
  {
  }

  /** Bytes that are all free and bytes none of which is free do not meet. */
  lemma FreeAndTakenSeparate(R: set<RangePair>, a: nat, n: nat, b: nat, m: nat)
    requires AllFree(R, a, n) && NoneFree(R, b, m) && n > 0 && m > 0
    ensures Separate(a, n, b, m)
  {
    var c := if a <= b then b else a;
    assert b <= c < b + m && a <= c < a + n ==> IsFree(R, c) && !IsFree(R, c);
  }

  lemma ContainedFree(R: set<RangePair>, r: RangePair, start: nat, size: nat)
    requires r in R && Contains(r, start, size)
    ensures AllFree(R, start, size)
  {
    forall b | start <= b < start + size
      ensures IsFree(R, b)
    {
      assert r.x <= b < End(r);
    }
  }

  /** Taking a range leaves taken what was taken, and takes its own bytes. */
  lemma CarveNoneFree(R: set<RangePair>, r: RangePair, start: nat, size: nat, b: nat, m: nat)
    requires Coalesced(R) && r in R && Contains(r, start, size) && size > 0
    requires NoneFree(R, b, m) || (b == start && m == size)
    ensures NoneFree(Carve(R, r, start, size), b, m)
  {
    hide Coalesced, Carve, IsFree;
    forall c | b <= c < b + m
      ensures !IsFree(Carve(R, r, start, size), c)
    {
      CarveBytes(R, r, start, size, c);
    }
  }

  lemma MergeNoneFree(R: set<RangePair>, start: nat, size: nat, b: nat, m: nat)
    requires Coalesced(R) && NoneFree(R, start, size) && size > 0
    requires NoneFree(R, b, m) && Separate(start, size, b, m)
    ensures NoneFree(Merge(R, start, size), b, m)
  {
    hide Coalesced, Merge, IsFree;
    forall c | b <= c < b + m
      ensures !IsFree(Merge(R, start, size), c)
    {
      MergeBytes(R, start, size, c);
    }
  }

  ghost function AfterAlloc(s: State, rp: RangePair, rl: RangePair, f: nat, b: Block, t': Table): State
    requires Contains(rp, b.phys, 0x1000 * b.count) && Contains(rl, 0x1000 * f, 0x1000 * b.count)
  {
    State(Carve(s.phys, rp, b.phys, 0x1000 * b.count), Carve(s.lin, rl, 0x1000 * f, 0x1000 * b.count),
        s.live[f := b], t')
  }

  /** The block was free on both sides, and t' is the tree with the block mapped. */
  ghost predicate CanAlloc(s: State, rp: RangePair, rl: RangePair, f: nat, b: Block, t': Table) {
    && Consistent(s) && Allocates(s, rp, rl, f, b, t')
  }

  ghost predicate Allocates(s: State, rp: RangePair, rl: RangePair, f: nat, b: Block, t': Table) {
    && |s.tree.slots| == 512 && BlockOk(f, b)
    && rp in s.phys && Contains(rp, b.phys, 0x1000 * b.count) && rl in s.lin && Contains(rl, 0x1000 * f,
        0x1000 * b.count)
    && |t'.slots| == 512 && MapsBlock(s.tree, t', f, b) && KeepsRights(s.tree, t')
  }

  /** The new block shares no memory with any live block. */
  lemma NewBlockApart(s: State, rp: RangePair, rl: RangePair, f: nat, b: Block, t': Table, g: nat)
    requires CanAlloc(s, rp, rl, f, b, t') && g in s.live
    ensures f != g && Separate(f, b.count, g, s.live[g].count)
    ensures Separate(b.phys, 0x1000 * b.count, s.live[g].phys, 0x1000 * s.live[g].count)
  {
    hide Coalesced, Lookup, MapsBlock, KeepsRights, FreeUnmapped, Anchored, BlockMapped, AllFree, NoneFree, BlocksApart,
      Paged;
    var c := s.live[g];
    ContainedFree(s.lin, rl, 0x1000 * f, 0x1000 * b.count);
    ContainedFree(s.phys, rp, b.phys, 0x1000 * b.count);
    FreeAndTakenSeparate(s.lin, 0x1000 * f, 0x1000 * b.count, 0x1000 * g, 0x1000 * c.count);
    FreeAndTakenSeparate(s.phys, b.phys, 0x1000 * b.count, c.phys, 0x1000 * c.count);
  }

  lemma AllocBlocks(s: State, rp: RangePair, rl: RangePair, f: nat, b: Block, t': Table)
    requires CanAlloc(s, rp, rl, f, b, t')
    ensures BlocksOk(AfterAlloc(s, rp, rl, f, b, t')) && BlocksApart(AfterAlloc(s, rp, rl, f, b, t').live)
  {
    hide Coalesced, Lookup, KeepsRights, FreeUnmapped, Anchored, NoneFree, Paged, Carve;
    var s' := AfterAlloc(s, rp, rl, f, b, t');
    forall g | g in s.live
      ensures f != g && Separate(f, b.count, g, s.live[g].count)
      ensures Separate(b.phys, 0x1000 * b.count, s.live[g].phys, 0x1000 * s.live[g].count)
    {
      NewBlockApart(s, rp, rl, f, b, t', g);
    }
    forall g | g in s'.live
      ensures BlockOk(g, s'.live[g]) && BlockMapped(t', g, s'.live[g])
      ensures NoneFree(s'.lin, 0x1000 * g, 0x1000 * s'.live[g].count)
      ensures NoneFree(s'.phys, s'.live[g].phys, 0x1000 * s'.live[g].count)
    {
      var c := s'.live[g];
      CarveNoneFree(s.lin, rl, 0x1000 * f, 0x1000 * b.count, 0x1000 * g, 0x1000 * c.count);
      CarveNoneFree(s.phys, rp, b.phys, 0x1000 * b.count, c.phys, 0x1000 * c.count);
    }
  }

  /** Allocation keeps the state consistent. */
  lemma AllocConsistent(s: State, rp: RangePair, rl: RangePair, f: nat, b: Block, t': Table)
    requires CanAlloc(s, rp, rl, f, b, t')
    ensures f !in s.live && Consistent(AfterAlloc(s, rp, rl, f, b, t'))
  {
    hide Lookup, KeepsRights, BlocksOk, BlocksApart, Coalesced, Carve, Paged, IsFree;
    var s' := AfterAlloc(s, rp, rl, f, b, t');
    AllocBlocks(s, rp, rl, f, b, t');
    if f in s.live {
      NewBlockApart(s, rp, rl, f, b, t', f);
    }
    CarveCoalesced(s.phys, rp, b.phys, 0x1000 * b.count);
    CarveCoalesced(s.lin, rl, 0x1000 * f, 0x1000 * b.count);
    CarvePaged(s.phys, rp, b.phys, 0x1000 * b.count, PHYSICAL_END);
    CarvePaged(s.lin, rl, 0x1000 * f, 0x1000 * b.count, LINEAR_END);
    forall q: nat | IsFree(s'.lin, 0x1000 * q)
      ensures Lookup(3, t', q) == None
    {
      CarveBytes(s.lin, rl, 0x1000 * f, 0x1000 * b.count, 0x1000 * q);
      PageInRange(f, b, q);
      FreeBelow(s.lin, LINEAR_END, 0x1000 * q);
    }
    var a: nat :| a < 0x10_0000_0000 && Lookup(3, s.tree, a).Some? && Unmanaged(s, a);
    PageInRange(f, b, a);
    ContainedFree(s.lin, rl, 0x1000 * f, 0x1000 * b.count);
    CarveBytes(s.lin, rl, 0x1000 * f, 0x1000 * b.count, 0x1000 * a);
    assert Lookup(3, t', a).Some? && Unmanaged(s', a);
  }

  lemma FreeBelow(R: set<RangePair>, end: nat, b: int)
    requires Paged(R, end) && IsFree(R, b)
    ensures 0 < b < end
  {
  }

  ghost function AfterFree(s: State, f: nat, t': Table): State
    requires f in s.live && Coalesced(s.phys) && Coalesced(s.lin)
  {
    var b := s.live[f];
    State(Merge(s.phys, b.phys, 0x1000 * b.count), Merge(s.lin, 0x1000 * f, 0x1000 * b.count), s.live - {f}, t')
  }

  ghost predicate CanFree(s: State, f: nat, t': Table) {
    Consistent(s) && Releases(s, f, t')
  }

  ghost predicate Releases(s: State, f: nat, t': Table) {
    && |s.tree.slots| == |t'.slots| == 512 && Coalesced(s.phys) && Coalesced(s.lin)
    && f in s.live && UnmapsBlock(s.tree, t', f, s.live[f]) && KeepsRights(s.tree, t')
  }

  lemma FreeBlocks(s: State, f: nat, t': Table)
    requires CanFree(s, f, t')
    ensures BlocksOk(AfterFree(s, f, t')) && BlocksApart(AfterFree(s, f, t').live)
  {
    hide Coalesced, Lookup, KeepsRights, FreeUnmapped, Anchored, NoneFree, Paged, Merge;
    var s', b := AfterFree(s, f, t'), s.live[f];
    forall g | g in s'.live
      ensures BlockOk(g, s'.live[g]) && BlockMapped(t', g, s'.live[g])
      ensures NoneFree(s'.lin, 0x1000 * g, 0x1000 * s'.live[g].count)
      ensures NoneFree(s'.phys, s'.live[g].phys, 0x1000 * s'.live[g].count)
    {
      var c := s'.live[g];
      assert Separate(f, b.count, g, c.count);
      MergeNoneFree(s.lin, 0x1000 * f, 0x1000 * b.count, 0x1000 * g, 0x1000 * c.count);
      MergeNoneFree(s.phys, b.phys, 0x1000 * b.count, c.phys, 0x1000 * c.count);
    }
  }

  /** Releasing a live block keeps the state consistent. */
  lemma FreeConsistent(s: State, f: nat, t': Table)
    requires CanFree(s, f, t')
    ensures Consistent(AfterFree(s, f, t'))
  {
    hide Lookup, KeepsRights, BlocksOk, BlocksApart, Coalesced, Merge, Paged, IsFree;
    var s', b := AfterFree(s, f, t'), s.live[f];
    FreeBlocks(s, f, t');
    LiveBlock(s, f);
    MergeCoalesced(s.phys, b.phys, 0x1000 * b.count);
    MergeCoalesced(s.lin, 0x1000 * f, 0x1000 * b.count);
    MergePaged(s.phys, b.phys, 0x1000 * b.count, PHYSICAL_END);
    MergePaged(s.lin, 0x1000 * f, 0x1000 * b.count, LINEAR_END);
    forall q: nat | IsFree(s'.lin, 0x1000 * q)
      ensures Lookup(3, t', q) == None
    {
      MergeBytes(s.lin, 0x1000 * f, 0x1000 * b.count, 0x1000 * q);
      PageInRange(f, b, q);
      FreeBelow(s'.lin, LINEAR_END, 0x1000 * q);
    }
    var a: nat :| a < 0x10_0000_0000 && Lookup(3, s.tree, a).Some? && Unmanaged(s, a);
    PageInRange(f, b, a);
    MergeBytes(s.lin, 0x1000 * f, 0x1000 * b.count, 0x1000 * a);
    assert Lookup(3, t', a).Some? && Unmanaged(s', a);
  }

  lemma LiveBlock(s: State, f: nat)
    requires Consistent(s) && f in s.live
    ensures BlockOk(f, s.live[f]) && BlockMapped(s.tree, f, s.live[f])
    ensures NoneFree(s.lin, 0x1000 * f, 0x1000 * s.live[f].count)
    ensures NoneFree(s.phys, s.live[f].phys, 0x1000 * s.live[f].count)
  {
  }

  // Whole runs.

  ghost predicate AllocStep(s: State, rp: RangePair, rl: RangePair, f: nat, b: Block, s': State) {
    Allocates(s, rp, rl, f, b, s'.tree) && s' == AfterAlloc(s, rp, rl, f, b, s'.tree)
  }

  ghost predicate FreeStep(s: State, f: nat, s': State) {
    Releases(s, f, s'.tree) && s' == AfterFree(s, f, s'.tree)
  }

  ghost predicate Step(s: State, s': State) {
    (exists rp, rl, f, b :: AllocStep(s, rp, rl, f, b, s')) || (exists f :: FreeStep(s, f, s'))
  }

  /** The bytes of physical memory the manager answers for: those free and those in live blocks. */
  ghost function Held(s: State): nat {
    Total(s.phys) + LiveBytes(s.live)
  }

  lemma AllocKeeps(s: State, rp: RangePair, rl: RangePair, f: nat, b: Block, s': State)
    requires Consistent(s) && AllocStep(s, rp, rl, f, b, s')
    ensures Consistent(s') && Held(s') == Held(s) && f !in s.live && s'.live == s.live[f := b]
  {
    hide Total, LiveBytes, Carve, Lookup, KeepsRights, BlocksOk, BlocksApart;
    AllocConsistent(s, rp, rl, f, b, s'.tree);
    TotalCarve(s.phys, rp, b.phys, 0x1000 * b.count);
    LiveBytesAdd(s.live, f, b);
  }

  lemma FreeKeeps(s: State, f: nat, s': State)
    requires Consistent(s) && FreeStep(s, f, s')
    ensures Consistent(s') && Held(s') == Held(s) && s'.live == s.live - {f}
  {
    hide Total, LiveBytes, Merge, Lookup, KeepsRights, BlocksApart;
    FreeConsistent(s, f, s'.tree);
    TotalMerge(s.phys, s.live[f].phys, 0x1000 * s.live[f].count);
    LiveBytesRemove(s.live, f);
  }

  /** A step keeps the state consistent, loses and invents no memory, and moves no block that stays live. */
  lemma StepKeeps(s: State, s': State)
    requires Consistent(s) && Step(s, s')
    ensures Consistent(s') && Held(s') == Held(s)
    ensures forall f :: f in s.live && f in s'.live ==> s'.live[f] == s.live[f]
  {
    hide Consistent, Held, AllocStep, FreeStep;
    if f :| FreeStep(s, f, s') {
      FreeKeeps(s, f, s');
    } else {
      var rp, rl, f, b :| AllocStep(s, rp, rl, f, b, s');
      AllocKeeps(s, rp, rl, f, b, s');
    }
  }

  // The physical bytes the manager answers for.

  ghost predicate InLiveBlock(live: Blocks, a: int) {
    exists f :: f in live && live[f].phys <= a < live[f].phys + 0x1000 * live[f].count
  }

  /** Byte a is free or in a live block. */
  ghost predicate Managed(s: State, a: int) {
    IsFree(s.phys, a) || InLiveBlock(s.live, a)
  }

  lemma LiveAdded(live: Blocks, f: nat, b: Block, a: int)
    requires f !in live
    ensures InLiveBlock(live[f := b], a) <==> InLiveBlock(live, a) || b.phys <= a < b.phys + 0x1000 * b.count
  {
    if InLiveBlock(live, a) {
      var g :| g in live && live[g].phys <= a < live[g].phys + 0x1000 * live[g].count;
      assert live[f := b][g] == live[g];
    }
    if b.phys <= a < b.phys + 0x1000 * b.count {
      assert live[f := b][f] == b;
    }
  }

  /** Allocations and releases neither add to these bytes nor take from them. */
  lemma AllocManaged(s: State, rp: RangePair, rl: RangePair, f: nat, b: Block, s': State, a: nat)
    requires Consistent(s) && AllocStep(s, rp, rl, f, b, s')
    ensures Managed(s', a) <==> Managed(s, a)
  {
    hide IsFree, Carve, Lookup, BlocksOk, BlocksApart, InLiveBlock, Consistent;
    AllocKeeps(s, rp, rl, f, b, s');
    PhysicalRanges(s);
    CarveBytes(s.phys, rp, b.phys, 0x1000 * b.count, a);
    LiveAdded(s.live, f, b, a);
    if b.phys <= a < b.phys + 0x1000 * b.count {
      ContainedFree(s.phys, rp, b.phys, 0x1000 * b.count);
    }
  }

  lemma FreeManaged(s: State, f: nat, s': State, a: nat)
    requires Consistent(s) && FreeStep(s, f, s')
    ensures Managed(s', a) <==> Managed(s, a)
  {
    hide IsFree, Merge, Lookup, InLiveBlock, Consistent, BlockMapped;
    FreeKeeps(s, f, s');
    LiveBlock(s, f);
    MergeBytes(s.phys, s.live[f].phys, 0x1000 * s.live[f].count, a);
    LiveAdded(s'.live, f, s.live[f], a);
    assert s'.live[f := s.live[f]] == s.live;
  }

  lemma PhysicalRanges(s: State)
    requires Consistent(s)
    ensures Coalesced(s.phys) && Paged(s.phys, PHYSICAL_END)
  {
  }

  /** They come in whole frames. */
  lemma ManagedFrame(s: State, a: int)
    requires Consistent(s) && Managed(s, a)
    ensures a >= 0 && Managed(s, a - a % 0x1000)
  {
    hide Lookup, Coalesced, BlocksApart, FreeUnmapped, Anchored, BlockMapped, NoneFree;
    if IsFree(s.phys, a) {
      var r :| r in s.phys && r.x <= a < End(r);
      FrameInside(r.x, r.y, a);
      assert r.x <= a - a % 0x1000 < End(r);
    } else {
      var f :| f in s.live && s.live[f].phys <= a < s.live[f].phys + 0x1000 * s.live[f].count;
      assert BlockOk(f, s.live[f]);
      FrameInside(s.live[f].phys, 0x1000 * s.live[f].count, a);
    }
  }

  lemma FrameInside(start: nat, n: nat, a: int)
    requires start % 0x1000 == 0 && start <= a < start + n
    ensures start <= a - a % 0x1000 < start + n
  {
  }

  // Memory given to the manager.

  /** Physical memory that is neither free nor anybody's becomes free. */
  ghost predicate PhysicalGift(s: State, start: nat, n: nat, s': State) {
    && start % 0x1000 == 0 && n % 0x1000 == 0 && 0 < start && 0 < n && start + n <= PHYSICAL_END
    && Coalesced(s.phys) && NoneFree(s.phys, start, n)
    && (forall f :: f in s.live ==> Separate(start, n, s.live[f].phys, 0x1000 * s.live[f].count))
    && s' == s.(phys := Merge(s.phys, start, n))
  }

  lemma GiftManaged(s: State, start: nat, n: nat, s': State, a: nat)
    requires PhysicalGift(s, start, n, s')
    ensures Managed(s', a) <==> Managed(s, a) || start <= a < start + n
  {
    hide IsFree, Merge, InLiveBlock, NoneFree;
    MergeBytes(s.phys, start, n, a);
  }

  /** Linear memory that is neither free, nor anybody's, nor mapped becomes free. */
  ghost predicate LinearGift(s: State, start: nat, n: nat, s': State) {
    && start % 0x1000 == 0 && n % 0x1000 == 0 && 0 < start && 0 < n && start + n <= LINEAR_END && |s.tree.slots| == 512
    && Coalesced(s.lin) && NoneFree(s.lin, start, n)
    && (forall f :: f in s.live ==> Separate(start, n, 0x1000 * f, 0x1000 * s.live[f].count))
    && (forall q: nat :: start <= 0x1000 * q < start + n ==> Lookup(3, s.tree, q) == None)
    && s' == s.(lin := Merge(s.lin, start, n))
  }

  lemma PhysicalGiftKeeps(s: State, start: nat, n: nat, s': State)
    requires Consistent(s) && PhysicalGift(s, start, n, s')
    ensures Consistent(s') && Held(s') == Held(s) + n && s'.live == s.live
  {
    hide Coalesced, Merge, Lookup, Total, LiveBytes, NoneFree, Paged, BlockMapped;
    MergeCoalesced(s.phys, start, n);
    MergePaged(s.phys, start, n, PHYSICAL_END);
    TotalMerge(s.phys, start, n);
    forall f | f in s.live
      ensures NoneFree(s'.phys, s.live[f].phys, 0x1000 * s.live[f].count)
    {
      MergeNoneFree(s.phys, start, n, s.live[f].phys, 0x1000 * s.live[f].count);
    }
    assert FreeUnmapped(s');
    var a: nat :| a < 0x10_0000_0000 && Lookup(3, s.tree, a).Some? && Unmanaged(s, a);
    assert Unmanaged(s', a);
  }

  lemma LinearGiftKeeps(s: State, start: nat, n: nat, s': State)
    requires Consistent(s) && LinearGift(s, start, n, s')
    ensures Consistent(s') && Held(s') == Held(s) && s'.live == s.live
  {
    hide Coalesced, Merge, Lookup, Total, LiveBytes, NoneFree, Paged, BlockMapped, IsFree;
    MergeCoalesced(s.lin, start, n);
    MergePaged(s.lin, start, n, LINEAR_END);
    forall f | f in s.live
      ensures NoneFree(s'.lin, 0x1000 * f, 0x1000 * s.live[f].count)
    {
      MergeNoneFree(s.lin, start, n, 0x1000 * f, 0x1000 * s.live[f].count);
    }
    forall q: nat | IsFree(s'.lin, 0x1000 * q)
      ensures Lookup(3, s.tree, q) == None
    {
      MergeBytes(s.lin, start, n, 0x1000 * q);
    }
    var a: nat :| a < 0x10_0000_0000 && Lookup(3, s.tree, a).Some? && Unmanaged(s, a);
    MergeBytes(s.lin, start, n, 0x1000 * a);
    assert Unmanaged(s', a);
  }

  /** An operation of the manager, or a gift to it; `given` bytes of physical memory are new. */
  ghost predicate Change(s: State, s': State, given: nat) {
    || (Step(s, s') && given == 0)
    || (exists start :: PhysicalGift(s, start, given, s'))
    || (given == 0 && exists start, n :: LinearGift(s, start, n, s'))
  }

  lemma ChangeKeeps(s: State, s': State, given: nat)
    requires Consistent(s) && Change(s, s', given)
    ensures Consistent(s') && Held(s') == Held(s) + given
    ensures forall f :: f in s.live && f in s'.live ==> s'.live[f] == s.live[f]
  {
    hide Consistent, Held, Step, PhysicalGift, LinearGift;
    if Step(s, s') && given == 0 {
      StepKeeps(s, s');
    } else if start :| PhysicalGift(s, start, given, s') {
      PhysicalGiftKeeps(s, start, given, s');
    } else {
      var start, n :| LinearGift(s, start, n, s');
      LinearGiftKeeps(s, start, n, s');
    }
  }

  function Sum(given: seq<nat>): nat {
    if given == [] then 0 else Sum(given[..|given| - 1]) + given[|given| - 1]
  }

  ghost predicate IsRun(run: seq<State>, given: seq<nat>) {
    |run| == |given| + 1 && forall i :: 0 <= i < |given| ==> Change(run[i], run[i + 1], given[i])
  }

  /** The block at f is live all the time. */
  ghost predicate LiveThroughout(run: seq<State>, f: nat) {
    forall i :: 0 <= i < |run| ==> f in run[i].live
  }

  /** Page q may be written and executed, as far as the entries on the way to it say. */
  ghost predicate Open(t: Table, q: nat) {
    |t.slots| == 512 && Path(3, t, q).write && Path(3, t, q).execute
  }

  lemma StepOpen(s: State, s': State, q: nat)
    requires Step(s, s') && Open(s.tree, q) && q < 0x10_0000_0000
    ensures Open(s'.tree, q)
  {
    hide Path, Lookup, MapsBlock, UnmapsBlock, AfterAlloc, AfterFree, Coalesced;
    if f :| FreeStep(s, f, s') {
      assert KeepsRights(s.tree, s'.tree);
    } else {
      var rp, rl, f, b :| AllocStep(s, rp, rl, f, b, s');
      assert KeepsRights(s.tree, s'.tree);
    }
  }

  lemma ChangeOpen(s: State, s': State, given: nat, q: nat)
    requires Change(s, s', given) && Open(s.tree, q) && q < 0x10_0000_0000
    ensures Open(s'.tree, q)
  {
    hide Path, Lookup, Merge, NoneFree, Step, Open;
    if Step(s, s') {
      StepOpen(s, s', q);
    } else {
      assert s'.tree == s.tree;
    }
  }

  /** A page that may be written and executed at the start of a run always may, whatever has been mapped and unmapped:
      so may every block that comes to lie there. */
  lemma {:induction false} RunOpen(run: seq<State>, given: seq<nat>, q: nat)
    requires IsRun(run, given) && Open(run[0].tree, q) && q < 0x10_0000_0000
    ensures Open(run[|run| - 1].tree, q)
    decreases |run|
  {
    hide Change, Open;
    var n := |given|;
    if n == 0 {
    } else {
      var before, sofar := run[..n], given[..n - 1];
      forall i | 0 <= i < n - 1
        ensures Change(before[i], before[i + 1], sofar[i])
      {
        assert Change(run[i], run[i + 1], given[i]);
      }
      RunOpen(before, sofar, q);
      var i := n - 1;
      assert Change(run[i], run[i + 1], given[i]);
      ChangeOpen(run[i], run[i + 1], given[i], q);
    }
  }

  /** After any number of allocations, releases and gifts, from any consistent state, the state is consistent, free and
      live memory add up to what they did and what was given, and a block that was live all the time is where it was. */
  lemma {:induction false} RunKeeps(run: seq<State>, given: seq<nat>)
    requires IsRun(run, given) && Consistent(run[0])
    ensures var last := run[|run| - 1]; Consistent(last) && Held(last) == Held(run[0]) + Sum(given)
    ensures forall f :: LiveThroughout(run, f) ==> run[|run| - 1].live[f] == run[0].live[f]
    decreases |run|
  {
    hide Consistent, Change, Held;
    var n := |given|;
    if n == 0 {
    } else {
      var before, sofar := run[..n], given[..n - 1];
      forall i | 0 <= i < n - 1
        ensures Change(before[i], before[i + 1], sofar[i])
      {
        assert Change(run[i], run[i + 1], given[i]);
      }
      RunKeeps(before, sofar);
      var i := n - 1;
      assert Change(run[i], run[i + 1], given[i]);
      ChangeKeeps(run[i], run[i + 1], given[i]);
      forall f | LiveThroughout(run, f)
        ensures run[n].live[f] == run[0].live[f]
      {
        assert LiveThroughout(before, f);
        assert f in run[i].live && f in run[i + 1].live;
      }
    }
  }
}
