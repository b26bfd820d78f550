/** A tree of ranges with its entry point. */
module RangeTrees {
  import opened RangePairs
  import opened AvlModel
  import AvlTree
  import AslrTree
  import AslrModel

  class RangeTree {
    var root: AvlTree.AvlEntry?

    /** The elements in order, and the objects the tree is made of. */
    ghost var items: seq<RangePair>
    ghost var repr: set<object>

    constructor ()
      ensures Valid() && items == [] && repr == {this}
    {
      root := null;
      items := [];
      repr := {this};
    }

    ghost function Model(): Tree
      reads this, repr
    {
      if root == null || root !in repr then Nil else root.model
    }

    ghost predicate Valid()
      reads this, repr
      ensures Valid() ==> this in repr
    {
      && this in repr && (root == null ==> repr == {this})
      && (root != null ==> root in repr && repr == {this} + root.nodes)
      && AvlTree.Sub(root, Model()) && Balanced(Model()) && Sorted(items) && items == InOrder(Model())
    }

    /** Adds p, with one new entry. */
    method Add(p: RangePair) returns (ghost leaf: AvlTree.AvlEntry)
      requires Valid()
      modifies repr
      ensures Valid() && fresh(leaf) && repr == old(repr) + {leaf}
      ensures multiset(items) == old(multiset(items)) + multiset{p}
    {
      hide Balanced, Sorted, InOrder, AvlModel.Add, AvlTree.Sub;
      ghost var t := Model();
      ghost var i := AddOrder(t, p);
      AddBalanced(t, p);
      InsertSorted(InOrder(t), i, p);
      if root == null {
        root := new AvlTree.AvlEntry(p);
        leaf := root;
        SingleItem(p);
      } else {
        AvlTree.SubEntry(root, t);
        leaf := root.Add(p);
      }
      AvlTree.SubIntro(root);
      Update();
    }

    /** Brings the ghost fields up to date with the root entry. */
    ghost method Update()
      requires this in repr && AvlTree.Sub(root, if root == null then Nil else root.model)
      requires root != null ==> Balanced(root.model) && Sorted(InOrder(root.model))
      modifies `repr, `items
      ensures Valid() && repr == {this} + AvlTree.Nodes(root)
      ensures items == if root == null then [] else InOrder(root.model)
    {
      hide Balanced, Sorted;
      repr, items := {this} + AvlTree.Nodes(root), if root == null then [] else InOrder(root.model);
      SortedNothing();
    }

    /** Deletes one occurrence of p and says whether there was one. */
    method Del(p: RangePair) returns (found: bool)
      requires Valid()
      modifies repr
      ensures Valid() && repr <= old(repr)
      ensures found <==> p in old(multiset(items))
      ensures multiset(items) == old(multiset(items)) - multiset{p}
    {
      hide Balanced, Sorted, InOrder, AvlModel.Del, AvlTree.Sub;
      ghost var t := Model();
      ghost var i := DelOrder(t, p);
      DelBalanced(t, p);
      FoundIffPresent(t, p);
      if p in InOrder(t) {
        RemoveSorted(InOrder(t), i);
      }
      DelOfNil(p);
      if root == null {
        return false;
      }
      AvlTree.SubEntry(root, t);
      var gone;
      found, gone := root.Del(p);
      if gone {
        root := null;
      }
      AvlTree.SubOf(root, AvlModel.Del(t, p));
      Update();
    }

    /** The greatest element not above p (upper), or the smallest not below it. */
    method FindBound(p: RangePair, upper: bool) returns (found: bool, r: RangePair)
      requires Valid()
      ensures found ==> Nearest(items, p, upper, r)
      ensures !found ==> forall z :: z in items ==> !Within(z, p, upper)
    {
      hide Balanced, Sorted, InOrder, AvlTree.Sub, Nearest, Within;
      FindBoundFinds(Model(), p, upper);
      if root == null {
        AvlTree.SubNotNull(root, Model());
        return false, p;
      }
      AvlTree.SubEntry(root, Model());
      found, r := root.FindBound(p, upper);
    }

    /** A start for size bytes in one of the ranges (length, start), chosen at random: the place that the words drawn
        lead to. */
    method FindRandomRange(size: nat, source: AslrTree.RandomSource)
      returns (found: bool, start: nat, super: RangePair, ghost draws: seq<nat>)
      requires Valid() && size > 0 && source !in repr
      modifies source
      ensures Valid() && items == old(items) && Model() == old(Model()) && InOrder(Model()) == items && Sorted(items)
      ensures source.drawn == old(source.drawn) + draws && |draws| == AslrModel.Draws(Model(), size)
      ensures found ==> AslrTree.Located(Model(), size, AslrModel.Pick(Model(), size, draws), start, super)
      ensures found <==> exists p :: p in items && p.x >= size
      ensures found ==> super in items && super.y <= start && start + size <= super.y + super.x
    {
      hide Balanced, Sorted, InOrder, AvlTree.Sub, AslrModel.Among, AslrModel.Pick, AslrModel.Draws;
      ghost var t := Model();
      AslrModel.AmongIsStarts(t, size);
      SomethingFits(t, size);
      ghost var before := source.drawn;
      if root == null {
        NoDraws(size);
        return false, 0, RangePair(0, 0), [];
      }
      AvlTree.SubEntry(root, t);
      var among;
      found, start, among, super := AslrTree.FindRandomRange(root, size, source);
      draws := source.drawn[|before|..];
      AvlTree.SubIntro(root);
    }
  }

  lemma NoDraws(size: nat)
    ensures AslrModel.Draws(Nil, size) == 0
  {
  }

  lemma SortedNothing()
    ensures InOrder(Nil) == [] && Sorted([]) && Balanced(Nil)
  {
  }

  lemma SingleItem(p: RangePair)
    ensures Add(Nil, p) == Node(Nil, p, Nil)
  {
  }

  lemma DelOfNil(p: RangePair)
    ensures Del(Nil, p) == Nil && !Found(Nil, p)
  {
  }

  lemma {:induction false} SomethingFits(t: Tree, size: nat)
    ensures AslrModel.Starts(t, size) > 0 <==> exists p :: p in InOrder(t) && p.x >= size
  {
    if t.Nil? {
    } else {
      SomethingFits(t.left, size);
      SomethingFits(t.right, size);
      assert t.item in InOrder(t);
      assert forall p :: p in InOrder(t) <==> p in InOrder(t.left) || p == t.item || p in InOrder(t.right);
    }
  }
}

/** The free ranges of an address space, in two trees: by start as (start, length), by length as (length, start). */
module AddressSpaceManager {
  import opened RangePairs
  import opened RangeSets
  import opened RangeTrees
  import AvlTree
  import AvlModel

  function Flip(r: RangePair): RangePair {
    RangePair(r.y, r.x)
  }

  function FlipAll(R: set<RangePair>): set<RangePair> {
    set r | r in R :: Flip(r)
  }

  lemma FlipStep(R: set<RangePair>, p: RangePair)
    ensures p in R ==> Flip(p) in FlipAll(R) && FlipAll(R - {p}) == FlipAll(R) - {Flip(p)}
    ensures p !in R ==> Flip(p) !in FlipAll(R) && FlipAll(R + {p}) == FlipAll(R) + {Flip(p)}
    ensures p in R ==> multiset(R - {p}) == multiset(R) - multiset{p}
    ensures p in R ==> multiset(FlipAll(R - {p})) == multiset(FlipAll(R)) - multiset{Flip(p)}
    ensures p !in R ==> multiset(R + {p}) == multiset(R) + multiset{p}
    ensures p !in R ==> multiset(FlipAll(R + {p})) == multiset(FlipAll(R)) + multiset{Flip(p)}
  {
    forall r | Flip(r) == Flip(p)
      ensures r == p
    {
    }
  }

  /** The two trees hold the set R of ranges, each range once. */
  ghost predicate Trees(treeStart: RangeTree, treeLength: RangeTree, R: set<RangePair>)
    reads treeStart, treeStart.repr, treeLength, treeLength.repr
  {
    && treeStart.Valid() && treeStart in treeStart.repr && treeLength.Valid() && treeLength in treeLength.repr
    && treeStart.repr !! treeLength.repr
    && multiset(treeStart.items) == multiset(R) && multiset(treeLength.items) == multiset(FlipAll(R))
  }

  lemma NoTrees(treeStart: RangeTree, treeLength: RangeTree)
    requires treeStart.Valid() && treeStart.items == [] && treeStart.repr == {treeStart}
    requires treeLength.Valid() && treeLength.items == [] && treeLength.repr == {treeLength} && treeStart != treeLength
    ensures Trees(treeStart, treeLength, {})
  {
    hide RangeTree.Valid;
    assert FlipAll({}) == {};
  }

  /** The entries a tree of ranges takes at most: to cut a range out of one, and to merge one with its neighbours. */
  const CUT_NODES: nat := 2
  const MERGE_NODES: nat := 1

  ghost predicate AtMost(s: set<object>, n: nat) {
    |s| <= n
  }

  lemma AtMostTwo(s: set<object>, a: object, b: object)
    requires s <= {a, b}
    ensures AtMost(s, 2) && (a == b ==> AtMost(s, 1))
  {
    if s <= {a} {
      assert s == {} || s == {a};
    } else if s <= {b} {
      assert s == {} || s == {b};
    } else {
      assert s == {a, b};
    }
  }

  method AddRange(treeStart: RangeTree, treeLength: RangeTree, r: RangePair, ghost R: set<RangePair>)
    returns (ghost a: AvlTree.AvlEntry, ghost b: AvlTree.AvlEntry)
    requires Trees(treeStart, treeLength, R) && r !in R
    modifies treeStart.repr, treeLength.repr
    ensures Trees(treeStart, treeLength, R + {r})
    ensures fresh(a) && treeStart.repr == old(treeStart.repr) + {a}
    ensures fresh(b) && treeLength.repr == old(treeLength.repr) + {b}
  {
    hide RangeTree.Valid;
    FlipStep(R, r);
    b := treeLength.Add(Flip(r));
    a := treeStart.Add(r);
  }

  method DelRange(treeStart: RangeTree, treeLength: RangeTree, r: RangePair, ghost R: set<RangePair>)
    requires Trees(treeStart, treeLength, R) && r in R
    modifies treeStart.repr, treeLength.repr
    ensures Trees(treeStart, treeLength, R - {r})
    ensures treeStart.repr <= old(treeStart.repr) && treeLength.repr <= old(treeLength.repr)
  {
    hide RangeTree.Valid;
    FlipStep(R, r);
    var _ := treeLength.Del(Flip(r));
    var _ := treeStart.Del(r);
  }

  /** What is left of the range on either side. The comparisons are of the second components and of the ends, as pairs
      (length, start) call for. */
  function LeftPiece(sub: RangePair, super: RangePair): set<RangePair> {
    if super.y < sub.y then {RangePair(super.y, sub.y - super.y)} else {}
  }

  function RightPiece(sub: RangePair, super: RangePair): set<RangePair> {
    if End(sub) < End(super) then {RangePair(End(sub), End(super) - End(sub))} else {}
  }

  /** What `AllocSubrangeFromSuperRange` leaves. */
  function CarvePair(R: set<RangePair>, sub: RangePair, super: RangePair): set<RangePair> {
    (R - {Flip(super)}) + LeftPiece(sub, super) + RightPiece(sub, super)
  }

  method AllocSubrangeFromSuperRange(treeStart: RangeTree, treeLength: RangeTree, sub: RangePair, super: RangePair,
                                     ghost R: set<RangePair>)
    requires Trees(treeStart, treeLength, R) && Coalesced(R) && Flip(super) in R
    requires super.y < End(sub) <= End(super)
    modifies treeStart.repr, treeLength.repr
    ensures Trees(treeStart, treeLength, CarvePair(R, sub, super))
    ensures fresh(treeStart.repr - old(treeStart.repr)) && fresh(treeLength.repr - old(treeLength.repr))
    ensures AtMost(treeStart.repr - old(treeStart.repr), CUT_NODES)
    ensures AtMost(treeLength.repr - old(treeLength.repr), CUT_NODES)
  {
    hide RangeTree.Valid, Trees, LeftPiece, RightPiece;
    DelRange(treeStart, treeLength, RangePair(super.y, super.x), R);
    PiecesAreNew(R, sub, super);
    ghost var rest := R - {Flip(super)};
    ghost var a, b := AddLeft(treeStart, treeLength, sub, super, rest);
    ghost var starts, lengths := treeStart.repr, treeLength.repr;
    assert starts <= old(treeStart.repr) + {a} && lengths <= old(treeLength.repr) + {b};
    ghost var a', b' := AddRight(treeStart, treeLength, sub, super, rest + LeftPiece(sub, super));
    assert treeStart.repr <= starts + {a'} && treeLength.repr <= lengths + {b'};
    AtMostTwo(treeStart.repr - old(treeStart.repr), a, a');
    AtMostTwo(treeLength.repr - old(treeLength.repr), b, b');
  }

  method AddLeft(treeStart: RangeTree, treeLength: RangeTree, sub: RangePair, super: RangePair,
                 ghost R: set<RangePair>)
    returns (ghost a: object, ghost b: object)
    requires Trees(treeStart, treeLength, R) && LeftPiece(sub, super) !! R
    modifies treeStart.repr, treeLength.repr
    ensures Trees(treeStart, treeLength, R + LeftPiece(sub, super))
    ensures fresh(treeStart.repr - old(treeStart.repr)) && treeStart.repr - old(treeStart.repr) <= {a}
    ensures fresh(treeLength.repr - old(treeLength.repr)) && treeLength.repr - old(treeLength.repr) <= {b}
  {
    hide RangeTree.Valid, Trees;
    a, b := treeStart, treeLength;
    if super.y < sub.y {
      a, b := AddRange(treeStart, treeLength, RangePair(super.y, sub.y - super.y), R);
    }
    assert super.y >= sub.y ==> R + LeftPiece(sub, super) == R;
  }

  method AddRight(treeStart: RangeTree, treeLength: RangeTree, sub: RangePair, super: RangePair,
                  ghost R: set<RangePair>)
    returns (ghost a: object, ghost b: object)
    requires Trees(treeStart, treeLength, R) && RightPiece(sub, super) !! R
    modifies treeStart.repr, treeLength.repr
    ensures Trees(treeStart, treeLength, R + RightPiece(sub, super))
    ensures fresh(treeStart.repr - old(treeStart.repr)) && treeStart.repr - old(treeStart.repr) <= {a}
    ensures fresh(treeLength.repr - old(treeLength.repr)) && treeLength.repr - old(treeLength.repr) <= {b}
  {
    hide RangeTree.Valid, Trees;
    var superEnd := super.y + super.x;
    var subEnd := sub.y + sub.x;
    a, b := treeStart, treeLength;
    if superEnd > subEnd {
      a, b := AddRange(treeStart, treeLength, RangePair(subEnd, superEnd - subEnd), R);
    }
    assert superEnd <= subEnd ==> R + RightPiece(sub, super) == R;
  }

  lemma PiecesAreNew(R: set<RangePair>, sub: RangePair, super: RangePair)
    requires Coalesced(R) && Flip(super) in R && super.y < End(sub) <= End(super)
    ensures LeftPiece(sub, super) !! (R - {Flip(super)})
    ensures RightPiece(sub, super) !! (R - {Flip(super)} + LeftPiece(sub, super))
  {
    assert forall r :: r in R && r.x > super.y ==> End(Flip(super)) < r.x;
    assert forall r :: r in R && r.x == super.y ==> r == Flip(super);
  }

  /** Given (length, start) pairs, that takes out exactly the sub-range. */
  lemma CarvePairIsCarve(R: set<RangePair>, sub: RangePair, super: RangePair)
    requires sub.x > 0 && super.y <= sub.y && End(sub) <= End(super)
    ensures CarvePair(R, sub, super) == Carve(R, Flip(super), sub.y, sub.x)
  {
  }

  /** Takes the free range of length range.x at range.y out of the free ranges. */
  method Alloc(treeStart: RangeTree, treeLength: RangeTree, range: RangePair, ghost R: set<RangePair>)
    returns (ghost super: RangePair)
    requires Trees(treeStart, treeLength, R) && Coalesced(R) && range.x > 0 && AllFree(R, range.y, range.x)
    modifies treeStart.repr, treeLength.repr
    ensures super in R && Contains(super, range.y, range.x)
    ensures Trees(treeStart, treeLength, Carve(R, super, range.y, range.x))
    ensures fresh(treeStart.repr - old(treeStart.repr)) && fresh(treeLength.repr - old(treeLength.repr))
    ensures AtMost(treeStart.repr - old(treeStart.repr), CUT_NODES)
    ensures AtMost(treeLength.repr - old(treeLength.repr), CUT_NODES)
  {
    hide RangeTree.Valid, Coalesced, AllFree, Carve, CarvePair;
    ghost var whole := OneRange(R, range.y, range.x);
    var found, bound := treeStart.FindBound(RangePair(range.y, 0xFFFF_FFFF_FFFF_FFFF), true);
    BoundIsRange(R, treeStart.items, whole, range, found, bound);
    assert found;
    assert bound.x + bound.y >= range.y + range.x;
    super := whole;
    AllocSubrangeFromSuperRange(treeStart, treeLength, range, RangePair(bound.y, bound.x), R);
    CarvePairIsCarve(R, range, RangePair(bound.y, bound.x));
  }

  lemma BoundIsRange(R: set<RangePair>, items: seq<RangePair>, whole: RangePair, range: RangePair, found: bool,
      bound: RangePair)
    requires Coalesced(R) && multiset(items) == multiset(R) && range.x > 0
    requires whole in R && Contains(whole, range.y, range.x)
    requires found ==> AvlModel.Nearest(items, RangePair(range.y, 0xFFFF_FFFF_FFFF_FFFF), true, bound)
    requires !found ==> forall z :: z in items ==> !AvlModel.Within(z, RangePair(range.y, 0xFFFF_FFFF_FFFF_FFFF), true)
    ensures found && bound == whole
  {
    SameMembers(items, R);
    assert whole.y < LIMIT;
    assert AvlModel.Within(whole, RangePair(range.y, 0xFFFF_FFFF_FFFF_FFFF), true);
    assert found && bound in R && AvlModel.Within(whole, bound, true);
  }

  lemma SameMembers(items: seq<RangePair>, R: set<RangePair>)
    requires multiset(items) == multiset(R)
    ensures forall r :: r in items <==> r in R
  {
    forall r
      ensures r in items <==> r in R
    {
      assert r in items <==> r in multiset(items);
    }
  }

  /** Gives start..start+size back, merging it with the free ranges it touches. */
  method Free(treeStart: RangeTree, treeLength: RangeTree, start: nat, size: nat, ghost R: set<RangePair>)
    returns (merged: RangePair)
    requires Trees(treeStart, treeLength, R) && Coalesced(R) && size > 0 && start + size < LIMIT
    requires NoneFree(R, start, size)
    modifies treeStart.repr, treeLength.repr
    ensures Trees(treeStart, treeLength, Merge(R, start, size)) && merged in Merge(R, start, size)
    ensures Contains(merged, start, size)
    ensures fresh(treeStart.repr - old(treeStart.repr)) && fresh(treeLength.repr - old(treeLength.repr))
    ensures AtMost(treeStart.repr - old(treeStart.repr), MERGE_NODES)
    ensures AtMost(treeLength.repr - old(treeLength.repr), MERGE_NODES)
  {
    hide RangeTree.Valid, Trees, Coalesced, NoneFree, Merge, EndsAt, StartsAt, AtMost;
    ghost var entries, entries' := treeStart.repr, treeLength.repr;
    var mergedStart, mergedEnd := start, start + size;
    var left, p := TakeLeft(treeStart, treeLength, start, size, R);
    if left {
      mergedStart := p.x;
    }
    ghost var middle := if left then R - {p} else R;
    LeftTaken(R, start, left, p, middle);
    var right, p' := TakeRight(treeStart, treeLength, start, size, R, middle);
    if right {
      mergedEnd := p'.x + p'.y;
    }
    MergedParts(R, start, size, start + size, left, p, right, p');
    var mergedSize := mergedEnd - mergedStart;
    merged := RangePair(mergedStart, mergedSize);
    ghost var rest := if right then middle - {p'} else middle;
    assert rest == R - (if left then {p} else {}) - (if right then {p'} else {});
    assert treeStart.repr <= entries && treeLength.repr <= entries';
    ghost var a, b := AddRange(treeStart, treeLength, merged, rest);
    assert treeStart.repr - entries <= {a} && treeLength.repr - entries' <= {b};
    AtMostTwo(treeStart.repr - entries, a, a);
    AtMostTwo(treeLength.repr - entries', b, b);
  }

  /** If there is an available range that ends where the given one begins, takes it out. */
  method TakeLeft(treeStart: RangeTree, treeLength: RangeTree, start: nat, size: nat, ghost R: set<RangePair>)
    returns (taken: bool, p: RangePair)
    requires Trees(treeStart, treeLength, R) && Coalesced(R) && size > 0 && NoneFree(R, start, size)
    modifies treeStart.repr, treeLength.repr
    ensures Trees(treeStart, treeLength, if taken then R - {p} else R)
    ensures forall r :: EndsAt(R, r, start) <==> taken && r == p
    ensures treeStart.repr <= old(treeStart.repr) && treeLength.repr <= old(treeLength.repr)
  {
    hide RangeTree.Valid, Coalesced, NoneFree, EndsAt;
    var found;
    found, p := treeStart.FindBound(RangePair(start, 0), true);
    LeftNeighbour(R, treeStart.items, start, size, found, p);
    taken := false;
    if found {
      assert p.x + p.y <= start;
      if p.x + p.y == start {
        taken := true;
        DelRange(treeStart, treeLength, p, R);
      }
    }
  }

  /** If there is an available range that begins where the given one ends, takes it out. */
  method TakeRight(treeStart: RangeTree, treeLength: RangeTree, start: nat, size: nat, ghost R: set<RangePair>,
                   ghost rest: set<RangePair>) returns (taken: bool, p: RangePair)
    requires Trees(treeStart, treeLength, rest) && Coalesced(R) && size > 0 && NoneFree(R, start, size)
    requires rest <= R && forall r :: r in R && End(r) != start ==> r in rest
    modifies treeStart.repr, treeLength.repr
    ensures Trees(treeStart, treeLength, if taken then rest - {p} else rest)
    ensures var end := start + size; forall r :: StartsAt(R, r, end) <==> taken && r == p
    ensures treeStart.repr <= old(treeStart.repr) && treeLength.repr <= old(treeLength.repr)
  {
    hide RangeTree.Valid, Coalesced, NoneFree, StartsAt;
    var found;
    found, p := treeStart.FindBound(RangePair(start, 0), false);
    RightNeighbour(R, rest, treeStart.items, start, size, start + size, found, p);
    taken := false;
    if found {
      assert p.x >= start + size;
      if p.x == start + size {
        taken := true;
        DelRange(treeStart, treeLength, p, rest);
      }
    }
  }

  lemma LeftTaken(R: set<RangePair>, start: nat, left: bool, p: RangePair, rest: set<RangePair>)
    requires forall r :: EndsAt(R, r, start) <==> left && r == p
    requires rest == if left then R - {p} else R
    ensures forall r :: r in R && End(r) != start ==> r in rest
    ensures left ==> p in R
  {
    assert left ==> EndsAt(R, p, start);
  }

  /** What the search to the left finds: the one range that can end at start, if any does. */
  lemma LeftNeighbour(R: set<RangePair>, items: seq<RangePair>, start: nat, size: nat, found: bool, p: RangePair)
    requires Coalesced(R) && NoneFree(R, start, size) && size > 0 && multiset(items) == multiset(R)
    requires found ==> AvlModel.Nearest(items, RangePair(start, 0), true, p)
    requires !found ==> forall z :: z in items ==> !AvlModel.Within(z, RangePair(start, 0), true)
    ensures found ==> p in R && End(p) <= start && p.x < start
    ensures forall r :: EndsAt(R, r, start) <==> found && End(p) == start && r == p
  {
    SameMembers(items, R);
    forall r | r in R
      ensures End(r) <= start || start + size <= r.x
      ensures End(r) == start ==> AvlModel.Within(r, RangePair(start, 0), true)
    {
      Outside(R, start, size, r);
    }
    if found {
      forall r | r in R && End(r) == start
        ensures r == p
      {
        assert AvlModel.Within(r, p, true);
      }
    }
  }

  /** What the search to the right finds, with or without the left neighbour. */
  lemma RightNeighbour(R: set<RangePair>, rest: set<RangePair>, items: seq<RangePair>, start: nat, size: nat,
                       end: nat, found: bool, p: RangePair)
    requires Coalesced(R) && NoneFree(R, start, size) && size > 0 && multiset(items) == multiset(rest)
    requires end == start + size
    requires rest <= R && forall r :: r in R && End(r) != start ==> r in rest
    requires found ==> AvlModel.Nearest(items, RangePair(start, 0), false, p)
    requires !found ==> forall z :: z in items ==> !AvlModel.Within(z, RangePair(start, 0), false)
    ensures found ==> p in rest && p.x >= start + size
    ensures forall r :: StartsAt(R, r, end) <==> found && p.x == end && r == p
  {
    SameMembers(items, rest);
    forall r | r in R
      ensures End(r) <= start || start + size <= r.x
      ensures r.x == start + size ==> r in rest && AvlModel.Within(r, RangePair(start, 0), false)
    {
      Outside(R, start, size, r);
    }
    if found {
      forall r | r in R && r.x == start + size
        ensures r == p
      {
        assert AvlModel.Within(r, p, false);
      }
    }
  }

  lemma MergedParts(R: set<RangePair>, start: nat, size: nat, end: nat, left: bool, p: RangePair, right: bool,
      p': RangePair)
    requires Coalesced(R) && NoneFree(R, start, size) && size > 0
    requires forall r :: EndsAt(R, r, start) <==> left && r == p
    requires end == start + size && forall r :: StartsAt(R, r, end) <==> right && r == p'
    ensures var rest := R - (if left then {p} else {}) - (if right then {p'} else {});
      var s, e := if left then p.x else start, if right then End(p') else start + size;
      && s <= start && start + size <= e
      && rest + {RangePair(s, e - s)} == Merge(R, start, size) && RangePair(s, e - s) !in rest
  {
    hide MergedStart, MergedEnd, NoneFree, Coalesced, EndsAt, StartsAt;
    MergedFrom(R, start, left, p);
    MergedTo(R, end, right, p');
    NotMerged(R, start, end, left, p, right, p');
    MergedIsNew(R, start, size);
  }

  lemma MergedFrom(R: set<RangePair>, start: nat, left: bool, p: RangePair)
    requires Coalesced(R) && forall r :: EndsAt(R, r, start) <==> left && r == p
    ensures MergedStart(R, start) == if left then p.x else start
    ensures MergedStart(R, start) <= start
  {
    hide Coalesced, MergedEnd;
    MergedBounds(R, start);
    assert left ==> EndsAt(R, p, start);
    assert forall r :: r in R && End(r) == start ==> EndsAt(R, r, start);
  }

  lemma MergedTo(R: set<RangePair>, end: nat, right: bool, p: RangePair)
    requires Coalesced(R) && forall r :: StartsAt(R, r, end) <==> right && r == p
    ensures MergedEnd(R, end) == if right then End(p) else end
    ensures end <= MergedEnd(R, end)
  {
    hide Coalesced, MergedStart;
    MergedBounds(R, end);
    assert right ==> StartsAt(R, p, end);
    assert forall r :: r in R && r.x == end ==> StartsAt(R, r, end);
  }

  /** The ranges that touch the given bytes on neither side. */
  lemma NotMerged(R: set<RangePair>, start: nat, end: nat, left: bool, p: RangePair, right: bool, p': RangePair)
    requires forall r :: EndsAt(R, r, start) <==> left && r == p
    requires forall r :: StartsAt(R, r, end) <==> right && r == p'
    ensures R - (if left then {p} else {}) - (if right then {p'} else {})
         == set r | r in R && End(r) != start && r.x != end
  {
    var rest := R - (if left then {p} else {}) - (if right then {p'} else {});
    forall r | r in R
      ensures r in rest <==> End(r) != start && r.x != end
    {
      assert EndsAt(R, r, start) <==> End(r) == start;
      assert StartsAt(R, r, end) <==> r.x == end;
    }
  }

  lemma MergedIsNew(R: set<RangePair>, start: nat, size: nat)
    requires Coalesced(R) && NoneFree(R, start, size) && size > 0
    requires MergedStart(R, start) <= start && start + size <= MergedEnd(R, start + size)
    ensures RangePair(MergedStart(R, start), MergedEnd(R, start + size) - MergedStart(R, start))
        !in set r | r in R && End(r) != start && r.x != start + size
  {
    hide MergedStart, MergedEnd, NoneFree, Coalesced;
    forall r | r in R && End(r) != start && r.x != start + size
      ensures r.x != MergedStart(R, start) || End(r) != MergedEnd(R, start + size)
    {
      Outside(R, start, size, r);
    }
  }
}
