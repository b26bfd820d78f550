/** Random placement in a set of free ranges: where the draws lead, and that they lead everywhere alike. */
module Placement {
  import opened RangePairs
  import opened RangeSets
  import opened AvlModel
  import opened AslrModel
  import opened AslrDraws
  import opened AslrTree
  import opened AddressSpaceManager

  /** The tree holds the free ranges R by length, each of them once. */
  ghost predicate Holds(t: Tree, R: set<RangePair>) {
    Sorted(InOrder(t)) && multiset(InOrder(t)) == multiset(FlipAll(R))
  }

  /** The draws lead to byte s, in the free range r. */
  ghost predicate Leads(t: Tree, size: nat, draws: seq<nat>, r: RangePair, s: nat) {
    |draws| == Draws(t, size) && Located(t, size, Pick(t, size, draws), s, Flip(r))
  }

  /** The start is the byte the draws lead to, rounded up to the alignment. */
  ghost predicate Drawn(t: Tree, size: nat, align: nat, draws: seq<nat>, r: RangePair, start: nat)
    requires align > 0
  {
    start % align == 0 && exists s: nat :: Leads(t, size, draws, r, s) && s <= start < s + align
  }

  /** The sequences of draws, each draw below the number it is reduced by, that lead to byte s of r. */
  ghost function Reaching(t: Tree, size: nat, r: RangePair, s: nat): set<seq<nat>> {
    set d | d in DrawSeqs(t, size) && Leads(t, size, d, r, s)
  }

  /** size bytes from s lie in the free range r. */
  ghost predicate Fits(R: set<RangePair>, size: nat, r: RangePair, s: nat) {
    r in R && r.x <= s && s + size <= End(r)
  }

  /** Every start is as likely as every other: whatever the ranges, and however the tree has come to hold them, each
      byte of each range from which size bytes fit is reached by the same number of sequences of draws, and no other
      byte by any. */
  lemma EveryStartAlike(R: set<RangePair>, t: Tree, size: nat, r: RangePair, s: nat, r': RangePair, s': nat)
    requires Holds(t, R) && size > 0 && Fits(R, size, r, s)
    ensures Fits(R, size, r', s') ==> |Reaching(t, size, r', s')| == |Reaching(t, size, r, s)| > 0
    ensures !Fits(R, size, r', s') ==> Reaching(t, size, r', s') == {}
  {
    hide Reaching, DrawSeqs, Holds, Fits;
    ReachingCount(R, t, size, r, s);
    if Fits(R, size, r', s') {
      ReachingCount(R, t, size, r', s');
      SameFactor(|Reaching(t, size, r, s)|, |Reaching(t, size, r', s')|, Starts(t, size));
    } else {
      NoOther(R, t, size, r', s');
    }
  }

  lemma SameFactor(a: nat, b: nat, n: nat)
    requires a * n == b * n > 0
    ensures a == b > 0
  {
    assert (a - b) * n == 0;
  }

  /** One in so many sequences as there are starts. */
  lemma ReachingCount(R: set<RangePair>, t: Tree, size: nat, r: RangePair, s: nat)
    requires Holds(t, R) && size > 0 && Fits(R, size, r, s)
    ensures |Reaching(t, size, r, s)| * Starts(t, size) == |DrawSeqs(t, size)| > 0
  {
    hide DrawSeqs, InOrder, Sorted, Starts, Leading, Reaching, Among, Probability;
    var w := PlaceOf(R, t, size, r, s);
    RankFinds(t, w, size);
    AmongIsStarts(t, size);
    UniformDraws(t, size, w);
    ReachingPlace(R, t, size, r, s, w);
  }

  lemma PlaceOf(R: set<RangePair>, t: Tree, size: nat, r: RangePair, s: nat) returns (w: Place)
    requires Holds(t, R) && size > 0 && Fits(R, size, r, s)
    ensures Feasible(t, size, w) && InOrder(t)[w.k] == Flip(r) && s == r.x + w.off
  {
    hide InOrder, Sorted;
    SameMembers(InOrder(t), FlipAll(R));
    assert Flip(r) in InOrder(t);
    var k :| 0 <= k < |InOrder(t)| && InOrder(t)[k] == Flip(r);
    w := Place(k, s - r.x);
  }

  lemma ReachingPlace(R: set<RangePair>, t: Tree, size: nat, r: RangePair, s: nat, w: Place)
    requires Holds(t, R) && Feasible(t, size, w) && InOrder(t)[w.k] == Flip(r) && s == r.x + w.off
    ensures Reaching(t, size, r, s) == Leading(t, size, w)
  {
    hide InOrder, Sorted, DrawSeqs, Pick, Draws;
    forall d | d in DrawSeqs(t, size)
      ensures Leads(t, size, d, r, s) <==> LeadsTo(t, size, d, w)
    {
      DrawLengths(t, size, d);
      var v := Pick(t, size, d);
      if Located(t, size, v, s, Flip(r)) {
        OnlyOnce(InOrder(t), FlipAll(R), v.k, w.k);
      }
    }
  }

  lemma NoOther(R: set<RangePair>, t: Tree, size: nat, r: RangePair, s: nat)
    requires Holds(t, R) && size > 0 && !Fits(R, size, r, s)
    ensures Reaching(t, size, r, s) == {}
  {
    hide Leads, Fits, Holds, DrawSeqs;
    if d :| d in Reaching(t, size, r, s) {
      LeadsInside(R, t, size, d, r, s);
    }
  }

  lemma LeadsInside(R: set<RangePair>, t: Tree, size: nat, draws: seq<nat>, r: RangePair, s: nat)
    requires Holds(t, R) && size > 0 && Leads(t, size, draws, r, s)
    ensures Fits(R, size, r, s)
  {
    hide InOrder, Sorted, Pick, Draws;
    SameMembers(InOrder(t), FlipAll(R));
    var w := Pick(t, size, draws);
    assert InOrder(t)[w.k] in InOrder(t);
    assert Flip(Flip(r)) == r;
  }

  /** A set has each of its elements once. */
  lemma OnlyOnce(items: seq<RangePair>, S: set<RangePair>, i: nat, j: nat)
    requires multiset(items) == multiset(S) && i < |items| && j < |items| && items[i] == items[j]
    ensures i == j
  {
    assert multiset(S)[items[i]] <= 1;
    if i < j {
      Twice(items, i, j);
    } else if j < i {
      Twice(items, j, i);
    }
  }

  lemma Twice(items: seq<RangePair>, i: nat, j: nat)
    requires i < j < |items| && items[i] == items[j]
    ensures multiset(items)[items[i]] >= 2
  {
    var x := items[i];
    assert items == items[..j] + items[j..];
    assert items[..j][i] == x && items[j..][0] == x;
    assert x in items[..j] && x in items[j..];
    assert multiset(items[..j])[x] >= 1 && multiset(items[j..])[x] >= 1;
  }
}
