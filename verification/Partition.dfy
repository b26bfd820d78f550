/** Which parts of a range may be handed to the memory manager when some intervals are forbidden. */
module Partition {

  /** The addresses from s up to e. */
  datatype MMIRange = MMIRange(s: nat, e: nat)

  predicate In(r: MMIRange, b: int) {
    r.s <= b < r.e
  }

  /** The pieces of the range in the order they are handed on, the first i forbidden intervals aside. The source forgets
      to return after handing on a piece when no interval is left; this is the recursion with that return. */
  function PartitionRange(range: MMIRange, forbids: seq<MMIRange>, i: nat): seq<MMIRange>
    requires i <= |forbids|
    decreases |forbids| - i
  {
    if i == |forbids| then [range]
    else
      (if range.s < forbids[i].s then
         PartitionRange(MMIRange(range.s, if range.e < forbids[i].s then range.e else forbids[i].s), forbids, i + 1)
       else []) +
      (if range.e > forbids[i].e then
         PartitionRange(MMIRange(if range.s > forbids[i].e then range.s else forbids[i].e, range.e), forbids, i + 1)
       else [])
  }

  predicate Forbidden(forbids: seq<MMIRange>, i: nat, b: int) {
    exists j :: i <= j < |forbids| && In(forbids[j], b)
  }

  /** Pieces follow each other, none is empty, and all lie inside the range. */
  ghost predicate Ordered(range: MMIRange, pieces: seq<MMIRange>) {
    && (forall k :: 0 <= k < |pieces| ==> range.s <= pieces[k].s < pieces[k].e <= range.e)
    && (forall k, l :: 0 <= k < l < |pieces| ==> pieces[k].e <= pieces[l].s)
  }

  ghost predicate Covers(pieces: seq<MMIRange>, b: int) {
    exists k :: 0 <= k < |pieces| && In(pieces[k], b)
  }

  lemma CoversBoth(first: seq<MMIRange>, second: seq<MMIRange>, b: int)
    ensures Covers(first + second, b) <==> Covers(first, b) || Covers(second, b)
  {
    if k :| 0 <= k < |first| && In(first[k], b) {
      assert (first + second)[k] == first[k];
    }
    if k :| 0 <= k < |second| && In(second[k], b) {
      assert (first + second)[|first| + k] == second[k];
    }
    if k :| 0 <= k < |first + second| && In((first + second)[k], b) {
      assert In(if k < |first| then first[k] else second[k - |first|], b);
    }
  }

  /** The pieces are not empty, follow each other without overlap, and hold exactly the bytes of the range that no
      interval forbids. The intervals may overlap each other, be empty, or miss the range. */
  lemma {:induction false} PartitionExact(range: MMIRange, forbids: seq<MMIRange>, i: nat)
    requires i <= |forbids| && range.s < range.e
    requires forall j :: i <= j < |forbids| ==> forbids[j].s <= forbids[j].e
    ensures Ordered(range, PartitionRange(range, forbids, i))
    ensures forall b :: Covers(PartitionRange(range, forbids, i), b) <==> In(range, b) && !Forbidden(forbids, i, b)
    decreases |forbids| - i
  {
    hide Covers, Forbidden, Ordered;
    if i == |forbids| {
      OrderedOne(range);
      forall b
        ensures Covers([range], b) <==> In(range, b) && !Forbidden(forbids, i, b)
      {
        OnePiece(range, b);
        NoneForbidden(forbids, b);
      }
    } else {
      var f := forbids[i];
      var low := MMIRange(range.s, if range.e < f.s then range.e else f.s);
      var high := MMIRange(if range.s > f.e then range.s else f.e, range.e);
      var first := if range.s < f.s then PartitionRange(low, forbids, i + 1) else [];
      var second := if range.e > f.e then PartitionRange(high, forbids, i + 1) else [];
      if range.s < f.s {
        PartitionExact(low, forbids, i + 1);
      }
      if range.e > f.e {
        PartitionExact(high, forbids, i + 1);
      }
      OrderedBoth(range, low, high, first, second);
      forall b
        ensures Covers(first + second, b) <==> In(range, b) && !Forbidden(forbids, i, b)
      {
        CoversBoth(first, second, b);
        NoPiece(b);
        ForbiddenStep(forbids, i, b);
      }
    }
  }

  lemma OrderedBoth(range: MMIRange, low: MMIRange, high: MMIRange, first: seq<MMIRange>, second: seq<MMIRange>)
    requires first == [] || (Ordered(low, first) && range.s <= low.s && low.e <= range.e)
    requires second == [] || (Ordered(high, second) && range.s <= high.s && high.e <= range.e)
    requires low.e <= high.s
    ensures Ordered(range, first + second)
  {
    var all := first + second;
    forall k | 0 <= k < |all|
      ensures range.s <= all[k].s < all[k].e <= range.e
      ensures k < |first| ==> all[k] == first[k] && all[k].e <= low.e
      ensures k >= |first| ==> all[k] == second[k - |first|] && all[k].s >= high.s
    {
    }
    forall k, l | 0 <= k < l < |all|
      ensures all[k].e <= all[l].s
    {
      if l < |first| {
        assert first[k].e <= first[l].s;
      } else if |first| <= k {
        var k', l' := k - |first|, l - |first|;
        assert second[k'].e <= second[l'].s;
      }
    }
  }

  lemma OrderedOne(range: MMIRange)
    requires range.s < range.e
    ensures Ordered(range, [range])
  {
  }

  lemma OnePiece(range: MMIRange, b: int)
    ensures Covers([range], b) <==> In(range, b)
  {
    assert [range][0] == range;
  }

  lemma NoneForbidden(forbids: seq<MMIRange>, b: int)
    ensures !Forbidden(forbids, |forbids|, b)
  {
  }

  lemma NoPiece(b: int)
    ensures !Covers([], b)
  {
  }

  lemma ForbiddenStep(forbids: seq<MMIRange>, i: nat, b: int)
    requires i < |forbids|
    ensures Forbidden(forbids, i, b) <==> In(forbids[i], b) || Forbidden(forbids, i + 1, b)
  {
  }

  /** The recursion as it is written: having handed on a piece it goes on and reads an interval past the last. */
  predicate ReadsPastEnd(range: MMIRange, forbids: seq<MMIRange>, i: nat)
    requires i <= |forbids|
    decreases |forbids| - i
  {
    if i == |forbids| then true
    else
      || (range.s < forbids[i].s
          && ReadsPastEnd(MMIRange(range.s, if range.e < forbids[i].s then range.e else forbids[i].s), forbids, i + 1))
      || (range.e > forbids[i].e
          && ReadsPastEnd(MMIRange(if range.s > forbids[i].e then range.s else forbids[i].e, range.e), forbids, i + 1))
  }

  /** As it is written it does so exactly when there is a piece to hand on: it is right only of ranges that are
      forbidden as a whole. */
  lemma ReadsPastEndExactly(range: MMIRange, forbids: seq<MMIRange>, i: nat)
    requires i <= |forbids| && range.s < range.e
    requires forall j :: i <= j < |forbids| ==> forbids[j].s <= forbids[j].e
    ensures ReadsPastEnd(range, forbids, i) <==> exists b :: In(range, b) && !Forbidden(forbids, i, b)
  {
    PieceOrNot(range, forbids, i);
    PartitionExact(range, forbids, i);
    var pieces := PartitionRange(range, forbids, i);
    if pieces != [] {
      assert In(pieces[0], pieces[0].s) && Covers(pieces, pieces[0].s);
    }
    if b :| In(range, b) && !Forbidden(forbids, i, b) {
      assert Covers(pieces, b);
    }
  }

  lemma {:induction false} PieceOrNot(range: MMIRange, forbids: seq<MMIRange>, i: nat)
    requires i <= |forbids|
    ensures ReadsPastEnd(range, forbids, i) <==> PartitionRange(range, forbids, i) != []
    decreases |forbids| - i
  {
    if i == |forbids| {
    } else {
      PieceOrNot(MMIRange(range.s, if range.e < forbids[i].s then range.e else forbids[i].s), forbids, i + 1);
      PieceOrNot(MMIRange(if range.s > forbids[i].e then range.s else forbids[i].e, range.e), forbids, i + 1);
    }
  }
}
