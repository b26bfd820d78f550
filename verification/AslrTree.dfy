/** Random placement over the entries in memory. */
module AslrTree {
  import opened RangePairs
  import opened AvlModel
  import opened AvlTree
  import opened AslrModel

  /** The source of random numbers: each draw is an arbitrary 64-bit word. */
  class RandomSource {
    ghost var drawn: seq<nat>

    constructor ()
      ensures drawn == []
    {
      drawn := [];
    }

    method Rdrand() returns (r: nat)
      modifies this
      ensures drawn == old(drawn) + [r] && r < 0x1_0000_0000_0000_0000
    {
      r :| r < 0x1_0000_0000_0000_0000;
      drawn := drawn + [r];
    }
  }

  /** The range and start that a position stands for. */
  ghost predicate Located(t: Tree, size: nat, w: Place, start: nat, super: RangePair) {
    Feasible(t, size, w) && super == InOrder(t)[w.k] && start == super.y + w.off
  }

  /** The number of starts in a subtree whose ranges are all long enough, from the cached totals. */
  method SuitableStarts(n: AvlEntry?, ghost t: Tree, size: nat) returns (c: int)
    requires Sub(n, t) && AllLong(t, size) && size > 0
    ensures c == Starts(t, size)
  {
    hide Sub, AvlEntry.Valid, SumX, Count;
    SubNotNull(n, t);
    if n == null {
      return 0;
    }
    SubEntry(n, t);
    CachedNumbers(n);
    TotalsGiveStarts(t, size);
    return n.xTotal - n.numChildren * (size - 1);
  }

  method FindNthSuitable(entry: AvlEntry, nth: nat, size: nat) returns (start: nat, super: RangePair)
    requires entry.Valid() && AllLong(entry.model, size) && nth < Starts(entry.model, size) && size > 0
    ensures Located(entry.model, size, NthPlace(entry.model, nth, size), start, super)
  {
    hide Sub, AvlEntry.Valid, SumX, Count, AvlEntry.Linked, AvlEntry.Shape, AllLong;
    var root: AvlEntry := entry;
    var n: int := nth;
    while true
      invariant root.Valid() && AllLong(root.model, size) && 0 <= n < Starts(root.model, size)
      invariant forall s, p :: Located(root.model, size, NthPlace(root.model, n, size), s, p) ==>
                               Located(entry.model, size, NthPlace(entry.model, nth, size), s, p)
      decreases root.model
    {
      CachedNumbers(root);
      Open(root, 0);
      ghost var t := root.model;
      AllLongParts(t, size);
      StartsBound(t, size);
      assert n < root.xTotal && root.t.x >= size;
      var leftSuitable := SuitableStarts(root.e[0], t.left, size);
      assert leftSuitable >= 0;
      var thisSuitable := root.t.x - size + 1;
      NthPlaceFeasible(t, n, size);
      if n < thisSuitable {
        return root.t.y + n, root.t;
      } else if n < thisSuitable + leftSuitable {
        n := n - thisSuitable;
        LocatedLeft(t, size, n);
        SubNotNull(root.e[0], t.left);
        SubEntry(root.e[0], t.left);
        root := root.e[0];
      } else {
        n := n - (thisSuitable + leftSuitable);
        LocatedRight(t, size, n);
        SubNotNull(root.e[1], t.right);
        SubEntry(root.e[1], t.right);
        root := root.e[1];
      }
    }
  }

  lemma StartsBound(t: Tree, size: nat)
    requires AllLong(t, size) && size > 0
    ensures Starts(t, size) <= SumX(t)
  {
    TotalsGiveStarts(t, size);
    assert Count(t) * (size - 1) >= 0;
  }

  lemma LocatedLeft(t: Tree, size: nat, n: nat)
    requires t.Node? && n < Starts(t.left, size)
    ensures forall s, p :: Located(t.left, size, NthPlace(t.left, n, size), s, p) ==>
                           Located(t, size, NthPlace(t, StartsIn(t.item, size) + n, size), s, p)
  {
    NthPlaceFeasible(t.left, n, size);
    NthPlaceFeasible(t, StartsIn(t.item, size) + n, size);
  }

  lemma LocatedRight(t: Tree, size: nat, n: nat)
    requires t.Node? && n < Starts(t.right, size)
    ensures forall s, p :: Located(t.right, size, NthPlace(t.right, n, size), s, p) ==>
                           Located(t, size, NthPlace(t, StartsIn(t.item, size) + Starts(t.left, size) + n, size), s, p)
  {
    NthPlaceFeasible(t.right, n, size);
    NthPlaceFeasible(t, StartsIn(t.item, size) + Starts(t.left, size) + n, size);
  }

  /** Chooses a start for size bytes at random below an entry; `among` is the number of starts it chose from. */
  method FindRandomRange(n: AvlEntry, size: nat, source: RandomSource)
    returns (found: bool, start: nat, among: nat, super: RangePair)
    requires n.Valid() && Sorted(InOrder(n.model)) && size > 0
    modifies source
    ensures n.Valid() && |source.drawn| == |old(source.drawn)| + Draws(n.model, size)
    ensures source.drawn[..|old(source.drawn)|] == old(source.drawn)
    ensures found <==> Among(n.model, size) > 0
    ensures found ==> among == Among(n.model, size)
    ensures found ==> Located(n.model, size, Pick(n.model, size, source.drawn[|old(source.drawn)|..]), start, super)
    decreases n.model
  {
    hide Sub, AvlEntry.Valid, SumX, Count, AvlEntry.Linked, AvlEntry.Shape, AllLong, Sorted, InOrder, Located, Choose,
      Feasible, Among, Draws, Starts, Pick;
    ghost var t, before := n.model, source.drawn;
    CachedNumbers(n);
    Open(n, 0);
    SubNotNull(n.e[0], t.left);
    SubNotNull(n.e[1], t.right);
    LongToTheRight(t, size);
    RootParts(t, size);
    found, start, among, super := false, 0, 0, RangePair(0, 0);
    if n.t.x < size {
      if n.e[1] != null {
        SubEntry(n.e[1], t.right);
        found, start, among, super := FindRandomRange(n.e[1], size, source);
        ShortPick(t, size, source.drawn[|before|..]);
        if found {
          LocatedShift(t, size, Pick(t.right, size, source.drawn[|before|..]), start, super);
        }
      }
    } else {
      var leftFound, leftStart, leftAmong, leftSuper := false, 0, 0, RangePair(0, 0);
      if n.e[0] != null {
        SubEntry(n.e[0], t.left);
        leftFound, leftStart, leftAmong, leftSuper := FindRandomRange(n.e[0], size, source);
      }
      if !leftFound {
        leftAmong := 0;
      }
      ghost var middle := source.drawn;
      ghost var draws := middle[|before|..];
      ghost var offered := Pick(t.left, size, draws);
      ghost var r;
      found, start, among, super, r := DrawHere(n, size, source, leftStart, leftAmong, leftSuper, offered);
      assert source.drawn[|before|..] == draws + [r];
      LastDraw(t, size, draws, r);
    }
  }

  /** An entry that is long enough draws once for all starts below it: of the left subtree, of its own, of the right. */
  method DrawHere(n: AvlEntry, size: nat, source: RandomSource, leftStart: nat, leftAmong: nat, leftSuper: RangePair,
                  ghost offered: Place)
    returns (found: bool, start: nat, among: nat, super: RangePair, ghost r: nat)
    requires n.Valid() && n.model.Node? && n.model.item.x >= size > 0 && AllLong(n.model.right, size)
    requires leftAmong == Among(n.model.left, size)
    requires leftAmong > 0 ==> Located(n.model.left, size, offered, leftStart, leftSuper)
    modifies source
    ensures n.Valid() && source.drawn == old(source.drawn) + [r] && found
    ensures among == Among(n.model, size) > 0
    ensures Located(n.model, size, Choose(n.model, size, r % among, offered), start, super)
  {
    hide Sub, AvlEntry.Valid, SumX, Count, AvlEntry.Linked, AvlEntry.Shape, AllLong, InOrder, Located, Choose, Feasible,
      Among, Starts;
    ghost var t := n.model;
    CachedNumbers(n);
    Open(n, 0);
    RootParts(t, size);
    var thisAmong := n.t.x - size + 1;
    var tot := thisAmong + leftAmong;
    var rightStarts := SuitableStarts(n.e[1], t.right, size);
    tot := tot + rightStarts;
    var draw := source.Rdrand();
    r := draw;
    var rnd := draw % tot;
    found, among := true, tot;
    if rnd < leftAmong {
      start, super := leftStart, leftSuper;
    } else if rnd < leftAmong + thisAmong {
      start, super := n.t.y + rnd - leftAmong, n.t;
    } else {
      SubNotNull(n.e[1], t.right);
      SubEntry(n.e[1], t.right);
      start, super := FindNthSuitable(n.e[1], rnd - leftAmong - thisAmong, size);
    }
    LocatedChoice(t, size, rnd, offered, start, super);
  }

  lemma ShortPick(t: Tree, size: nat, draws: seq<nat>)
    requires t.Node? && t.item.x < size && |draws| == Draws(t.right, size)
    ensures |draws| == Draws(t, size) && Pick(t, size, draws) == Shift(t, Pick(t.right, size, draws))
  {
  }

  /** The entry's own draw is the last. */
  lemma LastDraw(t: Tree, size: nat, draws: seq<nat>, r: nat)
    requires t.Node? && t.item.x >= size && |draws| == Draws(t.left, size)
    ensures |draws| + 1 == Draws(t, size)
    ensures Pick(t, size, draws + [r]) == Choose(t, size, r % Among(t, size), Pick(t.left, size, draws))
  {
    hide Choose, Among;
    assert (draws + [r])[..|draws|] == draws;
  }

  lemma RootParts(t: Tree, size: nat)
    requires t.Node?
    ensures Draws(Nil, size) == Among(Nil, size) == Starts(Nil, size) == 0
    ensures t.item.x < size ==> Draws(t, size) == Draws(t.right, size) && Among(t, size) == Among(t.right, size)
    ensures t.item.x >= size ==>
              && Draws(t, size) == Draws(t.left, size) + 1
              && Among(t, size) == StartsIn(t.item, size) + Among(t.left, size) + Starts(t.right, size)
  {
  }

  /** A position to the right, seen from the parent. */
  lemma LocatedShift(t: Tree, size: nat, w: Place, start: nat, super: RangePair)
    requires t.Node? && Located(t.right, size, w, start, super)
    ensures Located(t, size, Shift(t, w), start, super)
  {
  }

  /** What the entry's draw selects is the position `Choose` names. */
  lemma LocatedChoice(t: Tree, size: nat, rnd: nat, offered: Place, start: nat, super: RangePair)
    requires t.Node? && t.item.x >= size && rnd < Among(t, size)
    requires rnd < Among(t.left, size) ==> Located(t.left, size, offered, start, super)
    requires var left, here := Among(t.left, size), StartsIn(t.item, size);
      && (left <= rnd < left + here ==> super == t.item && start == t.item.y + (rnd - left))
      && (left + here <= rnd ==> Located(t.right, size, NthPlace(t.right, rnd - left - here, size), start, super))
    ensures Located(t, size, Choose(t, size, rnd, offered), start, super)
  {
  }
}
