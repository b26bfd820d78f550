/** Random placement in a tree of free ranges ordered by length: each range is (length, start). */
module AslrModel {
  import opened RangePairs
  import opened AvlModel

  /** A start position: the k-th range in order, off bytes into it. */
  datatype Place = Place(k: nat, off: nat)

  /** Positions in one range where size bytes fit. */
  function StartsIn(p: RangePair, size: nat): nat {
    if p.x >= size then p.x - size + 1 else 0
  }

  function Starts(t: Tree, size: nat): nat {
    match t
    case Nil => 0
    case Node(l, p, r) => StartsIn(p, size) + Starts(l, size) + Starts(r, size)
  }

  ghost predicate AllLong(t: Tree, size: nat) {
    forall p :: p in InOrder(t) ==> p.x >= size
  }

  ghost predicate Feasible(t: Tree, size: nat, w: Place) {
    w.k < |InOrder(t)| && w.off < StartsIn(InOrder(t)[w.k], size)
  }

  lemma FeasibleBelow(t: Tree, size: nat, w: Place)
    requires t.Node?
    ensures Feasible(t.left, size, w) ==> Feasible(t, size, w)
    ensures Feasible(t.right, size, w) ==> Feasible(t, size, Shift(t, w))
    ensures w.off < StartsIn(t.item, size) ==> Feasible(t, size, Place(|InOrder(t.left)|, w.off))
  {
    hide StartsIn;
    assert InOrder(t) == InOrder(t.left) + [t.item] + InOrder(t.right);
  }

  /** With every range long enough, the cached totals give the number of positions. */
  lemma {:induction false} TotalsGiveStarts(t: Tree, size: nat)
    requires AllLong(t, size) && size > 0
    ensures SumX(t) == Starts(t, size) + Count(t) * (size - 1)
  {
    if t.Nil? {
    } else {
      AllLongParts(t, size);
      TotalsGiveStarts(t.left, size);
      TotalsGiveStarts(t.right, size);
      Distribute(Count(t.left), Count(t.right), size - 1);
    }
  }

  lemma Distribute(a: nat, b: nat, c: nat)
    ensures (1 + a + b) * c == c + a * c + b * c
  {
  }

  lemma AllLongParts(t: Tree, size: nat)
    requires t.Node? && AllLong(t, size)
    ensures AllLong(t.left, size) && AllLong(t.right, size) && t.item.x >= size
  {
    assert t.item in InOrder(t);
    assert forall p :: p in InOrder(t.left) ==> p in InOrder(t);
    assert forall p :: p in InOrder(t.right) ==> p in InOrder(t);
  }

  /** To the right of a range that is long enough all ranges are; to the left of one that is not none is. */
  lemma LongToTheRight(t: Tree, size: nat)
    requires t.Node? && Sorted(InOrder(t))
    ensures Sorted(InOrder(t.left)) && Sorted(InOrder(t.right))
    ensures t.item.x >= size ==> AllLong(t.right, size)
    ensures t.item.x < size ==> Starts(t.left, size) == 0
  {
    var a, b := InOrder(t.left), InOrder(t.right);
    SortedParts(a, t.item, b);
    if t.item.x < size {
      assert forall p :: p in a ==> p.x < size;
      NoStarts(t.left, size);
    }
  }

  lemma {:induction false} NoStarts(t: Tree, size: nat)
    requires forall p :: p in InOrder(t) ==> p.x < size
    ensures Starts(t, size) == 0
  {
    if t.Nil? {
    } else {
      assert t.item in InOrder(t);
      assert forall p :: p in InOrder(t.left) ==> p in InOrder(t);
      assert forall p :: p in InOrder(t.right) ==> p in InOrder(t);
      NoStarts(t.left, size);
      NoStarts(t.right, size);
    }
  }

  // The n-th position.

  function Shift(t: Tree, w: Place): Place
    requires t.Node?
  {
    Place(|InOrder(t.left)| + 1 + w.k, w.off)
  }

  /** The n-th position in the search's own order: this range, then the left subtree, then the right one. */
  function NthPlace(t: Tree, n: int, size: nat): Place {
    if t.Nil? || n < 0 then Place(0, 0)
    else
      var here, left := StartsIn(t.item, size), Starts(t.left, size);
      if n < here then Place(|InOrder(t.left)|, n)
      else if n < here + left then NthPlace(t.left, n - here, size)
      else Shift(t, NthPlace(t.right, n - here - left, size))
  }

  /** The number under which the search finds a position. */
  function Rank(t: Tree, w: Place, size: nat): nat {
    if t.Nil? then 0
    else
      var m := |InOrder(t.left)|;
      if w.k == m then w.off
      else if w.k < m then StartsIn(t.item, size) + Rank(t.left, w, size)
      else StartsIn(t.item, size) + Starts(t.left, size) + Rank(t.right, Place(w.k - m - 1, w.off), size)
  }

  /** Every number below the count names a feasible position, and a different one each. */
  lemma {:induction false} NthPlaceFeasible(t: Tree, n: nat, size: nat)
    requires n < Starts(t, size)
    ensures Feasible(t, size, NthPlace(t, n, size)) && Rank(t, NthPlace(t, n, size), size) == n
  {
    var here, left := StartsIn(t.item, size), Starts(t.left, size);
    if n < here {
    } else if n < here + left {
      NthPlaceFeasible(t.left, n - here, size);
    } else {
      NthPlaceFeasible(t.right, n - here - left, size);
    }
  }

  /** Every feasible position has a number, under which it is found. */
  lemma {:induction false} RankFinds(t: Tree, w: Place, size: nat)
    requires Feasible(t, size, w)
    ensures Rank(t, w, size) < Starts(t, size) && NthPlace(t, Rank(t, w, size), size) == w
  {
    var m := |InOrder(t.left)|;
    if w.k < m {
      RankFinds(t.left, w, size);
    } else if w.k > m {
      RankFinds(t.right, Place(w.k - m - 1, w.off), size);
    }
  }

  // The random choice.

  /** Among how many positions the search chooses, as its code adds them up. */
  function Among(t: Tree, size: nat): nat {
    if t.Nil? then 0
    else if t.item.x < size then Among(t.right, size)
    else StartsIn(t.item, size) + Among(t.left, size) + Starts(t.right, size)
  }

  lemma {:induction false} AmongIsStarts(t: Tree, size: nat)
    requires Sorted(InOrder(t))
    ensures Among(t, size) == Starts(t, size)
  {
    if t.Nil? {
    } else {
      LongToTheRight(t, size);
      AmongIsStarts(t.left, size);
      AmongIsStarts(t.right, size);
    }
  }

  /** What an entry makes of its own draw r and of the position its left subtree offers. */
  function Choose(t: Tree, size: nat, r: nat, offered: Place): Place
    requires t.Node?
  {
    var left, here := Among(t.left, size), StartsIn(t.item, size);
    if r < left then offered
    else if r < left + here then Place(|InOrder(t.left)|, r - left)
    else Shift(t, NthPlace(t.right, r - left - here, size))
  }

  /** How many numbers the search draws. */
  function Draws(t: Tree, size: nat): nat {
    if t.Nil? then 0
    else if t.item.x < size then Draws(t.right, size)
    else Draws(t.left, size) + 1
  }

  /** The position the search arrives at with the given draws; the left subtree draws first. */
  function Pick(t: Tree, size: nat, draws: seq<nat>): Place
    requires |draws| == Draws(t, size)
  {
    if t.Nil? then Place(0, 0)
    else if t.item.x < size then Shift(t, Pick(t.right, size, draws))
    else
      var last := |draws| - 1;
      Choose(t, size, draws[last] % Among(t, size), Pick(t.left, size, draws[..last]))
  }

  /** Whatever is drawn, the position is feasible if any is. */
  lemma {:induction false} PickFeasible(t: Tree, size: nat, draws: seq<nat>)
    requires Sorted(InOrder(t)) && |draws| == Draws(t, size) && Among(t, size) > 0
    ensures Feasible(t, size, Pick(t, size, draws))
  {
    hide Sorted, Starts, InOrder, Feasible, NthPlace;
    LongToTheRight(t, size);
    if t.item.x < size {
      PickFeasible(t.right, size, draws);
      FeasibleBelow(t, size, Pick(t.right, size, draws));
    } else {
      var last := |draws| - 1;
      var r := draws[last] % Among(t, size);
      var left, here := Among(t.left, size), StartsIn(t.item, size);
      if r < left {
        PickFeasible(t.left, size, draws[..last]);
        FeasibleBelow(t, size, Pick(t.left, size, draws[..last]));
      } else if r < left + here {
        FeasibleBelow(t, size, Place(0, r - left));
      } else {
        NthPlaceFeasible(t.right, r - left - here, size);
        FeasibleBelow(t, size, NthPlace(t.right, r - left - here, size));
      }
    }
  }

  /** The probability that the search arrives at w when each draw is uniform below the number it is reduced by
      and independent of the others. */
  function Probability(t: Tree, size: nat, w: Place): real
    decreases t, 1, 0
  {
    if t.Nil? then 0.0
    else if t.item.x < size then
      var m := |InOrder(t.left)| + 1;
      if w.k >= m then Probability(t.right, size, Place(w.k - m, w.off)) else 0.0
    else Sum(t, size, w, Among(t, size)) / (Among(t, size) as real)
  }

  /** The probability of w given the entry's own draw r. */
  function Given(t: Tree, size: nat, w: Place, r: nat): real
    requires t.Node?
    decreases t, 0, 0
  {
    if r < Among(t.left, size) then Probability(t.left, size, w)
    else if Choose(t, size, r, w) == w then 1.0 else 0.0
  }

  /** The sum of that over the draws below n. */
  function Sum(t: Tree, size: nat, w: Place, n: nat): real
    requires t.Node?
    decreases t, 0, n + 1
  {
    if n == 0 then 0.0 else Sum(t, size, w, n - 1) + Given(t, size, w, n - 1)
  }

  /** The draw that makes the entry choose w itself rather than pass on its left subtree's offer. */
  function DrawFor(t: Tree, size: nat, w: Place): nat
    requires t.Node? && w.k >= |InOrder(t.left)|
  {
    var m := |InOrder(t.left)|;
    Among(t.left, size) +
      if w.k == m then w.off
      else StartsIn(t.item, size) + Rank(t.right, Place(w.k - m - 1, w.off), size)
  }

  /** The part of an in-order position that lies in the right subtree. */
  lemma FeasibleParts(t: Tree, size: nat, w: Place)
    requires t.Node?
    ensures var m := |InOrder(t.left)|;
      Feasible(t, size, w) <==>
        if w.k < m then Feasible(t.left, size, w)
        else if w.k == m then w.off < StartsIn(t.item, size)
        else Feasible(t.right, size, Place(w.k - m - 1, w.off))
  {
  }

  /** Its own draw leads the entry to w exactly for one value, and for none if w is not feasible or lies to the left. */
  lemma ChooseExactly(t: Tree, size: nat, w: Place, r: nat)
    requires Sorted(InOrder(t)) && t.Node? && t.item.x >= size && Among(t.left, size) <= r < Among(t, size)
    ensures Choose(t, size, r, w) == w <==>
              Feasible(t, size, w) && w.k >= |InOrder(t.left)| && r == DrawFor(t, size, w)
    ensures Feasible(t, size, w) && w.k >= |InOrder(t.left)| ==>
              Among(t.left, size) <= DrawFor(t, size, w) < Among(t, size)
  {
    hide Sorted, InOrder, Feasible;
    FeasibleParts(t, size, w);
    var m, left, here := |InOrder(t.left)|, Among(t.left, size), StartsIn(t.item, size);
    if r >= left + here {
      NthPlaceFeasible(t.right, r - left - here, size);
    }
    if w.k > m && Feasible(t, size, w) {
      RankFinds(t.right, Place(w.k - m - 1, w.off), size);
    }
  }

  lemma {:induction false} SumOfOffers(t: Tree, size: nat, w: Place, n: nat)
    requires t.Node? && n <= Among(t.left, size)
    ensures Sum(t, size, w, n) == n as real * Probability(t.left, size, w)
  {
    hide Probability, Among, Choose;
    var p := Probability(t.left, size, w);
    if n == 0 {
    } else {
      SumOfOffers(t, size, w, n - 1);
      assert Sum(t, size, w, n) == Sum(t, size, w, n - 1) + p;
      AddOne(n - 1, p);
    }
  }

  lemma AddOne(n: nat, p: real)
    ensures n as real * p + p == (n + 1) as real * p
  {
  }

  /** Past the offers, the sum gains 1 at the draw for w and nothing elsewhere. */
  lemma {:induction false} SumOfDraws(t: Tree, size: nat, w: Place, n: nat)
    requires Sorted(InOrder(t)) && t.Node? && t.item.x >= size && Among(t.left, size) <= n <= Among(t, size)
    ensures Sum(t, size, w, n) == Sum(t, size, w, Among(t.left, size)) +
              if Feasible(t, size, w) && w.k >= |InOrder(t.left)| && DrawFor(t, size, w) < n then 1.0 else 0.0
  {
    hide Sorted, InOrder, Feasible, Probability, Among, DrawFor, Choose;
    if n > Among(t.left, size) {
      SumOfDraws(t, size, w, n - 1);
      ChooseExactly(t, size, w, n - 1);
    } else if Feasible(t, size, w) && w.k >= |InOrder(t.left)| {
      DrawAfterOffers(t, size, w);
    }
  }

  lemma DrawAfterOffers(t: Tree, size: nat, w: Place)
    requires t.Node? && w.k >= |InOrder(t.left)|
    ensures DrawFor(t, size, w) >= Among(t.left, size)
  {
  }

  /** Every feasible position is equally likely, and no other position is possible. */
  lemma {:induction false} Uniform(t: Tree, size: nat, w: Place)
    requires Sorted(InOrder(t))
    ensures Feasible(t, size, w) ==> Among(t, size) > 0 && Probability(t, size, w) == 1.0 / (Among(t, size) as real)
    ensures !Feasible(t, size, w) ==> Probability(t, size, w) == 0.0
  {
    if t.Nil? {
    } else {
      LongToTheRight(t, size);
      FeasibleParts(t, size, w);
      var m := |InOrder(t.left)|;
      if t.item.x < size {
        ShortRoot(t, size, w);
        if w.k > m {
          Uniform(t.right, size, Place(w.k - m - 1, w.off));
        }
      } else {
        Uniform(t.left, size, w);
        LongRoot(t, size, w);
      }
    }
  }

  lemma ShortRoot(t: Tree, size: nat, w: Place)
    requires t.Node? && Sorted(InOrder(t)) && t.item.x < size
    ensures w.k <= |InOrder(t.left)| ==> !Feasible(t, size, w)
  {
    var a, b := InOrder(t.left), InOrder(t.right);
    SortedParts(a, t.item, b);
  }

  lemma LongRoot(t: Tree, size: nat, w: Place)
    requires t.Node? && Sorted(InOrder(t)) && t.item.x >= size
    requires Feasible(t.left, size, w) ==>
               Among(t.left, size) > 0 && Probability(t.left, size, w) == 1.0 / (Among(t.left, size) as real)
    requires !Feasible(t.left, size, w) ==> Probability(t.left, size, w) == 0.0
    ensures Among(t, size) > 0
    ensures Feasible(t, size, w) ==> Probability(t, size, w) == 1.0 / (Among(t, size) as real)
    ensures !Feasible(t, size, w) ==> Probability(t, size, w) == 0.0
  {
    hide Sorted, Feasible, DrawFor, Choose, Sum, Probability;
    assert Among(t.left, size) < Among(t, size);
    WholeSum(t, size, w);
    LongProbability(t, size, w);
  }

  lemma WholeSum(t: Tree, size: nat, w: Place)
    requires t.Node? && Sorted(InOrder(t)) && t.item.x >= size && Among(t.left, size) < Among(t, size)
    requires Feasible(t.left, size, w) ==>
               Among(t.left, size) > 0 && Probability(t.left, size, w) == 1.0 / (Among(t.left, size) as real)
    requires !Feasible(t.left, size, w) ==> Probability(t.left, size, w) == 0.0
    ensures Sum(t, size, w, Among(t, size)) == if Feasible(t, size, w) then 1.0 else 0.0
  {
    hide Sorted, InOrder, Feasible, DrawFor, Choose, Sum, Probability, Among;
    FeasibleParts(t, size, w);
    FeasibleInside(t.left, size, w);
    var left, all := Among(t.left, size), Among(t, size);
    SumOfOffers(t, size, w, left);
    OffersAddUp(left, Probability(t.left, size, w));
    SumOfDraws(t, size, w, all);
    ChooseExactly(t, size, w, left);
  }

  lemma FeasibleInside(t: Tree, size: nat, w: Place)
    ensures Feasible(t, size, w) ==> w.k < |InOrder(t)|
  {
  }

  lemma OffersAddUp(n: nat, p: real)
    ensures n > 0 && p == 1.0 / (n as real) ==> n as real * p == 1.0
    ensures p == 0.0 ==> n as real * p == 0.0
  {
  }

  lemma LongProbability(t: Tree, size: nat, w: Place)
    requires t.Node? && t.item.x >= size && Among(t, size) > 0
    ensures Probability(t, size, w) == Sum(t, size, w, Among(t, size)) / (Among(t, size) as real)
  {
  }
}
