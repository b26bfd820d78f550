/** The probability of a place is the fraction of the sequences of draws that lead to it. */
module AslrDraws {
  import opened Words
  import opened RangePairs
  import opened AvlModel
  import opened AslrModel

  /** The sequences with one more draw, which is r. */
  function Append(S: set<seq<nat>>, r: nat): set<seq<nat>> {
    set d | d in S :: d + [r]
  }

  /** The sequences with one more draw below n. */
  function Extend(S: set<seq<nat>>, n: nat): set<seq<nat>> {
    if n == 0 then {} else Extend(S, n - 1) + Append(S, n - 1)
  }

  /** The sequences of draws, each below the number that it is reduced by. */
  function DrawSeqs(t: Tree, size: nat): set<seq<nat>> {
    if t.Nil? then {[]}
    else if t.item.x < size then DrawSeqs(t.right, size)
    else Extend(DrawSeqs(t.left, size), Among(t, size))
  }

  /** Those that lead to w. */
  ghost function Leading(t: Tree, size: nat, w: Place): set<seq<nat>> {
    set d | d in DrawSeqs(t, size) && LeadsTo(t, size, d, w)
  }

  predicate LeadsTo(t: Tree, size: nat, draws: seq<nat>, w: Place) {
    |draws| == Draws(t, size) && Pick(t, size, draws) == w
  }

  lemma {:induction false} Extended(S: set<seq<nat>>, n: nat, d: seq<nat>)
    ensures d in Extend(S, n) <==> |d| > 0 && d[..|d| - 1] in S && d[|d| - 1] < n
  {
    if n == 0 {
    } else {
      Extended(S, n - 1, d);
      Appended(S, n - 1, d);
    }
  }

  lemma Appended(S: set<seq<nat>>, r: nat, d: seq<nat>)
    ensures d in Append(S, r) <==> |d| > 0 && d[..|d| - 1] in S && d[|d| - 1] == r
  {
    if |d| > 0 && d[..|d| - 1] in S && d[|d| - 1] == r {
      assert d == d[..|d| - 1] + [r];
    }
  }

  lemma {:induction false} AppendCount(S: set<seq<nat>>, r: nat)
    ensures |Append(S, r)| == |S|
    decreases S
  {
    if S == {} {
    } else {
      var d :| d in S;
      AppendCount(S - {d}, r);
      forall e
        ensures e in Append(S, r) <==> e in Append(S - {d}, r) + {d + [r]}
      {
        Appended(S, r, e);
        Appended(S - {d}, r, e);
        assert e == d + [r] ==> e[..|e| - 1] == d;
      }
      assert Append(S, r) == Append(S - {d}, r) + {d + [r]};
      Appended(S - {d}, r, d + [r]);
      assert (d + [r])[..|d + [r]| - 1] == d;
    }
  }

  lemma {:induction false} ExtendCount(S: set<seq<nat>>, n: nat)
    ensures |Extend(S, n)| == n * |S|
  {
    hide Append;
    if n == 0 {
    } else {
      var r := n - 1;
      ExtendCount(S, r);
      AppendCount(S, r);
      forall d | d in Extend(S, r)
        ensures d !in Append(S, r)
      {
        Appended(S, r, d);
        Extended(S, r, d);
      }
      OneMore(r, |S|);
    }
  }

  lemma OneMore(n: nat, c: nat)
    ensures n * c + c == (n + 1) * c
  {
  }

  lemma {:induction false} DrawLengths(t: Tree, size: nat, d: seq<nat>)
    requires d in DrawSeqs(t, size)
    ensures |d| == Draws(t, size)
  {
    if t.Nil? {
    } else {
      if t.item.x < size {
        DrawLengths(t.right, size, d);
      } else {
        Extended(DrawSeqs(t.left, size), Among(t, size), d);
        DrawLengths(t.left, size, d[..|d| - 1]);
      }
    }
  }

  lemma {:induction false} SomeDraws(t: Tree, size: nat)
    ensures |DrawSeqs(t, size)| > 0
  {
    if t.Nil? {
    } else if t.item.x < size {
      SomeDraws(t.right, size);
    } else {
      SomeDraws(t.left, size);
      ExtendCount(DrawSeqs(t.left, size), Among(t, size));
      assert Among(t, size) > 0;
      Positive(Among(t, size), |DrawSeqs(t.left, size)|);
    }
  }

  lemma Positive(a: nat, b: nat)
    requires a > 0 && b > 0
    ensures a * b > 0
  {
  }

  // An entry that is long enough: its own draw is the last.

  /** The sequences that lead to w with an own draw below n. */
  ghost function LeadingBelow(t: Tree, size: nat, w: Place, n: nat): set<seq<nat>>
    requires t.Node?
  {
    set d | d in Extend(DrawSeqs(t.left, size), n) && LeadsTo(t, size, d, w)
  }

  /** The sequences of the left subtree that lead to w when r is drawn after them. */
  ghost function LeadingWith(t: Tree, size: nat, w: Place, r: nat): set<seq<nat>>
    requires t.Node?
  {
    if r < Among(t.left, size) then Leading(t.left, size, w)
    else if Choose(t, size, r, w) == w then DrawSeqs(t.left, size)
    else {}
  }

  /** What is offered does not matter unless the draw accepts it. */
  lemma ChooseOwn(t: Tree, size: nat, r: nat, a: Place, b: Place)
    requires t.Node? && r >= Among(t.left, size)
    ensures Choose(t, size, r, a) == Choose(t, size, r, b)
  {
  }

  lemma LastDraw(t: Tree, size: nat, w: Place, d: seq<nat>, r: nat)
    requires t.Node? && t.item.x >= size && r < Among(t, size) && d in DrawSeqs(t.left, size)
    ensures LeadsTo(t, size, d + [r], w) <==> d in LeadingWith(t, size, w, r)
  {
    hide DrawSeqs, Among, Choose;
    DrawLengths(t.left, size, d);
    var e := d + [r];
    assert e[..|e| - 1] == d && e[|e| - 1] == r;
    ReducedDraw(t, size, e);
    var offered := Pick(t.left, size, d);
    if r < Among(t.left, size) {
      ChooseOffered(t, size, r, offered);
    } else {
      ChooseOwn(t, size, r, offered, w);
    }
  }

  lemma ChooseOffered(t: Tree, size: nat, r: nat, offered: Place)
    requires t.Node? && r < Among(t.left, size)
    ensures Choose(t, size, r, offered) == offered
  {
  }

  lemma ReducedDraw(t: Tree, size: nat, e: seq<nat>)
    requires t.Node? && t.item.x >= size && |e| == Draws(t.left, size) + 1 && e[|e| - 1] < Among(t, size)
    ensures |e| == Draws(t, size)
    ensures Pick(t, size, e) == Choose(t, size, e[|e| - 1], Pick(t.left, size, e[..|e| - 1]))
  {
    hide Choose, Among;
    DivModUnique(e[|e| - 1], Among(t, size), 0, e[|e| - 1]);
  }

  lemma LeadingStep(t: Tree, size: nat, w: Place, n: nat)
    requires t.Node? && t.item.x >= size && n < Among(t, size)
    ensures |LeadingBelow(t, size, w, n + 1)| == |LeadingBelow(t, size, w, n)| + |LeadingWith(t, size, w, n)|
  {
    hide LeadsTo, DrawSeqs, Extend, Append, LeadingWith;
    var S, T := DrawSeqs(t.left, size), LeadingWith(t, size, w, n);
    WithInside(t, size, w, n);
    forall d
      ensures d in LeadingBelow(t, size, w, n + 1) <==> d in LeadingBelow(t, size, w, n) || d in Append(T, n)
      ensures d in Append(T, n) ==> d !in LeadingBelow(t, size, w, n)
    {
      Extended(S, n + 1, d);
      Extended(S, n, d);
      Appended(T, n, d);
      if |d| > 0 && d[..|d| - 1] in S && d[|d| - 1] == n {
        LastDraw(t, size, w, d[..|d| - 1], n);
        assert d == d[..|d| - 1] + [n];
      }
    }
    assert LeadingBelow(t, size, w, n + 1) == LeadingBelow(t, size, w, n) + Append(T, n);
    AppendCount(T, n);
  }

  lemma WithInside(t: Tree, size: nat, w: Place, n: nat)
    requires t.Node?
    ensures LeadingWith(t, size, w, n) <= DrawSeqs(t.left, size)
  {
  }

  /** The sum of the conditional probabilities counts the sequences. */
  lemma {:induction false} LeadingSum(t: Tree, size: nat, w: Place, n: nat)
    requires t.Node? && t.item.x >= size && n <= Among(t, size)
    requires Among(t.left, size) > 0 ==>
               |Leading(t.left, size, w)| as real == Probability(t.left, size, w) * |DrawSeqs(t.left, size)| as real
    ensures |LeadingBelow(t, size, w, n)| as real == Sum(t, size, w, n) * |DrawSeqs(t.left, size)| as real
  {
    hide Leading, Probability, Choose, Among, DrawSeqs, LeadingWith, Given, LeadsTo;
    if n == 0 {
    } else {
      LeadingSum(t, size, w, n - 1);
      LeadingStep(t, size, w, n - 1);
      var c := |DrawSeqs(t.left, size)| as real;
      GivenCount(t, size, w, n - 1);
      Distribute(Sum(t, size, w, n - 1), Given(t, size, w, n - 1), c);
    }
  }

  lemma GivenCount(t: Tree, size: nat, w: Place, r: nat)
    requires t.Node?
    requires Among(t.left, size) > 0 ==>
               |Leading(t.left, size, w)| as real == Probability(t.left, size, w) * |DrawSeqs(t.left, size)| as real
    ensures |LeadingWith(t, size, w, r)| as real == Given(t, size, w, r) * |DrawSeqs(t.left, size)| as real
  {
    hide Leading, Probability, Choose, Among, DrawSeqs;
  }

  lemma Distribute(a: real, b: real, c: real)
    ensures a * c + b * c == (a + b) * c
  {
  }

  /** Of the sequences of draws, the probability of w is the part that leads to w. */
  lemma {:induction false} ProbabilityCounts(t: Tree, size: nat, w: Place)
    requires Sorted(InOrder(t)) && Among(t, size) > 0
    ensures |Leading(t, size, w)| as real == Probability(t, size, w) * |DrawSeqs(t, size)| as real
  {
    hide Leading, Probability, DrawSeqs, Sorted, InOrder, Among;
    Subtrees(t, size, w);
    if t.item.x < size {
      ShortCounts(t, size, w);
      var m := |InOrder(t.left)| + 1;
      if w.k >= m {
        ProbabilityCounts(t.right, size, Place(w.k - m, w.off));
      }
    } else {
      if Among(t.left, size) > 0 {
        ProbabilityCounts(t.left, size, w);
      }
      LongCounts(t, size, w);
    }
  }

  lemma Subtrees(t: Tree, size: nat, w: Place)
    requires Sorted(InOrder(t)) && Among(t, size) > 0
    ensures t.Node? && Sorted(InOrder(t.left)) && Sorted(InOrder(t.right))
    ensures t.item.x < size ==> Among(t.right, size) == Among(t, size)
    ensures t.item.x < size ==>
              var m := |InOrder(t.left)| + 1;
              Probability(t, size, w) == if w.k >= m then Probability(t.right, size, Place(w.k - m, w.off)) else 0.0
  {
    hide Sorted;
    SortedParts(InOrder(t.left), t.item, InOrder(t.right));
  }

  lemma ShortCounts(t: Tree, size: nat, w: Place)
    requires t.Node? && t.item.x < size
    ensures DrawSeqs(t, size) == DrawSeqs(t.right, size)
    ensures var m := |InOrder(t.left)| + 1;
      Leading(t, size, w) == if w.k >= m then Leading(t.right, size, Place(w.k - m, w.off)) else {}
  {
    var m := |InOrder(t.left)| + 1;
    forall d
      ensures d in Leading(t, size, w) <==> w.k >= m && d in Leading(t.right, size, Place(w.k - m, w.off))
    {
      if d in DrawSeqs(t, size) {
        DrawLengths(t, size, d);
      }
    }
  }

  lemma LongCounts(t: Tree, size: nat, w: Place)
    requires t.Node? && t.item.x >= size && Among(t, size) > 0
    requires Among(t.left, size) > 0 ==>
               |Leading(t.left, size, w)| as real == Probability(t.left, size, w) * |DrawSeqs(t.left, size)| as real
    ensures |Leading(t, size, w)| as real == Probability(t, size, w) * |DrawSeqs(t, size)| as real
  {
    hide LeadsTo, Extend, Sum, Among, Probability;
    var all, c := Among(t, size), |DrawSeqs(t.left, size)|;
    assert Leading(t, size, w) == LeadingBelow(t, size, w, all);
    LeadingSum(t, size, w, all);
    ExtendCount(DrawSeqs(t.left, size), all);
    LongProbability(t, size, w);
    Share(Sum(t, size, w, all), all, c);
  }

  lemma Share(s: real, all: nat, c: nat)
    requires all > 0
    ensures s / (all as real) * ((all * c) as real) == s * c as real
  {
    assert (all * c) as real == (all as real) * (c as real);
    assert s / (all as real) * (all as real) == s;
  }

  /** Every feasible place is reached by the same number of sequences of draws, and no other place by any. */
  lemma UniformDraws(t: Tree, size: nat, w: Place)
    requires Sorted(InOrder(t)) && Among(t, size) > 0
    ensures |DrawSeqs(t, size)| > 0
    ensures |Leading(t, size, w)| as real / |DrawSeqs(t, size)| as real == Probability(t, size, w)
    ensures Feasible(t, size, w) ==> |Leading(t, size, w)| * Among(t, size) == |DrawSeqs(t, size)|
    ensures !Feasible(t, size, w) ==> Leading(t, size, w) == {}
  {
    hide Leading, DrawSeqs, Probability, Feasible, Sorted, InOrder, Among;
    SomeDraws(t, size);
    ProbabilityCounts(t, size, w);
    Uniform(t, size, w);
    var part, whole, all := |Leading(t, size, w)|, |DrawSeqs(t, size)|, Among(t, size);
    Fraction(part, whole, all, Probability(t, size, w));
  }

  lemma Fraction(part: nat, whole: nat, all: nat, p: real)
    requires part as real == p * whole as real && whole > 0 && all > 0
    ensures part as real / whole as real == p
    ensures p == 1.0 / (all as real) ==> part * all == whole
    ensures p == 0.0 ==> part == 0
  {
    if p == 1.0 / (all as real) {
      assert p * (all as real) == 1.0;
      assert part as real * all as real == whole as real;
      assert (part * all) as real == part as real * all as real;
    }
  }
}
