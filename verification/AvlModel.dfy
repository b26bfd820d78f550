/** Pairs kept in the range trees, ordered by x and then y. */
module RangePairs {
  datatype RangePair = RangePair(x: nat, y: nat)

  predicate Less(a: RangePair, b: RangePair) {
    if a.x != b.x then a.x < b.x else a.y < b.y
  }

  predicate LessEq(a: RangePair, b: RangePair) {
    if a.x != b.x then a.x < b.x else a.y <= b.y
  }

  ghost predicate Sorted(s: seq<RangePair>) {
    forall i, j :: 0 <= i < j < |s| ==> LessEq(s[i], s[j])
  }
}

/** AVL trees as values: what rebalancing, insertion and deletion make of a tree, and what they keep. */
module AvlModel {
  import opened Common
  import opened RangePairs

  datatype Tree = Nil | Node(left: Tree, item: RangePair, right: Tree)

  /** 0 is the left side, 1 the right side. */
  type Side = d: nat | d < 2

  function Other(d: Side): Side {
    1 - d
  }

  function Child(t: Tree, d: Side): Tree
    requires t.Node?
  {
    if d == 0 then t.left else t.right
  }

  /** The tree with a on side d and b on the other side. */
  function Make(d: Side, a: Tree, item: RangePair, b: Tree): Tree {
    if d == 0 then Node(a, item, b) else Node(b, item, a)
  }

  function WithChild(t: Tree, d: Side, c: Tree): Tree
    requires t.Node?
  {
    Make(d, c, t.item, Child(t, Other(d)))
  }

  function Max(a: int, b: int): int {
    if a >= b then a else b
  }

  function Height(t: Tree): nat {
    match t
    case Nil => 0
    case Node(l, _, r) => Max(Height(l), Height(r)) + 1
  }

  function InOrder(t: Tree): seq<RangePair> {
    match t
    case Nil => []
    case Node(l, x, r) => InOrder(l) + [x] + InOrder(r)
  }

  ghost predicate Balanced(t: Tree) {
    t.Node? ==> Balanced(t.left) && Balanced(t.right) && -1 <= Height(t.left) - Height(t.right) <= 1
  }

  /** Balanced below the root, and at the root at most two levels apart: what `rebalance` is called on. */
  ghost predicate NearlyBalanced(t: Tree) {
    t.Node? && Balanced(t.left) && Balanced(t.right) && -2 <= Height(t.left) - Height(t.right) <= 2
  }

  /** The totals an ASLR entry caches: the lengths in its subtree, and their number. */
  function SumX(t: Tree): nat {
    match t
    case Nil => 0
    case Node(l, p, r) => p.x + SumX(l) + SumX(r)
  }

  function Count(t: Tree): nat {
    match t
    case Nil => 0
    case Node(l, _, r) => 1 + Count(l) + Count(r)
  }

  // Rotation.

  /** The rotation for a tree whose side d is two levels higher. */
  function Rotate(t: Tree, d: Side): Tree
    requires t.Node? && Height(Child(t, d)) == Height(Child(t, Other(d))) + 2
  {
    var c, b := Child(t, d), Child(t, Other(d));
    var outer, inner := Child(c, d), Child(c, Other(d));
    if Height(outer) >= Height(inner) then
      Make(d, outer, c.item, Make(d, inner, t.item, b))
    else
      Make(d, Make(d, outer, c.item, Child(inner, d)), inner.item, Make(d, Child(inner, Other(d)), t.item, b))
  }

  function Rebalance(t: Tree): (r: Tree)
    requires t.Node?
    ensures r.Node?
  {
    var lmr := Height(t.left) - Height(t.right);
    if lmr == 2 then Rotate(t, 0)
    else if lmr == -2 then Rotate(t, 1)
    else t
  }

  lemma InOrderMake(d: Side, a: Tree, item: RangePair, b: Tree)
    ensures InOrder(Make(d, a, item, b))
         == if d == 0 then InOrder(a) + [item] + InOrder(b) else InOrder(b) + [item] + InOrder(a)
  {
  }

  lemma Regroup(p: seq<RangePair>, x: RangePair, q: seq<RangePair>, y: RangePair, r: seq<RangePair>)
    ensures p + [x] + (q + [y] + r) == (p + [x] + q) + [y] + r
  {
  }

  /** Rotation changes the shape only. */
  lemma RotateKeepsOrder(t: Tree, d: Side)
    requires t.Node? && Height(Child(t, d)) == Height(Child(t, Other(d))) + 2
    ensures InOrder(Rotate(t, d)) == InOrder(t)
  {
    hide InOrder, Height;
    var c, b := Child(t, d), Child(t, Other(d));
    HeightOfNode(c);
    var outer, inner := Child(c, d), Child(c, Other(d));
    var p, q, r := InOrder(outer), InOrder(inner), InOrder(b);
    InOrderMake(d, c, t.item, b);
    InOrderMake(d, outer, c.item, inner);
    if Height(outer) >= Height(inner) {
      InOrderMake(d, inner, t.item, b);
      InOrderMake(d, outer, c.item, Make(d, inner, t.item, b));
      if d == 0 {
        Regroup(p, c.item, q, t.item, r);
      } else {
        Regroup(r, t.item, q, c.item, p);
      }
    } else {
      HeightOfNode(inner);
      var inner0, inner1 := Child(inner, d), Child(inner, Other(d));
      var u, v := InOrder(inner0), InOrder(inner1);
      InOrderMake(d, inner0, inner.item, inner1);
      InOrderMake(d, outer, c.item, inner0);
      InOrderMake(d, inner1, t.item, b);
      InOrderMake(d, Make(d, outer, c.item, inner0), inner.item, Make(d, inner1, t.item, b));
      if d == 0 {
        Regroup(p, c.item, u, inner.item, v);
        Regroup(p + [c.item] + u, inner.item, v, t.item, r);
      } else {
        Regroup(v, inner.item, u, c.item, p);
        Regroup(r, t.item, v, inner.item, u + [c.item] + p);
      }
    }
  }

  lemma HeightOfNode(t: Tree)
    ensures Height(t) > 0 <==> t.Node?
    ensures t.Node? ==> Height(t) == Max(Height(t.left), Height(t.right)) + 1
  {
  }

  lemma RebalanceKeepsOrder(t: Tree)
    requires t.Node?
    ensures InOrder(Rebalance(t)) == InOrder(t)
  {
    var lmr := Height(t.left) - Height(t.right);
    if lmr == 2 {
      RotateKeepsOrder(t, 0);
    } else if lmr == -2 {
      RotateKeepsOrder(t, 1);
    }
  }

  lemma MakeBalanced(d: Side, a: Tree, item: RangePair, b: Tree)
    ensures Height(Make(d, a, item, b)) == Max(Height(a), Height(b)) + 1
    ensures Balanced(Make(d, a, item, b)) <==> Balanced(a) && Balanced(b) && -1 <= Height(a) - Height(b) <= 1
  {
  }

  lemma RotateBalances(t: Tree, d: Side)
    requires NearlyBalanced(t) && Height(Child(t, d)) == Height(Child(t, Other(d))) + 2
    ensures Balanced(Rotate(t, d)) && Rotate(t, d).Node?
    ensures Height(t) - 1 <= Height(Rotate(t, d)) <= Height(t)
  {
    hide Balanced, Height;
    var c, b := Child(t, d), Child(t, Other(d));
    HeightOfNode(t);
    HeightOfNode(c);
    var outer, inner := Child(c, d), Child(c, Other(d));
    MakeBalanced(d, outer, c.item, inner);
    if Height(outer) >= Height(inner) {
      MakeBalanced(d, inner, t.item, b);
      MakeBalanced(d, outer, c.item, Make(d, inner, t.item, b));
    } else {
      HeightOfNode(inner);
      var inner0, inner1 := Child(inner, d), Child(inner, Other(d));
      MakeBalanced(d, inner0, inner.item, inner1);
      MakeBalanced(d, outer, c.item, inner0);
      MakeBalanced(d, inner1, t.item, b);
      MakeBalanced(d, Make(d, outer, c.item, inner0), inner.item, Make(d, inner1, t.item, b));
    }
  }

  /** Rebalancing restores the balance and loses at most the level that was too many. */
  lemma RebalanceBalances(t: Tree)
    requires NearlyBalanced(t)
    ensures Balanced(Rebalance(t)) && Rebalance(t).Node?
    ensures Height(t) - 1 <= Height(Rebalance(t)) <= Height(t)
    ensures Balanced(t) ==> Rebalance(t) == t
  {
    hide Height, Rotate;
    var lmr := Height(t.left) - Height(t.right);
    if lmr == 2 {
      RotateBalances(t, 0);
    } else if lmr == -2 {
      RotateBalances(t, 1);
    }
  }

  // Insertion.

  function SideOf(t: Tree, x: RangePair): Side
    requires t.Node?
  {
    if LessEq(t.item, x) then 1 else 0
  }

  function Add(t: Tree, x: RangePair): (r: Tree)
    ensures r.Node?
  {
    if t.Nil? then Node(Nil, x, Nil)
    else
      var d := SideOf(t, x);
      Rebalance(WithChild(t, d, Add(Child(t, d), x)))
  }

  lemma {:induction false} AddBalanced(t: Tree, x: RangePair)
    requires Balanced(t)
    ensures Balanced(Add(t, x)) && Height(t) <= Height(Add(t, x)) <= Height(t) + 1
    ensures t.Node? ==> NearlyBalanced(WithChild(t, SideOf(t, x), Add(Child(t, SideOf(t, x)), x)))
  {
    hide Rotate;
    if t.Nil? {
    } else {
      var d := SideOf(t, x);
      AddBalanced(Child(t, d), x);
      RebalanceBalances(WithChild(t, d, Add(Child(t, d), x)));
    }
  }

  /** s with x inserted at i. */
  function InsertAt(s: seq<RangePair>, i: nat, x: RangePair): seq<RangePair>
    requires i <= |s|
  {
    s[..i] + [x] + s[i..]
  }

  lemma SortedParts(a: seq<RangePair>, x: RangePair, b: seq<RangePair>)
    requires Sorted(a + [x] + b)
    ensures Sorted(a) && Sorted(b)
    ensures (forall k :: 0 <= k < |a| ==> LessEq(a[k], x)) && (forall k :: 0 <= k < |b| ==> LessEq(x, b[k]))
  {
    var s := a + [x] + b;
    forall k | 0 <= k < |a|
      ensures s[k] == a[k] && LessEq(a[k], x)
    {
      assert s[|a|] == x;
    }
    forall k | 0 <= k < |b|
      ensures s[|a| + 1 + k] == b[k] && LessEq(x, b[k])
    {
      assert s[|a|] == x;
    }
  }

  /** i is where x belongs in s: after the elements not above it. */
  ghost predicate InsertPoint(s: seq<RangePair>, i: nat, x: RangePair) {
    && i <= |s|
    && (forall k :: 0 <= k < i ==> LessEq(s[k], x)) && (forall k :: i <= k < |s| ==> Less(x, s[k]))
  }

  lemma InsertRight(a: seq<RangePair>, m: RangePair, b: seq<RangePair>, j: nat, x: RangePair)
    requires InsertPoint(b, j, x) && LessEq(m, x) && forall k :: 0 <= k < |a| ==> LessEq(a[k], m)
    ensures InsertPoint(a + [m] + b, |a| + 1 + j, x)
    ensures InsertAt(a + [m] + b, |a| + 1 + j, x) == a + [m] + InsertAt(b, j, x)
  {
    var s := a + [m] + b;
    forall k | 0 <= k < |s|
      ensures k < |a| + 1 + j ==> LessEq(s[k], x)
      ensures |a| + 1 + j <= k ==> Less(x, s[k])
    {
      if k < |a| {
        assert s[k] == a[k];
      } else if k == |a| {
        assert s[k] == m;
      } else {
        assert s[k] == b[k - |a| - 1];
      }
    }
    InsertedRight(a + [m], b, j, x);
  }

  lemma InsertedRight(a: seq<RangePair>, b: seq<RangePair>, j: nat, x: RangePair)
    requires j <= |b|
    ensures InsertAt(a + b, |a| + j, x) == a + InsertAt(b, j, x)
  {
    assert (a + b)[..|a| + j] == a + b[..j] && (a + b)[|a| + j..] == b[j..];
  }

  lemma InsertLeft(a: seq<RangePair>, m: RangePair, b: seq<RangePair>, j: nat, x: RangePair)
    requires InsertPoint(a, j, x) && Less(x, m) && forall k :: 0 <= k < |b| ==> LessEq(m, b[k])
    ensures InsertPoint(a + [m] + b, j, x)
    ensures InsertAt(a + [m] + b, j, x) == InsertAt(a, j, x) + [m] + b
  {
    var s := a + [m] + b;
    forall k | 0 <= k < |s|
      ensures k < j ==> LessEq(s[k], x)
      ensures j <= k ==> Less(x, s[k])
    {
      if k < |a| {
        assert s[k] == a[k];
      } else if k == |a| {
        assert s[k] == m;
      } else {
        assert s[k] == b[k - |a| - 1];
      }
    }
    InsertedLeft(a, [m] + b, j, x);
    assert a + ([m] + b) == s;
    assert InsertAt(a, j, x) + ([m] + b) == InsertAt(a, j, x) + [m] + b;
  }

  lemma InsertedLeft(a: seq<RangePair>, b: seq<RangePair>, j: nat, x: RangePair)
    requires j <= |a|
    ensures InsertAt(a + b, j, x) == InsertAt(a, j, x) + b
  {
    assert (a + b)[..j] == a[..j] && (a + b)[j..] == a[j..] + b;
  }

  /** Insertion puts x after every element not above it and before every element above it. */
  lemma {:induction false} AddOrder(t: Tree, x: RangePair) returns (i: nat)
    requires Sorted(InOrder(t))
    ensures InsertPoint(InOrder(t), i, x) && InOrder(Add(t, x)) == InsertAt(InOrder(t), i, x)
  {
    hide Rebalance, InsertPoint, InsertAt, Sorted;
    if t.Nil? {
      i := 0;
      InsertIntoEmpty(x);
    } else {
      var a, b := InOrder(t.left), InOrder(t.right);
      SortedParts(a, t.item, b);
      var d := SideOf(t, x);
      var j := AddOrder(Child(t, d), x);
      RebalanceKeepsOrder(WithChild(t, d, Add(Child(t, d), x)));
      if d == 1 {
        i := |a| + 1 + j;
        InsertRight(a, t.item, b, j, x);
      } else {
        i := j;
        InsertLeft(a, t.item, b, j, x);
      }
    }
  }

  lemma InsertIntoEmpty(x: RangePair)
    ensures InsertPoint([], 0, x) && InsertAt([], 0, x) == [x]
  {
  }

  lemma InsertSorted(s: seq<RangePair>, i: nat, x: RangePair)
    requires Sorted(s) && InsertPoint(s, i, x)
    ensures Sorted(InsertAt(s, i, x)) && multiset(InsertAt(s, i, x)) == multiset(s) + multiset{x}
  {
    assert s == s[..i] + s[i..];
  }

  // Deletion.

  /** Takes the outermost element on side g out of a non-empty tree: what is left, and the element. */
  function Extract(t: Tree, g: Side): (r: (Tree, RangePair))
    requires t.Node?
  {
    if Child(t, g).Node? then
      var (c, y) := Extract(Child(t, g), g);
      (Rebalance(WithChild(t, g, c)), y)
    else if Child(t, Other(g)).Nil? then (Nil, t.item)
    else
      var (c, y) := Extract(Child(t, Other(g)), g);
      (Rebalance(WithChild(t.(item := y), Other(g), c)), t.item)
  }

  /** The side a deleted element is replaced from: the left one unless it is empty. */
  function ReplacementSide(t: Tree): Side
    requires t.Node?
  {
    if t.left.Node? then 0 else 1
  }

  function Del(t: Tree, x: RangePair): Tree {
    if t.Nil? then Nil
    else if t.item == x then
      if t.left.Nil? && t.right.Nil? then Nil
      else
        var d := ReplacementSide(t);
        var (c, y) := Extract(Child(t, d), Other(d));
        Rebalance(WithChild(t.(item := y), d, c))
    else
      var d := SideOf(t, x);
      Rebalance(WithChild(t, d, Del(Child(t, d), x)))
  }

  /** A subtree that is balanced and at most one level lower can take the place of one. */
  lemma ShorterChild(t: Tree, d: Side, c: Tree, y: RangePair)
    requires t.Node? && Balanced(t) && Balanced(c) && Height(Child(t, d)) - 1 <= Height(c) <= Height(Child(t, d))
    ensures var r := Rebalance(WithChild(t.(item := y), d, c)); Balanced(r) && Height(t) - 1 <= Height(r) <= Height(t)
  {
    hide Rebalance;
    RebalanceBalances(WithChild(t.(item := y), d, c));
  }

  lemma {:induction false} ExtractBalanced(t: Tree, g: Side)
    requires t.Node? && Balanced(t)
    ensures var c := Extract(t, g).0; Balanced(c) && Height(t) - 1 <= Height(c) <= Height(t)
    decreases t
  {
    hide Rebalance;
    if Child(t, g).Node? {
      ExtractBalanced(Child(t, g), g);
      ShorterChild(t, g, Extract(Child(t, g), g).0, t.item);
    } else if Child(t, Other(g)).Node? {
      ExtractBalanced(Child(t, Other(g)), g);
      var (c, y) := Extract(Child(t, Other(g)), g);
      ShorterChild(t, Other(g), c, y);
    }
  }

  lemma {:induction false} DelBalanced(t: Tree, x: RangePair)
    requires Balanced(t)
    ensures Balanced(Del(t, x)) && Height(t) - 1 <= Height(Del(t, x)) <= Height(t)
    decreases t
  {
    hide Rebalance;
    if t.Nil? {
    } else {
      if t.item == x {
        DelRootBalanced(t);
      } else {
        var d := SideOf(t, x);
        DelBalanced(Child(t, d), x);
        ShorterChild(t, d, Del(Child(t, d), x), t.item);
      }
    }
  }

  lemma DelRootBalanced(t: Tree)
    requires t.Node? && Balanced(t)
    ensures var r := Del(t, t.item); Balanced(r) && Height(t) - 1 <= Height(r) <= Height(t)
  {
    hide Extract, Rebalance;
    if t.left.Node? || t.right.Node? {
      var d := ReplacementSide(t);
      ExtractBalanced(Child(t, d), Other(d));
      var (c, y) := Extract(Child(t, d), Other(d));
      ShorterChild(t, d, c, y);
    }
  }

  /** Whether the search that deletes x meets it. */
  predicate Found(t: Tree, x: RangePair) {
    t.Node? && (t.item == x || Found(Child(t, SideOf(t, x)), x))
  }

  lemma {:induction false} FoundIffPresent(t: Tree, x: RangePair)
    requires Sorted(InOrder(t))
    ensures Found(t, x) <==> x in InOrder(t)
  {
    hide Sorted;
    if t.Nil? {
    } else {
      var a, b := InOrder(t.left), InOrder(t.right);
      SortedParts(a, t.item, b);
      FoundIffPresent(Child(t, SideOf(t, x)), x);
      assert forall z :: z in a ==> LessEq(z, t.item);
      assert forall z :: z in b ==> LessEq(t.item, z);
    }
  }

  function RemoveAt(s: seq<RangePair>, i: nat): seq<RangePair>
    requires i < |s|
  {
    s[..i] + s[i + 1..]
  }

  /** The element that `Extract` takes is the first or the last in order. */
  lemma {:induction false} ExtractOrder(t: Tree, g: Side)
    requires t.Node?
    ensures InOrder(t) == if g == 0 then [Extract(t, g).1] + InOrder(Extract(t, g).0)
                                    else InOrder(Extract(t, g).0) + [Extract(t, g).1]
    decreases t
  {
    hide Rebalance;
    var o := Other(g);
    if Child(t, g).Node? {
      ExtractOrder(Child(t, g), g);
      RebalanceKeepsOrder(WithChild(t, g, Extract(Child(t, g), g).0));
    } else if Child(t, o).Node? {
      ExtractOrder(Child(t, o), g);
      var (c, y) := Extract(Child(t, o), g);
      RebalanceKeepsOrder(WithChild(t.(item := y), o, c));
    }
  }

  /** Deleting a present element removes one occurrence of it; deleting an absent one changes nothing. */
  lemma {:induction false} DelOrder(t: Tree, x: RangePair) returns (i: nat)
    requires Sorted(InOrder(t))
    ensures var s := InOrder(t);
      if x in s then i < |s| && s[i] == x && InOrder(Del(t, x)) == RemoveAt(s, i)
      else InOrder(Del(t, x)) == s
    decreases t
  {
    hide Rebalance, Sorted;
    i := 0;
    if t.Nil? {
    } else {
      var a, b := InOrder(t.left), InOrder(t.right);
      SortedParts(a, t.item, b);
      if t.item == x {
        i := |a|;
        DelRootOrder(t);
      } else {
        var d := SideOf(t, x);
        var j := DelOrder(Child(t, d), x);
        RebalanceKeepsOrder(WithChild(t, d, Del(Child(t, d), x)));
        if d == 1 {
          i := |a| + 1 + j;
          RemoveRight(a, t.item, b, j, x);
        } else {
          i := j;
          RemoveLeft(a, t.item, b, j, x);
        }
      }
    }
  }

  lemma DelRootOrder(t: Tree)
    requires t.Node?
    ensures InOrder(Del(t, t.item)) == RemoveAt(InOrder(t), |InOrder(t.left)|)
  {
    hide Rebalance, Extract, InOrder, RemoveAt;
    InOrderMake(0, t.left, t.item, t.right);
    var a, b := InOrder(t.left), InOrder(t.right);
    RemovedBetween(a, t.item, b);
    if t.left.Nil? && t.right.Nil? {
      InOrderNil();
    } else {
      var d := ReplacementSide(t);
      ExtractOrder(Child(t, d), Other(d));
      var (c, y) := Extract(Child(t, d), Other(d));
      ReplacedOrder(t, d, c, y);
      RebalanceKeepsOrder(WithChild(t.(item := y), d, c));
    }
  }

  /** Replacing the root by the neighbour taken out of a subtree. */
  lemma ReplacedOrder(t: Tree, d: Side, c: Tree, y: RangePair)
    requires t.Node? && InOrder(Child(t, d)) == if d == 1 then [y] + InOrder(c) else InOrder(c) + [y]
    ensures InOrder(WithChild(t.(item := y), d, c)) == InOrder(t.left) + InOrder(t.right)
  {
    hide InOrder;
    InOrderMake(d, c, y, Child(t, Other(d)));
    if d == 1 {
      AppendOne(InOrder(t.left), y, InOrder(c));
    }
  }

  lemma AppendOne(a: seq<RangePair>, y: RangePair, b: seq<RangePair>)
    ensures a + [y] + b == a + ([y] + b)
  {
  }

  lemma RemovedBetween(a: seq<RangePair>, m: RangePair, b: seq<RangePair>)
    ensures RemoveAt(a + [m] + b, |a|) == a + b
  {
  }

  lemma InOrderNil()
    ensures InOrder(Nil) == []
  {
  }

  lemma RemoveRight(a: seq<RangePair>, m: RangePair, b: seq<RangePair>, j: nat, x: RangePair)
    requires LessEq(m, x) && m != x && forall k :: 0 <= k < |a| ==> LessEq(a[k], m)
    ensures x in a + [m] + b <==> x in b
    ensures j < |b| && b[j] == x ==>
              (a + [m] + b)[|a| + 1 + j] == x && RemoveAt(a + [m] + b, |a| + 1 + j) == a + [m] + RemoveAt(b, j)
  {
    assert forall z :: z in a ==> LessEq(z, m);
  }

  lemma RemoveLeft(a: seq<RangePair>, m: RangePair, b: seq<RangePair>, j: nat, x: RangePair)
    requires Less(x, m) && forall k :: 0 <= k < |b| ==> LessEq(m, b[k])
    ensures x in a + [m] + b <==> x in a
    ensures j < |a| && a[j] == x ==> (a + [m] + b)[j] == x && RemoveAt(a + [m] + b, j) == RemoveAt(a, j) + [m] + b
  {
    assert forall z :: z in b ==> LessEq(m, z);
  }

  lemma RemoveSorted(s: seq<RangePair>, i: nat)
    requires Sorted(s) && i < |s|
    ensures Sorted(RemoveAt(s, i)) && multiset(RemoveAt(s, i)) == multiset(s) - multiset{s[i]}
  {
    assert s == s[..i] + [s[i]] + s[i + 1..];
  }

  /** A balanced tree from which nothing was deleted is the very same tree. */
  lemma {:induction false} DelAbsent(t: Tree, x: RangePair)
    requires Balanced(t) && x !in InOrder(t)
    ensures Del(t, x) == t
    decreases t
  {
    hide Rotate;
    if t.Nil? {
    } else {
      assert t.item in InOrder(t);
      DelAbsent(Child(t, SideOf(t, x)), x);
    }
  }

  // Search.

  /** The greatest element not above x (upper), or the smallest not below it. */
  function FindBound(t: Tree, x: RangePair, upper: bool): Option<RangePair> {
    if t.Nil? then None
    else if t.item == x then Some(t.item)
    else if Less(t.item, x) != upper then FindBound(if upper then t.left else t.right, x, upper)
    else
      var r := FindBound(if upper then t.right else t.left, x, upper);
      if r.Some? then r else Some(t.item)
  }

  /** a is on the searched side of x. */
  predicate Within(a: RangePair, x: RangePair, upper: bool) {
    if upper then LessEq(a, x) else LessEq(x, a)
  }

  /** y is the element of s on the searched side of x that is nearest to it. */
  ghost predicate Nearest(s: seq<RangePair>, x: RangePair, upper: bool, y: RangePair) {
    y in s && Within(y, x, upper) && forall z :: z in s && Within(z, x, upper) ==> Within(z, y, upper)
  }

  lemma {:induction false} FindBoundFinds(t: Tree, x: RangePair, upper: bool)
    requires Sorted(InOrder(t))
    ensures match FindBound(t, x, upper)
      case Some(y) => Nearest(InOrder(t), x, upper, y)
      case None => forall z :: z in InOrder(t) ==> !Within(z, x, upper)
    decreases t
  {
    hide Sorted;
    if t.Nil? {
    } else {
      var a, b := InOrder(t.left), InOrder(t.right);
      SortedParts(a, t.item, b);
      forall z | z in a
        ensures LessEq(z, t.item)
      {
      }
      forall z | z in b
        ensures LessEq(t.item, z)
      {
      }
      FindBoundFinds(t.left, x, upper);
      FindBoundFinds(t.right, x, upper);
    }
  }

  // Size.

  function Fib(n: nat): nat {
    if n < 2 then n else Fib(n - 1) + Fib(n - 2)
  }

  lemma {:induction false} FibGrows(n: nat)
    ensures Fib(n) <= Fib(n + 1)
  {
    if n == 0 {
    } else {
      FibGrows(n - 1);
    }
  }

  /** A balanced tree of height h has at least Fib(h + 2) - 1 nodes. */
  lemma {:induction false} EnoughNodes(t: Tree)
    requires Balanced(t)
    ensures |InOrder(t)| >= Fib(Height(t) + 2) - 1
  {
    hide Fib;
    FibTwo();
    if t.Nil? {
    } else {
      EnoughNodes(t.left);
      EnoughNodes(t.right);
      var a, b := Height(t.left), Height(t.right);
      FibSum(a, b, Height(t));
    }
  }

  lemma FibTwo()
    ensures Fib(2) == 1
  {
  }

  lemma FibSum(a: nat, b: nat, h: nat)
    requires h == Max(a, b) + 1 && -1 <= a - b <= 1
    ensures Fib(a + 2) + Fib(b + 2) >= Fib(h + 2)
  {
    FibGrows(h);
    assert Fib(h + 2) == Fib(h + 1) + Fib(h);
    assert a == h - 1 || b == h - 1;
  }
}
