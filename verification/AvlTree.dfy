/** AVL trees in memory: entries that are rotated in place by moving payloads. */
module AvlTree {
  import opened Common
  import opened RangePairs
  import opened AvlModel

  /** An entry of an ASLR tree. A plain AVL entry is the same without the two totals. */
  class AvlEntry {
    var e: seq<AvlEntry?>
    var t: RangePair
    var height: int
    var xTotal: nat
    var numChildren: nat

    /** The subtree as a value, and the entries it is made of. */
    ghost var model: Tree
    ghost var nodes: set<AvlEntry>

    constructor (p: RangePair)
      ensures Valid() && nodes == {this} && model == Node(Nil, p, Nil)
    {
      e := [null, null];
      t := p;
      height := 1;
      xTotal := p.x;
      numChildren := 1;
      model := Node(Nil, p, Nil);
      nodes := {this};
    }

    /** The entries below form the model's subtrees, and the cached numbers are right. */
    ghost predicate Valid()
      reads this, nodes
      decreases nodes
    {
      && Shape() && Cached()
      && (e[0] != null ==> e[0].Valid()) && (e[1] != null ==> e[1].Valid())
    }

    /** Valid, except that the cached numbers of this entry may be stale. */
    ghost predicate Linked()
      reads this, nodes
    {
      Shape() && (e[0] != null ==> e[0].Valid()) && (e[1] != null ==> e[1].Valid())
    }

    ghost predicate Shape()
      reads this, nodes
    {
      && |e| == 2 && this in nodes && model.Node? && model.item == t
      && ChildShape(0) && ChildShape(1)
      && Nodes(e[0]) !! Nodes(e[1]) && nodes == {this} + Nodes(e[0]) + Nodes(e[1])
    }

    ghost predicate ChildShape(d: Side)
      requires |e| == 2 && model.Node?
      reads this, nodes
    {
      if e[d] == null then
        Child(model, d) == Nil
      else
        && e[d] in nodes && e[d] in e[d].nodes && e[d].nodes <= nodes && this !in e[d].nodes
        && e[d].model == Child(model, d)
    }

    ghost predicate Cached()
      reads this
    {
      height == Height(model) && xTotal == SumX(model) && numChildren == Count(model)
    }

    /** Recomputes the cached numbers from the children's. */
    method InvCache()
      requires Linked()
      modifies `height, `xTotal, `numChildren
      ensures Valid()
    {
      hide Height, SumX, Count, Valid, Linked, Shape, Sub;
      Open(this, 0);
      ghost var a, b := model.left, model.right;
      NodeTotals(model);
      var h0 := GetHeight(e[0], a);
      var h1 := GetHeight(e[1], b);
      var x0, n0 := GetTotals(e[0], a);
      var x1, n1 := GetTotals(e[1], b);
      height := Max(h0, h1) + 1;
      xTotal := t.x + x0 + x1;
      numChildren := 1 + n0 + n1;
      Close(this, 0, e[0], a, e[1], b);
      ValidIfCached(this);
    }

    /** Brings the model up to date after side d has become p. */
    ghost method Adopt(d: Side, p: AvlEntry?, a: Tree, q: AvlEntry?, b: Tree)
      requires |e| == 2 && e[d] == p && e[Other(d)] == q && Sub(p, a) && Sub(q, b)
      requires Nodes(p) !! Nodes(q) && this !in Nodes(p) && this !in Nodes(q)
      modifies `model, `nodes
      ensures Linked() && model == Make(d, a, t, b) && nodes == {this} + Nodes(p) + Nodes(q)
    {
      hide Valid, Linked, Shape, Sub;
      SubSelf(p, a);
      SubSelf(q, b);
      model := Make(d, a, t, b);
      nodes := {this} + Nodes(p) + Nodes(q);
      Close(this, d, p, a, q, b);
    }

    /** Inserts p below this entry, with one new entry. */
    method Add(p: RangePair) returns (ghost leaf: AvlEntry)
      requires Valid() && Balanced(model)
      modifies nodes
      ensures Valid() && model == AvlModel.Add(old(model), p)
      ensures fresh(leaf) && nodes == old(nodes) + {leaf}
      decreases nodes
    {
      hide Valid, Linked, Shape, Sub, Height, SumX, Count, Balanced, NearlyBalanced, AvlModel.Rebalance;
      CachedNumbers(this);
      ghost var before := model;
      var left: Side := if LessEq(t, p) then 1 else 0;
      ghost var right: Side := Other(left);
      Open(this, left);
      ghost var c, b := Child(model, left), Child(model, right);
      AddBalanced(model, p);
      SubNotNull(e[left], c);
      BalancedChild(model, left);
      if e[left] == null {
        var entry := new AvlEntry(p);
        e := e[left := entry];
        leaf := entry;
      } else {
        SubEntry(e[left], c);
        leaf := e[left].Add(p);
      }
      SubIntro(e[left]);
      Adopt(left, e[left], AvlModel.Add(c, p), e[right], b);
      assert model == WithChild(before, left, AvlModel.Add(c, p));
      Rebalance();
    }

    /** Takes the smallest or the greatest element out of the subtree. If that leaves no entry, the caller drops
        this one. */
    method ReplacePtrWithExtreme(smallest: bool) returns (tt: RangePair, gone: bool)
      requires Valid() && Balanced(model)
      modifies nodes
      ensures var g := if smallest then 0 else 1;
        && old(model).Node? && tt == Extract(old(model), g).1 && (gone <==> Extract(old(model), g).0.Nil?)
        && (!gone ==> Valid() && model == Extract(old(model), g).0 && nodes <= old(nodes))
      decreases nodes
    {
      hide Valid, Linked, Shape, Sub, Height, SumX, Count, Balanced, NearlyBalanced, AvlModel.Rebalance;
      CachedNumbers(this);
      ghost var before := model;
      var left: Side := if smallest then 0 else 1;
      var right: Side := Other(left);
      Open(this, left);
      ghost var c, b := Child(model, left), Child(model, right);
      SubNotNull(e[left], c);
      SubNotNull(e[right], b);
      BalancedChild(model, left);
      BalancedChild(model, right);
      ExtractNearly(model, left);
      ExtractNil(model, left);
      gone := false;
      if e[left] != null {
        SubEntry(e[left], c);
        var childGone;
        tt, childGone := e[left].ReplacePtrWithExtreme(smallest);
        DropIfGone(left, childGone);
        SubOf(e[left], Extract(c, left).0);
        Adopt(left, e[left], Extract(c, left).0, e[right], b);
        Rebalance();
      } else {
        tt := t;
        if e[right] == null {
          gone := true;
        } else {
          SubEntry(e[right], b);
          var x, childGone := e[right].ReplacePtrWithExtreme(smallest);
          t := x;
          DropIfGone(right, childGone);
          SubOf(e[right], Extract(b, left).0);
          Adopt(right, e[right], Extract(b, left).0, e[left], c);
          Rebalance();
        }
      }
    }

    /** Deletes one occurrence of p below this entry. If that leaves no entry, the caller drops this one. */
    method Del(p: RangePair) returns (found: bool, gone: bool)
      requires Valid() && Balanced(model)
      modifies nodes
      ensures found <==> Found(old(model), p)
      ensures gone <==> AvlModel.Del(old(model), p).Nil?
      ensures !gone ==> Valid() && model == AvlModel.Del(old(model), p) && nodes <= old(nodes)
      decreases nodes
    {
      hide Valid, Linked, Shape, Sub, Height, SumX, Count, Balanced, NearlyBalanced, AvlModel.Rebalance, Extract;
      CachedNumbers(this);
      Open(this, 0);
      DelNearly(model, p);
      if t == p {
        SubNotNull(e[0], model.left);
        SubNotNull(e[1], model.right);
        if e[0] != null || e[1] != null {
          DelRoot();
          return true, false;
        }
        return true, true;
      }
      var left: Side := if LessEq(t, p) then 1 else 0;
      Open(this, left);
      ghost var c, b := Child(model, left), Child(model, Other(left));
      SubNotNull(e[left], c);
      BalancedChild(model, left);
      found, gone := false, false;
      if e[left] != null {
        SubEntry(e[left], c);
        var childGone;
        found, childGone := e[left].Del(p);
        DropIfGone(left, childGone);
        SubOf(e[left], AvlModel.Del(c, p));
        Adopt(left, e[left], AvlModel.Del(c, p), e[Other(left)], b);
      }
      Rebalance();
    }

    /** Replaces the payload by its predecessor, or by its successor if there is no left child. */
    method DelRoot()
      requires Valid() && Balanced(model) && |e| == 2 && (e[0] != null || e[1] != null)
      modifies nodes
      ensures Valid() && model == AvlModel.Del(old(model), old(t)) && model.Node? && nodes <= old(nodes)
      decreases nodes, 0
    {
      hide Valid, Linked, Shape, Sub, Height, SumX, Count, Balanced, NearlyBalanced, AvlModel.Rebalance, Extract;
      CachedNumbers(this);
      Open(this, 0);
      SubNotNull(e[0], model.left);
      SubNotNull(e[1], model.right);
      DelNearly(model, t);
      var left: Side := if e[0] != null then 0 else 1;
      Open(this, left);
      ghost var c, b := Child(model, left), Child(model, Other(left));
      BalancedChild(model, left);
      SubEntry(e[left], c);
      var x, childGone := e[left].ReplacePtrWithExtreme(left == 1);
      t := x;
      DropIfGone(left, childGone);
      SubOf(e[left], Extract(c, Other(left)).0);
      Adopt(left, e[left], Extract(c, Other(left)).0, e[Other(left)], b);
      Rebalance();
    }

    /** Looks for the greatest element not above p (upper) or the smallest not below it. */
    method FindBound(p: RangePair, upper: bool) returns (found: bool, r: RangePair)
      requires Valid()
      ensures (if found then Some(r) else None) == AvlModel.FindBound(model, p, upper)
      ensures !found ==> r == p
      decreases nodes
    {
      hide Valid, Linked, Shape, Sub, Height, SumX, Count;
      CachedNumbers(this);
      Open(this, 0);
      SubNotNull(e[0], model.left);
      SubNotNull(e[1], model.right);
      var side: Side := if upper then 1 else 0;
      if t == p {
        return true, t;
      } else if Less(t, p) != upper {
        if e[Other(side)] == null {
          return false, p;
        }
        SubEntry(e[Other(side)], Child(model, Other(side)));
        found, r := e[Other(side)].FindBound(p, upper);
      } else {
        found, r := true, t;
        if e[side] != null {
          SubEntry(e[side], Child(model, side));
          var f, x := e[side].FindBound(p, upper);
          if f {
            r := x;
          }
        }
      }
    }

    method DropIfGone(d: Side, gone: bool)
      requires |e| == 2
      modifies `e
      ensures e == if gone then old(e)[d := null] else old(e)
    {
      if gone {
        e := e[d := null];
      }
    }

    static method GetTotals(n: AvlEntry?, ghost t: Tree) returns (x: nat, c: nat)
      requires Sub(n, t)
      ensures x == SumX(t) && c == Count(t)
    {
      if n == null {
        return 0, 0;
      }
      return n.xTotal, n.numChildren;
    }

    /** The pointer and payload moves of the single rotation: the child n on this side goes to the other side. */
    method MoveSingle(left: Side, ghost n: AvlEntry)
      requires |e| == 2 && e[left] == n && n != this && |n.e| == 2
      modifies `e, `t, n`e, n`t
      ensures |e| == |n.e| == 2 && e[left] == old(n.e[left]) && e[Other(left)] == n
      ensures n.e[left] == old(n.e[Other(left)]) && n.e[Other(left)] == old(e[Other(left)])
      ensures t == old(n.t) && n.t == old(t)
    {
      var right: Side := Other(left);
      var tmp := e[right];
      e := e[right := e[left]];
      e := e[left := e[left].e[left]];
      e[right].e := e[right].e[left := e[right].e[right]];
      e[right].e := e[right].e[right := tmp];
      t, e[right].t := e[right].t, t;
    }

    /** The single rotation. */
    method RotateSingle(left: Side)
      requires Linked() && e[left] != null
      modifies nodes
      ensures Linked() && nodes == old(nodes)
      ensures var c, b := Child(old(model), left), Child(old(model), Other(left));
        c.Node? && model == Make(left, Child(c, left), c.item, Make(left, Child(c, Other(left)), old(model.item), b))
    {
      hide Height, SumX, Count, Valid, Linked, Shape, Sub;
      var right: Side := Other(left);
      Open(this, left);
      ghost var c, b := Child(model, left), Child(model, right);
      var n := e[left];
      SubEntry(n, c);
      Open(n, left);
      ghost var outer, inner := Child(c, left), Child(c, right);
      ghost var pOuter, pInner, pB := n.e[left], n.e[right], e[right];
      MoveSingle(left, n);
      n.Refresh(left, pInner, inner, pB, b);
      model := Make(left, outer, t, n.model);
      Close(this, left, pOuter, outer, n, n.model);
    }

    /** The pointer and payload moves of the double rotation: the grandchild m in between goes to the other side. */
    method MoveDouble(left: Side, ghost n: AvlEntry, ghost m: AvlEntry)
      requires |e| == 2 && e[left] == n && n != this && |n.e| == 2 && n.e[Other(left)] == m
      requires m != n && m != this && |m.e| == 2
      modifies `e, `t, n`e, m`e, m`t
      ensures |e| == |n.e| == |m.e| == 2 && e[left] == n && e[Other(left)] == m
      ensures n.e[left] == old(n.e[left]) && n.e[Other(left)] == old(m.e[left])
      ensures m.e[left] == old(m.e[Other(left)]) && m.e[Other(left)] == old(e[Other(left)])
      ensures t == old(m.t) && m.t == old(t)
    {
      var right: Side := Other(left);
      var tmp := e[right];
      e := e[right := e[left].e[right]];
      e[left].e := e[left].e[right := e[right].e[left]];
      e[right].e := e[right].e[left := e[right].e[right]];
      e[right].e := e[right].e[right := tmp];
      t, e[right].t := e[right].t, t;
    }

    /** The double rotation. */
    method RotateDouble(left: Side)
      requires Linked() && e[left] != null && Child(Child(model, left), Other(left)).Node?
      modifies nodes
      ensures Linked() && nodes == old(nodes)
      ensures var c, b := Child(old(model), left), Child(old(model), Other(left));
        c.Node? && Child(c, Other(left)).Node? &&
        var inner := Child(c, Other(left));
        model == Make(left, Make(left, Child(c, left), c.item, Child(inner, left)), inner.item,
                      Make(left, Child(inner, Other(left)), old(model.item), b))
    {
      hide Height, SumX, Count, Valid, Linked, Shape, Sub;
      var right: Side := Other(left);
      ghost var n, m := OpenDouble(this, left);
      ghost var c, b := n.model, Child(model, right);
      ghost var inner := m.model;
      ghost var pOuter, p0, p1, pB := n.e[left], m.e[left], m.e[right], e[right];
      MoveDouble(left, n, m);
      JoinDouble(left, e[left], e[right], pOuter, Child(c, left), p0, Child(inner, left), p1, Child(inner, right),
          pB, b);
    }

    /** Two entries come up to date, each from its own parts. */
    static method RefreshBoth(left: Side, n: AvlEntry, m: AvlEntry, ghost pOuter: AvlEntry?, ghost outer: Tree,
                              ghost p0: AvlEntry?, ghost inner0: Tree, ghost p1: AvlEntry?, ghost inner1: Tree,
                              ghost pB: AvlEntry?, ghost b: Tree)
      requires |n.e| == |m.e| == 2 && n != m
      requires n.e[left] == pOuter && n.e[Other(left)] == p0 && m.e[left] == p1 && m.e[Other(left)] == pB
      requires Sub(pOuter, outer) && Sub(p0, inner0) && Sub(p1, inner1) && Sub(pB, b)
      requires Nodes(pOuter) !! Nodes(p0) && n !in Nodes(pOuter) && n !in Nodes(p0)
      requires Nodes(p1) !! Nodes(pB) && m !in Nodes(p1) && m !in Nodes(pB)
      requires ({n} + Nodes(pOuter) + Nodes(p0)) !! ({m} + Nodes(p1) + Nodes(pB))
      modifies n, m
      ensures n.e == old(n.e) && m.e == old(m.e) && n.t == old(n.t) && m.t == old(m.t)
      ensures Sub(n, n.model) && n.model == Make(left, outer, n.t, inner0)
      ensures Sub(m, m.model) && m.model == Make(left, inner1, m.t, b)
      ensures n.nodes == {n} + old(Nodes(pOuter)) + old(Nodes(p0)) && m.nodes == {m} + old(Nodes(p1)) + old(Nodes(pB))
    {
      hide Height, SumX, Count, AvlEntry.Valid, AvlEntry.Linked, AvlEntry.Shape, Sub;
      SubSelf(pOuter, outer);
      SubSelf(p0, inner0);
      SubSelf(p1, inner1);
      SubSelf(pB, b);
      n.Refresh(left, pOuter, outer, p0, inner0);
      m.Refresh(left, p1, inner1, pB, b);
      SubIntro(n);
    }

    /** The two entries below come up to date, then this one. */
    method JoinDouble(left: Side, n: AvlEntry, m: AvlEntry, ghost pOuter: AvlEntry?, ghost outer: Tree,
                      ghost p0: AvlEntry?, ghost inner0: Tree, ghost p1: AvlEntry?, ghost inner1: Tree,
                      ghost pB: AvlEntry?, ghost b: Tree)
      requires |e| == |n.e| == |m.e| == 2 && e[left] == n && e[Other(left)] == m && this != n && this != m && n != m
      requires n.e[left] == pOuter && n.e[Other(left)] == p0 && m.e[left] == p1 && m.e[Other(left)] == pB
      requires Sub(pOuter, outer) && Sub(p0, inner0) && Sub(p1, inner1) && Sub(pB, b)
      requires Nodes(pOuter) !! Nodes(p0) && n !in Nodes(pOuter) && n !in Nodes(p0)
      requires Nodes(p1) !! Nodes(pB) && m !in Nodes(p1) && m !in Nodes(pB)
      requires ({n} + Nodes(pOuter) + Nodes(p0)) !! ({m} + Nodes(p1) + Nodes(pB))
      requires this !in Nodes(pOuter) && this !in Nodes(p0) && this !in Nodes(p1) && this !in Nodes(pB)
      requires nodes == {this} + ({n} + Nodes(pOuter) + Nodes(p0)) + ({m} + Nodes(p1) + Nodes(pB))
      modifies this, n, m
      ensures Linked() && nodes == old(nodes) && t == old(t)
      ensures model == Make(left, Make(left, outer, old(n.t), inner0), old(t), Make(left, inner1, old(m.t), b))
    {
      hide Height, SumX, Count, Valid, Linked, Shape, Sub;
      RefreshBoth(left, n, m, pOuter, outer, p0, inner0, p1, inner1, pB, b);
      SubEntry(n, n.model);
      SubEntry(m, m.model);
      assert this !in n.nodes && this !in m.nodes;
      model := Make(left, n.model, t, m.model);
      SubIntro(n);
      SubIntro(m);
      Close(this, left, n, n.model, m, m.model);
    }

    /** Moves payloads so that the two sides are at most one level apart again. */
    method Rebalance()
      requires Linked() && NearlyBalanced(model)
      modifies nodes
      ensures Valid() && model == AvlModel.Rebalance(old(model)) && nodes == old(nodes)
    {
      hide Height, SumX, Count, NearlyBalanced, Valid, Linked, Shape, Sub;
      Open(this, 0);
      ghost var a, b := model.left, model.right;
      var h0 := GetHeight(e[0], a);
      var h1 := GetHeight(e[1], b);
      var lmr := h0 - h1;
      BalanceBounds(model);
      assert -2 <= lmr <= 2;
      if lmr == 2 || lmr == -2 {
        var left: Side := if lmr == 2 then 0 else 1;
        var right: Side := Other(left);
        ghost var c := Child(model, left);
        HeightOfNode(c);
        SubNotNull(e[left], c);
        SubEntry(e[left], c);
        Open(e[left], left);
        var outer := GetHeight(e[left].e[left], Child(c, left));
        var inner := GetHeight(e[left].e[right], Child(c, right));
        if outer >= inner {
          RotateSingle(left);
        } else {
          HeightOfNode(Child(c, right));
          RotateDouble(left);
        }
      }
      InvCache();
    }

    /** Brings this entry up to date with its parts: p on side d, q on the other. */
    method Refresh(d: Side, ghost p: AvlEntry?, ghost a: Tree, ghost q: AvlEntry?, ghost b: Tree)
      requires |e| == 2 && e[d] == p && e[Other(d)] == q && Sub(p, a) && Sub(q, b)
      requires Nodes(p) !! Nodes(q) && this !in Nodes(p) && this !in Nodes(q)
      modifies `height, `xTotal, `numChildren, `model, `nodes
      ensures Valid() && model == Make(d, a, t, b) && nodes == {this} + Nodes(p) + Nodes(q)
      ensures Sub(this, model) && Sub(p, a) && Sub(q, b) && Nodes(p) == old(Nodes(p)) && Nodes(q) == old(Nodes(q))
    {
      hide Height, SumX, Count, Valid, Linked, Shape, Sub;
      SubSelf(p, a);
      SubSelf(q, b);
      model := Make(d, a, t, b);
      nodes := {this} + Nodes(p) + Nodes(q);
      Close(this, d, p, a, q, b);
      InvCache();
      SubIntro(this);
    }

    static method GetHeight(n: AvlEntry?, ghost t: Tree) returns (h: int)
      requires Sub(n, t)
      ensures h == Height(t)
    {
      if n == null {
        return 0;
      }
      return n.height;
    }
  }

  lemma CachedNumbers(n: AvlEntry)
    requires n.Valid()
    ensures n.Linked() && n.height == Height(n.model) && n.xTotal == SumX(n.model) && n.numChildren == Count(n.model)
  {
  }

  lemma ValidIfCached(n: AvlEntry)
    requires n.Linked() && n.Cached()
    ensures n.Valid()
  {
  }

  lemma SubEntry(n: AvlEntry, t: Tree)
    requires Sub(n, t)
    ensures n.Valid() && n.Linked() && n in n.nodes && n.model == t && t.Node?
  {
  }

  lemma SubSelf(p: AvlEntry?, t: Tree)
    requires Sub(p, t)
    ensures p != null ==> p in Nodes(p)
  {
  }

  lemma SubNotNull(p: AvlEntry?, t: Tree)
    requires Sub(p, t)
    ensures p == null <==> t.Nil?
  {
  }

  lemma BalancedChild(t: Tree, d: Side)
    requires t.Node? && Balanced(t)
    ensures Balanced(Child(t, d))
  {
  }

  /** What `Extract` rebalances is fit for it. */
  lemma ExtractNearly(t: Tree, g: Side)
    requires t.Node? && Balanced(t)
    ensures Child(t, g).Node? ==> NearlyBalanced(WithChild(t, g, Extract(Child(t, g), g).0))
    ensures Child(t, Other(g)).Node? ==>
              var (c, y) := Extract(Child(t, Other(g)), g); NearlyBalanced(WithChild(t.(item := y), Other(g), c))
  {
    hide Extract;
    if Child(t, g).Node? {
      ExtractBalanced(Child(t, g), g);
    }
    if Child(t, Other(g)).Node? {
      ExtractBalanced(Child(t, Other(g)), g);
    }
  }

  lemma ExtractNil(t: Tree, g: Side)
    requires t.Node?
    ensures Extract(t, g).0.Nil? <==> t.left.Nil? && t.right.Nil?
  {
  }

  lemma SubOf(p: AvlEntry?, t: Tree)
    requires p == null ==> t == Nil
    requires p != null ==> p.Valid() && p.model == t
    ensures Sub(p, t)
  {
  }

  /** What `Del` rebalances is fit for it. */
  lemma DelNearly(t: Tree, p: RangePair)
    requires t.Node? && Balanced(t)
    ensures NearlyBalanced(t)
    ensures t.item != p ==> var d := SideOf(t, p); NearlyBalanced(WithChild(t, d, AvlModel.Del(Child(t, d), p)))
    ensures t.item == p && (t.left.Node? || t.right.Node?) ==>
              var d := ReplacementSide(t);
              var (c, y) := Extract(Child(t, d), Other(d)); NearlyBalanced(WithChild(t.(item := y), d, c))
  {
    hide Extract, AvlModel.Del;
    if t.item != p {
      DelBalanced(Child(t, SideOf(t, p)), p);
    } else if t.left.Node? || t.right.Node? {
      ExtractBalanced(Child(t, ReplacementSide(t)), Other(ReplacementSide(t)));
    }
  }

  lemma BalanceBounds(t: Tree)
    requires NearlyBalanced(t)
    ensures -2 <= Height(t.left) - Height(t.right) <= 2
  {
  }

  lemma SubIntro(n: AvlEntry)
    requires n.Valid()
    ensures Sub(n, n.model)
  {
  }

  lemma NodeTotals(t: Tree)
    requires t.Node?
    ensures Height(t) == Max(Height(t.left), Height(t.right)) + 1 && Height(Nil) == 0
    ensures SumX(t) == t.item.x + SumX(t.left) + SumX(t.right) && SumX(Nil) == 0
    ensures Count(t) == 1 + Count(t.left) + Count(t.right) && Count(Nil) == 0
  {
  }

  ghost function Nodes(p: AvlEntry?): set<AvlEntry>
    reads p
  {
    if p == null then {} else p.nodes
  }

  /** p is the tree t in memory. */
  ghost predicate Sub(p: AvlEntry?, t: Tree)
    reads p, Nodes(p)
  {
    if p == null then t == Nil else t.Node? && p.Valid() && p in p.nodes && p.model == t
  }

  /** The parts of an entry: on side d, and on the other. */
  lemma Open(n: AvlEntry, d: Side)
    requires n.Linked()
    ensures |n.e| == 2 && n.model.Node? && n.model == Make(d, Child(n.model, d), n.t, Child(n.model, Other(d)))
    ensures Sub(n.e[d], Child(n.model, d)) && Sub(n.e[Other(d)], Child(n.model, Other(d)))
    ensures n.e[d] != null ==> n.e[d] in n.e[d].nodes
    ensures n.e[Other(d)] != null ==> n.e[Other(d)] in n.e[Other(d)].nodes
    ensures Nodes(n.e[d]) !! Nodes(n.e[Other(d)]) && n !in Nodes(n.e[d]) && n !in Nodes(n.e[Other(d)])
    ensures n.nodes == {n} + Nodes(n.e[d]) + Nodes(n.e[Other(d)])
  {
  }

  /** The parts of an entry, of its child n on side d, and of n's child m on the other side. */
  lemma OpenDouble(r: AvlEntry, d: Side) returns (n: AvlEntry, m: AvlEntry)
    requires r.Linked() && r.e[d] != null && Child(Child(r.model, d), Other(d)).Node?
    ensures |r.e| == 2 && r.model.Node? && r.e[d] == n && |n.e| == 2 && n.e[Other(d)] == m && |m.e| == 2
        && r != n && r != m && n != m
    ensures {n, m} <= r.nodes && n.model == Child(r.model, d) && n.model.Node? && m.model == Child(n.model,
        Other(d)) && m.model.Node?
    ensures n.t == n.model.item && m.t == m.model.item && r.t == r.model.item
    ensures Sub(n.e[d], Child(n.model, d)) && Sub(m.e[d], Child(m.model, d))
    ensures Sub(m.e[Other(d)], Child(m.model, Other(d))) && Sub(r.e[Other(d)], Child(r.model, Other(d)))
    ensures Nodes(n.e[d]) !! Nodes(m.e[d]) && n !in Nodes(n.e[d]) && n !in Nodes(m.e[d])
    ensures Nodes(m.e[Other(d)]) !! Nodes(r.e[Other(d)]) && m !in Nodes(m.e[Other(d)]) && m !in Nodes(r.e[Other(d)])
    ensures ({n} + Nodes(n.e[d]) + Nodes(m.e[d])) !! ({m} + Nodes(m.e[Other(d)]) + Nodes(r.e[Other(d)]))
    ensures r !in Nodes(n.e[d]) && r !in Nodes(m.e[d]) && r !in Nodes(m.e[Other(d)]) && r !in Nodes(r.e[Other(d)])
    ensures r.nodes == {r} + ({n} + Nodes(n.e[d]) + Nodes(m.e[d])) + ({m} + Nodes(m.e[Other(d)]) + Nodes(r.e[Other(d)]))
    ensures n.e[d] !in {r, n, m} && m.e[d] !in {r, n, m} && m.e[Other(d)] !in {r, n, m} && r.e[Other(d)] !in {r, n, m}
  {
    hide Height, SumX, Count, AvlEntry.Valid, AvlEntry.Linked, AvlEntry.Shape, Sub;
    Open(r, d);
    n := r.e[d];
    SubEntry(n, Child(r.model, d));
    Open(n, d);
    m := n.e[Other(d)];
    SubNotNull(m, Child(n.model, Other(d)));
    SubEntry(m, Child(n.model, Other(d)));
    Open(m, d);
  }

  /** An entry from its parts. */
  lemma Close(n: AvlEntry, d: Side, p: AvlEntry?, a: Tree, q: AvlEntry?, b: Tree)
    requires |n.e| == 2 && n.e[d] == p && n.e[Other(d)] == q && n.model == Make(d, a, n.t, b)
    requires Sub(p, a) && Sub(q, b)
    requires Nodes(p) !! Nodes(q) && n !in Nodes(p) && n !in Nodes(q)
    requires n.nodes == {n} + Nodes(p) + Nodes(q)
    ensures n.Linked()
  {
  }
}
