/** Trees of records compared by their first component only: the heap's objects by address, its slabs by size. */
module KeyedTrees {
  import opened Common
  import opened RangePairs
  import opened AvlModel
  import opened RangeTrees

  // What the tree operations do with such comparisons. A record is a pair (key, value).

  function KeySide(t: Tree, p: RangePair): Side
    requires t.Node?
  {
    if t.item.x <= p.x then 1 else 0
  }

  function AddByKey(t: Tree, p: RangePair): Tree {
    if t.Nil? then Node(Nil, p, Nil)
    else
      var d := KeySide(t, p);
      Rebalance(WithChild(t, d, AddByKey(Child(t, d), p)))
  }

  function DelByKey(t: Tree, p: RangePair): Tree {
    if t.Nil? then Nil
    else if t.item.x == p.x then
      if t.left.Nil? && t.right.Nil? then Nil
      else
        var d := ReplacementSide(t);
        var (c, y) := Extract(Child(t, d), Other(d));
        Rebalance(WithChild(t.(item := y), d, c))
    else
      var d := KeySide(t, p);
      Rebalance(WithChild(t, d, DelByKey(Child(t, d), p)))
  }

  function FindBoundByKey(t: Tree, p: RangePair, upper: bool): Option<RangePair> {
    if t.Nil? then None
    else if t.item.x == p.x then Some(t.item)
    else if (t.item.x < p.x) != upper then FindBoundByKey(if upper then t.left else t.right, p, upper)
    else
      var r := FindBoundByKey(if upper then t.right else t.left, p, upper);
      if r.Some? then r else Some(t.item)
  }

  /** No two records have the same key. */
  ghost predicate KeysDistinct(s: seq<RangePair>) {
    forall j, k :: 0 <= j < k < |s| ==> s[j].x != s[k].x
  }

  lemma InOrderParts(t: Tree)
    requires t.Node?
    ensures InOrder(t) == InOrder(t.left) + [t.item] + InOrder(t.right)
    ensures forall z :: z in InOrder(t) <==> z in InOrder(t.left) || z == t.item || z in InOrder(t.right)
  {
  }

  /** A record with a new key goes where the order of pairs would put it. */
  lemma {:induction false} AddSame(t: Tree, p: RangePair)
    requires forall z :: z in InOrder(t) ==> z.x != p.x
    ensures AddByKey(t, p) == Add(t, p)
  {
    hide Rebalance, InOrder;
    if t.Nil? {
    } else {
      InOrderParts(t);
      AddSame(Child(t, KeySide(t, p)), p);
    }
  }

  /** A record is deleted as the pair it is. */
  lemma {:induction false} DelSame(t: Tree, p: RangePair)
    requires forall z :: z in InOrder(t) && z.x == p.x ==> z == p
    ensures DelByKey(t, p) == Del(t, p)
  {
    hide Rebalance, InOrder, Extract;
    if t.Nil? {
    } else {
      InOrderParts(t);
      if t.item.x != p.x {
        DelSame(Child(t, KeySide(t, p)), p);
      }
    }
  }

  lemma PartsDistinct(a: seq<RangePair>, x: RangePair, b: seq<RangePair>)
    requires KeysDistinct(a + [x] + b) && Sorted(a + [x] + b)
    ensures KeysDistinct(a) && KeysDistinct(b)
    ensures (forall z :: z in a ==> z.x < x.x) && (forall z :: z in b ==> x.x < z.x)
  {
    var s := a + [x] + b;
    SortedParts(a, x, b);
    forall k | 0 <= k < |a|
      ensures a[k].x < x.x
    {
      assert s[k] == a[k] && s[|a|] == x;
    }
    forall k | 0 <= k < |b|
      ensures x.x < b[k].x
    {
      assert s[|a| + 1 + k] == b[k] && s[|a|] == x;
    }
    forall j, k | 0 <= j < k < |a|
      ensures a[j].x != a[k].x
    {
      assert s[j] == a[j] && s[k] == a[k];
    }
    forall j, k | 0 <= j < k < |b|
      ensures b[j].x != b[k].x
    {
      assert s[|a| + 1 + j] == b[j] && s[|a| + 1 + k] == b[k];
    }
  }

  /** The search for a key finds what the search for the pair (key, 0) finds. */
  lemma {:induction false} FindSame(t: Tree, key: nat)
    requires Sorted(InOrder(t)) && KeysDistinct(InOrder(t))
    ensures FindBoundByKey(t, RangePair(key, 0), false) == FindBound(t, RangePair(key, 0), false)
  {
    hide Sorted, KeysDistinct;
    if t.Nil? {
    } else {
      var a, b := InOrder(t.left), InOrder(t.right);
      PartsDistinct(a, t.item, b);
      SortedParts(a, t.item, b);
      FindSame(t.left, key);
      FindSame(t.right, key);
      if t.item.x == key {
        FindBoundFinds(t.left, RangePair(key, 0), false);
        assert forall z :: z in a ==> !Within(z, RangePair(key, 0), false);
      }
    }
  }

  /** The source's lookup: a search for (key, 0) from below, then the keys are compared. It finds the record if any. */
  lemma RecordFound(items: seq<RangePair>, key: nat, found: bool, r: RangePair)
    requires found ==> Nearest(items, RangePair(key, 0), false, r)
    requires !found ==> forall z :: z in items ==> !Within(z, RangePair(key, 0), false)
    ensures found && r.x == key ==> r in items
    ensures (found && r.x == key) <==> exists z :: z in items && z.x == key
  {
    if z :| z in items && z.x == key {
      assert Within(z, RangePair(key, 0), false);
    }
  }

  // A tree of records.

  ghost function Pairs(records: map<nat, nat>): set<RangePair> {
    set k | k in records :: RangePair(k, records[k])
  }

  lemma PairsMember(records: map<nat, nat>, items: seq<RangePair>)
    requires multiset(items) == multiset(Pairs(records))
    ensures forall z :: z in items <==> z.x in records && records[z.x] == z.y
  {
    forall z
      ensures z in items <==> z.x in records && records[z.x] == z.y
    {
      assert z in items <==> z in multiset(items);
      if z.x in records && records[z.x] == z.y {
        assert z == RangePair(z.x, records[z.x]);
      }
    }
  }

  lemma PairsStep(records: map<nat, nat>, k: nat, v: nat)
    ensures k !in records ==> multiset(Pairs(records[k := v])) == multiset(Pairs(records)) + multiset{RangePair(k, v)}
    ensures k in records && records[k] == v ==>
              multiset(Pairs(records - {k})) == multiset(Pairs(records)) - multiset{RangePair(k, v)}
  {
    if k !in records {
      PairsAdded(records, k, v);
    } else if records[k] == v {
      PairsAdded(records - {k}, k, v);
      assert (records - {k})[k := v] == records;
    }
  }

  lemma PairsAdded(records: map<nat, nat>, k: nat, v: nat)
    requires k !in records
    ensures Pairs(records[k := v]) == Pairs(records) + {RangePair(k, v)} && RangePair(k, v) !in Pairs(records)
  {
    var records' := records[k := v];
    forall z | z in Pairs(records) + {RangePair(k, v)}
      ensures z in Pairs(records')
    {
      assert z.x in records' && z == RangePair(z.x, records'[z.x]);
    }
    forall z | z in Pairs(records')
      ensures z in Pairs(records) + {RangePair(k, v)}
    {
      if z.x in records {
        assert z == RangePair(z.x, records[z.x]);
      }
    }
  }

  class RecordTree {
    const tree: RangeTree
    ghost var records: map<nat, nat>

    ghost function Repr(): set<object>
      reads tree
    {
      tree.repr + {tree, this}
    }

    ghost predicate Valid()
      reads this, tree, tree.repr
      ensures Valid() ==> tree in tree.repr
    {
      tree.Valid() && this !in tree.repr && multiset(tree.items) == multiset(Pairs(records))
    }

    constructor ()
      ensures Valid() && records == map[] && fresh(Repr())
    {
      tree := new RangeTree();
      records := map[];
      new;
      assert Pairs(map[]) == {};
    }

    method Insert(key: nat, value: nat)
      requires Valid() && key !in records
      modifies Repr()
      ensures Valid() && fresh(Repr() - old(Repr())) && records == old(records)[key := value]
    {
      hide RangeTree.Valid;
      PairsStep(records, key, value);
      ghost var leaf := tree.Add(RangePair(key, value));
      records := records[key := value];
    }

    /** The value recorded under the key, if there is one. */
    method Lookup(key: nat) returns (found: bool, value: nat)
      requires Valid()
      ensures found <==> key in records
      ensures found ==> value == records[key]
    {
      hide RangeTree.Valid, Nearest, Within;
      var r;
      found, r := tree.FindBound(RangePair(key, 0), false);
      RecordFound(tree.items, key, found, r);
      PairsMember(records, tree.items);
      assert (exists z :: z in tree.items && z.x == key) <==> key in records by {
        if key in records {
          assert RangePair(key, records[key]) in tree.items;
        }
      }
      found, value := found && r.x == key, r.y;
    }

    method Remove(key: nat, value: nat)
      requires Valid() && key in records && records[key] == value
      modifies Repr()
      ensures Valid() && fresh(Repr() - old(Repr())) && records == old(records) - {key}
    {
      hide RangeTree.Valid;
      PairsStep(records, key, value);
      var gone := tree.Del(RangePair(key, value));
      assert gone by {
        assert RangePair(key, value) in Pairs(old(records));
      }
      records := records - {key};
    }
  }
}
