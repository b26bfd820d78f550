/** Sets of free byte ranges. A range is a pair (start, length). */
module RangeSets {
  import opened RangePairs

  const LIMIT: nat := 0x1_0000_0000_0000_0000

  function End(r: RangePair): nat {
    r.x + r.y
  }

  /** Non-empty ranges inside the address space, no two of which overlap or touch. */
  ghost predicate Coalesced(R: set<RangePair>) {
    && (forall r :: r in R ==> r.y > 0 && End(r) < LIMIT)
    && (forall r, s :: r in R && s in R && r.x < s.x ==> End(r) < s.x)
    && (forall r, s :: r in R && s in R && r.x == s.x ==> r == s)
  }

  /** Byte b is free. */
  ghost predicate IsFree(R: set<RangePair>, b: int) {
    exists r :: r in R && r.x <= b < End(r)
  }

  /** All bytes of start..start+size are free. */
  ghost predicate AllFree(R: set<RangePair>, start: nat, size: nat) {
    forall b :: start <= b < start + size ==> IsFree(R, b)
  }

  /** No byte of start..start+size is free. */
  ghost predicate NoneFree(R: set<RangePair>, start: nat, size: nat) {
    forall b :: start <= b < start + size ==> !IsFree(R, b)
  }

  ghost predicate Contains(r: RangePair, start: nat, size: nat) {
    r.x <= start && start + size <= End(r)
  }

  // Taking a range out.

  /** What is left of the free ranges when start..start+size is taken out of r. */
  function Carve(R: set<RangePair>, r: RangePair, start: nat, size: nat): set<RangePair>
    requires Contains(r, start, size)
  {
    (R - {r}) + (if r.x < start then {RangePair(r.x, start - r.x)} else {})
              + (if start + size < End(r) then {RangePair(start + size, End(r) - (start + size))} else {})
  }

  lemma CarveCoalesced(R: set<RangePair>, r: RangePair, start: nat, size: nat)
    requires Coalesced(R) && r in R && Contains(r, start, size) && size > 0
    ensures Coalesced(Carve(R, r, start, size))
  {
    hide Coalesced;
    var rest := R - {r};
    CoalescedPart(R, rest);
    OthersApart(R, r);
    var left, right := RangePair(r.x, start - r.x), RangePair(start + size, End(r) - (start + size));
    var R1 := if r.x < start then rest + {left} else rest;
    if r.x < start {
      OneMore(rest, rest, left);
    }
    var R2 := if start + size < End(r) then R1 + {right} else R1;
    if start + size < End(r) {
      OneMore(R1, R1, right);
    }
    assert R2 == Carve(R, r, start, size);
  }

  lemma CoalescedPart(R: set<RangePair>, rest: set<RangePair>)
    requires Coalesced(R) && rest <= R
    ensures Coalesced(rest)
  {
  }

  lemma OthersApart(R: set<RangePair>, r: RangePair)
    requires Coalesced(R) && r in R
    ensures r.y > 0 && End(r) < LIMIT && forall s :: s in R && s != r ==> End(s) < r.x || End(r) < s.x
  {
  }

  /** Exactly the given bytes stop being free. */
  lemma CarveBytes(R: set<RangePair>, r: RangePair, start: nat, size: nat, b: int)
    requires Coalesced(R) && r in R && Contains(r, start, size) && size > 0
    ensures IsFree(Carve(R, r, start, size), b) <==> IsFree(R, b) && !(start <= b < start + size)
  {
    hide Coalesced, Carve, IsFree;
    if IsFree(R, b) && !(start <= b < start + size) {
      CarveKeeps(R, r, start, size, b);
    }
    if IsFree(Carve(R, r, start, size), b) {
      CarveTakes(R, r, start, size, b);
    }
  }

  lemma CarveKeeps(R: set<RangePair>, r: RangePair, start: nat, size: nat, b: int)
    requires Contains(r, start, size) && IsFree(R, b) && !(start <= b < start + size)
    ensures IsFree(Carve(R, r, start, size), b)
  {
    var C := Carve(R, r, start, size);
    var low, high := RangePair(r.x, start - r.x), RangePair(start + size, End(r) - (start + size));
    var s :| s in R && s.x <= b < End(s);
    if s == r {
      assert b < start ==> low in C;
      assert b >= start + size ==> high in C;
    } else {
      assert s in C;
    }
  }

  lemma CarveTakes(R: set<RangePair>, r: RangePair, start: nat, size: nat, b: int)
    requires Coalesced(R) && r in R && Contains(r, start, size) && size > 0 && IsFree(Carve(R, r, start, size), b)
    ensures IsFree(R, b) && !(start <= b < start + size)
  {
    var s :| s in Carve(R, r, start, size) && s.x <= b < End(s);
    if s !in R {
      assert r.x <= b < End(r);
    }
  }

  /** In a coalesced set, free bytes in a row lie in one range. */
  lemma {:induction false} OneRange(R: set<RangePair>, start: nat, size: nat) returns (r: RangePair)
    requires Coalesced(R) && AllFree(R, start, size) && size > 0
    ensures r in R && Contains(r, start, size)
    decreases size
  {
    assert IsFree(R, start);
    r :| r in R && r.x <= start < End(r);
    assert End(r) < start + size ==> IsFree(R, End(r));
  }

  // Putting a range in.

  ghost predicate EndsAt(R: set<RangePair>, r: RangePair, b: nat) {
    r in R && End(r) == b
  }

  ghost predicate StartsAt(R: set<RangePair>, r: RangePair, b: nat) {
    r in R && r.x == b
  }

  /** Where the merged range starts: at the start of the range that ends at b, if there is one. */
  ghost function MergedStart(R: set<RangePair>, b: nat): nat {
    if exists r :: EndsAt(R, r, b) then var r :| EndsAt(R, r, b); r.x else b
  }

  ghost function MergedEnd(R: set<RangePair>, b: nat): nat {
    if exists r :: StartsAt(R, r, b) then var r :| StartsAt(R, r, b); End(r) else b
  }

  lemma MergedBounds(R: set<RangePair>, b: nat)
    requires Coalesced(R)
    ensures MergedStart(R, b) <= b <= MergedEnd(R, b) && (MergedEnd(R, b) < LIMIT || MergedEnd(R, b) == b)
    ensures forall r :: EndsAt(R, r, b) ==> MergedStart(R, b) == r.x
    ensures forall r :: StartsAt(R, r, b) ==> MergedEnd(R, b) == End(r)
    ensures (forall r :: r in R ==> End(r) != b) ==> MergedStart(R, b) == b
    ensures (forall r :: r in R ==> r.x != b) ==> MergedEnd(R, b) == b
  {
    forall r, s | EndsAt(R, r, b) && EndsAt(R, s, b)
      ensures r == s
    {
      assert r.x < s.x ==> End(r) < s.x;
      assert s.x < r.x ==> End(s) < r.x;
    }
  }

  /** The free ranges once start..start+size is given back. */
  ghost function Merge(R: set<RangePair>, start: nat, size: nat): set<RangePair>
    requires Coalesced(R)
  {
    MergedBounds(R, start);
    MergedBounds(R, start + size);
    (set r | r in R && End(r) != start && r.x != start + size)
    + {RangePair(MergedStart(R, start), MergedEnd(R, start + size) - MergedStart(R, start))}
  }

  /** A range not touching the new bytes lies wholly before or wholly after the merged range. */
  lemma Outside(R: set<RangePair>, start: nat, size: nat, r: RangePair)
    requires Coalesced(R) && NoneFree(R, start, size) && size > 0 && r in R
    ensures End(r) <= start || start + size <= r.x
    ensures End(r) < start ==> End(r) < MergedStart(R, start)
    ensures start + size < r.x ==> MergedEnd(R, start + size) < r.x
  {
    MergedBounds(R, start);
    MergedBounds(R, start + size);
    if r.x <= start && start < End(r) {
      assert IsFree(R, start);
    }
    if start <= r.x < start + size {
      assert IsFree(R, r.x);
    }
    if End(r) < start && exists s :: EndsAt(R, s, start) {
      var s :| EndsAt(R, s, start);
      assert r.x < s.x;
    }
    var end := start + size;
    if end < r.x && exists s :: StartsAt(R, s, end) {
      var s :| StartsAt(R, s, end);
    }
  }

  lemma MergeCoalesced(R: set<RangePair>, start: nat, size: nat)
    requires Coalesced(R) && NoneFree(R, start, size) && size > 0 && start + size < LIMIT
    ensures Coalesced(Merge(R, start, size))
  {
    hide MergedStart, MergedEnd, NoneFree, Coalesced;
    MergedBounds(R, start);
    MergedBounds(R, start + size);
    var rest := set r | r in R && End(r) != start && r.x != start + size;
    var m := RangePair(MergedStart(R, start), MergedEnd(R, start + size) - MergedStart(R, start));
    forall r | r in rest
      ensures r in R && (End(r) < m.x || End(m) < r.x)
    {
      Outside(R, start, size, r);
    }
    OneMore(R, rest, m);
  }

  /** A range that touches no other may be added. */
  lemma OneMore(R: set<RangePair>, rest: set<RangePair>, m: RangePair)
    requires Coalesced(R) && rest <= R && m.y > 0 && End(m) < LIMIT
    requires forall r :: r in rest ==> End(r) < m.x || End(m) < r.x
    ensures Coalesced(rest + {m})
  {
    forall r, s | r in rest + {m} && s in rest + {m} && (r == m || s == m)
      ensures r.x < s.x ==> End(r) < s.x
      ensures r.x == s.x ==> r == s
    {
    }
  }

  /** Exactly the given bytes become free. */
  lemma MergeBytes(R: set<RangePair>, start: nat, size: nat, b: int)
    requires Coalesced(R) && NoneFree(R, start, size) && size > 0
    ensures IsFree(Merge(R, start, size), b) <==> IsFree(R, b) || start <= b < start + size
  {
    hide Coalesced, NoneFree, Merge, IsFree;
    if IsFree(Merge(R, start, size), b) {
      MergeFreesNoMore(R, start, size, b);
    }
    if IsFree(R, b) || start <= b < start + size {
      MergeFreesAll(R, start, size, b);
    }
  }

  lemma MergeFreesNoMore(R: set<RangePair>, start: nat, size: nat, b: int)
    requires Coalesced(R) && IsFree(Merge(R, start, size), b)
    ensures IsFree(R, b) || start <= b < start + size
  {
    hide Coalesced, NoneFree;
    MergedBounds(R, start);
    MergedBounds(R, start + size);
    var r :| r in Merge(R, start, size) && r.x <= b < End(r);
    if r !in R {
      if b < start {
        var s :| EndsAt(R, s, start);
        assert s in R && s.x <= b < End(s);
      } else if start + size <= b {
        var end := start + size;
        var s :| StartsAt(R, s, end);
        assert s in R && s.x <= b < End(s);
      }
    }
  }

  lemma MergeFreesAll(R: set<RangePair>, start: nat, size: nat, b: int)
    requires Coalesced(R) && NoneFree(R, start, size) && size > 0
    requires IsFree(R, b) || start <= b < start + size
    ensures IsFree(Merge(R, start, size), b)
  {
    hide Coalesced, NoneFree, MergedStart, MergedEnd;
    var M := Merge(R, start, size);
    var m := RangePair(MergedStart(R, start), MergedEnd(R, start + size) - MergedStart(R, start));
    MergedBounds(R, start);
    MergedBounds(R, start + size);
    assert m in M;
    if IsFree(R, b) {
      var r :| r in R && r.x <= b < End(r);
      Outside(R, start, size, r);
      assert EndsAt(R, r, start) || StartsAt(R, r, start + size) || r in M;
    }
  }

  // The coalesced form is unique.

  lemma SameBytesContained(R: set<RangePair>, S: set<RangePair>, r: RangePair) returns (s: RangePair)
    requires Coalesced(R) && Coalesced(S) && r in R && forall b :: IsFree(R, b) ==> IsFree(S, b)
    ensures s in S && Contains(s, r.x, r.y)
  {
    forall b | r.x <= b < r.x + r.y
      ensures IsFree(S, b)
    {
      assert IsFree(R, b);
    }
    s := OneRange(S, r.x, r.y);
  }

  lemma SameBytesSubset(R: set<RangePair>, S: set<RangePair>)
    requires Coalesced(R) && Coalesced(S) && forall b :: IsFree(R, b) <==> IsFree(S, b)
    ensures R <= S
  {
    forall r | r in R
      ensures r in S
    {
      var s := SameBytesContained(R, S, r);
      var r' := SameBytesContained(S, R, s);
      assert r' == r;
    }
  }

  /** Coalesced sets with the same free bytes are the same set of ranges. */
  lemma SameBytesSameRanges(R: set<RangePair>, S: set<RangePair>)
    requires Coalesced(R) && Coalesced(S) && forall b :: IsFree(R, b) <==> IsFree(S, b)
    ensures R == S
  {
    SameBytesSubset(R, S);
    SameBytesSubset(S, R);
  }

  /** Giving back what was just taken restores the ranges. */
  lemma MergeUndoesCarve(R: set<RangePair>, r: RangePair, start: nat, size: nat)
    requires Coalesced(R) && r in R && Contains(r, start, size) && size > 0
    ensures Coalesced(Carve(R, r, start, size)) && NoneFree(Carve(R, r, start, size), start, size)
    ensures Merge(Carve(R, r, start, size), start, size) == R
  {
    hide Coalesced, IsFree, Merge, Carve;
    var C := Carve(R, r, start, size);
    CarveCoalesced(R, r, start, size);
    forall b | start <= b < start + size
      ensures !IsFree(C, b)
    {
      CarveBytes(R, r, start, size, b);
    }
    EndBelowLimit(R, r);
    MergeCoalesced(C, start, size);
    forall b
      ensures IsFree(Merge(C, start, size), b) <==> IsFree(R, b)
    {
      CarveBytes(R, r, start, size, b);
      MergeBytes(C, start, size, b);
      if start <= b < start + size {
        InRange(R, r, b);
      }
    }
    SameBytesSameRanges(Merge(C, start, size), R);
  }

  lemma EndBelowLimit(R: set<RangePair>, r: RangePair)
    requires Coalesced(R) && r in R
    ensures End(r) < LIMIT && r.y > 0
  {
  }

  lemma InRange(R: set<RangePair>, r: RangePair, b: int)
    requires r in R && r.x <= b < End(r)
    ensures IsFree(R, b)
  {
  }

  // The number of free bytes.

  ghost function Total(R: set<RangePair>): nat {
    if R == {} then 0 else var r :| r in R; r.y + Total(R - {r})
  }

  lemma {:induction false} TotalRemove(R: set<RangePair>, p: RangePair)
    requires p in R
    ensures Total(R) == p.y + Total(R - {p})
    decreases R
  {
    var r :| r in R && Total(R) == r.y + Total(R - {r});
    if r != p {
      TotalRemove(R - {r}, p);
      TotalRemove(R - {p}, r);
      assert R - {r} - {p} == R - {p} - {r};
    }
  }

  lemma TotalAdd(R: set<RangePair>, p: RangePair)
    requires p !in R
    ensures Total(R + {p}) == Total(R) + p.y
  {
    TotalRemove(R + {p}, p);
    assert R + {p} - {p} == R;
  }

  lemma TotalCarve(R: set<RangePair>, r: RangePair, start: nat, size: nat)
    requires Coalesced(R) && r in R && Contains(r, start, size) && size > 0
    ensures Total(R) == Total(Carve(R, r, start, size)) + size
  {
    hide Total;
    var low, high := RangePair(r.x, start - r.x), RangePair(start + size, End(r) - (start + size));
    var rest := R - {r};
    TotalRemove(R, r);
    assert forall s :: s in rest ==> s.x != r.x && s.x != high.x;
    var some := if r.x < start then rest + {low} else rest;
    if r.x < start {
      TotalAdd(rest, low);
    }
    if start + size < End(r) {
      TotalAdd(some, high);
    }
    assert Carve(R, r, start, size) == if start + size < End(r) then some + {high} else some;
  }

  /** Giving bytes back and taking them again restores the ranges; so the free bytes grow by exactly the size. */
  lemma TotalMerge(R: set<RangePair>, start: nat, size: nat)
    requires Coalesced(R) && NoneFree(R, start, size) && size > 0 && start + size < LIMIT
    ensures Total(Merge(R, start, size)) == Total(R) + size
  {
    hide Coalesced, IsFree, Merge, Carve, Total, NoneFree;
    var M := Merge(R, start, size);
    MergeCoalesced(R, start, size);
    forall b | start <= b < start + size
      ensures IsFree(M, b)
    {
      MergeBytes(R, start, size, b);
    }
    var m := OneRange(M, start, size);
    TotalCarve(M, m, start, size);
    CarveCoalesced(M, m, start, size);
    forall b
      ensures IsFree(Carve(M, m, start, size), b) <==> IsFree(R, b)
    {
      CarveBytes(M, m, start, size, b);
      MergeBytes(R, start, size, b);
      NotFreeAt(R, start, size, b);
    }
    SameBytesSameRanges(Carve(M, m, start, size), R);
  }

  lemma NotFreeAt(R: set<RangePair>, start: nat, size: nat, b: int)
    requires NoneFree(R, start, size)
    ensures start <= b < start + size ==> !IsFree(R, b)
  {
  }
}
