/** The pager: page tables in memory, and the walks that map, unmap and translate. */
module Pager {
  import opened Common
  import opened Words
  import opened Pte
  import opened PageTree
  import opened PageIndex
  import HardwareWalk
  import TableCount

  /** A page table. `phy` holds the words the processor reads, `lin` the pointers the software follows;
      both are in the table itself, so they are fields here. */
  class PageTreeNode {
    const pa: nat
    var phy: seq<nat>
    var lin: seq<PageTreeNode?>

    /** The tree below this table as a value, the tables it is made of, and those below each entry. */
    ghost var model: Table
    ghost var tables: set<PageTreeNode>
    ghost var below: seq<set<PageTreeNode>>

    constructor (pa: nat)
      ensures this.pa == pa && |phy| == |lin| == 512
    {
      this.pa := pa;
      phy := seq(512, _ => 0);
      lin := seq(512, _ => null);
    }

    ghost predicate Valid(h: Height)
      reads this, tables
      decreases h
    {
      && |phy| == |lin| == |model.slots| == 512 && model.pa == pa
      && Apart(this, tables, below)
      && (forall i :: 0 <= i < 512 ==> EntryMatches(i))
      && (forall i :: 0 <= i < 512 && model.slots[i].Node? ==>
            h > 0 && lin[i] != null && lin[i] in below[i] && lin[i].tables <= tables && lin[i].Valid(h - 1))
    }

    /** Entry i, and the table it points to, are those of the model. */
    ghost predicate EntryMatches(i: nat)
      reads this, tables
    {
      && i < |phy| == |lin| == |model.slots| == |below|
      && match model.slots[i]
         case Empty => !Present(phy[i]) && below[i] == {}
         case Leaf(w) => phy[i] == w && below[i] == {}
         case Node(w, c) =>
           && phy[i] == w && lin[i] != null && lin[i] in below[i] && lin[i] in tables
           && lin[i].tables == below[i] && lin[i].model == c
    }
  }

  function WithSlot(t: Table, i: nat, s: Slot): Table
    requires i < |t.slots|
  {
    t.(slots := t.slots[i := s])
  }

  ghost predicate EntryOk(h: Height, p: PageTreeNode, i: nat)
    reads p, p.tables
  {
    && p.EntryMatches(i)
    && (p.model.slots[i].Node? ==> h > 0 && p.lin[i].tables <= p.tables && p.lin[i].Valid(h - 1))
  }

  lemma EntryOfValid(h: Height, p: PageTreeNode, i: nat)
    requires p.Valid(h) && i < 512
    ensures EntryOk(h, p, i) && |p.below| == 512 && p !in p.below[i] && p.below[i] <= p.tables
  {
  }

  lemma EntriesApart(h: Height, p: PageTreeNode, i: nat, j: nat)
    requires p.Valid(h) && i < 512 && j < 512 && i != j
    ensures |p.below| == 512 && p.below[i] !! p.below[j]
  {
    ApartPair(p, p.tables, p.below, i, j);
  }

  lemma ApartPair<T>(root: T, tables: set<T>, below: seq<set<T>>, i: nat, j: nat)
    requires Apart(root, tables, below) && i < 512 && j < 512 && i != j
    ensures |below| == 512 && below[i] !! below[j]
  {
    if i < j {
      assert below[i] !! below[j];
    } else {
      assert below[j] !! below[i];
    }
  }

  lemma ApartRoot<T>(root: T, tables: set<T>, below: seq<set<T>>, i: nat)
    requires Apart(root, tables, below) && i < 512
    ensures root in tables && |below| == 512 && root !in below[i] && below[i] <= tables
  {
  }

  lemma ValidShape(h: Height, p: PageTreeNode)
    requires p.Valid(h)
    ensures |p.phy| == |p.lin| == |p.model.slots| == 512 && p.model.pa == p.pa && p in p.tables
    ensures Apart(p, p.tables, p.below)
  {
  }

  lemma ValidFromEntries(h: Height, p: PageTreeNode)
    requires |p.phy| == |p.lin| == |p.model.slots| == 512 && p.model.pa == p.pa
    requires Apart(p, p.tables, p.below)
    requires forall i :: 0 <= i < 512 ==> EntryOk(h, p, i)
    ensures p.Valid(h)
  {
    forall i | 0 <= i < 512
      ensures p.EntryMatches(i)
      ensures p.model.slots[i].Node? ==>
                h > 0 && p.lin[i] in p.below[i] && p.lin[i].tables <= p.tables && p.lin[i].Valid(h - 1)
    {
      assert EntryOk(h, p, i);
    }
  }

  /** `tables` is the root and, entry by entry, pairwise disjoint sets of tables below it. */
  ghost predicate Apart<T>(root: T, tables: set<T>, below: seq<set<T>>) {
    && |below| == 512 && root in tables
    && (forall i :: 0 <= i < 512 ==> below[i] <= tables && root !in below[i])
    && (forall i, j :: 0 <= i < j < 512 ==> below[i] !! below[j])
    && (forall x :: x in tables ==> x == root || exists i :: 0 <= i < 512 && x in below[i])
  }

  lemma ApartUpdate<T>(root: T, tables: set<T>, below: seq<set<T>>, i: nat, kid: set<T>)
    requires Apart(root, tables, below) && i < 512 && kid !! (tables - below[i])
    ensures Apart(root, tables - below[i] + kid, below[i := kid])
  {
    var tables', below' := tables - below[i] + kid, below[i := kid];
    assert root in tables - below[i];
    forall j, k | 0 <= j < k < 512
      ensures below'[j] !! below'[k]
    {
      assert below[j] !! below[k];
      if j == i {
        assert below[k] <= tables - below[i];
      } else if k == i {
        assert below[j] <= tables - below[i];
      }
    }
    forall x | x in tables' && x != root
      ensures exists k :: 0 <= k < 512 && x in below'[k]
    {
      if x in kid {
        assert x in below'[i];
      } else {
        var k :| 0 <= k < 512 && x in below[k];
        assert x in below'[k];
      }
    }
  }

  /** The frames physical memory can have. */
  const FRAMES: nat := 0x100_0000_0000

  /** The reserve the tables come from and go back to. It never fails here; that it cannot run dry is the
      subject of the reserve's own model. */
  class Reserve {
    /** Frames that are not the reserve's: the root's, and those of the memory the managers hand out. */
    const foreign: set<nat>

    var outstanding: set<PageTreeNode>
    var lockCnt: nat

    constructor (foreign: set<nat>)
      ensures this.foreign == foreign && outstanding == {} && lockCnt == 0
    {
      this.foreign, outstanding, lockCnt := foreign, {}, 0;
    }

    /** While locked, the reserve does not renew or trim itself. */
    method Lock()
      modifies `lockCnt
      ensures lockCnt == old(lockCnt) + 1
    {
      lockCnt := lockCnt + 1;
    }

    method Unlock()
      requires lockCnt > 0
      modifies `lockCnt
      ensures lockCnt == old(lockCnt) - 1
    {
      lockCnt := lockCnt - 1;
    }

    /** A unit with unspecified contents, in a frame of the reserve's that no table is in. The pager takes units only
        while the reserve is locked, so that a renewal cannot change the page tree meanwhile. */
    method Alloc() returns (n: PageTreeNode)
      requires lockCnt > 0 && Distinct(outstanding, foreign) && |outstanding| + |foreign| < FRAMES
      modifies `outstanding
      ensures fresh(n) && n !in old(outstanding) && outstanding == old(outstanding) + {n}
      ensures Distinct(outstanding, foreign)
      ensures FrameAddress(n.pa) && |n.phy| == |n.lin| == 512
    {
      FramesUsed(outstanding);
      var pa := UnusedAddress(foreign + FramesOf(outstanding));
      n := new PageTreeNode(pa);
      outstanding := outstanding + {n};
    }

    /** Only a unit that was handed out and has not come back may be freed. */
    method Free(n: PageTreeNode)
      requires n in outstanding
      modifies `outstanding
      ensures outstanding == old(outstanding) - {n}
    {
      outstanding := outstanding - {n};
    }
  }

  /** The units handed out have frames of their own. */
  ghost predicate Distinct(units: set<PageTreeNode>, foreign: set<nat>) {
    && (forall n :: n in units ==> FrameAddress(n.pa) && n.pa !in foreign)
    && (forall m, n :: m in units && n in units && m.pa == n.pa ==> m == n)
  }

  function FramesOf(tables: set<PageTreeNode>): set<nat> {
    set m | m in tables :: m.pa
  }

  lemma {:induction false} FramesUsed(tables: set<PageTreeNode>)
    ensures |FramesOf(tables)| <= |tables|
    decreases |tables|
  {
    if tables == {} {
      assert FramesOf(tables) == {};
    } else {
      var n :| n in tables;
      FramesUsed(tables - {n});
      assert FramesOf(tables) == FramesOf(tables - {n}) + {n.pa};
    }
  }

  method UnusedAddress(used: set<nat>) returns (pa: nat)
    requires |used| < FRAMES
    ensures FrameAddress(pa) && pa !in used
  {
    ghost var k := UnusedFrame(used, FRAMES);
    assert FrameAddress(0x1000 * k) && 0x1000 * k !in used;
    pa :| FrameAddress(pa) && pa !in used;
  }

  /** Of more frames than are used, one is unused. */
  lemma {:induction false} UnusedFrame(used: set<nat>, frames: nat) returns (k: nat)
    requires |used| < frames
    ensures k < frames && 0x1000 * k !in used
    decreases frames
  {
    k := frames - 1;
    if 0x1000 * k in used {
      k := UnusedFrame(used - {0x1000 * k}, frames - 1);
    }
  }

  // Tables in number.

  ghost function UnionBelow<T>(below: seq<set<T>>, n: nat): set<T>
    requires n <= |below|
  {
    if n == 0 then {} else UnionBelow(below, n - 1) + below[n - 1]
  }

  lemma {:induction false} UnionApart<T>(below: seq<set<T>>, n: nat, k: nat)
    requires n <= k < |below| && forall i :: 0 <= i < k ==> below[i] !! below[k]
    ensures UnionBelow(below, n) !! below[k]
  {
    if n == 0 {
    } else {
      UnionApart(below, n - 1, k);
    }
  }

  lemma {:induction false} UnionWithin<T>(below: seq<set<T>>, n: nat, s: set<T>)
    requires n <= |below| && forall i :: 0 <= i < n ==> below[i] <= s
    ensures UnionBelow(below, n) <= s && forall i :: 0 <= i < n ==> below[i] <= UnionBelow(below, n)
  {
    if n == 0 {
    } else {
      UnionWithin(below, n - 1, s);
    }
  }

  lemma UnionOfTables<T>(root: T, tables: set<T>, below: seq<set<T>>)
    requires Apart(root, tables, below)
    ensures tables == {root} + UnionBelow(below, 512) && root !in UnionBelow(below, 512)
  {
    UnionWithin(below, 512, tables - {root});
  }

  lemma {:induction false} CountBelow(h: Height, p: PageTreeNode, n: nat)
    requires p.Valid(h) && n <= 512
    ensures |p.below| == 512 == |p.model.slots|
    ensures |UnionBelow(p.below, n)| == TableCount.TablesBelow(p.model.slots, n)
    decreases h, n
  {
    hide PageTreeNode.Valid;
    ValidShape(h, p);
    if n == 0 {
    } else {
      CountBelow(h, p, n - 1);
      forall i | 0 <= i < n - 1
        ensures p.below[i] !! p.below[n - 1]
      {
        EntriesApart(h, p, i, n - 1);
      }
      UnionApart(p.below, n - 1, n - 1);
      EntryCounted(h, p, n - 1);
    }
  }

  lemma {:induction false} EntryCounted(h: Height, p: PageTreeNode, i: nat)
    requires p.Valid(h) && i < 512
    ensures |p.below| == 512 == |p.model.slots| && |p.below[i]| == TableCount.SlotTables(p.model.slots[i])
    decreases h, i
  {
    hide PageTreeNode.Valid;
    ValidShape(h, p);
    EntryOfValid(h, p, i);
    if p.model.slots[i].Node? {
      TablesCounted(h - 1, p.lin[i]);
    }
  }

  /** The tables of a tree are as many as its value has. */
  lemma {:induction false} TablesCounted(h: Height, p: PageTreeNode)
    requires p.Valid(h)
    ensures |p.tables| == TableCount.Tables(p.model)
    decreases h, 513
  {
    hide PageTreeNode.Valid, Apart, UnionBelow;
    ValidShape(h, p);
    CountBelow(h, p, 512);
    UnionOfTables(p, p.tables, p.below);
  }

  /** Beside so many tables there are frames enough for any tree of height h. */
  ghost predicate Enough(elsewhere: set<PageTreeNode>, foreign: set<nat>, h: Height) {
    |elsewhere| + |foreign| + TableCount.MaxTables(h) <= FRAMES
  }

  /** There are frames enough for any tree of height h in place of the given tables, and the units have frames of their
      own. */
  ghost predicate Stocked(units: set<PageTreeNode>, foreign: set<nat>, tables: set<PageTreeNode>, h: Height) {
    Distinct(units, foreign) && Enough(units - tables, foreign, h)
  }

  /** Only the units elsewhere count. */
  lemma StockedAgain(units: set<PageTreeNode>, units': set<PageTreeNode>, foreign: set<nat>, tables: set<PageTreeNode>,
                     tables': set<PageTreeNode>, h: Height)
    requires Stocked(units, foreign, tables, h) && Distinct(units', foreign) && units' - tables' == units - tables
    ensures Stocked(units', foreign, tables', h)
  {
  }

  lemma DistinctLess(units: set<PageTreeNode>, units': set<PageTreeNode>, foreign: set<nat>)
    requires Distinct(units, foreign) && units' <= units
    ensures Distinct(units', foreign)
  {
  }

  lemma StockedDistinct(units: set<PageTreeNode>, foreign: set<nat>, tables: set<PageTreeNode>, h: Height)
    requires Stocked(units, foreign, tables, h)
    ensures Distinct(units, foreign)
  {
  }

  lemma SetsSplit<T>(a: set<T>, b: set<T>, c: set<T>)
    requires a <= b + c
    ensures |a| <= |b| + |c|
  {
    assert a - c <= b && a * c <= c && a == (a - c) + a * c;
    SubsetCount(a - c, b);
    SubsetCount(a * c, c);
  }

  /** An entry without a table leaves room for one. */
  lemma StockedForOne(reserve: Reserve, h: Height, p: PageTreeNode, i: nat)
    requires Stocked(reserve.outstanding, reserve.foreign, p.tables, h) && h > 0 && i < 512
    requires p.Valid(h) && WellFormed(h, p.model) && !p.model.slots[i].Node?
    ensures Distinct(reserve.outstanding, reserve.foreign) && |reserve.outstanding| + |reserve.foreign| < FRAMES
  {
    hide PageTreeNode.Valid, WellFormed;
    ValidShape(h, p);
    TablesCounted(h, p);
    TableCount.TablesBoundBut(h, p.model, i);
    SetsSplit(reserve.outstanding, reserve.outstanding - p.tables, p.tables);
  }

  /** What is enough for a table is enough below each of its entries. */
  lemma StockedBelow(reserve: Reserve, h: Height, p: PageTreeNode, i: nat)
    requires Stocked(reserve.outstanding, reserve.foreign, p.tables, h) && h > 0 && i < 512
    requires p.Valid(h) && WellFormed(h, p.model) && p.model.slots[i].Node?
    ensures i < |p.lin| && p.lin[i] != null && Stocked(reserve.outstanding, reserve.foreign, p.lin[i].tables, h - 1)
  {
    hide PageTreeNode.Valid, WellFormed;
    ValidShape(h, p);
    EntryOfValid(h, p, i);
    EntryCounted(h, p, i);
    TablesCounted(h, p);
    TableCount.TablesBoundBut(h, p.model, i);
    var child := p.lin[i];
    Difference(p.tables, p.below[i]);
    SetsSplit(reserve.outstanding - child.tables, reserve.outstanding - p.tables, p.tables - p.below[i]);
  }

  lemma Difference<T>(a: set<T>, b: set<T>)
    requires b <= a
    ensures |a - b| == |a| - |b|
  {
    assert a == (a - b) + b;
  }

  /** A unit of the reserve, zeroed: an empty table. */
  method NewTable(reserve: Reserve) returns (n: PageTreeNode)
    requires reserve.lockCnt > 0 && Distinct(reserve.outstanding, reserve.foreign)
    requires |reserve.outstanding| + |reserve.foreign| < FRAMES
    modifies reserve`outstanding
    ensures fresh(n) && n.tables == {n} && FrameAddress(n.pa) && n.model == Blank(n.pa) && n.model.pa == n.pa
    ensures forall h: Height :: n.Valid(h)
    ensures n !in old(reserve.outstanding) && reserve.outstanding == old(reserve.outstanding) + {n}
    ensures Distinct(reserve.outstanding, reserve.foreign)
  {
    n := reserve.Alloc();
    var j := 0;
    while j < 512
      invariant 0 <= j <= 512 && |n.phy| == |n.lin| == 512
      invariant forall k :: 0 <= k < j ==> n.phy[k] == 0
      modifies n
    {
      n.phy := n.phy[j := 0];
      j := j + 1;
    }
    n.model, n.tables, n.below := Blank(n.pa), {n}, seq(512, _ => {});
  }

  /** Makes entry i, which has no table, point to `kid`, which is not part of p yet. */
  method LinkTable(h: Height, p: PageTreeNode, i: nat, word: nat, kid: PageTreeNode)
    requires h > 0 && i < 512 && p.Valid(h) && !p.model.slots[i].Node? && kid.Valid(h - 1) && kid.tables !! p.tables
    modifies p
    ensures p.Valid(h) && p.lin[i] == kid
    ensures p.model == WithSlot(old(p.model), i, Node(word, kid.model))
    ensures p.tables == old(p.tables) + kid.tables
    ensures kid.Valid(h - 1) && kid.tables == old(kid.tables) && kid.model == old(kid.model)
  {
    hide PageTreeNode.Valid;
    EntryOfValid(h, p, i);
    WriteEntry(h, p, i, word, kid, Node(word, kid.model), kid.tables);
  }

  /** Makes entry i point to a table, creating an empty one if the entry is not present. */
  method EnsureTable(h: Height, curPS: PageTreeNode, i: nat, reserve: Reserve)
    requires h > 0 && i < 512 && curPS.Valid(h) && !curPS.model.slots[i].Leaf?
    requires WellFormed(h, curPS.model) && Stocked(reserve.outstanding, reserve.foreign, curPS.tables, h)
    modifies curPS, reserve
    ensures reserve.lockCnt == old(reserve.lockCnt) && Stocked(reserve.outstanding, reserve.foreign, curPS.tables, h)
    ensures curPS.Valid(h) && WellFormed(h, curPS.model) && old(curPS.tables) <= curPS.tables
    ensures fresh(curPS.tables - old(curPS.tables))
    ensures reserve.outstanding == old(reserve.outstanding) + (curPS.tables - old(curPS.tables))
    ensures curPS.model.slots[i].Node?
    ensures old(curPS.model.slots[i].Node?) ==> curPS.model == old(curPS.model)
    ensures old(curPS.model.slots[i].Empty?) ==>
              var pa := curPS.model.slots[i].table.pa;
              && FrameAddress(pa)
              && curPS.model == WithSlot(old(curPS.model), i, Node(NewTableEntry(pa), Blank(pa)))
  {
    hide And, NewTableEntry, Frame, FrameAddress, WellFormed, Blank, PageTreeNode.Valid, Stocked, Distinct, TableWord,
      Enough;
    EntryWord(h, curPS, i);
    PresentBit(curPS.phy[i]);
    if And(curPS.phy[i], 1) == 0 {
      StockedForOne(reserve, h, curPS, i);
      reserve.Lock();
      var newChild := NewTable(reserve);
      LinkTable(h, curPS, i, NewTableEntry(newChild.pa), newChild);
      reserve.Unlock();
      NewSlotWellFormed(h, old(curPS.model), i, newChild.pa);
      StockedAgain(old(reserve.outstanding), reserve.outstanding, reserve.foreign, old(curPS.tables), curPS.tables, h);
    }
  }

  lemma NewSlotWellFormed(h: Height, t: Table, i: nat, pa: nat)
    requires h > 0 && WellFormed(h, t) && i < 512 && FrameAddress(pa)
    ensures |t.slots| == 512 && WellFormed(h, WithSlot(t, i, Node(NewTableEntry(pa), Blank(pa))))
  {
    hide WellFormed, NewTableEntry, Blank, TableWord, FrameAddress;
    NewTableEntryMeaning(pa);
    BlankWellFormed(h - 1, pa);
    BlankPa(pa);
    WithSlotWellFormed(h, t, i, Node(NewTableEntry(pa), Blank(pa)));
  }

  lemma BlankPa(pa: nat)
    ensures Blank(pa).pa == pa
  {
  }

  lemma EntryWord(h: Height, p: PageTreeNode, i: nat)
    requires p.Valid(h) && WellFormed(h, p.model) && i < 512
    ensures i < |p.phy| == |p.lin| == |p.model.slots|
    ensures Present(p.phy[i]) <==> !p.model.slots[i].Empty?
    ensures Present(p.phy[i]) ==> (h == 0 || PageSize(p.phy[i]) <==> p.model.slots[i].Leaf?)
    ensures SlotWellFormed(h, p.model.slots[i])
  {
    assert p.EntryMatches(i);
  }

  lemma PageSizeBit(w: nat)
    ensures And(w, 0x80) != 0 <==> PageSize(w)
  {
    hide Pow2, And;
    Pow2Values();
    var rest, low := Divide(w, 0x80);
    var above, bit := Divide(rest, 2);
    AndSelects(low, bit, above, 7, 1, 0x80, 2);
  }

  lemma PresentBit(w: nat)
    ensures And(w, 1) == w % 2
  {
    Pow2Values();
    AndParts(w % 2, w / 2, 1, 0, 1, 2);
    AndZeroRight(w / 2);
    AndStep(w % 2, 1);
  }

  /** What the model may say of entry i, given the word and the pointer stored there and the tables below it. */
  ghost predicate Records(h: Height, p: PageTreeNode, i: nat, s: Slot, kid: set<PageTreeNode>)
    requires i < |p.phy| == |p.lin|
    reads p, p.lin[i], if p.lin[i] == null then {} else p.lin[i].tables
  {
    match s
    case Empty => !Present(p.phy[i]) && kid == {}
    case Leaf(w) => p.phy[i] == w && kid == {}
    case Node(w, c) =>
      h > 0 && p.phy[i] == w && p.lin[i] != null && p.lin[i].Valid(h - 1) && p.lin[i].tables == kid
          && p.lin[i].model == c
  }

  /** Brings the ghost fields of p up to date after entry i, or the tables below it, have changed. */
  ghost method Record(h: Height, p: PageTreeNode, i: nat, s: Slot, kid: set<PageTreeNode>)
    requires i < 512 && |p.phy| == |p.lin| == |p.model.slots| == 512 && p.model.pa == p.pa
    requires Apart(p, p.tables, p.below) && forall k :: 0 <= k < 512 && k != i ==> EntryOk(h, p, k)
    requires Records(h, p, i, s, kid) && kid !! (p.tables - p.below[i])
    modifies p`model, p`tables, p`below
    ensures p.Valid(h) && p.model == WithSlot(old(p.model), i, s)
    ensures p.tables == old(p.tables) - old(p.below[i]) + kid
    ensures s.Node? ==> p.lin[i].Valid(h - 1) && p.lin[i].model == s.table && p.lin[i].tables == kid
  {
    hide PageTreeNode.Valid, Apart;
    forall k | 0 <= k < 512
      ensures |p.below| == 512 && p !in p.below[k] && p.below[k] <= p.tables && p in p.tables
      ensures k != i ==> p.below[k] !! p.below[i]
    {
      ApartRoot(p, p.tables, p.below, k);
      if k != i {
        ApartPair(p, p.tables, p.below, k, i);
      }
    }
    if s.Node? {
      ValidShape(h - 1, p.lin[i]);
    }
    ApartUpdate(p, p.tables, p.below, i, kid);
    p.model := WithSlot(p.model, i, s);
    p.tables, p.below := p.tables - p.below[i] + kid, p.below[i := kid];
    forall k | 0 <= k < 512
      ensures EntryOk(h, p, k)
    {
      if k != i {
        assert old(EntryOk(h, p, k)) && p !in old(p.below[k]);
      }
    }
    ValidFromEntries(h, p);
  }

  /** The store itself: the other entries are untouched. */
  method StoreEntry(h: Height, p: PageTreeNode, i: nat, word: nat, child: PageTreeNode?)
    requires i < 512 && p.Valid(h)
    modifies p`phy, p`lin
    ensures |p.phy| == |p.lin| == |p.model.slots| == 512 && p.phy[i] == word && (child != null ==> p.lin[i] == child)
    ensures forall k :: 0 <= k < 512 && k != i ==> EntryOk(h, p, k)
  {
    hide PageTreeNode.Valid, Apart, Present;
    ValidShape(h, p);
    forall k | 0 <= k < 512
      ensures EntryOk(h, p, k) && p !in p.below[k] && p.below[k] <= p.tables
    {
      EntryOfValid(h, p, k);
    }
    if child != null {
      p.lin := p.lin[i := child];
    }
    p.phy := p.phy[i := word];
    forall k | 0 <= k < 512 && k != i
      ensures EntryOk(h, p, k)
    {
      assert p.phy[k] == old(p.phy[k]) && p.lin[k] == old(p.lin[k]);
      assert old(EntryOk(h, p, k)) && p !in old(p.below[k]);
      if p.model.slots[k].Node? {
        assert p !in p.lin[k].tables && p.lin[k].Valid(h - 1);
      }
    }
  }

  /** Stores entry i: its word and, when it points to a table, the pointer to it. */
  method WriteEntry(h: Height, p: PageTreeNode, i: nat, word: nat, child: PageTreeNode?, ghost s: Slot,
                    ghost kid: set<PageTreeNode>)
    requires i < 512 && p.Valid(h) && kid !! p.tables
    requires match s
             case Empty => !Present(word) && kid == {}
             case Leaf(w) => word == w && kid == {}
             case Node(w, c) =>
               h > 0 && word == w && child != null && child.Valid(h - 1) && child.tables == kid && child.model == c
    modifies p
    ensures p.Valid(h) && p.model == WithSlot(old(p.model), i, s) && i < |p.lin|
    ensures (child != null ==> p.lin[i] == child)
    ensures p.tables == old(p.tables) - old(p.below[i]) + kid
    ensures s.Node? ==> child.Valid(h - 1) && child.tables == kid && child.model == s.table
  {
    hide PageTreeNode.Valid, Apart, EntryOk;
    ValidShape(h, p);
    EntryOfValid(h, p, i);
    if s.Node? {
      ValidShape(h - 1, child);
    }
    StoreEntry(h, p, i, word, child);
    Record(h, p, i, s, kid);
  }

  lemma SlotOfWellFormed(h: Height, t: Table, i: nat)
    requires WellFormed(h, t) && i < 512
    ensures |t.slots| == 512 && SlotWellFormed(h, t.slots[i])
  {
  }

  lemma WithSlotWellFormed(h: Height, t: Table, i: nat, s: Slot)
    requires WellFormed(h, t) && i < 512 && SlotWellFormed(h, s)
    ensures |t.slots| == 512 && WellFormed(h, WithSlot(t, i, s))
  {
  }

  lemma MissedSlot(h: Height, s: Slot, lo: int, hi: int, phy: int, prefs: u64)
    ensures Misses(h, lo, hi) ==> SlotMapped(h, s, s, lo, hi, phy, prefs) && SlotUnmapped(h, s, s, lo, hi)
  {
  }

  /** No page of lo..hi that the table spans is translated. */
  ghost predicate Free(h: Height, t: Table, lo: int, hi: int)
    requires |t.slots| == 512
  {
    forall q: nat :: q < SlotStart(h, 512) && lo <= q < hi ==> Lookup(h, t, q) == None
  }

  ghost predicate SlotFree(h: Height, s: Slot, lo: int, hi: int) {
    forall r: nat :: r < Pages(h) && lo <= r < hi ==> LookupSlot(h, s, r) == None
  }

  lemma FreeSlot(h: Height, t: Table, lo: int, hi: int, i: nat)
    requires |t.slots| == 512 && Free(h, t, lo, hi) && i < 512
    ensures SlotFree(h, t.slots[i], lo - SlotStart(h, i), hi - SlotStart(h, i))
  {
    hide LookupSlot, Lookup;
    var a := SlotStart(h, i);
    forall r: nat | r < Pages(h) && lo - a <= r < hi - a
      ensures LookupSlot(h, t.slots[i], r) == None
    {
      SlotOrder(h, i, 512);
      LookupAt(h, t, i, r);
      assert Lookup(h, t, a + r) == None;
    }
  }

  /** An entry whose span meets a free range maps no page itself; below it the range is free too. */
  lemma FreeEntry(h: Height, s: Slot, lo: int, hi: int)
    requires SlotFree(h, s, lo, hi) && !Misses(h, lo, hi) && lo < hi && SlotWellFormed(h, s)
    ensures !s.Leaf? && (h == 0 ==> s.Empty?)
    ensures s.Node? ==> h > 0 && |s.table.slots| == 512 && Free(h - 1, s.table, lo, hi)
  {
    hide LeafWord, TableWord, LeafBase, LeafAttributes;
    var r: nat := if lo < 0 then 0 else lo;
    assert LookupSlot(h, s, r) == None;
    if s.Node? {
      SlotSteps(h, 0);
      var g: Height := h - 1;
      forall q: nat | q < SlotStart(g, 512) && lo <= q < hi
        ensures Lookup(g, s.table, q) == None
      {
        assert LookupSlot(h, s, q) == None;
      }
    }
  }

  /** Maps the part of the range that entry i of a page table spans. */
  method PageInLeaf(startPhy: u64, startLin: u64, curPS: PageTreeNode, startLinCurPS: u64, prefs: u64, i: nat,
                    ghost first: nat, ghost count: nat, ghost b: nat)
    requires curPS.Valid(0) && WellFormed(0, curPS.model) && i < 512
    requires startLin == 0x1000 * first && startLinCurPS == 0x1000 * b && Meets(0, first, count, b)
    requires !Misses(0, first - b - i, first + count - b - i) && curPS.model.slots[i].Empty?
    requires FrameRange(first, first + count, startPhy) && Preferences(prefs)
    modifies curPS
    ensures curPS.Valid(0) && curPS.tables == old(curPS.tables)
    ensures curPS.model == WithSlot(old(curPS.model), i, curPS.model.slots[i])
    ensures SlotMapped(0, Empty, curPS.model.slots[i], first - b - i, first + count - b - i, startPhy, prefs)
  {
    hide NewLeafEntry, And, Preferences, LeafWord;
    var curChildLin := startLinCurPS + i * ChildSize(0);
    EntryOfValid(0, curPS, i);
    EntryWord(0, curPS, i);
    PresentBit(curPS.phy[i]);
    assert curChildLin >= startLin;
    assert And(curPS.phy[i], 1) == 0;
    var offset := curChildLin - startLin;
    NewLeafEntryMeaning(startPhy + offset, prefs);
    var word := NewLeafEntry(startPhy + offset, prefs);
    WriteEntry(0, curPS, i, word, null, Leaf(word), {});
    assert offset == 0x1000 * (b + i - first);
  }

  /** Maps below an entry that points to a table. */
  method PageInBelow(startPhy: u64, startLin: u64, length: u64, h: Height, curPS: PageTreeNode, startLinCurPS: u64,
                     prefs: u64, i: nat, reserve: Reserve, ghost first: nat, ghost count: nat, ghost b: nat)
    requires h > 0 && curPS.Valid(h) && WellFormed(h, curPS.model) && i < 512 && curPS.model.slots[i].Node?
    requires startLin == 0x1000 * first && length == 0x1000 * count && startLinCurPS == 0x1000 * b
    requires Meets(h, first, count, b)
    requires !Misses(h, first - b - SlotStart(h, i), first + count - b - SlotStart(h, i))
    requires WellFormed(h - 1, curPS.model.slots[i].table) && |curPS.model.slots[i].table.slots| == 512
    requires Free(h - 1, curPS.model.slots[i].table, first - b - SlotStart(h, i), first + count - b - SlotStart(h, i))
    requires FrameRange(first, first + count, startPhy) && Preferences(prefs)
    requires Stocked(reserve.outstanding, reserve.foreign, curPS.tables, h)
    modifies curPS.tables, reserve
    ensures reserve.lockCnt == old(reserve.lockCnt) && Stocked(reserve.outstanding, reserve.foreign, curPS.tables, h)
    ensures curPS.Valid(h) && old(curPS.tables) <= curPS.tables
    ensures fresh(curPS.tables - old(curPS.tables))
    ensures reserve.outstanding == old(reserve.outstanding) + (curPS.tables - old(curPS.tables))
    ensures curPS.model == WithSlot(old(curPS.model), i, curPS.model.slots[i])
    ensures var s, s' := old(curPS.model.slots[i]), curPS.model.slots[i];
      && s'.Node? && s'.word == s.word
      && Mapped(h - 1, s.table, s'.table, first - b - SlotStart(h, i), first + count - b - SlotStart(h, i), startPhy,
                prefs)
    decreases h, 0
  {
    hide PageTreeNode.Valid, Preferences, WellFormed, Mapped, Free, Frame, TableMet, Apart, Indexable, Stocked,
      Distinct, Enough;
    StockedBelow(reserve, h, curPS, i);
    ValidShape(h, curPS);
    forall k | 0 <= k < 512
      ensures EntryOk(h, curPS, k) && |curPS.below| == 512 && (k != i ==> curPS.below[k] !! curPS.below[i])
    {
      EntryOfValid(h, curPS, k);
      if k != i {
        EntriesApart(h, curPS, k, i);
      }
    }
    EntryOfValid(h, curPS, i);
    var child := curPS.lin[i];
    SlotSteps(h, i);
    ChildMet(h, first, count, b, i);
    PageInNode(startPhy, startLin, length, h - 1, child, startLinCurPS + i * ChildSize(h), prefs, reserve,
               first, count, b + SlotStart(h, i));
    forall k | 0 <= k < 512 && k != i
      ensures EntryOk(h, curPS, k)
    {
      assert old(EntryOk(h, curPS, k));
    }
    StockedDistinct(reserve.outstanding, reserve.foreign, child.tables, h - 1);
    Record(h, curPS, i, Node(curPS.phy[i], child.model), child.tables);
    StockedAgain(old(reserve.outstanding), reserve.outstanding, reserve.foreign, old(curPS.tables), curPS.tables, h);
  }

  /** Maps the part of the range that entry i of a higher table spans. */
  method PageInTable(startPhy: u64, startLin: u64, length: u64, h: Height, curPS: PageTreeNode, startLinCurPS: u64,
                     prefs: u64, i: nat, reserve: Reserve, ghost first: nat, ghost count: nat, ghost b: nat)
    requires h > 0 && curPS.Valid(h) && WellFormed(h, curPS.model) && i < 512
    requires startLin == 0x1000 * first && length == 0x1000 * count && startLinCurPS == 0x1000 * b
    requires Meets(h, first, count, b)
    requires !Misses(h, first - b - SlotStart(h, i), first + count - b - SlotStart(h, i))
    requires SlotFree(h, curPS.model.slots[i], first - b - SlotStart(h, i), first + count - b - SlotStart(h, i))
    requires FrameRange(first, first + count, startPhy) && Preferences(prefs)
    requires Stocked(reserve.outstanding, reserve.foreign, curPS.tables, h)
    modifies curPS.tables, reserve
    ensures reserve.lockCnt == old(reserve.lockCnt) && Stocked(reserve.outstanding, reserve.foreign, curPS.tables, h)
    ensures curPS.Valid(h) && old(curPS.tables) <= curPS.tables
    ensures fresh(curPS.tables - old(curPS.tables))
    ensures reserve.outstanding == old(reserve.outstanding) + (curPS.tables - old(curPS.tables))
    ensures curPS.model == WithSlot(old(curPS.model), i, curPS.model.slots[i])
    ensures SlotMapped(h, old(curPS.model.slots[i]), curPS.model.slots[i],
                       first - b - SlotStart(h, i), first + count - b - SlotStart(h, i), startPhy, prefs)
    decreases h, 1
  {
    hide NewTableEntry, And, Preferences, LeafWord, PageTreeNode.Valid, WellFormed, Mapped, SlotMapped, Frame, TableMet,
      Indexable, Stocked, Distinct, Enough, Free, SlotFree, Misses, Blank, FrameAddress, Apart, SlotStart;
    ghost var lo, hi := first - b - SlotStart(h, i), first + count - b - SlotStart(h, i);
    ValidShape(h, curPS);
    ghost var s := curPS.model.slots[i];
    IndexableBound(first, count);
    EntryWord(h, curPS, i);
    FreeEntry(h, s, lo, hi);
    EnsureTable(h, curPS, i, reserve);
    ValidShape(h, curPS);
    ghost var s1 := curPS.model.slots[i];
    EntryTableFree(h, s, s1, lo, hi);
    PageInBelow(startPhy, startLin, length, h, curPS, startLinCurPS, prefs, i, reserve, first, count, b);
    MappedThroughTable(h, s, s1, curPS.model.slots[i], lo, hi, startPhy, prefs);
  }

  /** Mapping below an entry that had, or was given, a table maps the entry's span. */
  lemma MappedThroughTable(h: Height, s: Slot, s1: Slot, s': Slot, lo: int, hi: int, phy: int, prefs: u64)
    requires h > 0 && !s.Leaf? && !Misses(h, lo, hi) && s1.Node? && s'.Node? && s'.word == s1.word
    requires s.Empty? ==> FrameAddress(s1.table.pa) && s1 == Node(NewTableEntry(s1.table.pa), Blank(s1.table.pa))
    requires s.Node? ==> s1 == s
    requires Mapped(h - 1, s1.table, s'.table, lo, hi, phy, prefs)
    ensures SlotMapped(h, s, s', lo, hi, phy, prefs)
  {
    hide NewTableEntry, Blank, FrameAddress;
  }

  /** The table that entry i points to once it has one. */
  lemma EntryTableFree(h: Height, s: Slot, s': Slot, lo: int, hi: int)
    requires h > 0 && SlotWellFormed(h, s) && SlotFree(h, s, lo, hi) && !Misses(h, lo, hi) && lo < hi
    requires s.Empty? ==> s'.Node? && FrameAddress(s'.table.pa) && s'.table == Blank(s'.table.pa)
    requires s.Node? ==> s' == s
    ensures s'.Node? && WellFormed(h - 1, s'.table) && |s'.table.slots| == 512 && Free(h - 1, s'.table, lo, hi)
  {
    hide LeafWord, TableWord, SlotFree;
    FreeEntry(h, s, lo, hi);
    if s.Empty? {
      BlankWellFormed(h - 1, s'.table.pa);
      BlankFree(h - 1, s'.table.pa, lo, hi);
    }
  }

  lemma BlankFree(h: Height, pa: nat, lo: int, hi: int)
    ensures Free(h, Blank(pa), lo, hi)
  {
    forall q: nat | q < SlotStart(h, 512) && lo <= q < hi
      ensures Lookup(h, Blank(pa), q) == None
    {
      BlankLookup(h, pa, q);
    }
  }

  /** Maps the part of the range that this table spans. */
  method PageInNode(startPhy: u64, startLin: u64, length: u64, h: Height, curPS: PageTreeNode, startLinCurPS: u64,
                    prefs: u64, reserve: Reserve, ghost first: nat, ghost count: nat, ghost b: nat)
    requires curPS.Valid(h) && WellFormed(h, curPS.model)
    requires startLin == 0x1000 * first && length == 0x1000 * count && startLinCurPS == 0x1000 * b
    requires Meets(h, first, count, b)
    requires Free(h, curPS.model, first - b, first + count - b)
    requires FrameRange(first, first + count, startPhy) && Preferences(prefs)
    requires Stocked(reserve.outstanding, reserve.foreign, curPS.tables, h)
    modifies curPS.tables, reserve
    ensures reserve.lockCnt == old(reserve.lockCnt) && Stocked(reserve.outstanding, reserve.foreign, curPS.tables, h)
    ensures curPS.Valid(h) && old(curPS.tables) <= curPS.tables
    ensures fresh(curPS.tables - old(curPS.tables))
    ensures reserve.outstanding == old(reserve.outstanding) + (curPS.tables - old(curPS.tables))
    ensures Mapped(h, old(curPS.model), curPS.model, first - b, first + count - b, startPhy, prefs)
    decreases h, 2
  {
    hide RawIndexStart, RawIndexEnd, PageTreeNode.Valid, WellFormed, SlotWellFormed, SlotMapped, SlotFree, Free,
      Stocked, MappedSoFar, Mapped, Misses;
    ghost var lo, hi := first - b, first + count - b;
    ValidShape(h, curPS);
    ghost var before := curPS.model;
    forall k | 0 <= k < 512
      ensures SlotFree(h, before.slots[k], lo - SlotStart(h, k), hi - SlotStart(h, k))
    {
      FreeSlot(h, before, lo, hi, k);
    }
    var indexStart := RawIndexStart(h, startLin, startLinCurPS);
    var indexEnd := RawIndexEnd(h, startLin, length, startLinCurPS);
    if indexStart < 0 {
      indexStart := 0;
    }
    if indexEnd > 512 {
      indexEnd := 512;
    }
    var i := indexStart;
    IndicesExact(h, first, count, b, 0);
    MappedNothing(h, before, lo, hi, startPhy, prefs, indexStart);
    while i < indexEnd
      invariant indexStart <= i <= indexEnd
      invariant curPS.Valid(h) && WellFormed(h, curPS.model)
      invariant old(curPS.tables) <= curPS.tables && fresh(curPS.tables - old(curPS.tables))
      invariant reserve.outstanding == old(reserve.outstanding) + (curPS.tables - old(curPS.tables))
      invariant MappedSoFar(h, before, curPS.model, lo, hi, startPhy, prefs, indexStart, i)
      invariant reserve.lockCnt == old(reserve.lockCnt)
      invariant Stocked(reserve.outstanding, reserve.foreign, curPS.tables, h)
      modifies curPS.tables, reserve
    {
      IndicesExact(h, first, count, b, i);
      ghost var t := curPS.model;
      SlotOfWellFormed(h, t, i);
      SlotSoFar(h, before, t, lo, hi, startPhy, prefs, indexStart, i);
      ghost var s := t.slots[i];
      if h > 0 {
        PageInTable(startPhy, startLin, length, h, curPS, startLinCurPS, prefs, i, reserve, first, count, b);
      } else {
        EntryWord(h, curPS, i);
        FreeEntry(h, s, lo - SlotStart(h, i), hi - SlotStart(h, i));
        PageInLeaf(startPhy, startLin, curPS, startLinCurPS, prefs, i, first, count, b);
      }
      ghost var s' := curPS.model.slots[i];
      SlotMappedWellFormed(h, s, s', lo - SlotStart(h, i), hi - SlotStart(h, i), startPhy, prefs);
      WithSlotWellFormed(h, t, i, s');
      MappedMore(h, before, t, lo, hi, startPhy, prefs, indexStart, i, s');
      i := i + 1;
    }
    MappedWholly(h, before, curPS.model, startPhy, prefs, indexStart, indexEnd, first, count, b);
  }

  /** The entries from the first to the i-th are mapped, the others are as they were. */
  ghost predicate MappedSoFar(h: Height, t: Table, t': Table, lo: int, hi: int, phy: int, prefs: u64, start: int,
                              i: int)
  {
    && t'.pa == t.pa && |t.slots| == |t'.slots| == 512
    && (forall k :: 0 <= k < 512 && start <= k < i ==>
          SlotMapped(h, t.slots[k], t'.slots[k], lo - SlotStart(h, k), hi - SlotStart(h, k), phy, prefs))
    && (forall k :: 0 <= k < 512 && !(start <= k < i) ==> t'.slots[k] == t.slots[k])
  }

  lemma MappedNothing(h: Height, t: Table, lo: int, hi: int, phy: int, prefs: u64, start: int)
    requires |t.slots| == 512
    ensures MappedSoFar(h, t, t, lo, hi, phy, prefs, start, start)
  {
  }

  lemma SlotSoFar(h: Height, t: Table, t': Table, lo: int, hi: int, phy: int, prefs: u64, start: int, i: nat)
    requires MappedSoFar(h, t, t', lo, hi, phy, prefs, start, i) && i < 512
    ensures |t.slots| == |t'.slots| == 512 && t'.slots[i] == t.slots[i]
  {
  }

  lemma MappedMore(h: Height, t: Table, t': Table, lo: int, hi: int, phy: int, prefs: u64, start: int, i: nat, s: Slot)
    requires MappedSoFar(h, t, t', lo, hi, phy, prefs, start, i) && start <= i < 512
    requires SlotMapped(h, t.slots[i], s, lo - SlotStart(h, i), hi - SlotStart(h, i), phy, prefs)
    ensures MappedSoFar(h, t, WithSlot(t', i, s), lo, hi, phy, prefs, start, i + 1)
  {
    hide SlotMapped, SlotStart;
  }

  /** With all entries mapped that the range meets, the table is. */
  lemma MappedWholly(h: Height, t: Table, t': Table, phy: int, prefs: u64, start: int, end: int, first: nat,
                     count: nat, b: nat)
    requires MappedSoFar(h, t, t', first - b, first + count - b, phy, prefs, start, end) && Meets(h, first, count, b)
    requires start == IndexStart(h, 0x1000 * first, 0x1000 * b)
    requires end == IndexEnd(h, 0x1000 * first, 0x1000 * count, 0x1000 * b)
    ensures Mapped(h, t, t', first - b, first + count - b, phy, prefs)
  {
    hide SlotMapped, SlotStart, IndexStart, IndexEnd, Misses;
    forall k | 0 <= k < 512
      ensures SlotMapped(h, t.slots[k], t'.slots[k], first - b - SlotStart(h, k), first + count - b - SlotStart(h, k),
                  phy, prefs)
    {
      IndicesExact(h, first, count, b, k);
      MissedSlot(h, t.slots[k], first - b - SlotStart(h, k), first + count - b - SlotStart(h, k), phy, prefs);
    }
  }

  // Unmapping.

  /** Every page of lo..hi that the table spans is translated. */
  ghost predicate Full(h: Height, t: Table, lo: int, hi: int)
    requires |t.slots| == 512
  {
    forall q: nat :: q < SlotStart(h, 512) && lo <= q < hi ==> Lookup(h, t, q).Some?
  }

  ghost predicate SlotFull(h: Height, s: Slot, lo: int, hi: int) {
    forall r: nat :: r < Pages(h) && lo <= r < hi ==> LookupSlot(h, s, r).Some?
  }

  lemma FullSlot(h: Height, t: Table, lo: int, hi: int, i: nat)
    requires |t.slots| == 512 && Full(h, t, lo, hi) && i < 512
    ensures SlotFull(h, t.slots[i], lo - SlotStart(h, i), hi - SlotStart(h, i))
  {
    hide LookupSlot, Lookup;
    var a := SlotStart(h, i);
    forall r: nat | r < Pages(h) && lo - a <= r < hi - a
      ensures LookupSlot(h, t.slots[i], r).Some?
    {
      SlotOrder(h, i, 512);
      LookupAt(h, t, i, r);
      assert Lookup(h, t, a + r).Some?;
    }
  }

  /** An entry whose span meets a mapped range is present, and below it the range is mapped too. */
  lemma FullEntry(h: Height, s: Slot, lo: int, hi: int)
    requires SlotFull(h, s, lo, hi) && !Misses(h, lo, hi) && lo < hi && SlotWellFormed(h, s)
    ensures !s.Empty?
    ensures s.Node? ==> h > 0 && WellFormed(h - 1, s.table) && |s.table.slots| == 512 && Full(h - 1, s.table, lo, hi)
  {
    hide LeafWord, TableWord, LeafBase, LeafAttributes;
    var r: nat := if lo < 0 then 0 else lo;
    assert LookupSlot(h, s, r).Some?;
    if s.Node? {
      SlotSteps(h, 0);
      var g: Height := h - 1;
      forall q: nat | q < SlotStart(g, 512) && lo <= q < hi
        ensures Lookup(g, s.table, q).Some?
      {
        assert LookupSlot(h, s, q).Some?;
      }
    }
  }

  lemma SplitFull(h: Height, w: nat, pa: nat, lo: int, hi: int)
    requires 1 <= h <= 2 && w < TWO_64 && LeafWord(h, w) && FrameAddress(pa)
    ensures WellFormed(h - 1, Split(h, w, pa)) && Full(h - 1, Split(h, w, pa), lo, hi)
  {
    hide LeafWord, SplitLeafEntry, LookupSlot, WellFormed;
    SplitLookup(h, w, pa, 0);
    SlotSteps(h, 0);
    var g: Height := h - 1;
    forall q: nat | q < SlotStart(g, 512) && lo <= q < hi
      ensures Lookup(g, Split(h, w, pa), q).Some?
    {
      SplitLookup(h, w, pa, q);
      LeafLookup(h, w, q);
    }
  }

  /** Makes entry i not present; the tables below it, if any, leave the tree. */
  method ClearEntry(h: Height, p: PageTreeNode, i: nat)
    requires i < 512 && p.Valid(h)
    modifies p
    ensures p.Valid(h) && p.model == WithSlot(old(p.model), i, Empty)
    ensures p.tables == old(p.tables) - old(p.below[i])
  {
    hide PageTreeNode.Valid;
    EntryOfValid(h, p, i);
    WriteEntry(h, p, i, 0, null, Empty, {});
  }

  /** The table that is to replace the large page an entry maps. */
  method SplitTable(h: Height, word: u64, reserve: Reserve) returns (newChild: PageTreeNode)
    requires 1 <= h <= 2 && LeafWord(h, word) && reserve.lockCnt > 0
    requires Distinct(reserve.outstanding, reserve.foreign) && |reserve.outstanding| + |reserve.foreign| < FRAMES
    modifies reserve`outstanding
    ensures fresh(newChild) && newChild.tables == {newChild} && FrameAddress(newChild.pa)
    ensures newChild.Valid(h - 1) && newChild.model == Split(h, word, newChild.pa) && newChild.model.pa == newChild.pa
    ensures newChild !in old(reserve.outstanding) && reserve.outstanding == old(reserve.outstanding) + {newChild}
    ensures Distinct(reserve.outstanding, reserve.foreign)
  {
    hide LeafWord, SplitLeafEntry;
    newChild := reserve.Alloc();
    var j := 0;
    while j < 512
      invariant 0 <= j <= 512 && |newChild.phy| == |newChild.lin| == 512
      invariant forall k :: 0 <= k < j ==> newChild.phy[k] == SplitLeafEntry(h, word, k)
      modifies newChild
    {
      newChild.phy := newChild.phy[j := SplitLeafEntry(h, word, j)];
      j := j + 1;
    }
    newChild.model, newChild.tables, newChild.below := Split(h, word, newChild.pa), {newChild}, seq(512, _ => {});
  }

  /** Whether the table has a present entry. */
  method HavePresentChild(h: Height, p: PageTreeNode) returns (have: bool)
    requires p.Valid(h) && WellFormed(h, p.model)
    ensures have <==> !IsBlank(p.model)
  {
    hide And, PageTreeNode.Valid, WellFormed;
    ValidShape(h, p);
    have := false;
    var i := 0;
    while i < 512 && !have
      invariant 0 <= i <= 512 && (have ==> !IsBlank(p.model))
      invariant !have ==> forall k :: 0 <= k < i ==> p.model.slots[k].Empty?
    {
      EntryWord(h, p, i);
      PresentBit(p.phy[i]);
      if And(p.phy[i], 1) != 0 {
        have := true;
      }
      i := i + 1;
    }
  }

  /** The units handed out by the reserve, other than those in the tree below p. */
  ghost function Elsewhere(reserve: Reserve, p: PageTreeNode): set<PageTreeNode>
    reads reserve`outstanding, p`tables
  {
    reserve.outstanding - p.tables
  }

  /** All tables below p came from the reserve. */
  ghost predicate Owned(reserve: Reserve, p: PageTreeNode)
    reads reserve`outstanding, p
  {
    p.tables - {p} <= reserve.outstanding
  }

  /** Unmaps below an entry that points to a table. If that empties the table, it goes back to the reserve
      and the entry is cleared. */
  method PageOutBelow(startLin: u64, length: u64, h: Height, curPS: PageTreeNode, startLinCurPS: u64, i: nat,
                      reserve: Reserve, ghost first: nat, ghost count: nat, ghost b: nat) returns (emptied: bool)
    requires h > 0 && curPS.Valid(h) && i < 512 && curPS.model.slots[i].Node?
    requires WellFormed(h, curPS.model) && WellFormed(h - 1, curPS.model.slots[i].table)
    requires startLin == 0x1000 * first && length == 0x1000 * count && startLinCurPS == 0x1000 * b
    requires Meets(h, first, count, b)
    requires !Misses(h, first - b - SlotStart(h, i), first + count - b - SlotStart(h, i))
    requires Full(h - 1, curPS.model.slots[i].table, first - b - SlotStart(h, i), first + count - b - SlotStart(h, i))
    requires Owned(reserve, curPS) && Stocked(reserve.outstanding, reserve.foreign, curPS.tables, h)
    modifies curPS.tables, reserve
    ensures reserve.lockCnt == old(reserve.lockCnt) && Stocked(reserve.outstanding, reserve.foreign, curPS.tables, h)
    ensures curPS.Valid(h) && fresh(curPS.tables - old(curPS.tables))
    ensures Owned(reserve, curPS) && Elsewhere(reserve, curPS) == old(Elsewhere(reserve, curPS))
    ensures curPS in reserve.outstanding <==> old(curPS in reserve.outstanding)
    ensures curPS.model == WithSlot(old(curPS.model), i, curPS.model.slots[i])
    ensures var s, s' := old(curPS.model.slots[i]), curPS.model.slots[i];
            var t' := if s'.Node? then s'.table else Blank(s.table.pa);
      && (emptied <==> s'.Empty?) && (emptied <==> IsBlank(t')) && !s'.Leaf?
      && (s'.Node? ==> s'.word == s.word)
      && Unmapped(h - 1, s.table, t', first - b - SlotStart(h, i), first + count - b - SlotStart(h, i))
    ensures var lo, hi := first - b - SlotStart(h, i), first + count - b - SlotStart(h, i);
      TableCount.WholePages(h - 1, old(curPS.model.slots[i].table), lo, hi) ==> curPS.tables <= old(curPS.tables)
    decreases h, 0
  {
    hide PageTreeNode.Valid, WellFormed, Unmapped, Full, Blank, Apart, TableMet, Indexable, Stocked, Distinct,
      Enough, TableCount.WholePages;
    StockedBelow(reserve, h, curPS, i);
    ValidShape(h, curPS);
    forall k | 0 <= k < 512
      ensures EntryOk(h, curPS, k) && |curPS.below| == 512 && (k != i ==> curPS.below[k] !! curPS.below[i])
    {
      EntryOfValid(h, curPS, k);
      if k != i {
        EntriesApart(h, curPS, k, i);
      }
    }
    EntryOfValid(h, curPS, i);
    var child := curPS.lin[i];
    SlotSteps(h, i);
    ChildMet(h, first, count, b, i);
    emptied := PageOutNode(startLin, length, h - 1, child, startLinCurPS + i * ChildSize(h), reserve,
                           first, count, b + SlotStart(h, i));
    forall k | 0 <= k < 512 && k != i
      ensures EntryOk(h, curPS, k)
    {
      assert old(EntryOk(h, curPS, k));
    }
    StockedDistinct(reserve.outstanding, reserve.foreign, child.tables, h - 1);
    ValidShape(h - 1, child);
    TablesAccounted(old(curPS.tables), old(curPS.below[i]), child.tables, old(reserve.outstanding), reserve.outstanding,
                    curPS, child, emptied);
    UnmappedPa(h - 1, old(child.model), child.model, first - b - SlotStart(h, i), first + count - b - SlotStart(h, i));
    if emptied {
      BlankTable(h - 1, child);
    }
    DropIfEmptied(h, curPS, i, emptied);
    StockedAgain(old(reserve.outstanding), reserve.outstanding, reserve.foreign, old(curPS.tables), curPS.tables, h);
  }

  /** The entry follows what became of the table it points to. */
  method DropIfEmptied(h: Height, p: PageTreeNode, i: nat, emptied: bool)
    requires h > 0 && i < 512 && |p.phy| == |p.lin| == |p.model.slots| == 512 && p.model.pa == p.pa
    requires Apart(p, p.tables, p.below) && forall k :: 0 <= k < 512 && k != i ==> EntryOk(h, p, k)
    requires p.model.slots[i].Node? && p.model.slots[i].word == p.phy[i]
    requires p.lin[i] != null && p.lin[i].Valid(h - 1) && p.lin[i].tables !! (p.tables - p.below[i])
    modifies p
    ensures p.Valid(h)
    ensures p.model == WithSlot(old(p.model), i, if emptied then Empty else old(Node(p.phy[i], p.lin[i].model)))
    ensures p.tables == old(p.tables) - old(p.below[i]) + (if emptied then {} else old(p.lin[i].tables))
  {
    hide PageTreeNode.Valid;
    Record(h, p, i, Node(p.phy[i], p.lin[i].model), p.lin[i].tables);
    if emptied {
      EntryOfValid(h, p, i);
      ClearEntry(h, p, i);
    }
  }

  /** The accounts of a table whose child has accounted for its own tables. */
  lemma TablesAccounted<T>(tables: set<T>, below: set<T>, below': set<T>, units: set<T>, units': set<T>,
                           p: T, child: T, emptied: bool)
    requires p in tables && p !in below && p !in below' && below <= tables && child in below && child in below'
    requires tables - {p} <= units && below' !! (tables - below)
    requires below' - {child} <= units' && units' - below' == units - below
    requires child in units' <==> child in units && !emptied
    ensures !emptied ==>
              && tables - below + below' - {p} <= units'
              && units' - (tables - below + below') == units - tables
    ensures emptied && below' == {child} ==>
              && tables - below - {p} <= units'
              && units' - (tables - below) == units - tables
    ensures p in units' <==> p in units
  {
    forall x | x in tables - below
      ensures x in units <==> x in units'
    {
      assert x in units - below <==> x in units' - below';
    }
    var left := if emptied then tables - below else tables - below + below';
    if emptied ==> below' == {child} {
      forall x | x in units' - left
        ensures x in units - tables
      {
        assert x in units' - below' <==> x in units - below;
      }
      forall x | x in units - tables
        ensures x in units' - left
      {
        assert x in units' - below' <==> x in units - below;
      }
      assert units' - left == units - tables;
    }
  }

  /** Replaces the large page that entry i maps by a table that maps the same. */
  method SplitEntry(h: Height, curPS: PageTreeNode, i: nat, reserve: Reserve)
    requires 1 <= h <= 2 && i < 512 && curPS.Valid(h) && WellFormed(h, curPS.model) && curPS.model.slots[i].Leaf?
    requires Owned(reserve, curPS) && Stocked(reserve.outstanding, reserve.foreign, curPS.tables, h)
    modifies curPS, reserve
    ensures reserve.lockCnt == old(reserve.lockCnt) && Stocked(reserve.outstanding, reserve.foreign, curPS.tables, h)
    ensures curPS.Valid(h) && WellFormed(h, curPS.model) && fresh(curPS.tables - old(curPS.tables))
    ensures Owned(reserve, curPS) && Elsewhere(reserve, curPS) == old(Elsewhere(reserve, curPS))
    ensures curPS in reserve.outstanding <==> old(curPS in reserve.outstanding)
    ensures curPS.model.slots[i].Node?
    ensures var w, pa := old(curPS.model.slots[i].word), curPS.model.slots[i].table.pa;
      && FrameAddress(pa)
      && curPS.model == WithSlot(old(curPS.model), i, Node(SplitTableEntry(w, pa), Split(h, w, pa)))
  {
    hide PageTreeNode.Valid, WellFormed, SplitTableEntry, LeafWord, Split, Apart, Stocked, Distinct,
      Enough;
    StockedForOne(reserve, h, curPS, i);
    ValidShape(h, curPS);
    EntryWord(h, curPS, i);
    EntryOfValid(h, curPS, i);
    var word := curPS.phy[i];
    reserve.Lock();
    var newChild := SplitTable(h, word, reserve);
    LinkTable(h, curPS, i, SplitTableEntry(word, newChild.pa), newChild);
    reserve.Unlock();
    SplitSlotWellFormed(h, old(curPS.model), i, word, newChild.pa);
    StockedAgain(old(reserve.outstanding), reserve.outstanding, reserve.foreign, old(curPS.tables), curPS.tables, h);
  }

  lemma SplitSlotWellFormed(h: Height, t: Table, i: nat, w: u64, pa: nat)
    requires 1 <= h <= 2 && WellFormed(h, t) && i < 512 && LeafWord(h, w) && FrameAddress(pa)
    ensures |t.slots| == 512 && WellFormed(h, WithSlot(t, i, Node(SplitTableEntry(w, pa), Split(h, w, pa))))
  {
    hide WellFormed, SplitTableEntry, TableWord, FrameAddress, LeafWord, LookupSlot, Lookup;
    SplitTableEntryMeaning(h, w, pa);
    SplitLookup(h, w, pa, 0);
    WithSlotWellFormed(h, t, i, Node(SplitTableEntry(w, pa), Split(h, w, pa)));
  }

  /** Unmaps part of the large page that entry i maps: the page becomes a table first. */
  method PageOutPart(startLin: u64, length: u64, h: Height, curPS: PageTreeNode, startLinCurPS: u64, i: nat,
                     reserve: Reserve, ghost first: nat, ghost count: nat, ghost b: nat)
    requires 1 <= h <= 2 && curPS.Valid(h) && WellFormed(h, curPS.model) && i < 512 && curPS.model.slots[i].Leaf?
    requires curPS.model.slots[i].word < TWO_64 && LeafWord(h, curPS.model.slots[i].word)
    requires startLin == 0x1000 * first && length == 0x1000 * count && startLinCurPS == 0x1000 * b
    requires Meets(h, first, count, b)
    requires !Misses(h, first - b - SlotStart(h, i), first + count - b - SlotStart(h, i))
    requires !Covers(h, first - b - SlotStart(h, i), first + count - b - SlotStart(h, i))
    requires SlotFull(h, curPS.model.slots[i], first - b - SlotStart(h, i), first + count - b - SlotStart(h, i))
    requires Owned(reserve, curPS) && Stocked(reserve.outstanding, reserve.foreign, curPS.tables, h)
    modifies curPS.tables, reserve
    ensures reserve.lockCnt == old(reserve.lockCnt) && Stocked(reserve.outstanding, reserve.foreign, curPS.tables, h)
    ensures curPS.Valid(h) && fresh(curPS.tables - old(curPS.tables))
    ensures Owned(reserve, curPS) && Elsewhere(reserve, curPS) == old(Elsewhere(reserve, curPS))
    ensures curPS in reserve.outstanding <==> old(curPS in reserve.outstanding)
    ensures curPS.model == WithSlot(old(curPS.model), i, curPS.model.slots[i])
    ensures var w, s' := old(curPS.model.slots[i].word), curPS.model.slots[i];
      && s'.Node? && FrameAddress(s'.table.pa) && s'.word == SplitTableEntry(w, s'.table.pa)
      && Unmapped(h - 1, Split(h, w, s'.table.pa), s'.table, first - b - SlotStart(h, i),
                  first + count - b - SlotStart(h, i))
    decreases h, 1
  {
    hide PageTreeNode.Valid, WellFormed, SplitTableEntry, LeafWord, TableWord, Split, Apart, Unmapped, SlotFull, Full,
      IsBlank, Blank, Stocked, Meets, Distinct, Enough, SlotStart, FrameAddress, Misses, Covers, Owned,
      TableCount.WholePages;
    ghost var lo, hi := first - b - SlotStart(h, i), first + count - b - SlotStart(h, i);
    ValidShape(h, curPS);
    ghost var s := curPS.model.slots[i];
    SplitEntry(h, curPS, i, reserve);
    ghost var c := curPS.model.slots[i].table;
    SplitFull(h, s.word, c.pa, lo, hi);
    var emptied := PageOutBelow(startLin, length, h, curPS, startLinCurPS, i, reserve, first, count, b);
    ghost var c' := if curPS.model.slots[i].Node? then curPS.model.slots[i].table else Blank(c.pa);
    UnmappedPa(h - 1, c, c', lo, hi);
    SplitNeverEmptied(h, s.word, c', lo, hi);
    assert !emptied;
  }

  /** Unmaps the part of the range that entry i spans. */
  method PageOutEntry(startLin: u64, length: u64, h: Height, curPS: PageTreeNode, startLinCurPS: u64, i: nat,
                      reserve: Reserve, ghost first: nat, ghost count: nat, ghost b: nat)
    requires curPS.Valid(h) && WellFormed(h, curPS.model) && i < 512
    requires startLin == 0x1000 * first && length == 0x1000 * count && startLinCurPS == 0x1000 * b
    requires Meets(h, first, count, b)
    requires !Misses(h, first - b - SlotStart(h, i), first + count - b - SlotStart(h, i))
    requires SlotFull(h, curPS.model.slots[i], first - b - SlotStart(h, i), first + count - b - SlotStart(h, i))
    requires Owned(reserve, curPS) && Stocked(reserve.outstanding, reserve.foreign, curPS.tables, h)
    modifies curPS.tables, reserve
    ensures reserve.lockCnt == old(reserve.lockCnt) && Stocked(reserve.outstanding, reserve.foreign, curPS.tables, h)
    ensures curPS.Valid(h) && fresh(curPS.tables - old(curPS.tables))
    ensures Owned(reserve, curPS) && Elsewhere(reserve, curPS) == old(Elsewhere(reserve, curPS))
    ensures curPS in reserve.outstanding <==> old(curPS in reserve.outstanding)
    ensures curPS.model == WithSlot(old(curPS.model), i, curPS.model.slots[i])
    ensures SlotUnmapped(h, old(curPS.model.slots[i]), curPS.model.slots[i],
                         first - b - SlotStart(h, i), first + count - b - SlotStart(h, i))
    ensures var lo, hi := first - b - SlotStart(h, i), first + count - b - SlotStart(h, i);
      TableCount.SlotWhole(h, old(curPS.model.slots[i]), lo, hi) ==> curPS.tables <= old(curPS.tables)
    decreases h, 2
  {
    hide PageTreeNode.Valid, WellFormed, SplitTableEntry, LeafWord, TableWord, Split, Apart, Unmapped, SlotUnmapped,
      And, SlotFull, WholeEntry, IndexStart, IndexEnd, Full, IsBlank, Blank, Stocked, TableMet, Indexable, Distinct,
      Enough, TableCount.WholePages;
    IndexableBound(first, count);
    ghost var lo, hi := first - b - SlotStart(h, i), first + count - b - SlotStart(h, i);
    ValidShape(h, curPS);
    EntryWord(h, curPS, i);
    PresentBit(curPS.phy[i]);
    PageSizeBit(curPS.phy[i]);
    ghost var s := curPS.model.slots[i];
    FullEntry(h, s, lo, hi);
    assert And(curPS.phy[i], 1) != 0;
    if h == 0 || And(curPS.phy[i], 0x80) != 0 {
      LeafHeight(h, s);
      IndicesExact(h, first, count, b, i);
      WholeEntryExact(h, first, count, b, i);
      if WholeEntry(h, startLin, length, startLinCurPS, i) {
        EntryOfValid(h, curPS, i);
        ClearEntry(h, curPS, i);
        StockedDistinct(reserve.outstanding, reserve.foreign, old(curPS.tables), h);
        StockedAgain(reserve.outstanding, reserve.outstanding, reserve.foreign, old(curPS.tables), curPS.tables, h);
      } else {
        PartialHeight(h, lo, hi);
        PageOutPart(startLin, length, h, curPS, startLinCurPS, i, reserve, first, count, b);
      }
    } else {
      var _ := PageOutBelow(startLin, length, h, curPS, startLinCurPS, i, reserve, first, count, b);
    }
    SlotUnmappedIntro(h, s, curPS.model.slots[i], lo, hi);
  }

  lemma LeafHeight(h: Height, s: Slot)
    requires s.Leaf? && SlotWellFormed(h, s)
    ensures h <= 2 && s.word < TWO_64 && LeafWord(h, s.word)
  {
  }

  lemma PartialHeight(h: Height, lo: int, hi: int)
    requires h <= 2 && !Misses(h, lo, hi) && !Covers(h, lo, hi)
    ensures h >= 1
  {
  }

  lemma UnmappedPa(h: Height, t: Table, t': Table, lo: int, hi: int)
    requires Unmapped(h, t, t', lo, hi)
    ensures t'.pa == t.pa
  {
  }

  lemma SlotUnmappedIntro(h: Height, s: Slot, s': Slot, lo: int, hi: int)
    requires !Misses(h, lo, hi) && !s.Empty? && (s.Node? ==> h > 0)
    requires s.Leaf? && Covers(h, lo, hi) ==> s'.Empty?
    requires s.Leaf? && !Covers(h, lo, hi) ==>
               && 1 <= h <= 2 && s'.Node? && FrameAddress(s'.table.pa)
               && s'.word == SplitTableEntry(s.word, s'.table.pa)
               && Unmapped(h - 1, Split(h, s.word, s'.table.pa), s'.table, lo, hi)
    requires s.Node? && s'.Empty? ==> Unmapped(h - 1, s.table, Blank(s.table.pa), lo, hi)
    requires s.Node? && !s'.Empty? ==>
               s'.Node? && s'.word == s.word && Unmapped(h - 1, s.table, s'.table, lo, hi) && !IsBlank(s'.table)
    ensures SlotUnmapped(h, s, s', lo, hi)
  {
    hide SplitTableEntry, Split, Blank, IsBlank, FrameAddress;
  }

  /** Unmaps the part of the range that this table spans; frees the table and says so if nothing is left in it. */
  method PageOutNode(startLin: u64, length: u64, h: Height, curPS: PageTreeNode, startLinCurPS: u64, reserve: Reserve,
                     ghost first: nat, ghost count: nat, ghost b: nat) returns (emptied: bool)
    requires curPS.Valid(h) && WellFormed(h, curPS.model)
    requires startLin == 0x1000 * first && length == 0x1000 * count && startLinCurPS == 0x1000 * b
    requires Meets(h, first, count, b)
    requires Full(h, curPS.model, first - b, first + count - b)
    requires Owned(reserve, curPS) && Stocked(reserve.outstanding, reserve.foreign, curPS.tables, h)
    requires curPS in reserve.outstanding || KeepsAPage(h, curPS.model, first - b, first + count - b)
    modifies curPS.tables, reserve
    ensures reserve.lockCnt == old(reserve.lockCnt) && Stocked(reserve.outstanding, reserve.foreign, curPS.tables, h)
    ensures curPS.Valid(h) && fresh(curPS.tables - old(curPS.tables))
    ensures Unmapped(h, old(curPS.model), curPS.model, first - b, first + count - b)
    ensures emptied <==> IsBlank(curPS.model)
    ensures Owned(reserve, curPS) && Elsewhere(reserve, curPS) == old(Elsewhere(reserve, curPS))
    ensures curPS in reserve.outstanding <==> old(curPS in reserve.outstanding) && !emptied
    ensures TableCount.WholePages(h, old(curPS.model), first - b, first + count - b) ==>
              curPS.tables <= old(curPS.tables)
    decreases h, 3
  {
    hide RawIndexStart, RawIndexEnd, PageTreeNode.Valid, WellFormed, SlotWellFormed, SlotUnmapped, SlotFull, Full,
      KeepsAPage, IsBlank, Apart, Stocked, Distinct, Enough,
      TableCount.WholePages, TableCount.SlotWhole, UnmappedSoFar, Unmapped, Misses;
    ghost var whole := TableCount.WholePages(h, curPS.model, first - b, first + count - b);
    ghost var lo, hi := first - b, first + count - b;
    ValidShape(h, curPS);
    ghost var before := curPS.model;
    forall k | 0 <= k < 512
      ensures SlotFull(h, before.slots[k], lo - SlotStart(h, k), hi - SlotStart(h, k))
    {
      FullSlot(h, before, lo, hi, k);
    }
    var indexStart := RawIndexStart(h, startLin, startLinCurPS);
    var indexEnd := RawIndexEnd(h, startLin, length, startLinCurPS);
    if indexStart < 0 {
      indexStart := 0;
    }
    if indexEnd > 512 {
      indexEnd := 512;
    }
    var i := indexStart;
    IndicesExact(h, first, count, b, 0);
    UnmappedNothing(h, before, lo, hi, indexStart);
    while i < indexEnd
      invariant indexStart <= i <= indexEnd
      invariant curPS.Valid(h) && WellFormed(h, curPS.model) && fresh(curPS.tables - old(curPS.tables))
      invariant Owned(reserve, curPS) && Elsewhere(reserve, curPS) == old(Elsewhere(reserve, curPS))
      invariant curPS in reserve.outstanding <==> old(curPS in reserve.outstanding)
      invariant UnmappedSoFar(h, before, curPS.model, lo, hi, indexStart, i)
      invariant whole ==> curPS.tables <= old(curPS.tables)
      invariant reserve.lockCnt == old(reserve.lockCnt)
      invariant Stocked(reserve.outstanding, reserve.foreign, curPS.tables, h)
      modifies curPS.tables, reserve
    {
      IndicesExact(h, first, count, b, i);
      ghost var t := curPS.model;
      SlotOfWellFormed(h, t, i);
      EntrySoFar(h, before, t, lo, hi, indexStart, i);
      ghost var s := t.slots[i];
      WholeSlot(h, before, lo, hi, i);
      PageOutEntry(startLin, length, h, curPS, startLinCurPS, i, reserve, first, count, b);
      ghost var s' := curPS.model.slots[i];
      SlotUnmappedWellFormed(h, s, s', lo - SlotStart(h, i), hi - SlotStart(h, i));
      WithSlotWellFormed(h, t, i, s');
      UnmappedMore(h, before, t, lo, hi, indexStart, i, s');
      i := i + 1;
    }
    UnmappedWholly(h, before, curPS.model, indexStart, indexEnd, first, count, b);
    emptied := FreeIfEmpty(h, curPS, reserve, before, lo, hi);
  }

  /** The entries from the first to the i-th are unmapped, the others are as they were. */
  ghost predicate UnmappedSoFar(h: Height, t: Table, t': Table, lo: int, hi: int, start: int, i: int) {
    && t'.pa == t.pa && |t.slots| == |t'.slots| == 512
    && (forall k :: 0 <= k < 512 && start <= k < i ==>
          SlotUnmapped(h, t.slots[k], t'.slots[k], lo - SlotStart(h, k), hi - SlotStart(h, k)))
    && (forall k :: 0 <= k < 512 && !(start <= k < i) ==> t'.slots[k] == t.slots[k])
  }

  lemma UnmappedNothing(h: Height, t: Table, lo: int, hi: int, start: int)
    requires |t.slots| == 512
    ensures UnmappedSoFar(h, t, t, lo, hi, start, start)
  {
  }

  lemma EntrySoFar(h: Height, t: Table, t': Table, lo: int, hi: int, start: int, i: nat)
    requires UnmappedSoFar(h, t, t', lo, hi, start, i) && i < 512
    ensures |t.slots| == |t'.slots| == 512 && t'.slots[i] == t.slots[i]
  {
  }

  lemma UnmappedMore(h: Height, t: Table, t': Table, lo: int, hi: int, start: int, i: nat, s: Slot)
    requires UnmappedSoFar(h, t, t', lo, hi, start, i) && start <= i < 512
    requires SlotUnmapped(h, t.slots[i], s, lo - SlotStart(h, i), hi - SlotStart(h, i))
    ensures UnmappedSoFar(h, t, WithSlot(t', i, s), lo, hi, start, i + 1)
  {
    hide SlotUnmapped, SlotStart;
  }

  /** With all entries unmapped that the range meets, the table is. */
  lemma UnmappedWholly(h: Height, t: Table, t': Table, start: int, end: int, first: nat, count: nat, b: nat)
    requires UnmappedSoFar(h, t, t', first - b, first + count - b, start, end) && Meets(h, first, count, b)
    requires start == IndexStart(h, 0x1000 * first, 0x1000 * b)
    requires end == IndexEnd(h, 0x1000 * first, 0x1000 * count, 0x1000 * b)
    ensures Unmapped(h, t, t', first - b, first + count - b)
  {
    hide SlotUnmapped, SlotStart, IndexStart, IndexEnd, Misses;
    forall k | 0 <= k < 512
      ensures SlotUnmapped(h, t.slots[k], t'.slots[k], first - b - SlotStart(h, k),
                  first + count - b - SlotStart(h, k))
    {
      IndicesExact(h, first, count, b, k);
      MissedSlot(h, t.slots[k], first - b - SlotStart(h, k), first + count - b - SlotStart(h, k), 0, 0);
    }
  }

  lemma WholeSlot(h: Height, t: Table, lo: int, hi: int, i: nat)
    requires i < 512 == |t.slots|
    ensures TableCount.WholePages(h, t, lo, hi) ==>
              TableCount.SlotWhole(h, t.slots[i], lo - SlotStart(h, i), hi - SlotStart(h, i))
  {
    hide TableCount.SlotWhole;
  }

  /** Once its range is unmapped, a table without a present entry goes back to the reserve. */
  method FreeIfEmpty(h: Height, curPS: PageTreeNode, reserve: Reserve, ghost before: Table, ghost lo: int,
      ghost hi: int)
    returns (emptied: bool)
    requires curPS.Valid(h) && WellFormed(h, curPS.model) && WellFormed(h, before) && |before.slots| == 512
    requires Unmapped(h, before, curPS.model, lo, hi) && Owned(reserve, curPS)
    requires Stocked(reserve.outstanding, reserve.foreign, curPS.tables, h)
    requires curPS in reserve.outstanding || KeepsAPage(h, before, lo, hi)
    modifies reserve`outstanding
    ensures emptied <==> IsBlank(curPS.model)
    ensures reserve.outstanding == old(reserve.outstanding) - if emptied then {curPS} else {}
    ensures Owned(reserve, curPS) && Elsewhere(reserve, curPS) == old(Elsewhere(reserve, curPS))
    ensures Stocked(reserve.outstanding, reserve.foreign, curPS.tables, h)
    ensures curPS in reserve.outstanding <==> old(curPS in reserve.outstanding) && !emptied
  {
    hide PageTreeNode.Valid, WellFormed, Unmapped, KeepsAPage, IsBlank, Stocked, Distinct;
    var havePresentChild := HavePresentChild(h, curPS);
    emptied := !havePresentChild;
    if emptied {
      BlankTable(h, curPS);
      KeepsNonBlank(h, before, curPS.model, lo, hi);
      ghost var units := reserve.outstanding;
      StockedDistinct(units, reserve.foreign, curPS.tables, h);
      reserve.Free(curPS);
      DistinctLess(units, reserve.outstanding, reserve.foreign);
      StockedAgain(units, reserve.outstanding, reserve.foreign, curPS.tables, curPS.tables, h);
    }
  }

  lemma KeepsNonBlank(h: Height, t: Table, t': Table, lo: int, hi: int)
    requires WellFormed(h, t) && Unmapped(h, t, t', lo, hi) && |t.slots| == 512
    ensures KeepsAPage(h, t, lo, hi) ==> !IsBlank(t')
  {
    hide WellFormed, Lookup, SlotUnmapped;
    if KeepsAPage(h, t, lo, hi) {
      var q: nat :| q < SlotStart(h, 512) && !(lo <= q < hi) && Lookup(h, t, q).Some?;
      UnmappedLookup(h, t, t', lo, hi, q);
      if IsBlank(t') {
        LookupOfBlank(h, t', q);
      }
    }
  }

  /** Some page outside the range is translated. */
  ghost predicate KeepsAPage(h: Height, t: Table, lo: int, hi: int)
    requires |t.slots| == 512
  {
    exists q: nat :: q < SlotStart(h, 512) && !(lo <= q < hi) && Lookup(h, t, q).Some?
  }

  /** An empty table has no tables below it. */
  lemma BlankTable(h: Height, p: PageTreeNode)
    requires p.Valid(h) && IsBlank(p.model)
    ensures p.tables == {p} && p.model == Blank(p.pa)
  {
    forall k | 0 <= k < 512
      ensures p.below[k] == {}
    {
      assert p.EntryMatches(k);
    }
    assert p.model.slots == Blank(p.pa).slots;
  }

  // Translation.

  /** The 4 KB entry that maps page q, if there is one, has bit 7 (PAT) clear. */
  ghost predicate SmallPatClear(h: Height, t: Table, q: nat)
    requires |t.slots| == 512
    decreases h
  {
    SlotOfPage(h, q);
    var i := SlotIndex(h, q);
    i < 512 ==>
      match t.slots[i]
      case Empty => true
      case Leaf(w) => h == 0 ==> !PageSize(w)
      case Node(_, c) => h > 0 && |c.slots| == 512 ==> SmallPatClear(h - 1, c, q - SlotStart(h, i))
  }

  /** The software walk: finds the physical address of a linear one by following the `lin` pointers. It is the one the
      processor finds, in every physical memory that holds the tables; 0 stands for "not mapped". */
  method LinToPhy(pml4: PageTreeNode, p: u64) returns (r: nat)
    requires pml4.Valid(3) && WellFormed(3, pml4.model)
    requires SmallPatClear(3, pml4.model, p / 0x1000 % 0x10_0000_0000)
    ensures |pml4.model.slots| == 512
    ensures match Lookup(3, pml4.model, p / 0x1000 % 0x10_0000_0000)
            case None => r == 0
            case Some(m) => r == m.frame + p % 0x1000
    ensures forall mem :: HardwareWalk.Resident(mem, 3, pml4.model) ==>
              match HardwareWalk.HardwareAddress(mem, 3, pml4.pa, p)
              case None => r == 0
              case Some(a) => r == a
  {
    hide HardwareWalk.HardwareAddress, HardwareWalk.Resident;
    r := WalkToByte(pml4, p);
    ValidShape(3, pml4);
    forall mem | HardwareWalk.Resident(mem, 3, pml4.model)
      ensures match HardwareWalk.HardwareAddress(mem, 3, pml4.pa, p)
              case None => r == 0
              case Some(a) => r == a
    {
      HardwareWalk.HardwareBytes(mem, 3, pml4.model, p);
    }
  }

  method WalkToByte(pml4: PageTreeNode, p: u64) returns (r: nat)
    requires pml4.Valid(3) && WellFormed(3, pml4.model)
    requires SmallPatClear(3, pml4.model, p / 0x1000 % 0x10_0000_0000)
    ensures |pml4.model.slots| == 512
    ensures match Lookup(3, pml4.model, p / 0x1000 % 0x10_0000_0000)
            case None => r == 0
            case Some(m) => r == m.frame + p % 0x1000
  {
    hide And, PageTreeNode.Valid, WellFormed, SmallPatClear, Lookup, LookupSlot, LeafWord, TableWord, LeafBase,
        LeafAttributes;
    ghost var page := p / 0x1000 % 0x10_0000_0000;
    ghost var q := page;
    var curNode: PageTreeNode := pml4;
    var height: Height := 3;
    ValidShape(3, pml4);
    while true
      invariant curNode.Valid(height) && WellFormed(height, curNode.model) && |curNode.model.slots| == 512
      invariant q == p / 0x1000 % SlotStart(height, 512)
      invariant SmallPatClear(height, curNode.model, q)
      invariant Lookup(height, curNode.model, q) == Lookup(3, pml4.model, page)
      decreases height
    {
      var index := p / 0x1000 / Pages(height) % 512;
      HardwareWalk.WalkIndex(height, p / 0x1000);
      ghost var rest := q - SlotStart(height, index);
      var word := EntryAt(height, curNode, index);
      PresentBit(word);
      PageSizeBit(word);
      WalkStep(height, curNode.model, index, q);
      if And(word, 1) == 0 {
        return 0;
      }
      if height == 0 || And(word, 0x80) != 0 {
        LeafHeight(height, curNode.model.slots[index]);
        if And(word, 0x80) != 0 {
          assert 0 < height < 3;
          ReservedBitsZero(height, word);
          assert And(word / 0x2000, ReservedMask(height)) == 0;
        }
        OffsetBits(height, p);
        var offset := And(p, ChildSize(height) - 1);
        FrameMask(height, word);
        var pageFrame := And(word, Not(0xFFF0_0000_0000_0FFF));
        if height == 1 || height == 2 {
          pageFrame := And(pageFrame, Not(0x1000));
        }
        return pageFrame + offset;
      }
      EntryOfValid(height, curNode, index);
      ChildWalk(height, curNode.model, index, q);
      curNode := curNode.lin[index];
      height := height - 1;
      q := rest;
    }
  }

  method EntryAt(h: Height, p: PageTreeNode, i: nat) returns (word: nat)
    requires p.Valid(h) && WellFormed(h, p.model) && i < 512
    ensures |p.phy| == 512 && word == p.phy[i] && (!p.model.slots[i].Empty? ==> word < TWO_64)
    ensures Present(word) <==> !p.model.slots[i].Empty?
    ensures Present(word) ==> (h == 0 || PageSize(word) <==> p.model.slots[i].Leaf?)
    ensures SlotWellFormed(h, p.model.slots[i])
    ensures p.model.slots[i].Leaf? ==> p.model.slots[i].word == word
  {
    hide LeafWord, TableWord;
    EntryWord(h, p, i);
    assert p.EntryMatches(i);
    word := p.phy[i];
  }

  /** The bits the source masks out of the frame of a large page to see that they are zero. */
  function ReservedMask(h: Height): nat
    requires 1 <= h <= 2
  {
    if h == 1 then 0xFF else 0x1_FFFF
  }

  lemma WalkStep(h: Height, t: Table, i: nat, q: nat)
    requires |t.slots| == 512 && i < 512 && i == SlotIndex(h, q) && SmallPatClear(h, t, q)
    ensures SlotStart(h, i) <= q && Lookup(h, t, q) == LookupSlot(h, t.slots[i], q - SlotStart(h, i))
    ensures t.slots[i].Empty? ==> Lookup(h, t, q) == None
    ensures t.slots[i].Leaf? ==>
              var w := t.slots[i].word;
              && Lookup(h, t, q) == Some(Mapping(LeafBase(h, w) + 0x1000 * (q - SlotStart(h, i)), LeafAttributes(h, w)))
              && (h == 0 ==> !PageSize(w))
  {
    SlotOfPage(h, q);
  }

  lemma ChildWalk(h: Height, t: Table, i: nat, q: nat)
    requires |t.slots| == 512 && i < 512 && i == SlotIndex(h, q) && SmallPatClear(h, t, q)
    requires t.slots[i].Node? && SlotWellFormed(h, t.slots[i])
    ensures h > 0 && SlotStart(h, i) <= q && |t.slots[i].table.slots| == 512 && WellFormed(h - 1, t.slots[i].table)
    ensures Lookup(h, t, q) == Lookup(h - 1, t.slots[i].table, q - SlotStart(h, i))
    ensures SmallPatClear(h - 1, t.slots[i].table, q - SlotStart(h, i))
  {
    SlotOfPage(h, q);
  }

  lemma ReservedBitsZero(h: Height, w: u64)
    requires 1 <= h <= 2 && LeafWord(h, w)
    ensures And(w / 0x2000, ReservedMask(h)) == 0
  {
    hide And, Pow2;
    Pow2Values();
    Pow2By8(8);
    assert Pow2(17) == 0x2_0000 by { Pow2Add(16, 1); }
    var x := w / 0x2000;
    if h == 1 {
      AndSelects(0, x % 0x100, x / 0x100, 0, 8, 1, 0x100);
    } else {
      AndSelects(0, x % 0x2_0000, x / 0x2_0000, 0, 17, 1, 0x2_0000);
    }
  }

  lemma OffsetBits(h: Height, p: u64)
    requires h <= 2
    ensures And(p, ChildSize(h) - 1) == 0x1000 * (p / 0x1000 % Pages(h)) + p % 0x1000
  {
    hide And, Pow2;
    Pow2Values();
    assert Pow2(30) == 0x4000_0000 by {
      Pow2Add(16, 8);
      ShlBy8(Pow2(16));
      Pow2Add(24, 6);
      ShlBy8(Pow2(24));
    }
    var n, low := Divide(p, 0x1000);
    var above, page := Divide(n, Pages(h));
    match h {
      case 0 => AndSelects(0, low, above, 0, 12, 1, 0x1000);
      case 1 => AndSelects(0, 0x1000 * page + low, above, 0, 21, 1, 0x20_0000);
      case 2 => AndSelects(0, 0x1000 * page + low, above, 0, 30, 1, 0x4000_0000);
    }
  }

  lemma FrameMask(h: Height, w: u64)
    requires LeafWord(h, w)
    ensures var frame := And(w, Not(0xFFF0_0000_0000_0FFF));
      LeafBase(h, w) == if h == 1 || h == 2 then And(frame, Not(0x1000)) else frame
  {
    hide And, LeafBase, Frame, Present, PageSize, LeafAttributes;
    var f := FieldsOf(w);
    FieldMeaning(f);
    FrameBits(f);
    var g := Fields(0, 0, 0, f.pat, f.frame, 0);
    SingleBits(g);
    AndNot(g.Word(), 0x1000);
  }

  // The operations on the whole tree.

  /** Pages of the 48-bit linear space. */
  const LINEAR_PAGES: nat := 0x10_0000_0000

  /** What page q of the linear space translates to. */
  ghost function Translation(pml4: PageTreeNode, q: nat): Option<Mapping>
    requires |pml4.model.slots| == 512
    reads pml4
  {
    Lookup(3, pml4.model, q)
  }

  /** The rights that remain of all entries on the way to page q. */
  ghost function Access(pml4: PageTreeNode, q: nat): Rights
    requires |pml4.model.slots| == 512
    reads pml4
  {
    Path(3, pml4.model, q)
  }

  /** A page tree ready for use: sound, without empty tables, its tables owned by the reserve. */
  ghost predicate Ready(pml4: PageTreeNode, reserve: Reserve)
    reads pml4, pml4.tables, reserve`outstanding
    ensures Ready(pml4, reserve) ==> pml4 in pml4.tables && |pml4.model.slots| == 512
  {
    && pml4.Valid(3) && WellFormed(3, pml4.model) && Tidy(3, pml4.model)
    && Owned(reserve, pml4) && pml4 !in reserve.outstanding && |pml4.model.slots| == 512
    && pml4.pa in reserve.foreign && Stocked(reserve.outstanding, reserve.foreign, pml4.tables, 3)
  }

  /** The accounts of a tree that has changed: dropped tables are back in the reserve, new ones come from it. */
  ghost predicate Accounted(units: set<PageTreeNode>, units': set<PageTreeNode>, tables: set<PageTreeNode>,
                            tables': set<PageTreeNode>)
  {
    units' == units - (tables - tables') + (tables' - tables)
  }

  lemma AccountsBalance<T>(units: set<T>, units': set<T>, tables: set<T>, tables': set<T>, root: T)
    requires tables - {root} <= units && tables' - {root} <= units' && root !in units && root !in units'
    requires units - tables == units' - tables' && root in tables && root in tables'
    ensures units' == units - (tables - tables') + (tables' - tables)
  {
    forall x: T
      ensures x in units <==> x in units - tables || (x in tables && x != root)
      ensures x in units' <==> x in units' - tables' || (x in tables' && x != root)
    {
    }
    forall x: T
      ensures x in units' <==> x in units - (tables - tables') + (tables' - tables)
    {
      assert x in units - tables ==> x !in tables && x !in tables';
    }
  }

  /** A root table without entries is ready for use; no page is translated yet. */
  method EmptyRoot(pa: nat, reserve: Reserve) returns (pml4: PageTreeNode)
    requires FrameAddress(pa) && pa in reserve.foreign && Stocked(reserve.outstanding, reserve.foreign, {}, 3)
    ensures fresh(pml4) && pml4.tables == {pml4} && pml4.pa == pa
    ensures Ready(pml4, reserve) && forall q: nat :: q < LINEAR_PAGES ==> Translation(pml4, q) == None
  {
    hide PageTreeNode.Valid, WellFormed, Tidy, Lookup, Stocked, Blank, Distinct, Enough;
    pml4 := new PageTreeNode(pa);
    pml4.phy := seq(512, _ => 0);
    pml4.model, pml4.tables, pml4.below := Blank(pa), {pml4}, seq(512, _ => {});
    ZeroedValid(3, pml4);
    BlankWellFormed(3, pa);
    EmptyRootTidy(pa);
    StockedDistinct(reserve.outstanding, reserve.foreign, {}, 3);
    assert reserve.outstanding - {pml4} == reserve.outstanding - {};
    StockedAgain(reserve.outstanding, reserve.outstanding, reserve.foreign, {}, {pml4}, 3);
    forall q: nat | q < LINEAR_PAGES
      ensures Lookup(3, pml4.model, q) == None
    {
      BlankLookup(3, pa, q);
    }
  }

  lemma ZeroedValid(h: Height, p: PageTreeNode)
    requires |p.phy| == |p.lin| == |p.below| == 512 && p.model == Blank(p.pa) && p.tables == {p}
    requires forall k :: 0 <= k < 512 ==> p.phy[k] == 0 && p.below[k] == {}
    ensures p.Valid(h) && |p.model.slots| == 512
  {
  }

  lemma EmptyRootTidy(pa: nat)
    ensures Tidy(3, Blank(pa))
  {
    BlankTidy(3, pa);
  }

  lemma UnmappedPatClear(h: Height, t: Table, q: nat)
    requires WellFormed(h, t)
    requires Lookup(h, t, q).Some? ==> !Lookup(h, t, q).value.attributes.pat
    ensures SmallPatClear(h, t, q)
    decreases h
  {
    hide LeafWord, TableWord, LeafBase, PageSize;
    SlotOfPage(h, q);
    var i := SlotIndex(h, q);
    if i < 512 && t.slots[i].Node? {
      assert SlotWellFormed(h, t.slots[i]);
      UnmappedPatClear(h - 1, t.slots[i].table, q - SlotStart(h, i));
    }
  }

  /** Pages are mapped to whole frames. */
  lemma {:induction false} WholeFrame(h: Height, t: Table, q: nat)
    requires WellFormed(h, t)
    ensures Lookup(h, t, q).Some? ==> Lookup(h, t, q).value.frame % 0x1000 == 0
    decreases h
  {
    hide LeafWord, TableWord, LeafBase, LeafAttributes;
    SlotOfPage(h, q);
    var i := SlotIndex(h, q);
    if i < 512 {
      assert SlotWellFormed(h, t.slots[i]);
      match t.slots[i]
      case Empty =>
      case Leaf(w) => WholeBase(h, w, q - SlotStart(h, i));
      case Node(_, c) => WholeFrame(h - 1, c, q - SlotStart(h, i));
    }
  }

  lemma WholeBase(h: Height, w: nat, r: nat)
    ensures (LeafBase(h, w) + 0x1000 * r) % 0x1000 == 0
  {
    hide Frame;
    var k := if h == 0 then w / 0x1000 % 0x100_0000_0000 else 2 * (w / 0x2000 % 0x80_0000_0000);
    assert LeafBase(h, w) == 0x1000 * k by {
      FrameNumber(w);
    }
    DivModUnique(0x1000 * (k + r), 0x1000, k + r, 0);
  }

  lemma FrameNumber(w: nat)
    ensures Frame(w) == 0x1000 * (w / 0x1000 % 0x100_0000_0000)
  {
  }

  /** Maps a linear range to a physical one. */
  method PageIn(pml4: PageTreeNode, startPhy: u64, startLin: u64, length: u64, prefs: u64, reserve: Reserve,
                ghost first: nat, ghost count: nat)
    requires Ready(pml4, reserve) && Indexable(first, count)
    requires startPhy % 0x1000 == 0 && startLin == 0x1000 * first && length == 0x1000 * count
    requires startPhy + length <= 0x10_0000_0000_0000 && Preferences(prefs)
    requires forall q: nat :: first <= q < first + count ==> Translation(pml4, q) == None
    modifies pml4.tables, reserve
    ensures reserve.lockCnt == old(reserve.lockCnt)
    ensures Ready(pml4, reserve) && fresh(pml4.tables - old(pml4.tables))
    ensures Elsewhere(reserve, pml4) == old(Elsewhere(reserve, pml4))
    ensures forall q: nat :: q < LINEAR_PAGES ==>
              Translation(pml4, q) ==
                if first <= q < first + count
                then Some(Mapping(startPhy + 0x1000 * (q - first), PreferenceAttributes(prefs)))
                else old(Translation(pml4, q))
    ensures forall q: nat :: first <= q < first + count ==>
              var (before, lacks) := old((Access(pml4, q), LacksTable(3, pml4.model, q)));
              Access(pml4, q) == Rights(before.write, before.user && !lacks && prefs / 4 % 2 == 1,
                                        before.execute && prefs / 0x8000_0000_0000_0000 % 2 == 0)
    ensures forall q: nat :: q < LINEAR_PAGES && old(Translation(pml4, q)).Some? ==>
              Access(pml4, q) == old(Access(pml4, q))
    ensures forall q: nat :: q < LINEAR_PAGES && !(first <= q < first + count) ==>
              Access(pml4, q).(user := old(Access(pml4, q)).user) == old(Access(pml4, q))
    ensures Mapped(3, old(pml4.model), pml4.model, first, first + count, startPhy, prefs)
    ensures old(pml4.tables) <= pml4.tables
    ensures Accounted(old(reserve.outstanding), reserve.outstanding, old(pml4.tables), pml4.tables)
    ensures TakesFew(old(reserve.outstanding), reserve.outstanding, first, count)
  {
    hide PageTreeNode.Valid, WellFormed, Mapped, Lookup, Preferences, Tidy, PreferenceAttributes, Free, SmallPatClear,
      SizeIs, Stocked, Accounted, TakesFew, Path, LacksTable;
    ghost var tables, units := pml4.tables, reserve.outstanding;
    SizeBefore(pml4);
    IndexableBound(first, count);
    PageNumber(first);
    ghost var t := pml4.model;
    forall q: nat | first <= q < first + count
      ensures Lookup(3, t, q) == None
    {
      assert Translation(pml4, q) == None;
    }
    FreeIntro(t, first, first + count);
    UnmappedPatClear(3, t, first);
    var r := LinToPhy(pml4, startLin);
    assert r == 0;
    PageInNode(startPhy, startLin, length, 3, pml4, 0, prefs, reserve, first, count, 0);
    ValidShape(3, pml4);
    MapAccounts(pml4, t, tables, units, reserve.outstanding, first, count, startPhy, prefs);
    MappedRoot(t, pml4.model, first, first + count, startPhy, prefs);
    RightsRoot(t, pml4.model, first, first + count, startPhy, prefs);
    assert Translation(pml4, first) == Some(Mapping(startPhy, PreferenceAttributes(prefs)));
    PreferencePatClear(prefs);
    UnmappedPatClear(3, pml4.model, first);
    r := LinToPhy(pml4, startLin);
    assert r == startPhy;
  }

  /** Unmaps a linear range. Something outside it must stay mapped, or the root table would be freed. */
  method PageOut(pml4: PageTreeNode, startLin: u64, length: u64, reserve: Reserve, ghost first: nat, ghost count: nat)
    requires Ready(pml4, reserve) && Indexable(first, count)
    requires startLin == 0x1000 * first && length == 0x1000 * count
    requires forall q: nat :: first <= q < first + count ==> Translation(pml4, q).Some?
    requires exists q: nat :: q < LINEAR_PAGES && !(first <= q < first + count)
                              && Translation(pml4, q).Some?
    modifies pml4.tables, reserve
    ensures reserve.lockCnt == old(reserve.lockCnt)
    ensures Ready(pml4, reserve) && fresh(pml4.tables - old(pml4.tables))
    ensures Elsewhere(reserve, pml4) == old(Elsewhere(reserve, pml4))
    ensures forall q: nat :: q < LINEAR_PAGES ==>
              Translation(pml4, q) ==
                if first <= q < first + count then None else old(Translation(pml4, q))
    ensures forall q: nat :: q < LINEAR_PAGES && Translation(pml4, q).Some? ==> Access(pml4, q) == old(Access(pml4, q))
    ensures forall q: nat :: q < LINEAR_PAGES ==> Wider(Access(pml4, q), old(Access(pml4, q)))
    ensures Unmapped(3, old(pml4.model), pml4.model, first, first + count)
    ensures Accounted(old(reserve.outstanding), reserve.outstanding, old(pml4.tables), pml4.tables)
    ensures TableCount.WholePages(3, old(pml4.model), first, first + count) ==> pml4.tables <= old(pml4.tables)
  {
    hide PageTreeNode.Valid, WellFormed, Unmapped, Lookup, Tidy, Full, IsBlank, SmallPatClear, Stocked,
      TableCount.WholePages, Path;
    IndexableBound(first, count);
    ghost var units, tables := reserve.outstanding, pml4.tables;
    assert pml4 in tables;
    PageNumber(first);
    ghost var t := pml4.model;
    forall q: nat | first <= q < first + count
      ensures Lookup(3, t, q).Some?
    {
      assert Translation(pml4, q).Some?;
    }
    FullIntro(t, first, first + count);
    ghost var other: nat :| other < LINEAR_PAGES && !(first <= other < first + count) && Translation(pml4, other).Some?;
    assert Lookup(3, t, other).Some?;
    var _ := PageOutNode(startLin, length, 3, pml4, 0, reserve, first, count, 0);
    ValidShape(3, pml4);
    AccountsBalance(units, reserve.outstanding, tables, pml4.tables, pml4);
    UnmappedRoot(t, pml4.model, first, first + count);
    RightsKept(t, pml4.model, first, first + count);
    assert Translation(pml4, first) == None;
    UnmappedPatClear(3, pml4.model, first);
    var r := LinToPhy(pml4, startLin);
    assert r == 0;
  }

  /** Mapping a range and unmapping it again leaves the tree as it was, entry by entry, and no table unaccounted for. */
  method PageInThenOut(pml4: PageTreeNode, startPhy: u64, startLin: u64, length: u64, prefs: u64, reserve: Reserve,
                ghost first: nat, ghost count: nat)
    requires Ready(pml4, reserve) && Indexable(first, count)
    requires startPhy % 0x1000 == 0 && startLin == 0x1000 * first && length == 0x1000 * count
    requires startPhy + length <= 0x10_0000_0000_0000 && Preferences(prefs)
    requires forall q: nat :: first <= q < first + count ==> Translation(pml4, q) == None
    requires exists q: nat :: q < LINEAR_PAGES && Translation(pml4, q).Some?
    modifies pml4.tables, reserve
    ensures reserve.lockCnt == old(reserve.lockCnt)
    ensures Ready(pml4, reserve) && pml4.model == old(pml4.model)
    ensures pml4.tables == old(pml4.tables) && reserve.outstanding == old(reserve.outstanding)
  {
    hide PageTreeNode.Valid, WellFormed, Mapped, Unmapped, Lookup, Preferences, Tidy, PreferenceAttributes, Stocked,
      Inventory, TableCount.WholePages;
    InventoryOf(3, pml4);
    ghost var tables, units := pml4.tables, reserve.outstanding;
    ghost var t := pml4.model;
    ghost var other: nat :| other < LINEAR_PAGES && Translation(pml4, other).Some?;
    PageIn(pml4, startPhy, startLin, length, prefs, reserve, first, count);
    assert Translation(pml4, other).Some?;
    ghost var t1 := pml4.model;
    ghost var more := pml4.tables;
    TableCount.MappedWhole(3, t, t1, first, first + count, startPhy, prefs);
    FramesApart(pml4, reserve);
    label Between:
    PageOut(pml4, startLin, length, reserve, first, count);
    InventoryOf(3, pml4);
    UnmapUndoesMap(3, t, t1, pml4.model, first, first + count, startPhy, prefs);
    SameInventory(t, tables, pml4.tables, more);
    UnitsBack(units, old@Between(reserve.outstanding), reserve.outstanding, tables, more);
  }

  /** Mapping at most 2 MB takes at most 6 units, and at most 3 if it lies in an aligned 2 MB block. */
  ghost predicate TakesFew(units: set<PageTreeNode>, units': set<PageTreeNode>, first: nat, count: nat) {
    && (count <= 0x200 ==> |units'| <= |units| + TableCount.RANGE_TABLES)
    && (first % 0x200 + count <= 0x200 ==> |units'| <= |units| + TableCount.ALIGNED_TABLES)
  }

  ghost predicate SizeIs(tables: set<PageTreeNode>, t: Table) {
    |tables| == TableCount.Tables(t)
  }

  lemma SizeBefore(p: PageTreeNode)
    requires p.Valid(3)
    ensures SizeIs(p.tables, p.model)
  {
    TablesCounted(3, p);
  }

  lemma MapAccounts(p: PageTreeNode, t: Table, tables: set<PageTreeNode>, units: set<PageTreeNode>,
                    units': set<PageTreeNode>, first: nat, count: nat, phy: int, prefs: u64)
    requires p.Valid(3) && tables <= p.tables && units' == units + (p.tables - tables) && p.tables - tables !! units
    requires SizeIs(tables, t) && WellFormed(3, t) && Mapped(3, t, p.model, first, first + count, phy, prefs)
    requires Indexable(first, count)
    ensures Accounted(units, units', tables, p.tables) && TakesFew(units, units', first, count)
  {
    hide PageTreeNode.Valid, TableCount.Tables, WellFormed, Mapped;
    UnitsTaken(3, p, tables, units, units');
    TableCount.RenewalTables(t, p.model, first, first + count, phy, prefs);
  }

  lemma UnitsTaken(h: Height, p: PageTreeNode, tables: set<PageTreeNode>, units: set<PageTreeNode>,
                   units': set<PageTreeNode>)
    requires p.Valid(h) && tables <= p.tables && units' == units + (p.tables - tables)
    ensures |p.tables| == TableCount.Tables(p.model) && |units'| <= |units| + |p.tables| - |tables|
    ensures p.tables - tables !! units ==> Accounted(units, units', tables, p.tables)
  {
    hide PageTreeNode.Valid, TableCount.Tables;
    TablesCounted(h, p);
    Difference(p.tables, tables);
    SetsSplit(units', units, p.tables - tables);
  }

  lemma UnitsBack<T>(units: set<T>, units1: set<T>, units2: set<T>, tables: set<T>, more: set<T>)
    requires tables <= more && more - tables !! units
    requires units1 == units - (tables - more) + (more - tables)
    requires units2 == units1 - (more - tables) + (tables - more)
    ensures units2 == units
  {
  }

  // Which tables a tree has, by their frames.

  /** The tables are those of the value, each in its frame. */
  ghost predicate Inventory(t: Table, tables: set<PageTreeNode>) {
    && (forall n :: n in tables ==> TableCount.HasTable(t, n.pa))
    && (forall pa :: TableCount.HasTable(t, pa) ==> exists n :: n in tables && n.pa == pa)
  }

  lemma {:induction false} InventoryOf(h: Height, p: PageTreeNode)
    requires p.Valid(h)
    ensures Inventory(p.model, p.tables)
    decreases h
  {
    hide PageTreeNode.Valid;
    ValidShape(h, p);
    forall i | 0 <= i < 512
      ensures EntryOk(h, p, i) && |p.below| == 512 && p.below[i] <= p.tables
      ensures p.model.slots[i].Node? ==> Inventory(p.model.slots[i].table, p.below[i])
    {
      EntryOfValid(h, p, i);
      if p.model.slots[i].Node? {
        InventoryOf(h - 1, p.lin[i]);
      }
    }
    forall n | n in p.tables
      ensures TableCount.HasTable(p.model, n.pa)
    {
      if n != p {
        var i :| 0 <= i < 512 && n in p.below[i];
        assert p.model.slots[i].Node?;
      }
    }
    forall pa | TableCount.HasTable(p.model, pa)
      ensures exists n :: n in p.tables && n.pa == pa
    {
      if pa == p.pa {
        assert p in p.tables;
      } else {
        var i :| 0 <= i < 512 && p.model.slots[i].Node? && TableCount.HasTable(p.model.slots[i].table, pa);
        var n :| n in p.below[i] && n.pa == pa;
        assert n in p.tables;
      }
    }
  }

  /** The tables of a tree have frames of their own. */
  lemma FramesApart(pml4: PageTreeNode, reserve: Reserve)
    requires Ready(pml4, reserve)
    ensures forall m, n :: m in pml4.tables && n in pml4.tables && m.pa == n.pa ==> m == n
  {
    hide PageTreeNode.Valid, WellFormed, Tidy, Enough;
  }

  lemma SameInventory(t: Table, tables: set<PageTreeNode>, tables': set<PageTreeNode>, all: set<PageTreeNode>)
    requires Inventory(t, tables) && Inventory(t, tables') && tables <= all && tables' <= all
    requires forall m, n :: m in all && n in all && m.pa == n.pa ==> m == n
    ensures tables' == tables
  {
    hide TableCount.HasTable;
    forall n | n in tables
      ensures n in tables'
    {
      var m :| m in tables' && m.pa == n.pa;
    }
    forall n | n in tables'
      ensures n in tables
    {
      var m :| m in tables && m.pa == n.pa;
    }
  }

  lemma FullIntro(t: Table, lo: nat, hi: nat)
    requires |t.slots| == 512 && forall q: nat :: lo <= q < hi ==> Lookup(3, t, q).Some?
    ensures Full(3, t, lo, hi)
  {
  }

  lemma FreeIntro(t: Table, lo: nat, hi: nat)
    requires |t.slots| == 512 && forall q: nat :: lo <= q < hi ==> Lookup(3, t, q) == None
    ensures Free(3, t, lo, hi)
  {
  }

  lemma MappedRoot(t: Table, t': Table, lo: nat, hi: nat, phy: nat, prefs: u64)
    requires WellFormed(3, t) && Tidy(3, t) && Mapped(3, t, t', lo, hi, phy, prefs)
    requires Preferences(prefs) && FrameRange(lo, hi, phy) && lo < hi
    ensures WellFormed(3, t') && Tidy(3, t') && |t.slots| == |t'.slots| == 512
    ensures forall q: nat :: q < LINEAR_PAGES ==>
              Lookup(3, t', q) == AfterMap(Lookup(3, t, q), q, lo, hi, phy, prefs)
  {
    hide WellFormed, Lookup, Tidy, SlotMapped, AfterMap;
    MappedWellFormed(3, t, t', lo, hi, phy, prefs);
    MappedTidy(3, t, t', lo, hi, phy, prefs);
    forall q: nat | q < LINEAR_PAGES
      ensures Lookup(3, t', q) == AfterMap(Lookup(3, t, q), q, lo, hi, phy, prefs)
    {
      MappedLookup(3, t, t', lo, hi, phy, prefs, q);
    }
  }

  lemma UnmappedRoot(t: Table, t': Table, lo: nat, hi: nat)
    requires WellFormed(3, t) && Tidy(3, t) && Unmapped(3, t, t', lo, hi)
    ensures WellFormed(3, t') && Tidy(3, t') && |t.slots| == |t'.slots| == 512
    ensures forall q: nat :: q < LINEAR_PAGES ==> Lookup(3, t', q) == if lo <= q < hi then None else Lookup(3, t, q)
  {
    hide WellFormed, Lookup, Tidy, SlotUnmapped;
    UnmappedWellFormed(3, t, t', lo, hi);
    UnmappedTidy(3, t, t', lo, hi);
    forall q: nat | q < LINEAR_PAGES
      ensures Lookup(3, t', q) == if lo <= q < hi then None else Lookup(3, t, q)
    {
      UnmappedLookup(3, t, t', lo, hi, q);
    }
  }

  lemma RightsRoot(t: Table, t': Table, lo: nat, hi: nat, phy: nat, prefs: u64)
    requires WellFormed(3, t) && Mapped(3, t, t', lo, hi, phy, prefs) && |t.slots| == |t'.slots| == 512
    requires Preferences(prefs) && FrameRange(lo, hi, phy) && hi <= LINEAR_PAGES
    ensures forall q: nat :: lo <= q < hi ==>
              var before, lacks := Path(3, t, q), LacksTable(3, t, q);
              Path(3, t', q) == Rights(before.write, before.user && !lacks && prefs / 4 % 2 == 1,
                                       before.execute && prefs / 0x8000_0000_0000_0000 % 2 == 0)
    ensures forall q: nat :: q < LINEAR_PAGES && !(lo <= q < hi) ==>
              && Path(3, t', q).(user := Path(3, t, q).user) == Path(3, t, q)
              && (Lookup(3, t, q).Some? ==> Path(3, t', q) == Path(3, t, q))
  {
    hide WellFormed, Lookup, SlotMapped, Path, LacksTable;
    forall q: nat | q < LINEAR_PAGES
      ensures RightsMapped(Path(3, t, q), Path(3, t', q), LacksTable(3, t, q), Lookup(3, t, q).Some?, q, lo, hi, prefs)
    {
      MappedPath(3, t, t', lo, hi, phy, prefs, q);
    }
  }

  lemma RightsKept(t: Table, t': Table, lo: nat, hi: nat)
    requires WellFormed(3, t) && Unmapped(3, t, t', lo, hi) && |t.slots| == |t'.slots| == 512
    ensures forall q: nat :: q < LINEAR_PAGES ==>
              && Wider(Path(3, t', q), Path(3, t, q))
              && (Lookup(3, t, q).Some? && !(lo <= q < hi) ==> Path(3, t', q) == Path(3, t, q))
  {
    hide WellFormed, Lookup, SlotUnmapped, Path;
    forall q: nat | q < LINEAR_PAGES
      ensures Wider(Path(3, t', q), Path(3, t, q))
      ensures Lookup(3, t, q).Some? && !(lo <= q < hi) ==> Path(3, t', q) == Path(3, t, q)
    {
      UnmappedPath(3, t, t', lo, hi, q);
    }
  }

  lemma PageNumber(q: nat)
    requires q < LINEAR_PAGES
    ensures 0x1000 * q / 0x1000 % 0x10_0000_0000 == q && 0x1000 * q % 0x1000 == 0
  {
  }

  lemma PreferencePatClear(prefs: u64)
    ensures !PreferenceAttributes(prefs).pat
  {
  }

  /** The pass over a table reports it empty, and frees it, exactly when no page outside the range was translated. */
  lemma EmptiedExactly(h: Height, t: Table, t': Table, lo: int, hi: int)
    requires WellFormed(h, t) && Tidy(h, t) && Unmapped(h, t, t', lo, hi) && |t.slots| == 512
    ensures IsBlank(t') <==> !KeepsAPage(h, t, lo, hi)
  {
    hide WellFormed, Lookup, SlotUnmapped, Tidy, IsBlank;
    KeepsNonBlank(h, t, t', lo, hi);
    UnmappedWellFormed(h, t, t', lo, hi);
    UnmappedTidy(h, t, t', lo, hi);
    BlankIffNothingMapped(h, t');
    if !IsBlank(t') {
      var q: nat :| q < SlotStart(h, 512) && Lookup(h, t', q) != None;
      UnmappedLookup(h, t, t', lo, hi, q);
    }
  }
}
