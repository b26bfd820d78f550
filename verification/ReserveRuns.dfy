/** The reserve's accounts. The reserve is renewed by allocating memory, which takes page tables and tree nodes from the
    reserve itself; this module shows that it never runs dry on the way. */
module ReserveRuns {
  import opened Words
  import opened ChunkLayout
  import opened AddressSpaceManager
  import opened TableCount

  /** Below or at MIN free units an unlocked reserve renews itself, above MAX it trims itself. */
  const MIN: nat := 8
  const MAX: nat := 500

  /** The units of a chunk of the reserve, and the nodes that one unit holds in the heaps of the range trees. */
  const RESERVE_UNITS: nat := 254
  const AVL_NODES: nat := 169
  const ASLR_NODES: nat := 127

  /** Above this many free nodes the heaps of the range trees give unused units back. */
  const HEAP_MAX: nat := 400

  /** These are the numbers of slots the slab allocator computes: for units of 8192 bytes in chunks of 2 MB, and for
      nodes of 48 and of 64 bytes in such units. */
  lemma SlotCounts()
    ensures Optimal(0x20_0000, 8192, Padding(8192), RESERVE_UNITS)
    ensures Optimal(8192, 48, Padding(8), AVL_NODES) && Optimal(8192, 64, Padding(8), ASLR_NODES)
    ensures MIN < RESERVE_UNITS <= MAX - MIN && AVL_NODES <= HEAP_MAX && ASLR_NODES <= HEAP_MAX
  {
  }

  /** The free units of the reserve, and the free nodes of the two heaps of the range trees. */
  datatype Accounts = Accounts(units: nat, avl: nat, aslr: nat)

  /** What a locked operation does to the accounts. A node heap that gets a node back may give units back, as many as it
      has unused ones and as it has nodes too many. */
  datatype Action =
    | TakeUnit | GiveUnit
    | TakeAvl | GiveAvl(unused: nat)
    | TakeAslr | GiveAslr(unused: nat)

  datatype Outcome = Ok(s: Accounts) | RanDry

  /** The units that go back when a heap has `nodes` free nodes, of which `unused` whole units. */
  function Trimmed(nodes: nat, perUnit: nat, unused: nat): (k: nat)
    requires perUnit > 0
    ensures k > 0 ==> k * perUnit <= nodes && nodes - k * perUnit > HEAP_MAX - perUnit
    decreases unused
  {
    if unused > 0 && nodes > HEAP_MAX && nodes >= perUnit then 1 + Trimmed(nodes - perUnit, perUnit, unused - 1) else 0
  }

  function Act(s: Accounts, a: Action): Outcome {
    match a
    case TakeUnit => if s.units == 0 then RanDry else Ok(s.(units := s.units - 1))
    case GiveUnit => Ok(s.(units := s.units + 1))
    case TakeAvl =>
      if s.avl > 0 then Ok(s.(avl := s.avl - 1))
      else if s.units == 0 then RanDry
      else Ok(s.(units := s.units - 1, avl := AVL_NODES - 1))
    case GiveAvl(unused) =>
      var k := Trimmed(s.avl + 1, AVL_NODES, unused);
      Ok(s.(units := s.units + k, avl := s.avl + 1 - k * AVL_NODES))
    case TakeAslr =>
      if s.aslr > 0 then Ok(s.(aslr := s.aslr - 1))
      else if s.units == 0 then RanDry
      else Ok(s.(units := s.units - 1, aslr := ASLR_NODES - 1))
    case GiveAslr(unused) =>
      var k := Trimmed(s.aslr + 1, ASLR_NODES, unused);
      Ok(s.(units := s.units + k, aslr := s.aslr + 1 - k * ASLR_NODES))
  }

  function ActAll(s: Accounts, actions: seq<Action>): Outcome
    decreases |actions|
  {
    if actions == [] then Ok(s)
    else
      match Act(s, actions[0])
      case RanDry => RanDry
      case Ok(s') => ActAll(s', actions[1..])
  }

  /** How often an action occurs. */
  function Times(actions: seq<Action>, a: Action): nat {
    if actions == [] then 0 else (if actions[0] == a then 1 else 0) + Times(actions[1..], a)
  }

  /** What is taken at most: page tables, nodes of the plain trees and nodes of the randomized one. */
  predicate Demand(actions: seq<Action>, tables: nat, avl: nat, aslr: nat) {
    Times(actions, TakeUnit) <= tables && Times(actions, TakeAvl) <= avl && Times(actions, TakeAslr) <= aslr
  }

  /** The units a demand may cost: one for each table, and one for each node heap that may run out. */
  function Cost(s: Accounts, tables: nat, avl: nat, aslr: nat): nat {
    tables + (if s.avl < avl then 1 else 0) + (if s.aslr < aslr then 1 else 0)
  }

  /** A demand is met if the reserve has the units it may cost, and costs no more. */
  lemma {:induction false} DemandMet(s: Accounts, actions: seq<Action>, tables: nat, avl: nat, aslr: nat)
    requires Demand(actions, tables, avl, aslr) && avl <= 100 && aslr <= 100
    requires s.units >= Cost(s, tables, avl, aslr)
    ensures ActAll(s, actions).Ok? && ActAll(s, actions).s.units >= s.units - Cost(s, tables, avl, aslr)
    decreases |actions|
  {
    if actions == [] {
    } else {
      var a, rest := actions[0], actions[1..];
      var tables' := if a == TakeUnit then tables - 1 else tables;
      var avl' := if a == TakeAvl then avl - 1 else avl;
      var aslr' := if a == TakeAslr then aslr - 1 else aslr;
      assert Act(s, a).Ok?;
      DemandMet(Act(s, a).s, rest, tables', avl', aslr');
    }
  }

  lemma {:induction false} ActAllInTwo(s: Accounts, first: seq<Action>, second: seq<Action>)
    ensures ActAll(s, first + second)
         == if ActAll(s, first).Ok? then ActAll(ActAll(s, first).s, second) else RanDry
    decreases |first|
  {
    if first == [] {
      assert first + second == second;
    } else {
      assert (first + second)[1..] == first[1..] + second;
      if Act(s, first[0]).Ok? {
        ActAllInTwo(Act(s, first[0]).s, first[1..], second);
      }
    }
  }

  lemma {:induction false} TimesInTwo(first: seq<Action>, second: seq<Action>, a: Action)
    ensures Times(first + second, a) == Times(first, a) + Times(second, a)
    decreases |first|
  {
    if first == [] {
      assert first + second == second;
    } else {
      assert (first + second)[1..] == first[1..] + second;
      TimesInTwo(first[1..], second, a);
    }
  }

  // Whole runs.

  /** What happens from taking the outermost lock to releasing it, and then: the renewal, if the reserve is low, and the
      chunks it trims, if it is high. */
  datatype Section = Section(actions: seq<Action>, renewal: seq<Action>, trims: seq<seq<Action>>)

  /** Page tables are taken one at a time, by the pager. The managers of the two address spaces take nodes for cuts in
      two trees each; one of the four trees is the randomized one. */
  predicate OneOperation(actions: seq<Action>) {
    Demand(actions, 1, 0, 0) || Demand(actions, 0, 2 * CUT_NODES, CUT_NODES)
  }

  /** An allocation of 2 MB that begins at a multiple of 2 MB, with the tables for its pages and the nodes of one
      operation on each space. */
  predicate OneBlock(actions: seq<Action>) {
    Demand(actions, ALIGNED_TABLES, 3 * CUT_NODES, CUT_NODES)
  }

  /** A renewal allocates a chunk, and giving a chunk back takes no more. */
  predicate Legal(x: Section) {
    OneOperation(x.actions) && OneBlock(x.renewal) && forall i :: 0 <= i < |x.trims| ==> OneBlock(x.trims[i])
  }

  function Renew(s: Accounts, renewal: seq<Action>): Outcome {
    match ActAll(s, renewal)
    case RanDry => RanDry
    case Ok(s') => Ok(s'.(units := s'.units + RESERVE_UNITS))
  }

  /** Chunks that are wholly unused go back while there are more than MAX units. */
  function TrimAll(s: Accounts, trims: seq<seq<Action>>): Outcome
    decreases |trims|
  {
    if trims == [] || s.units <= MAX then Ok(s)
    else
      match ActAll(s.(units := s.units - RESERVE_UNITS), trims[0])
      case RanDry => RanDry
      case Ok(s') => TrimAll(s', trims[1..])
  }

  /** A section of a reserve that renews itself at `min` units. */
  function Run(s: Accounts, x: Section, min: nat): Outcome {
    match ActAll(s, x.actions)
    case RanDry => RanDry
    case Ok(s') =>
      if s'.units <= min then Renew(s', x.renewal)
      else if s'.units > MAX then TrimAll(s', x.trims)
      else Ok(s')
  }

  function RunAll(s: Accounts, run: seq<Section>, min: nat): Outcome
    decreases |run|
  {
    if run == [] then Ok(s)
    else
      match Run(s, run[0], min)
      case RanDry => RanDry
      case Ok(s') => RunAll(s', run[1..], min)
  }

  predicate AllLegal(run: seq<Section>) {
    forall i :: 0 <= i < |run| ==> Legal(run[i])
  }

  /** An operation and the renewal it makes necessary cost at most 6 units together: a node heap refilled by the
      operation is not empty in the renewal. */
  lemma SectionAndRenewal(s: Accounts, x: Section)
    requires s.units >= 6 && Legal(x)
    ensures ActAll(s, x.actions).Ok? && ActAll(ActAll(s, x.actions).s, x.renewal).Ok?
  {
    hide ActAll, Act, Times;
    TimesInTwo(x.actions, x.renewal, TakeUnit);
    TimesInTwo(x.actions, x.renewal, TakeAvl);
    TimesInTwo(x.actions, x.renewal, TakeAslr);
    ActAllInTwo(s, x.actions, x.renewal);
    if Demand(x.actions, 1, 0, 0) {
      DemandMet(s, x.actions + x.renewal, 4, 6, 2);
    } else {
      DemandMet(s, x.actions + x.renewal, 3, 10, 4);
    }
  }

  /** Trimming leaves at least what is left of more than MAX units without a chunk and the demand of its release. */
  lemma {:induction false} TrimStable(s: Accounts, trims: seq<seq<Action>>, low: nat)
    requires s.units >= low && low <= MAX - RESERVE_UNITS - 5 && forall i :: 0 <= i < |trims| ==> OneBlock(trims[i])
    ensures TrimAll(s, trims).Ok? && TrimAll(s, trims).s.units >= low
    decreases |trims|
  {
    if trims == [] || s.units <= MAX {
    } else {
      var s' := s.(units := s.units - RESERVE_UNITS);
      DemandMet(s', trims[0], 3, 6, 2);
      TrimStable(ActAll(s', trims[0]).s, trims[1..], low);
    }
  }

  lemma RunStable(s: Accounts, x: Section, min: nat)
    requires s.units >= 6 && Legal(x)
    ensures Run(s, x, min).Ok?
    ensures min >= 5 ==> Run(s, x, min).s.units >= 6
    ensures min == MIN ==> Run(s, x, min).s.units > MIN
  {
    hide ActAll;
    SectionAndRenewal(s, x);
    var s' := ActAll(s, x.actions).s;
    if s'.units > MAX {
      TrimStable(s', x.trims, MIN + 1);
    }
  }

  /** From more than MIN units, no run of operations finds the reserve empty, renewals and trims included, and each
      leaves more than MIN units. */
  lemma {:induction false} NeverRunsDry(s: Accounts, run: seq<Section>)
    requires s.units > MIN && AllLegal(run)
    ensures RunAll(s, run, MIN).Ok? && RunAll(s, run, MIN).s.units > MIN
    decreases |run|
  {
    hide Run, Legal;
    if run == [] {
    } else {
      RunStable(s, run[0], MIN);
      NeverRunsDry(Run(s, run[0], MIN).s, run[1..]);
    }
  }

  // How low the mark for renewals may be.

  lemma {:induction false} EnoughAtFive(s: Accounts, run: seq<Section>, min: nat)
    requires s.units >= 6 && min >= 5 && AllLegal(run)
    ensures RunAll(s, run, min).Ok?
    decreases |run|
  {
    hide Run, Legal;
    if run == [] {
    } else {
      RunStable(s, run[0], min);
      EnoughAtFive(Run(s, run[0], min).s, run[1..], min);
    }
  }

  lemma ActFirst(s: Accounts, a: Action, rest: seq<Action>)
    ensures ActAll(s, [a] + rest) == (match Act(s, a) case RanDry => RanDry case Ok(s') => ActAll(s', rest))
    ensures forall b :: Times([a] + rest, b) == (if a == b then 1 else 0) + Times(rest, b)
  {
    assert ([a] + rest)[1..] == rest;
  }

  // What a renewal does when it does all it may. Each cut gives the entry of the range back before it takes any.

  function TableSteps(): seq<Action> {
    [TakeUnit] + ([TakeUnit] + ([TakeUnit] + []))
  }

  /** A cut from the middle of a linear range, and then the tables. */
  function LinearSteps(): seq<Action> {
    [GiveAslr(0)] + ([GiveAvl(0)] + ([TakeAslr] + ([TakeAvl] + ([TakeAslr] + ([TakeAvl] + TableSteps())))))
  }

  /** A cut from the start of a physical range, and then the rest. */
  function RenewalSteps(): seq<Action> {
    [GiveAvl(0)] + ([GiveAvl(0)] + ([TakeAvl] + ([TakeAvl] + LinearSteps())))
  }

  lemma TablesTaken(s: Accounts)
    ensures s.units < 3 ==> ActAll(s, TableSteps()) == RanDry
    ensures Demand(TableSteps(), 3, 0, 0)
  {
    var t0: seq<Action> := [];
    var t1 := [TakeUnit] + t0;
    var t2 := [TakeUnit] + t1;
    ActFirst(s, TakeUnit, t2);
    var s1 := if s.units > 0 then s.(units := s.units - 1) else s;
    ActFirst(s1, TakeUnit, t1);
    ActFirst(if s1.units > 0 then s1.(units := s1.units - 1) else s1, TakeUnit, t0);
  }

  lemma LinearCut(units: nat)
    ensures units < 5 ==> ActAll(Accounts(units, 0, 0), LinearSteps()) == RanDry
    ensures Demand(LinearSteps(), 3, 2, 2)
  {
    hide ActAll, Times, TableSteps;
    var t0 := TableSteps();
    var t1 := [TakeAvl] + t0;
    var t2 := [TakeAslr] + t1;
    var t3 := [TakeAvl] + t2;
    var t4 := [TakeAslr] + t3;
    var t5 := [GiveAvl(0)] + t4;
    ActFirst(Accounts(units, 0, 0), GiveAslr(0), t5);
    ActFirst(Accounts(units, 0, 1), GiveAvl(0), t4);
    ActFirst(Accounts(units, 1, 1), TakeAslr, t3);
    ActFirst(Accounts(units, 1, 0), TakeAvl, t2);
    ActFirst(Accounts(units, 0, 0), TakeAslr, t1);
    if units > 0 {
      ActFirst(Accounts(units - 1, 0, ASLR_NODES - 1), TakeAvl, t0);
    }
    if units > 1 {
      TablesTaken(Accounts(units - 2, AVL_NODES - 1, ASLR_NODES - 1));
    }
    TablesTaken(Accounts(0, 0, 0));
    ActFirst(Accounts(0, 0, 0), TakeAvl, t0);
  }

  lemma FullRenewal(units: nat)
    ensures units < 5 ==> ActAll(Accounts(units, 0, 0), RenewalSteps()) == RanDry
    ensures OneBlock(RenewalSteps())
  {
    hide ActAll, Times, LinearSteps;
    var t0 := LinearSteps();
    var t1 := [TakeAvl] + t0;
    var t2 := [TakeAvl] + t1;
    var t3 := [GiveAvl(0)] + t2;
    ActFirst(Accounts(units, 0, 0), GiveAvl(0), t3);
    ActFirst(Accounts(units, 1, 0), GiveAvl(0), t2);
    ActFirst(Accounts(units, 2, 0), TakeAvl, t1);
    ActFirst(Accounts(units, 1, 0), TakeAvl, t0);
    LinearCut(units);
  }

  /** The least mark for renewals with which no run finds the reserve empty is 5. */
  lemma MarkExact(min: nat)
    ensures min >= 5 <==>
              forall s: Accounts, run :: s.units > min && AllLegal(run) ==> RunAll(s, run, min).Ok?
  {
    hide AllLegal, RunAll;
    if min >= 5 {
      forall s: Accounts, run | s.units > min && AllLegal(run)
        ensures RunAll(s, run, min).Ok?
      {
        EnoughAtFive(s, run, min);
      }
    } else {
      var s, run := DryBelowFive(min);
    }
  }

  lemma DryBelowFive(min: nat) returns (s: Accounts, run: seq<Section>)
    requires min < 5
    ensures s.units > min && AllLegal(run) && RunAll(s, run, min) == RanDry
  {
    hide ActAll, Times, RenewalSteps;
    FullRenewal(min);
    var table: seq<Action> := [TakeUnit] + [];
    ActFirst(Accounts(min + 1, 0, 0), TakeUnit, []);
    NoActions(Accounts(min, 0, 0));
    s, run := Accounts(min + 1, 0, 0), [Section(table, RenewalSteps(), [])];
    assert table == [TakeUnit];
    assert Legal(run[0]);
    assert Run(s, run[0], min) == RanDry;
  }

  lemma NoActions(s: Accounts)
    ensures ActAll(s, []) == Ok(s) && forall a :: Times([], a) == 0
  {
  }
}
