/** What the walk over a subtree's generators answers, told from its nodes, its loose series and its references
  * (core/scans.py). */
module GeneratorTotals {
  import opened Prelude
  import opened CteBodies
  import opened Sequences
  import opened Generators
  import opened BranchRows
  import opened GeneratorCaps

  // ----- one generator -----

  lemma {:induction false} DescendsIff(nodes: Subtree, top: nat, i: nat)
    requires i < |nodes|
    ensures Descends(nodes, top, i) <==> top in WayUp(nodes, i)
    ensures top in WayUp(nodes, i) ==> top < i
    decreases i
  {
    if i > 0 {
      DescendsIff(nodes, top, nodes[i].parent);
    }
  }

  /** The rows a node under a generator stands for: the elements of a list, of a readable sequence, or what following
    * its column answered. */
  ghost predicate StandsFor(kind: Kind, n: nat) {
    (kind.Array? && kind.count == n) || (kind.Series? && SequenceLength(kind.span) == Some(n)) || (kind.Column? && kind.rows == n)
  }

  ghost predicate StandsUnder(nodes: Subtree, g: nat, j: nat, n: nat) {
    j < |nodes| && g in WayUp(nodes, j) && StandsFor(nodes[j].kind, n)
  }

  lemma RowsOfIs(kind: Kind)
    ensures RowsOf(kind) == 1 || StandsFor(kind, RowsOf(kind))
    ensures forall n: nat :: StandsFor(kind, n) ==> n <= RowsOf(kind)
  {
  }

  lemma {:induction false} WidestFrom(nodes: Subtree, g: nat, from: nat)
    requires from <= |nodes|
    ensures var widest := GeneratorRows(nodes, g, from);
      && (widest == 1 || exists j: nat :: StandsUnder(nodes, g, j, widest))
      && forall j: nat, n: nat :: from <= j && StandsUnder(nodes, g, j, n) ==> n <= widest
    decreases |nodes| - from
  {
    if from < |nodes| {
      WidestFrom(nodes, g, from + 1);
      DescendsIff(nodes, g, from);
      RowsOfIs(nodes[from].kind);
      var widest := GeneratorRows(nodes, g, from);
      if widest != 1 && widest != GeneratorRows(nodes, g, from + 1) {
        assert StandsUnder(nodes, g, from, widest);
      }
    }
  }

  /** A generator makes as many rows as the widest thing anywhere under it, and one at least. */
  lemma RowsAreWidest(nodes: Subtree, g: nat)
    requires g < |nodes|
    ensures var widest := GeneratorRows(nodes, g, g + 1);
      && (widest == 1 || exists j: nat :: StandsUnder(nodes, g, j, widest))
      && forall j: nat, n: nat :: StandsUnder(nodes, g, j, n) ==> n <= widest
  {
    WidestFrom(nodes, g, g + 1);
    forall j: nat, n: nat | StandsUnder(nodes, g, j, n) ensures g < j {
      DescendsIff(nodes, g, j);
    }
  }

  // ----- the steps a node costs -----

  /** An input costs a step, or those that following its name or its call took. */
  function CheckCost(nodes: Subtree, g: nat, j: nat): nat
    requires j < |nodes|
  {
    if j == 0 || nodes[j].parent != g || nodes[j].role != Input then 0
    else
      match nodes[j].kind
      case Column(_, _, steps, _, _) => steps
      case Call(_, _, steps) => steps
      case _ => 1
  }

  /** A column under a counted generator costs the steps that sizing it took. */
  function RowCost(nodes: Subtree, g: nat, j: nat): nat
    requires j < |nodes|
  {
    if g in WayUp(nodes, j) && nodes[j].kind.Column? then nodes[j].kind.rowSteps else 0
  }

  function CheckCosts(nodes: Subtree, g: nat): (costs: seq<nat>)
    ensures |costs| == |nodes|
  {
    seq(|nodes|, j requires 0 <= j < |nodes| => CheckCost(nodes, g, j))
  }

  function RowCosts(nodes: Subtree, g: nat): (costs: seq<nat>)
    ensures |costs| == |nodes|
  {
    seq(|nodes|, j requires 0 <= j < |nodes| => RowCost(nodes, g, j))
  }

  lemma {:induction false} NothingSums(s: seq<nat>)
    requires forall i :: 0 <= i < |s| ==> s[i] == 0
    ensures Sum(s) == 0
  {
    if s != [] {
      NothingSums(s[1..]);
    }
  }

  lemma SumFrom(s: seq<nat>, from: nat)
    requires from <= |s| && forall i :: 0 <= i < from ==> s[i] == 0
    ensures Sum(s) == Sum(s[from..])
  {
    SumAppend(s[..from], s[from..]);
    NothingSums(s[..from]);
    assert s == s[..from] + s[from..];
  }

  lemma {:induction false} CheckStepsFrom(nodes: Subtree, g: nat, j: nat)
    requires g < j <= |nodes|
    ensures CheckSteps(nodes, g, j) == Sum(CheckCosts(nodes, g)[j..])
    decreases |nodes| - j
  {
    if j < |nodes| {
      CheckStepsFrom(nodes, g, j + 1);
      assert CheckCosts(nodes, g)[j..][1..] == CheckCosts(nodes, g)[j + 1..];
    }
  }

  lemma {:induction false} RowStepsFrom(nodes: Subtree, g: nat, j: nat)
    requires g < j <= |nodes|
    ensures RowSteps(nodes, g, j) == Sum(RowCosts(nodes, g)[j..])
    decreases |nodes| - j
  {
    if j < |nodes| {
      RowStepsFrom(nodes, g, j + 1);
      DescendsIff(nodes, g, j);
      assert RowCosts(nodes, g)[j..][1..] == RowCosts(nodes, g)[j + 1..];
    }
  }

  lemma StepsAre(nodes: Subtree, g: nat)
    requires g < |nodes|
    ensures CheckSteps(nodes, g, g + 1) == Sum(CheckCosts(nodes, g))
    ensures RowSteps(nodes, g, g + 1) == Sum(RowCosts(nodes, g))
  {
    CheckStepsFrom(nodes, g, g + 1);
    RowStepsFrom(nodes, g, g + 1);
    forall j: nat | j <= g ensures RowCosts(nodes, g)[j] == 0 {
      DescendsIff(nodes, g, j);
    }
    SumFrom(CheckCosts(nodes, g), g + 1);
    SumFrom(RowCosts(nodes, g), g + 1);
  }

  // ----- the pass over the nodes -----

  /** Every node costs a step, a generator what its inputs cost, and a counted one what sizing it costs. */
  function NodeCost(nodes: Subtree, i: nat, pricing: bool): (cost: nat)
    requires i < |nodes|
    ensures cost > 0
  {
    1 + (if nodes[i].kind.Generator? then Sum(CheckCosts(nodes, i)) else 0)
      + (if CountedGenerator(nodes, i, pricing) then Sum(RowCosts(nodes, i)) else 0)
  }

  function NodeRows(nodes: Subtree, i: nat, pricing: bool): Rows
    requires i < |nodes|
  {
    if CountedGenerator(nodes, i, pricing) then GeneratorRows(nodes, i, i + 1) else 1
  }

  function NodeCosts(nodes: Subtree, pricing: bool): (costs: seq<nat>)
    ensures |costs| == |nodes|
  {
    seq(|nodes|, i requires 0 <= i < |nodes| => NodeCost(nodes, i, pricing))
  }

  function AllRows(nodes: Subtree, pricing: bool): (rows: seq<Rows>)
    ensures |rows| == |nodes|
  {
    seq(|nodes|, i requires 0 <= i < |nodes| => NodeRows(nodes, i, pricing))
  }

  ghost predicate BoundedFrom(nodes: Subtree, from: nat, priced: bool) {
    forall g: nat :: from <= g < |nodes| && nodes[g].kind.Generator? ==> Bounded(nodes, g, priced)
  }

  lemma {:induction false} ProductPositive(s: seq<Rows>)
    ensures Product(s) >= 1
  {
    if s != [] {
      ProductPositive(s[1..]);
      MulMonotone(1, s[0], 1, Product(s[1..]));
    }
  }

  lemma Regroup(a: nat, b: nat, c: nat)
    ensures a * (b * c) == (a * b) * c
  {
  }

  /** A part of a product of positive counts is within any cap the whole is within. */
  lemma PartWithin(a: nat, rest: nat)
    requires rest >= 1
    ensures a <= a * rest
  {
    MulMonotone(a, a, 1, rest);
  }

  ghost predicate NodesRead(nodes: Subtree, i: nat, priced: bool, pricing: bool, budget: int, product: nat)
    requires i <= |nodes|
  {
    && (i == |nodes| || Sum(NodeCosts(nodes, pricing)[i..]) < budget)
    && BoundedFrom(nodes, i, priced)
    && product * Product(AllRows(nodes, pricing)[i..]) <= 10_000_000
  }

  ghost predicate NodesTotal(nodes: Subtree, i: nat, pricing: bool, budget: int, product: nat, walked: Walked)
    requires i <= |nodes|
  {
    && walked.product == Some(product * Product(AllRows(nodes, pricing)[i..]))
    && walked.budget == budget - Sum(NodeCosts(nodes, pricing)[i..])
  }

  /** Where sizing a counted generator used up the budget, nothing is read. */
  lemma UnsizedIsNone(nodes: Subtree, i: nat, priced: bool, pricing: bool, budget: int, product: nat)
    requires i < |nodes| && nodes[i].kind.Generator? && Bounded(nodes, i, priced)
    requires CountedGenerator(nodes, i, pricing) ==> budget - NodeCost(nodes, i, pricing) <= 0
    ensures CountedGenerator(nodes, i, pricing) ==> WalkNodes(nodes, i, priced, pricing, budget, product).product.None?
  {
    StepsAre(nodes, i);
    var j :| i < j < |nodes| && IsInput(nodes, i, j);
    assert i + 1 < |nodes|;
  }

  lemma NodesOneMore(nodes: Subtree, i: nat, pricing: bool)
    requires i < |nodes|
    ensures Sum(NodeCosts(nodes, pricing)[i..]) == NodeCost(nodes, i, pricing) + Sum(NodeCosts(nodes, pricing)[i + 1..])
    ensures Product(AllRows(nodes, pricing)[i..]) == NodeRows(nodes, i, pricing) * Product(AllRows(nodes, pricing)[i + 1..])
    ensures Product(AllRows(nodes, pricing)[i + 1..]) >= 1
  {
    assert NodeCosts(nodes, pricing)[i..][1..] == NodeCosts(nodes, pricing)[i + 1..];
    assert AllRows(nodes, pricing)[i..][1..] == AllRows(nodes, pricing)[i + 1..];
    ProductPositive(AllRows(nodes, pricing)[i + 1..]);
  }

  /** One node may be passed: there is budget for it, a generator is bounded, and the product is within the cap. */
  ghost predicate Passes(nodes: Subtree, i: nat, priced: bool, pricing: bool, budget: int, product: nat)
    requires i < |nodes|
  {
    && budget - NodeCost(nodes, i, pricing) > 0
    && (nodes[i].kind.Generator? ==> Bounded(nodes, i, priced))
    && product * NodeRows(nodes, i, pricing) <= 10_000_000
  }

  lemma NodesReadStep(nodes: Subtree, i: nat, priced: bool, pricing: bool, budget: int, product: nat)
    requires i < |nodes|
    ensures var left, more := budget - NodeCost(nodes, i, pricing), product * NodeRows(nodes, i, pricing);
      NodesRead(nodes, i, priced, pricing, budget, product) <==>
        Passes(nodes, i, priced, pricing, budget, product) && NodesRead(nodes, i + 1, priced, pricing, left, more)
  {
    NodesOneMore(nodes, i, pricing);
    var rows, rest := NodeRows(nodes, i, pricing), Product(AllRows(nodes, pricing)[i + 1..]);
    Regroup(product, rows, rest);
    PartWithin(product * rows, rest);
    assert i + 1 == |nodes| ==> NodeCosts(nodes, pricing)[i + 1..] == [];
    assert BoundedFrom(nodes, i, priced) <==> BoundedFrom(nodes, i + 1, priced) && (nodes[i].kind.Generator? ==> Bounded(nodes, i, priced));
  }

  lemma NodesTotalStep(nodes: Subtree, i: nat, pricing: bool, budget: int, product: nat, walked: Walked)
    requires i < |nodes|
    ensures var left, more := budget - NodeCost(nodes, i, pricing), product * NodeRows(nodes, i, pricing);
      NodesTotal(nodes, i, pricing, budget, product, walked) <==> NodesTotal(nodes, i + 1, pricing, left, more, walked)
  {
    NodesOneMore(nodes, i, pricing);
    Regroup(product, NodeRows(nodes, i, pricing), Product(AllRows(nodes, pricing)[i + 1..]));
  }

  lemma WalkStep(nodes: Subtree, i: nat, priced: bool, pricing: bool, budget: int, product: nat)
    requires i < |nodes| && 0 < product <= 10_000_000
    ensures var walked := WalkNodes(nodes, i, priced, pricing, budget, product);
      && (walked.product.Some? ==> Passes(nodes, i, priced, pricing, budget, product))
      && (Passes(nodes, i, priced, pricing, budget, product) ==>
            walked == WalkNodes(nodes, i + 1, priced, pricing, budget - NodeCost(nodes, i, pricing), product * NodeRows(nodes, i, pricing)))
  {
    if nodes[i].kind.Generator? {
      StepsAre(nodes, i);
      if CountedGenerator(nodes, i, pricing) && Bounded(nodes, i, priced) && budget - NodeCost(nodes, i, pricing) <= 0 {
        UnsizedIsNone(nodes, i, priced, pricing, budget, product);
      }
    }
  }

  lemma {:induction false} NodesFrom(nodes: Subtree, i: nat, priced: bool, pricing: bool, budget: int, product: nat)
    requires i <= |nodes| && 0 < product <= 10_000_000
    ensures var walked := WalkNodes(nodes, i, priced, pricing, budget, product);
      && (walked.product.Some? <==> NodesRead(nodes, i, priced, pricing, budget, product))
      && (walked.product.Some? ==> NodesTotal(nodes, i, pricing, budget, product, walked))
    decreases |nodes| - i
  {
    if i < |nodes| {
      var left, more := budget - NodeCost(nodes, i, pricing), product * NodeRows(nodes, i, pricing);
      WalkStep(nodes, i, priced, pricing, budget, product);
      NodesReadStep(nodes, i, priced, pricing, budget, product);
      NodesTotalStep(nodes, i, pricing, budget, product, WalkNodes(nodes, i, priced, pricing, budget, product));
      if Passes(nodes, i, priced, pricing, budget, product) {
        MulMonotone(1, product, 1, NodeRows(nodes, i, pricing));
        NodesFrom(nodes, i + 1, priced, pricing, left, more);
      }
    }
  }

  /** The pass over the nodes reads a product exactly when the steps are fewer than the budget, every generator is
    * bounded, and the rows of the counted ones multiply to at most 10,000,000; in whatever order they stand. */
  lemma NodesReadIff(nodes: Subtree, priced: bool, pricing: bool, budget: int)
    requires budget > 0
    ensures var walked := WalkNodes(nodes, 0, priced, pricing, budget, 1);
      && (walked.product.Some? <==>
            Sum(NodeCosts(nodes, pricing)) < budget && BoundedFrom(nodes, 0, priced) && Product(AllRows(nodes, pricing)) <= 10_000_000)
      && (walked.product.Some? ==>
            walked.product == Some(Product(AllRows(nodes, pricing))) && walked.budget == budget - Sum(NodeCosts(nodes, pricing)))
  {
    NodesFrom(nodes, 0, priced, pricing, budget, 1);
    assert NodeCosts(nodes, pricing)[0..] == NodeCosts(nodes, pricing) && AllRows(nodes, pricing)[0..] == AllRows(nodes, pricing);
  }

  // ----- the pass over the loose series -----

  /** A series in a table position: no counted generator is above it, and when pricing its rows multiply. */
  ghost predicate Loose(nodes: Subtree, i: nat, pricing: bool)
    requires i < |nodes|
  {
    && nodes[i].kind.Series? && (pricing ==> Meets(nodes, i))
    && forall g: nat :: g in WayUp(nodes, i) ==> !(g < |nodes| && CountedGenerator(nodes, g, pricing))
  }

  lemma LooseIff(nodes: Subtree, i: nat, pricing: bool)
    requires i < |nodes| && nodes[i].kind.Series?
    ensures Loose(nodes, i, pricing) <==> i !in Wrapped(nodes, pricing) && (pricing ==> Meets(nodes, i))
  {
    forall g: nat | g < |nodes| ensures Descends(nodes, g, i) <==> g in WayUp(nodes, i) {
      DescendsIff(nodes, g, i);
    }
    if i in Wrapped(nodes, pricing) {
      var g: nat :| g < |nodes| && CountedGenerator(nodes, g, pricing) && Descends(nodes, g, i);
      assert g in WayUp(nodes, i);
    }
    if g: nat :| g in WayUp(nodes, i) && g < |nodes| && CountedGenerator(nodes, g, pricing) {
      assert Descends(nodes, g, i);
    }
  }

  ghost predicate SeriesAllowed(nodes: Subtree, i: nat, priced: bool)
    requires i < |nodes| && nodes[i].kind.Series?
  {
    SequenceLength(nodes[i].kind.span).Some? && SequenceLength(nodes[i].kind.span).value <= (if priced then 10_000_000 else 1000)
  }

  ghost function SeriesRows(nodes: Subtree, i: nat, pricing: bool): Rows
    requires i < |nodes|
  {
    if Loose(nodes, i, pricing) && SequenceLength(nodes[i].kind.span).Some? then SequenceLength(nodes[i].kind.span).value else 1
  }

  ghost function AllSeries(nodes: Subtree, pricing: bool): (rows: seq<Rows>)
    ensures |rows| == |nodes|
  {
    seq(|nodes|, i requires 0 <= i < |nodes| => SeriesRows(nodes, i, pricing))
  }

  ghost predicate SeriesAllowedFrom(nodes: Subtree, from: nat, priced: bool, pricing: bool) {
    forall i: nat :: from <= i < |nodes| && Loose(nodes, i, pricing) ==> SeriesAllowed(nodes, i, priced)
  }

  ghost predicate SeriesRead(nodes: Subtree, i: nat, priced: bool, pricing: bool, product: nat)
    requires i <= |nodes|
  {
    SeriesAllowedFrom(nodes, i, priced, pricing) && product * Product(AllSeries(nodes, pricing)[i..]) <= 10_000_000
  }

  lemma SeriesStep(nodes: Subtree, i: nat, priced: bool, pricing: bool, product: nat)
    requires i < |nodes|
    ensures var more := product * SeriesRows(nodes, i, pricing);
      && (SeriesRead(nodes, i, priced, pricing, product) <==>
            (Loose(nodes, i, pricing) ==> SeriesAllowed(nodes, i, priced)) && more <= 10_000_000 && SeriesRead(nodes, i + 1, priced, pricing, more))
      && product * Product(AllSeries(nodes, pricing)[i..]) == more * Product(AllSeries(nodes, pricing)[i + 1..])
  {
    var rows, rest := SeriesRows(nodes, i, pricing), AllSeries(nodes, pricing)[i + 1..];
    assert AllSeries(nodes, pricing)[i..][1..] == rest;
    ProductPositive(rest);
    Regroup(product, rows, Product(rest));
    PartWithin(product * rows, Product(rest));
    assert SeriesAllowedFrom(nodes, i, priced, pricing) <==>
      SeriesAllowedFrom(nodes, i + 1, priced, pricing) && (Loose(nodes, i, pricing) ==> SeriesAllowed(nodes, i, priced));
  }

  lemma LooseStep(nodes: Subtree, i: nat, priced: bool, pricing: bool, product: nat)
    requires i < |nodes| && product <= 10_000_000
    ensures var more := product * SeriesRows(nodes, i, pricing);
      LooseSeries(nodes, i, priced, pricing, product) ==
        if (Loose(nodes, i, pricing) ==> SeriesAllowed(nodes, i, priced)) && more <= 10_000_000 then LooseSeries(nodes, i + 1, priced, pricing, more) else None
  {
    if nodes[i].kind.Series? {
      LooseIff(nodes, i, pricing);
    }
  }

  lemma {:induction false} SeriesFrom(nodes: Subtree, i: nat, priced: bool, pricing: bool, product: nat)
    requires i <= |nodes| && 0 < product <= 10_000_000
    ensures LooseSeries(nodes, i, priced, pricing, product) ==
      if SeriesRead(nodes, i, priced, pricing, product) then Some(product * Product(AllSeries(nodes, pricing)[i..])) else None
    decreases |nodes| - i
  {
    if i < |nodes| {
      var more := product * SeriesRows(nodes, i, pricing);
      LooseStep(nodes, i, priced, pricing, product);
      SeriesStep(nodes, i, priced, pricing, product);
      if more <= 10_000_000 {
        MulMonotone(1, product, 1, SeriesRows(nodes, i, pricing));
        SeriesFrom(nodes, i + 1, priced, pricing, more);
      }
    }
  }

  /** The pass over the loose series multiplies their lengths on, exactly where each is readable and within its cap and
    * the whole is within 10,000,000. */
  lemma SeriesReadIff(nodes: Subtree, priced: bool, pricing: bool, product: nat)
    requires 0 < product <= 10_000_000
    ensures var answer, whole := LooseSeries(nodes, 0, priced, pricing, product), product * Product(AllSeries(nodes, pricing));
      && (answer.Some? <==> SeriesAllowedFrom(nodes, 0, priced, pricing) && whole <= 10_000_000)
      && (answer.Some? ==> answer.value == whole)
  {
    SeriesFrom(nodes, 0, priced, pricing, product);
    assert AllSeries(nodes, pricing)[0..] == AllSeries(nodes, pricing);
  }

  // ----- the pass over the references -----

  function FirstUpTo(refs: seq<string>, name: string, k: nat): (at: nat)
    requires k <= |refs|
    ensures at <= k && (at < k ==> refs[at] == name) && forall j :: 0 <= j < at ==> refs[j] != name
  {
    if name in refs[..k] then FirstUpTo(refs, name, k - 1) else
      assert forall j :: 0 <= j < k ==> refs[j] == refs[..k][j];
      k
  }

  /** The place a name is first met at. */
  function FirstAt(refs: seq<string>, k: nat): (at: nat)
    requires k < |refs|
    ensures at <= k && refs[at] == refs[k] && forall j :: 0 <= j < at ==> refs[j] != refs[k]
  {
    FirstUpTo(refs, refs[k], k)
  }

  lemma {:induction false} DearestAtLeast(bodies: Bodies, all: seq<Subtree>, pending: set<string>, budget: int, pricing: bool, priced: bool, widest: nat)
    ensures var dearest := Dearest(bodies, all, pending, budget, pricing, priced, widest).product; dearest.Some? ==> dearest.value >= widest
    decreases |all|
  {
    if all != [] {
      var reading := ReadsATable(bodies, all[0], 0, pending, false);
      var nested := GeneratorProduct(bodies, all[0], pending, budget, pricing, priced && YieldsOneRow(all[0]) && !reading);
      if nested.product.Some? {
        var rows := if pricing && Collapses(all[0]) && !reading then 1 else nested.product.value;
        DearestAtLeast(bodies, all[1..], pending, nested.budget, pricing, priced, Max(widest, rows));
      }
    }
  }

  /** References read one after another, from this budget. */
  datatype Reading = Reading(bodies: Bodies, refs: seq<string>, pending: set<string>, budget: int, pricing: bool, priced: bool) {
    predicate Follows() { Followed(bodies, refs, pending) }
  }

  /** The budget the k-th reference is come to with: only names met for the first time spent of it. */
  function BudgetBefore(r: Reading, k: nat): int
    requires r.Follows() && k <= |r.refs|
  {
    if k == 0 then r.budget
    else
      var before, name := BudgetBefore(r, k - 1), r.refs[k - 1];
      if name in r.refs[..k - 1] then before else Dearest(r.bodies, r.bodies[name], r.pending + {name}, before, r.pricing, r.priced, 1).budget
  }

  /** What the k-th reference costs: what its name cost where it was first met. */
  function CostAt(r: Reading, k: nat): (cost: Option<nat>)
    requires r.Follows() && k < |r.refs|
  {
    Dearest(r.bodies, r.bodies[r.refs[k]], r.pending + {r.refs[k]}, BudgetBefore(r, FirstAt(r.refs, k)), r.pricing, r.priced, 1).product
  }

  function RefRows(r: Reading, k: nat): Rows
    requires r.Follows() && k < |r.refs|
  {
    var cost := CostAt(r, k);
    DearestAtLeast(r.bodies, r.bodies[r.refs[k]], r.pending + {r.refs[k]}, BudgetBefore(r, FirstAt(r.refs, k)), r.pricing, r.priced, 1);
    if cost.Some? then cost.value else 1
  }

  function AllRefs(r: Reading): (rows: seq<Rows>)
    requires r.Follows()
    ensures |rows| == |r.refs|
  {
    seq(|r.refs|, k requires 0 <= k < |r.refs| => RefRows(r, k))
  }

  ghost predicate CostsRead(r: Reading, from: nat)
    requires r.Follows()
  {
    forall k: nat :: from <= k < |r.refs| ==> CostAt(r, k).Some?
  }

  /** The names met so far are remembered at what they cost. */
  ghost predicate Remembers(r: Reading, k: nat, perName: map<string, nat>)
    requires r.Follows() && k <= |r.refs|
  {
    (forall name :: name in perName <==> name in r.refs[..k]) && forall j: nat :: j < k ==> RemembersAt(r, j, perName)
  }

  ghost predicate RemembersAt(r: Reading, j: nat, perName: map<string, nat>)
    requires r.Follows() && j < |r.refs|
  {
    r.refs[j] in perName && CostAt(r, j) == Some(perName[r.refs[j]])
  }

  lemma SameFirst(refs: seq<string>, j: nat, k: nat)
    requires j < |refs| && k < |refs| && refs[j] == refs[k]
    ensures FirstAt(refs, j) == FirstAt(refs, k)
  {
    var a, b := FirstAt(refs, j), FirstAt(refs, k);
    assert !(a < b) && !(b < a);
  }

  lemma SameCost(r: Reading, j: nat, k: nat)
    requires r.Follows() && j < |r.refs| && k < |r.refs| && r.refs[j] == r.refs[k]
    ensures CostAt(r, j) == CostAt(r, k)
  {
    SameFirst(r.refs, j, k);
  }

  lemma CostOfIs(r: Reading, k: nat, perName: map<string, nat>)
    requires r.Follows() && k < |r.refs| && Remembers(r, k, perName)
    ensures CostOf(r.bodies, r.refs[k], r.pending, BudgetBefore(r, k), r.pricing, r.priced, perName) == Walked(CostAt(r, k), BudgetBefore(r, k + 1))
  {
    if r.refs[k] in r.refs[..k] {
      var j :| 0 <= j < k && r.refs[..k][j] == r.refs[k];
      assert RemembersAt(r, j, perName);
      SameCost(r, j, k);
    } else {
      assert forall j :: 0 <= j < k ==> r.refs[..k][j] == r.refs[j];
      assert FirstAt(r.refs, k) == k;
    }
  }

  lemma RemembersOneMore(r: Reading, k: nat, perName: map<string, nat>, cost: nat)
    requires r.Follows() && k < |r.refs| && Remembers(r, k, perName) && CostAt(r, k) == Some(cost)
    ensures Remembers(r, k + 1, perName[r.refs[k] := cost])
  {
    assert r.refs[..k + 1] == r.refs[..k] + [r.refs[k]];
    var known := perName[r.refs[k] := cost];
    forall j: nat | j <= k ensures RemembersAt(r, j, known) {
      StillRemembered(r, k, perName, cost, j);
    }
  }

  lemma StillRemembered(r: Reading, k: nat, perName: map<string, nat>, cost: nat, j: nat)
    requires r.Follows() && k < |r.refs| && j <= k && CostAt(r, k) == Some(cost) && (j < k ==> RemembersAt(r, j, perName))
    ensures RemembersAt(r, j, perName[r.refs[k] := cost])
  {
    if r.refs[j] == r.refs[k] {
      SameCost(r, j, k);
    }
  }

  ghost predicate RefsRead(r: Reading, k: nat, product: nat)
    requires r.Follows() && k <= |r.refs|
  {
    CostsRead(r, k) && product * Product(AllRefs(r)[k..]) <= 10_000_000
  }

  lemma RefsStep(r: Reading, k: nat, product: nat)
    requires r.Follows() && k < |r.refs|
    ensures var more, all := product * RefRows(r, k), AllRefs(r);
      && (RefsRead(r, k, product) <==> CostAt(r, k).Some? && more <= 10_000_000 && RefsRead(r, k + 1, more))
      && product * Product(all[k..]) == more * Product(all[k + 1..])
  {
    var all := AllRefs(r);
    var rows, rest := RefRows(r, k), Product(all[k + 1..]);
    assert all[k..][1..] == all[k + 1..];
    ProductPositive(all[k + 1..]);
    Regroup(product, rows, rest);
    PartWithin(product * rows, rest);
    assert CostsRead(r, k) <==> CostAt(r, k).Some? && CostsRead(r, k + 1);
  }

  lemma ReferenceStep(r: Reading, k: nat, perName: map<string, nat>, product: nat)
    requires r.Follows() && k < |r.refs| && Remembers(r, k, perName)
    ensures var walked := TimesReferences(r.bodies, r.refs[k..], r.pending, BudgetBefore(r, k), r.pricing, r.priced, perName, product);
      var cost := CostAt(r, k);
      && (walked.product.Some? ==> cost.Some? && product * cost.value <= 10_000_000)
      && (cost.Some? && product * cost.value <= 10_000_000 ==>
            walked == TimesReferences(r.bodies, r.refs[k + 1..], r.pending, BudgetBefore(r, k + 1), r.pricing, r.priced,
                                      perName[r.refs[k] := cost.value], product * cost.value))
  {
    CostOfIs(r, k, perName);
    assert r.refs[k..][1..] == r.refs[k + 1..] && r.refs[k..][0] == r.refs[k];
  }

  lemma {:induction false} RefsFrom(r: Reading, k: nat, perName: map<string, nat>, product: nat)
    requires r.Follows() && k <= |r.refs| && Remembers(r, k, perName) && 0 < product <= 10_000_000
    ensures var walked := TimesReferences(r.bodies, r.refs[k..], r.pending, BudgetBefore(r, k), r.pricing, r.priced, perName, product);
      && (walked.product.Some? <==> RefsRead(r, k, product))
      && (walked.product.Some? ==> walked == Walked(Some(product * Product(AllRefs(r)[k..])), BudgetBefore(r, |r.refs|)))
    decreases |r.refs| - k
  {
    if k < |r.refs| {
      var cost := CostAt(r, k);
      ReferenceStep(r, k, perName, product);
      RefsStep(r, k, product);
      if cost.Some? && product * cost.value <= 10_000_000 {
        RemembersOneMore(r, k, perName, cost.value);
        MulMonotone(1, product, 1, RefRows(r, k));
        RefsFrom(r, k + 1, perName[r.refs[k] := cost.value], product * cost.value);
      }
    }
  }

  /** The pass over the references multiplies the cost of each name on, once for every reference to it, each name walked
    * only where it is first met; exactly where every name costs something and the whole is within 10,000,000. */
  lemma ReferencesReadIff(r: Reading, product: nat)
    requires r.Follows() && 0 < product <= 10_000_000
    ensures var walked := TimesReferences(r.bodies, r.refs, r.pending, r.budget, r.pricing, r.priced, map[], product);
      var whole := product * Product(AllRefs(r));
      && (walked.product.Some? <==> CostsRead(r, 0) && whole <= 10_000_000)
      && (walked.product.Some? ==> walked == Walked(Some(whole), BudgetBefore(r, |r.refs|)))
  {
    RefsFrom(r, 0, map[], product);
    assert r.refs[0..] == r.refs && AllRefs(r)[0..] == AllRefs(r);
  }

  // ----- what a name costs -----

  /** The bodies of one name walked one after another, from this budget. */
  datatype Bindings = Bindings(bodies: Bodies, all: seq<Subtree>, pending: set<string>, budget: int, pricing: bool, priced: bool)

  /** A body is priced by a table where the reference is and the body makes one row and reads none itself. */
  ghost function BodyWalk(c: Bindings, b: nat): Walked
    requires b < |c.all|
    decreases b, 1
  {
    var reading := ReadsSome(c.bodies, c.all[b], c.pending, false);
    GeneratorProduct(c.bodies, c.all[b], c.pending, BodyBudget(c, b), c.pricing, c.priced && OuterOneRow(c.all[b]) && !reading)
  }

  /** The budget body b is come to with: what the bodies before it left. */
  ghost function BodyBudget(c: Bindings, b: nat): int
    requires b <= |c.all|
    decreases b, 0
  {
    if b == 0 then c.budget else BodyWalk(c, b - 1).budget
  }

  /** A body costs its product; when pricing, one where its own select narrows what it built without a table. */
  ghost function BodyCost(c: Bindings, b: nat): Option<nat>
    requires b < |c.all|
  {
    var product := BodyWalk(c, b).product;
    if product.Some? && c.pricing && OuterNarrows(c.all[b]) && !ReadsSome(c.bodies, c.all[b], c.pending, false) then Some(1) else product
  }

  ghost predicate BodiesRead(c: Bindings, from: nat) {
    forall b: nat :: from <= b < |c.all| ==> BodyCost(c, b).Some?
  }

  ghost predicate IsDearest(c: Bindings, from: nat, widest: nat, most: nat) {
    && (most == widest || exists b: nat :: from <= b < |c.all| && BodyCost(c, b) == Some(most))
    && widest <= most && forall b: nat :: from <= b < |c.all| && BodyCost(c, b).Some? ==> BodyCost(c, b).value <= most
  }

  lemma DearestStep(c: Bindings, from: nat, widest: nat)
    requires from < |c.all|
    ensures var dearest := Dearest(c.bodies, c.all[from..], c.pending, BodyBudget(c, from), c.pricing, c.priced, widest);
      && (BodyCost(c, from).None? ==> dearest.product.None?)
      && (BodyCost(c, from).Some? ==>
            dearest == Dearest(c.bodies, c.all[from + 1..], c.pending, BodyBudget(c, from + 1), c.pricing, c.priced, Max(widest, BodyCost(c, from).value)))
  {
    assert c.all[from..][1..] == c.all[from + 1..] && c.all[from..][0] == c.all[from];
    OuterSelectIs(c.all[from]);
    ReadsIff(c.bodies, c.all[from], c.pending, false);
  }

  lemma DearestOneMore(c: Bindings, from: nat, widest: nat, most: nat)
    requires from < |c.all| && BodyCost(c, from).Some? && IsDearest(c, from + 1, Max(widest, BodyCost(c, from).value), most)
    ensures IsDearest(c, from, widest, most)
  {
    if most != widest && most != BodyCost(c, from).value {
      var b: nat :| from + 1 <= b < |c.all| && BodyCost(c, b) == Some(most);
    }
  }

  lemma {:induction false} DearestFrom(c: Bindings, from: nat, widest: nat)
    requires from <= |c.all|
    ensures var dearest := Dearest(c.bodies, c.all[from..], c.pending, BodyBudget(c, from), c.pricing, c.priced, widest);
      && (dearest.product.Some? <==> BodiesRead(c, from))
      && (dearest.product.Some? ==> IsDearest(c, from, widest, dearest.product.value) && dearest.budget == BodyBudget(c, |c.all|))
    decreases |c.all| - from
  {
    if from < |c.all| {
      DearestStep(c, from, widest);
      if BodyCost(c, from).Some? {
        var more := Max(widest, BodyCost(c, from).value);
        DearestFrom(c, from + 1, more);
        assert BodiesRead(c, from) <==> BodiesRead(c, from + 1);
        var dearest := Dearest(c.bodies, c.all[from + 1..], c.pending, BodyBudget(c, from + 1), c.pricing, c.priced, more);
        if dearest.product.Some? {
          DearestOneMore(c, from, widest, dearest.product.value);
        }
      }
    }
  }

  /** A name costs whatever its dearest body costs, one at least, exactly where every body of it can be read. */
  lemma DearestIs(c: Bindings)
    ensures var dearest := Dearest(c.bodies, c.all, c.pending, c.budget, c.pricing, c.priced, 1);
      && (dearest.product.Some? <==> BodiesRead(c, 0))
      && (dearest.product.Some? ==> IsDearest(c, 0, 1, dearest.product.value) && dearest.budget == BodyBudget(c, |c.all|))
  {
    DearestFrom(c, 0, 1);
    assert c.all[0..] == c.all;
  }

  // ----- the whole product -----

  /** The references a subtree makes, with the budget its nodes left. */
  function ReadingOf(bodies: Bodies, nodes: Subtree, pending: set<string>, budget: int, pricing: bool, priced: bool): (r: Reading)
    ensures r.Follows()
  {
    ReferencesPending(bodies, nodes, 0, pending);
    Reading(bodies, References(bodies, nodes, 0, pending), pending, budget - Sum(NodeCosts(nodes, pricing)), pricing, priced)
  }

  /** The nodes and the loose series together, before any name is followed. */
  ghost predicate OwnPassesRead(nodes: Subtree, budget: int, priced: bool, pricing: bool) {
    && Sum(NodeCosts(nodes, pricing)) < budget && BoundedFrom(nodes, 0, priced) && SeriesAllowedFrom(nodes, 0, priced, pricing)
    && Product(AllRows(nodes, pricing)) * Product(AllSeries(nodes, pricing)) <= 10_000_000
  }

  lemma OwnPasses(nodes: Subtree, budget: int, priced: bool, pricing: bool)
    requires budget > 0
    ensures var walked := WalkNodes(nodes, 0, priced, pricing, budget, 1);
      var own := Product(AllRows(nodes, pricing)) * Product(AllSeries(nodes, pricing));
      && own >= 1
      && (walked.product.Some? && LooseSeries(nodes, 0, priced, pricing, walked.product.value).Some? <==> OwnPassesRead(nodes, budget, priced, pricing))
      && (OwnPassesRead(nodes, budget, priced, pricing) ==>
            LooseSeries(nodes, 0, priced, pricing, walked.product.value) == Some(own) && walked.budget == budget - Sum(NodeCosts(nodes, pricing)))
  {
    var rows, series := Product(AllRows(nodes, pricing)), Product(AllSeries(nodes, pricing));
    ProductPositive(AllRows(nodes, pricing));
    ProductPositive(AllSeries(nodes, pricing));
    PartWithin(rows, series);
    NodesReadIff(nodes, priced, pricing, budget);
    if rows <= 10_000_000 {
      SeriesReadIff(nodes, priced, pricing, rows);
    }
  }

  lemma AfterOwnPasses(bodies: Bodies, nodes: Subtree, pending: set<string>, budget: int, pricing: bool, underTable: bool)
    ensures var walked := GeneratorProduct(bodies, nodes, pending, budget, pricing, underTable);
      var priced := underTable || ReadsATable(bodies, nodes, 0, pending, true);
      var r := ReadingOf(bodies, nodes, pending, budget, pricing, priced);
      if OwnPassesRead(nodes, budget, priced, pricing) then
        walked == TimesReferences(r.bodies, r.refs, r.pending, r.budget, r.pricing, r.priced, map[],
                                  Product(AllRows(nodes, pricing)) * Product(AllSeries(nodes, pricing)))
      else walked.product.None?
  {
    if budget > 0 {
      OwnPasses(nodes, budget, underTable || ReadsATable(bodies, nodes, 0, pending, true), pricing);
    }
  }

  lemma OwnProductPositive(nodes: Subtree, pricing: bool)
    ensures Product(AllRows(nodes, pricing)) * Product(AllSeries(nodes, pricing)) >= 1
  {
    ProductPositive(AllRows(nodes, pricing));
    ProductPositive(AllSeries(nodes, pricing));
    MulMonotone(1, Product(AllRows(nodes, pricing)), 1, Product(AllSeries(nodes, pricing)));
  }

  /** A subtree's product is read exactly where its nodes cost less than the budget, every generator is bounded, every
    * loose series is readable and within its cap, every name it reads costs something, and it all multiplies to at
    * most 10,000,000: the rows of its counted generators, the lengths of its loose series, and the cost of every
    * reference. Larger sequences are allowed where a table stands beside the subtree's rows, or beside whatever
    * reads it. */
  lemma ProductReadIff(bodies: Bodies, nodes: Subtree, pending: set<string>, budget: int, pricing: bool, underTable: bool)
    ensures var walked := GeneratorProduct(bodies, nodes, pending, budget, pricing, underTable);
      var priced := underTable || ReadsSome(bodies, nodes, pending, true);
      var r := ReadingOf(bodies, nodes, pending, budget, pricing, priced);
      var whole := (Product(AllRows(nodes, pricing)) * Product(AllSeries(nodes, pricing))) * Product(AllRefs(r));
      && (walked.product.Some? <==> OwnPassesRead(nodes, budget, priced, pricing) && CostsRead(r, 0) && whole <= 10_000_000)
      && (walked.product.Some? ==> walked == Walked(Some(whole), BudgetBefore(r, |r.refs|)))
  {
    ReadsIff(bodies, nodes, pending, true);
    AfterOwnPasses(bodies, nodes, pending, budget, pricing, underTable);
    OwnProductPositive(nodes, pricing);
    var priced := underTable || ReadsSome(bodies, nodes, pending, true);
    if OwnPassesRead(nodes, budget, priced, pricing) {
      ReferencesReadIff(ReadingOf(bodies, nodes, pending, budget, pricing, priced), Product(AllRows(nodes, pricing)) * Product(AllSeries(nodes, pricing)));
    }
  }
}
