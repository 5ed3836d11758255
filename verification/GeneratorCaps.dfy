/** How large a spelled-out generator may be, and what is refused, told from the way up the tree
  * (core/scans.py). */
module GeneratorCaps {
  import opened Prelude
  import opened CteBodies
  import opened Sequences
  import opened Generators
  import opened BranchRows

  // ----- the way up -----

  /** A node's ancestors, nearest first, up to the root. */
  function WayUp(nodes: Subtree, i: nat): (up: seq<nat>)
    requires i < |nodes|
    ensures forall k :: 0 <= k < |up| ==> up[k] < |nodes|
    decreases i
  {
    if i == 0 then [] else [nodes[i].parent] + WayUp(nodes, nodes[i].parent)
  }

  /** The node the way up comes to its k-th step from. */
  function ComesFrom(nodes: Subtree, i: nat, k: nat): nat
    requires i < |nodes| && k <= |WayUp(nodes, i)|
  {
    if k == 0 then i else WayUp(nodes, i)[k - 1]
  }

  /** A scope other than the branch's own select. */
  predicate InnerScope(nodes: Subtree, p: nat)
    requires p < |nodes|
  {
    nodes[p].kind.Select? && !FirstSelect(nodes, p)
  }

  ghost predicate NoPredicateBefore(nodes: Subtree, i: nat, k: nat)
    requires i < |nodes| && k <= |WayUp(nodes, i)|
  {
    forall j :: 0 <= j < k ==> !nodes[WayUp(nodes, i)[j]].kind.Predicate?
  }

  ghost predicate NoTableBefore(nodes: Subtree, i: nat, k: nat)
    requires i < |nodes| && k <= |WayUp(nodes, i)|
  {
    forall j :: 0 <= j < k && InnerScope(nodes, WayUp(nodes, i)[j]) ==> !nodes[WayUp(nodes, i)[j]].kind.scans
  }

  /** At its k-th ancestor, and below no predicate, the rows become one: a scope of exactly one row that scans nothing
    * itself, or a predicate with no table beside the rows on the way to it. */
  ghost predicate OneRowAt(nodes: Subtree, i: nat, metTable: bool, k: nat)
    requires i < |nodes| && k < |WayUp(nodes, i)|
  {
    var p := WayUp(nodes, i)[k];
    && NoPredicateBefore(nodes, i, k)
    && (|| (nodes[p].kind.Predicate? && !metTable && NoTableBefore(nodes, i, k))
        || (InnerScope(nodes, p) && !nodes[p].kind.scans && nodes[p].kind.oneRow))
  }

  /** The loop that looks for such an ancestor finds one exactly when there is one. */
  lemma {:induction false} LandsIff(nodes: Subtree, i: nat, metTable: bool)
    requires i < |nodes|
    ensures LandsInOneRow(nodes, i, metTable) <==> exists k :: 0 <= k < |WayUp(nodes, i)| && OneRowAt(nodes, i, metTable, k)
    decreases i
  {
    if i > 0 {
      var p, up := nodes[i].parent, WayUp(nodes, i);
      var above := WayUp(nodes, p);
      FirstSelectIs(nodes, p);
      var met := metTable || (InnerScope(nodes, p) && nodes[p].kind.scans);
      LandsIff(nodes, p, met);
      assert up[0] == p && forall k :: 0 <= k < |above| ==> up[k + 1] == above[k];
      if !nodes[p].kind.Predicate? {
        forall k | 0 <= k < |above| ensures OneRowAt(nodes, p, met, k) <==> OneRowAt(nodes, i, metTable, k + 1) {
          OneRowShift(nodes, i, metTable, k);
        }
      }
      assert OneRowAt(nodes, i, metTable, 0) <==>
        (nodes[p].kind.Predicate? && !metTable) || (InnerScope(nodes, p) && !nodes[p].kind.scans && nodes[p].kind.oneRow);
      if k :| 0 <= k < |up| && OneRowAt(nodes, i, metTable, k) && k > 0 {
        assert !nodes[up[0]].kind.Predicate?;
        assert OneRowAt(nodes, p, met, k - 1);
      }
    }
  }

  lemma NoPredicateShift(nodes: Subtree, i: nat, k: nat)
    requires 0 < i < |nodes| && k <= |WayUp(nodes, nodes[i].parent)|
    ensures NoPredicateBefore(nodes, i, k + 1) <==> !nodes[nodes[i].parent].kind.Predicate? && NoPredicateBefore(nodes, nodes[i].parent, k)
  {
    var up, above := WayUp(nodes, i), WayUp(nodes, nodes[i].parent);
    assert up[0] == nodes[i].parent && forall j :: 0 <= j < |above| ==> above[j] == up[j + 1];
    if NoPredicateBefore(nodes, i, k + 1) {
      forall j | 0 <= j < k ensures !nodes[above[j]].kind.Predicate? {
        assert above[j] == up[j + 1];
      }
    }
  }

  lemma NoTableShift(nodes: Subtree, i: nat, k: nat)
    requires 0 < i < |nodes| && k <= |WayUp(nodes, nodes[i].parent)|
    ensures NoTableBefore(nodes, i, k + 1) <==>
      (InnerScope(nodes, nodes[i].parent) ==> !nodes[nodes[i].parent].kind.scans) && NoTableBefore(nodes, nodes[i].parent, k)
  {
    var up, above := WayUp(nodes, i), WayUp(nodes, nodes[i].parent);
    assert up[0] == nodes[i].parent && forall j :: 0 <= j < |above| ==> above[j] == up[j + 1];
    if NoTableBefore(nodes, i, k + 1) {
      forall j | 0 <= j < k && InnerScope(nodes, above[j]) ensures !nodes[above[j]].kind.scans {
        assert above[j] == up[j + 1];
      }
    }
  }

  lemma OneRowShift(nodes: Subtree, i: nat, metTable: bool, k: nat)
    requires 0 < i < |nodes| && k < |WayUp(nodes, nodes[i].parent)| && !nodes[nodes[i].parent].kind.Predicate?
    ensures var p := nodes[i].parent;
      OneRowAt(nodes, p, metTable || (InnerScope(nodes, p) && nodes[p].kind.scans), k) <==> OneRowAt(nodes, i, metTable, k + 1)
  {
    NoPredicateShift(nodes, i, k);
    NoTableShift(nodes, i, k);
    assert WayUp(nodes, i)[k + 1] == WayUp(nodes, nodes[i].parent)[k];
  }

  /** FROM or a join puts the rows beside the others at this step, if there are others. */
  predicate BesideAt(nodes: Subtree, i: nat, k: nat)
    requires i < |nodes| && k < |WayUp(nodes, i)|
  {
    var p := WayUp(nodes, i)[k];
    nodes[p].kind.Select? || nodes[p].kind.Join? ==> nodes[ComesFrom(nodes, i, k)].role == Relation
  }

  /** A table is met when that holds all the way up. */
  lemma {:induction false} MetIff(nodes: Subtree, i: nat)
    requires i < |nodes|
    ensures MetRelation(nodes, i) <==> forall k :: 0 <= k < |WayUp(nodes, i)| ==> BesideAt(nodes, i, k)
    decreases i
  {
    if i > 0 {
      var p := nodes[i].parent;
      var up, above := WayUp(nodes, i), WayUp(nodes, p);
      MetIff(nodes, p);
      assert up == [p] + above;
      forall k | 0 <= k < |above| ensures BesideAt(nodes, i, k + 1) <==> BesideAt(nodes, p, k) {
        assert up[k + 1] == above[k] && ComesFrom(nodes, i, k + 1) == ComesFrom(nodes, p, k);
      }
      assert BesideAt(nodes, i, 0) <==> (nodes[p].kind.Select? || nodes[p].kind.Join? ==> nodes[i].role.Relation?);
      if forall k :: 0 <= k < |up| ==> BesideAt(nodes, i, k) {
        forall k | 0 <= k < |above| ensures BesideAt(nodes, p, k) {
          assert BesideAt(nodes, i, k + 1);
        }
      }
      if BesideAt(nodes, i, 0) && forall k :: 0 <= k < |above| ==> BesideAt(nodes, p, k) {
        forall k | 0 <= k < |up| ensures BesideAt(nodes, i, k) {
          assert k > 0 ==> BesideAt(nodes, p, k - 1);
        }
      }
    }
  }

  /** The rows reach the branch and multiply it: no step goes to a predicate, out of a select list, or to a scope that
    * narrows what it built alone. */
  predicate MultipliesAt(nodes: Subtree, i: nat, k: nat)
    requires i < |nodes| && k < |WayUp(nodes, i)|
  {
    var p := WayUp(nodes, i)[k];
    match nodes[p].kind
    case Predicate => false
    case Select(narrows, scans, _) => nodes[ComesFrom(nodes, i, k)].role != Projection && !(InnerScope(nodes, p) && narrows && !scans)
    case _ => true
  }

  lemma {:induction false} MultipliesIff(nodes: Subtree, i: nat)
    requires i < |nodes|
    ensures Meets(nodes, i) <==> forall k :: 0 <= k < |WayUp(nodes, i)| ==> MultipliesAt(nodes, i, k)
    decreases i
  {
    if i > 0 {
      var p := nodes[i].parent;
      var up, above := WayUp(nodes, i), WayUp(nodes, p);
      MultipliesIff(nodes, p);
      FirstSelectIs(nodes, p);
      assert up == [p] + above;
      forall k | 0 <= k < |above| ensures MultipliesAt(nodes, i, k + 1) <==> MultipliesAt(nodes, p, k) {
        assert up[k + 1] == above[k] && ComesFrom(nodes, i, k + 1) == ComesFrom(nodes, p, k);
      }
      assert MultipliesAt(nodes, i, 0) <==> !Stops(nodes, i);
      if forall k :: 0 <= k < |up| ==> MultipliesAt(nodes, i, k) {
        forall k | 0 <= k < |above| ensures MultipliesAt(nodes, p, k) {
          assert MultipliesAt(nodes, i, k + 1);
        }
      }
      if MultipliesAt(nodes, i, 0) && forall k :: 0 <= k < |above| ==> MultipliesAt(nodes, p, k) {
        forall k | 0 <= k < |up| ensures MultipliesAt(nodes, i, k) {
          assert k > 0 ==> MultipliesAt(nodes, p, k - 1);
        }
      }
    }
  }

  // ----- how large an input may be -----

  /** What is allowed of one input: a literal list of at most 1000 elements, a readable sequence within the cap, or
    * what following the name or the call answered. */
  predicate Allowed(kind: Kind, priced: bool, cap: nat) {
    match kind
    case Array(count, literal) => literal && count <= 1000
    case Series(span) => SequenceLength(span).Some? && SequenceLength(span).value <= cap
    case Column(whenPriced, otherwise, _, _, _) => if priced then whenPriced else otherwise
    case Call(whenPriced, otherwise, _) => if priced then whenPriced else otherwise
    case _ => false
  }

  /** The rows are priced by a table they meet, or built by a scope that makes one row of them. */
  ghost predicate Excused(nodes: Subtree, g: nat)
    requires g < |nodes|
  {
    || (forall k :: 0 <= k < |WayUp(nodes, g)| ==> MultipliesAt(nodes, g, k))
    || exists k :: 0 <= k < |WayUp(nodes, g)| && OneRowAt(nodes, g, false, k)
  }

  /** A generator passes exactly when it has inputs and each is allowed, sequences of up to 10,000,000 only where a
    * table prices the branch and the generator is excused, and of up to 1000 otherwise. */
  lemma BoundedIff(nodes: Subtree, g: nat, priced: bool)
    requires g < |nodes|
    ensures Bounded(nodes, g, priced) <==>
      (exists j :: g < j < |nodes| && nodes[j].parent == g && nodes[j].role == Input)
      && forall j :: g < j < |nodes| && nodes[j].parent == g && nodes[j].role == Input ==>
           Allowed(nodes[j].kind, priced, if priced && Excused(nodes, g) then 10_000_000 else 1000)
  {
    MultipliesIff(nodes, g);
    LandsIff(nodes, g, false);
    forall j | g < j < |nodes| ensures IsInput(nodes, g, j) <==> nodes[j].parent == g && nodes[j].role == Input {
    }
    var cap: nat := if priced && Excused(nodes, g) then 10_000_000 else 1000;
    assert InputCap(nodes, g, priced) == cap;
    forall j | g < j < |nodes| ensures InputBounded(nodes[j].kind, priced, InputCap(nodes, g, priced)) <==> Allowed(nodes[j].kind, priced, cap) {
    }
  }

  // ----- does a subtree read a table -----

  /** Some table stands beside the rows in FROM or a join, or anywhere where it need not. */
  ghost predicate ReadsAt(bodies: Bodies, nodes: Subtree, i: nat, pending: set<string>, metOnly: bool)
    requires i < |nodes|
  {
    && (metOnly ==> forall k :: 0 <= k < |WayUp(nodes, i)| ==> BesideAt(nodes, i, k))
    && (nodes[i].kind.Scan? || (nodes[i].kind.Ref? && NamedReads(bodies, nodes[i].kind.name, pending)))
  }

  /** A name stands for a table unless it is bound; bound, some body of it reads one; being followed, none does. */
  ghost predicate NamedReads(bodies: Bodies, name: string, pending: set<string>) {
    name !in bodies ||
    (name !in pending && exists b :: 0 <= b < |bodies[name]| && ReadsATable(bodies, bodies[name][b], 0, pending + {name}, false))
  }

  lemma {:induction false} AnyReadsIff(bodies: Bodies, all: seq<Subtree>, pending: set<string>)
    ensures AnyReads(bodies, all, pending) <==> exists b :: 0 <= b < |all| && ReadsATable(bodies, all[b], 0, pending, false)
  {
    if all != [] {
      AnyReadsIff(bodies, all[1..], pending);
      if b :| 0 <= b < |all| && ReadsATable(bodies, all[b], 0, pending, false) {
        assert b > 0 ==> all[1..][b - 1] == all[b];
      }
      if b :| 0 <= b < |all[1..]| && ReadsATable(bodies, all[1..][b], 0, pending, false) {
        assert all[b + 1] == all[1..][b];
      }
    }
  }

  lemma ReadsHereIff(bodies: Bodies, nodes: Subtree, i: nat, pending: set<string>, metOnly: bool)
    requires i < |nodes|
    ensures ReadsHere(bodies, nodes, i, pending, metOnly) <==> ReadsAt(bodies, nodes, i, pending, metOnly)
  {
    MetIff(nodes, i);
    if nodes[i].kind.Ref? && nodes[i].kind.name in bodies {
      AnyReadsIff(bodies, bodies[nodes[i].kind.name], pending + {nodes[i].kind.name});
    }
  }

  lemma {:induction false} ReadsFrom(bodies: Bodies, nodes: Subtree, i: nat, pending: set<string>, metOnly: bool)
    requires i <= |nodes|
    ensures ReadsATable(bodies, nodes, i, pending, metOnly) <==> exists j :: i <= j < |nodes| && ReadsAt(bodies, nodes, j, pending, metOnly)
    decreases |nodes| - i
  {
    if i < |nodes| {
      ReadsHereIff(bodies, nodes, i, pending, metOnly);
      ReadsFrom(bodies, nodes, i + 1, pending, metOnly);
    }
  }

  ghost predicate ReadsSome(bodies: Bodies, nodes: Subtree, pending: set<string>, metOnly: bool) {
    exists j :: 0 <= j < |nodes| && ReadsAt(bodies, nodes, j, pending, metOnly)
  }

  /** A subtree reads a table exactly when some node of it is one, or a name that stands for one. */
  lemma ReadsIff(bodies: Bodies, nodes: Subtree, pending: set<string>, metOnly: bool)
    ensures ReadsATable(bodies, nodes, 0, pending, metOnly) <==> ReadsSome(bodies, nodes, pending, metOnly)
  {
    ReadsFrom(bodies, nodes, 0, pending, metOnly);
  }

  // ----- what a name costs -----

  ghost predicate OuterOneRow(nodes: Subtree) {
    exists i :: 0 <= i < |nodes| && FirstSelect(nodes, i) && nodes[i].kind.oneRow
  }

  lemma OuterSelectIs(nodes: Subtree)
    ensures Collapses(nodes) <==> OuterNarrows(nodes)
    ensures YieldsOneRow(nodes) <==> OuterOneRow(nodes)
  {
    if BranchSelect(nodes, 0).Some? {
      FirstSelectIs(nodes, BranchSelect(nodes, 0).value);
    }
    forall i | 0 <= i < |nodes| && FirstSelect(nodes, i) ensures BranchSelect(nodes, 0) == Some(i) {
      FirstSelectIs(nodes, i);
    }
  }

  /** A name bound once, met for the first time, costs its body's product, one at least: when pricing, one where the
    * body narrows what it built without any table. Its sequences are excused where it makes one row, reads no
    * table, and is itself read beside one. */
  lemma NamedCostIs(bodies: Bodies, name: string, pending: set<string>, budget: int, pricing: bool, priced: bool)
    requires name in bodies && name !in pending && |bodies[name]| == 1
    ensures var body := bodies[name][0];
      var reading := ReadsSome(bodies, body, pending + {name}, false);
      var walked := GeneratorProduct(bodies, body, pending + {name}, budget, pricing, priced && OuterOneRow(body) && !reading);
      var cost := CostOf(bodies, name, pending, budget, pricing, priced, map[]);
      && cost.budget == walked.budget && (cost.product.Some? <==> walked.product.Some?)
      && (walked.product.Some? ==> cost.product.value == if pricing && OuterNarrows(body) && !reading then 1 else Max(1, walked.product.value))
  {
    var body := bodies[name][0];
    ReadsIff(bodies, body, pending + {name}, false);
    OuterSelectIs(body);
    var inside := pending + {name};
    var walked := GeneratorProduct(bodies, body, inside, budget, pricing, priced && OuterOneRow(body) && !ReadsSome(bodies, body, inside, false));
    assert bodies[name][0] == body && bodies[name][1..] == [];
    if walked.product.Some? {
      var rows := if pricing && OuterNarrows(body) && !ReadsSome(bodies, body, inside, false) then 1 else walked.product.value;
      assert Dearest(bodies, bodies[name], inside, budget, pricing, priced, 1)
        == Dearest(bodies, [], inside, walked.budget, pricing, priced, Max(1, rows));
    }
  }

  // ----- what is refused -----

  lemma {:induction false} NodesCapped(nodes: Subtree, i: nat, priced: bool, pricing: bool, budget: int, product: nat)
    requires i <= |nodes| && product <= 10_000_000
    ensures WalkNodes(nodes, i, priced, pricing, budget, product).product.Some? ==>
      WalkNodes(nodes, i, priced, pricing, budget, product).product.value <= 10_000_000
    decreases |nodes| - i
  {
    if i < |nodes| && budget - 1 > 0 {
      if !nodes[i].kind.Generator? {
        NodesCapped(nodes, i + 1, priced, pricing, budget - 1, product);
      } else {
        var checked := budget - 1 - CheckSteps(nodes, i, i + 1);
        var sized := checked - RowSteps(nodes, i, i + 1);
        var more := product * (if sized <= 0 then MAX_COUNTED_ROWS else GeneratorRows(nodes, i, i + 1));
        NodesCapped(nodes, i + 1, priced, pricing, checked, product);
        if more <= 10_000_000 {
          NodesCapped(nodes, i + 1, priced, pricing, sized, more);
        }
      }
    }
  }

  lemma {:induction false} SeriesCapped(nodes: Subtree, i: nat, priced: bool, pricing: bool, product: nat)
    requires i <= |nodes| && product <= 10_000_000
    ensures LooseSeries(nodes, i, priced, pricing, product).Some? ==> LooseSeries(nodes, i, priced, pricing, product).value <= 10_000_000
    decreases |nodes| - i
  {
    if i < |nodes| {
      SeriesCapped(nodes, i + 1, priced, pricing, product);
      if nodes[i].kind.Series? && SequenceLength(nodes[i].kind.span).Some? && product * SequenceLength(nodes[i].kind.span).value <= 10_000_000 {
        SeriesCapped(nodes, i + 1, priced, pricing, product * SequenceLength(nodes[i].kind.span).value);
      }
    }
  }

  lemma {:induction false} ReferencesCapped(bodies: Bodies, refs: seq<string>, pending: set<string>, budget: int, pricing: bool, priced: bool,
                                            perName: map<string, nat>, product: nat)
    requires Followed(bodies, refs, pending) && product <= 10_000_000
    ensures var walked := TimesReferences(bodies, refs, pending, budget, pricing, priced, perName, product);
      walked.product.Some? ==> walked.product.value <= 10_000_000
    decreases |refs|
  {
    if refs != [] {
      var cost := CostOf(bodies, refs[0], pending, budget, pricing, priced, perName);
      if cost.product.Some? && product * cost.product.value <= 10_000_000 {
        ReferencesCapped(bodies, refs[1..], pending, cost.budget, pricing, priced, perName[refs[0] := cost.product.value], product * cost.product.value);
      }
    }
  }

  /** Whatever is read is at most 10,000,000. */
  lemma ProductIsCapped(bodies: Bodies, nodes: Subtree, pending: set<string>, budget: int, pricing: bool, underTable: bool)
    ensures var walked := GeneratorProduct(bodies, nodes, pending, budget, pricing, underTable);
      walked.product.Some? ==> walked.product.value <= 10_000_000
  {
    if budget > 0 {
      var priced := underTable || ReadsATable(bodies, nodes, 0, pending, true);
      NodesCapped(nodes, 0, priced, pricing, budget, 1);
      var walked := WalkNodes(nodes, 0, priced, pricing, budget, 1);
      if walked.product.Some? {
        SeriesCapped(nodes, 0, priced, pricing, walked.product.value);
        ReferencesPending(bodies, nodes, 0, pending);
        var series := LooseSeries(nodes, 0, priced, pricing, walked.product.value);
        if series.Some? {
          ReferencesCapped(bodies, References(bodies, nodes, 0, pending), pending, walked.budget, pricing, priced, map[], series.value);
        }
      }
    }
  }

  /** The budget a branch is walked with: what the branches before it left. */
  function BudgetAt(bodies: Bodies, branches: seq<Subtree>, budget: int, b: nat): int
    requires b <= |branches|
  {
    if b == 0 then budget
    else GeneratorProduct(bodies, branches[b - 1], {}, BudgetAt(bodies, branches, budget, b - 1), false, false).budget
  }

  /** A branch is one to refuse: its product cannot be read, or is over 1000 with no table to price it. */
  ghost predicate Unpriced(bodies: Bodies, nodes: Subtree, budget: int) {
    var product := GeneratorProduct(bodies, nodes, {}, budget, false, false).product;
    product == None || (product.value > 1000 && !ReadsSome(bodies, nodes, {}, false))
  }

  lemma {:induction false} BudgetShift(bodies: Bodies, branches: seq<Subtree>, budget: int, b: nat)
    requires b < |branches|
    ensures BudgetAt(bodies, branches, budget, b + 1)
      == BudgetAt(bodies, branches[1..], GeneratorProduct(bodies, branches[0], {}, budget, false, false).budget, b)
    decreases b
  {
    if b > 0 {
      BudgetShift(bodies, branches, budget, b - 1);
      assert branches[1..][b - 1] == branches[b];
    }
  }

  /** A query is refused exactly when some branch of it is one to refuse. */
  lemma {:induction false} RefusedIff(bodies: Bodies, branches: seq<Subtree>, budget: int)
    ensures Refuses(bodies, branches, budget) <==> exists b :: 0 <= b < |branches| && Unpriced(bodies, branches[b], BudgetAt(bodies, branches, budget, b))
    decreases |branches|
  {
    if branches != [] {
      var left := GeneratorProduct(bodies, branches[0], {}, budget, false, false).budget;
      ReadsIff(bodies, branches[0], {}, false);
      RefusedIff(bodies, branches[1..], left);
      forall b: nat | b < |branches[1..]| ensures branches[1..][b] == branches[b + 1]
        && BudgetAt(bodies, branches[1..], left, b) == BudgetAt(bodies, branches, budget, b + 1)
      {
        BudgetShift(bodies, branches, budget, b);
      }
      assert Refuses(bodies, branches, budget) <==> Unpriced(bodies, branches[0], BudgetAt(bodies, branches, budget, 0)) || Refuses(bodies, branches[1..], left);
      if b :| 0 <= b < |branches| && Unpriced(bodies, branches[b], BudgetAt(bodies, branches, budget, b)) && b > 0 {
        assert Unpriced(bodies, branches[1..][b - 1], BudgetAt(bodies, branches[1..], left, b - 1));
      }
      if b :| 0 <= b < |branches[1..]| && Unpriced(bodies, branches[1..][b], BudgetAt(bodies, branches[1..], left, b)) {
        assert Unpriced(bodies, branches[b + 1], BudgetAt(bodies, branches, budget, b + 1));
      }
    }
  }

  // ----- the multiplier -----

  /** The budget a branch is priced with: only the branches before it that read a table spent of it. */
  function PricingBudgetAt(bodies: Bodies, branches: seq<Subtree>, budget: int, b: nat): int
    requires b <= |branches|
  {
    if b == 0 then budget
    else
      var before := PricingBudgetAt(bodies, branches, budget, b - 1);
      if ReadsATable(bodies, branches[b - 1], 0, {}, false) then GeneratorProduct(bodies, branches[b - 1], {}, before, true, false).budget
      else before
  }

  lemma {:induction false} PricingBudgetShift(bodies: Bodies, branches: seq<Subtree>, budget: int, b: nat)
    requires b < |branches|
    ensures PricingBudgetAt(bodies, branches, budget, b + 1)
      == PricingBudgetAt(bodies, branches[1..], PricingBudgetAt(bodies, branches, budget, 1), b)
    decreases b
  {
    if b > 0 {
      PricingBudgetShift(bodies, branches, budget, b - 1);
      assert branches[1..][b - 1] == branches[b];
    }
  }

  /** Branch b reads a table and this is its product. */
  ghost predicate IsPriced(bodies: Bodies, branches: seq<Subtree>, budget: int, b: nat, product: Option<nat>) {
    && b < |branches| && ReadsSome(bodies, branches[b], {}, false)
    && product == GeneratorProduct(bodies, branches[b], {}, PricingBudgetAt(bodies, branches, budget, b), true, false).product
  }

  lemma PricedShift(bodies: Bodies, branches: seq<Subtree>, budget: int, b: nat, product: Option<nat>)
    requires b < |branches| - 1
    ensures IsPriced(bodies, branches[1..], PricingBudgetAt(bodies, branches, budget, 1), b, product)
      <==> IsPriced(bodies, branches, budget, b + 1, product)
  {
    PricingBudgetShift(bodies, branches, budget, b);
    assert branches[1..][b] == branches[b + 1];
  }

  /** The multiplier is the largest product of a table-reading branch, one at least, and one where some such product
    * cannot be read. */
  lemma {:induction false} MultiplierIs(bodies: Bodies, branches: seq<Subtree>, budget: int, widest: nat)
    ensures Multiplier(bodies, branches, budget, widest).None? <==> exists b: nat :: IsPriced(bodies, branches, budget, b, None)
    ensures Multiplier(bodies, branches, budget, widest).Some? ==>
      var m := Multiplier(bodies, branches, budget, widest).value;
      && m >= widest && (m == widest || exists b: nat :: IsPriced(bodies, branches, budget, b, Some(m)))
      && forall b: nat, product: nat :: IsPriced(bodies, branches, budget, b, Some(product)) ==> product <= m
    decreases |branches|
  {
    if branches != [] {
      ReadsIff(bodies, branches[0], {}, false);
      var next := PricingBudgetAt(bodies, branches, budget, 1);
      assert PricingBudgetAt(bodies, branches, budget, 0) == budget;
      var walked := GeneratorProduct(bodies, branches[0], {}, budget, true, false);
      if ReadsATable(bodies, branches[0], 0, {}, false) && walked.product.None? {
        assert IsPriced(bodies, branches, budget, 0, None);
      } else {
        var wider := if ReadsATable(bodies, branches[0], 0, {}, false) then Max(widest, walked.product.value) else widest;
        MultiplierIs(bodies, branches[1..], next, wider);
        forall b: nat, product: Option<nat> | b < |branches| - 1
          ensures IsPriced(bodies, branches[1..], next, b, product) <==> IsPriced(bodies, branches, budget, b + 1, product)
        {
          PricedShift(bodies, branches, budget, b, product);
        }
        forall b: nat, product: Option<nat> | IsPriced(bodies, branches, budget, b, product)
          ensures (b == 0 && product == walked.product) || (b > 0 && IsPriced(bodies, branches[1..], next, b - 1, product))
        {
        }
        assert ReadsATable(bodies, branches[0], 0, {}, false) ==> IsPriced(bodies, branches, budget, 0, walked.product);
      }
    }
  }

  /** A query's multiplier, with 10,000 steps to walk it in: 1 where the product of some table-reading branch cannot be
    * read, and otherwise the largest of those products, 1 at least. */
  lemma FanoutIs(bodies: Bodies, branches: seq<Subtree>)
    ensures var fanout := GeneratorFanout(bodies, branches);
      if exists b: nat :: IsPriced(bodies, branches, 10_000, b, None) then fanout == 1
      else
        && fanout >= 1 && (fanout == 1 || exists b: nat :: IsPriced(bodies, branches, 10_000, b, Some(fanout)))
        && forall b: nat, product: nat :: IsPriced(bodies, branches, 10_000, b, Some(product)) ==> product <= fanout
  {
    MultiplierIs(bodies, branches, 10_000, 1);
  }

  /** And it is refused exactly when some branch is one to refuse, walked with what those before it left of 10,000 steps. */
  lemma GeneratesRowsIff(bodies: Bodies, branches: seq<Subtree>)
    ensures GeneratesRows(bodies, branches) <==> exists b :: 0 <= b < |branches| && Unpriced(bodies, branches[b], BudgetAt(bodies, branches, 10_000, b))
  {
    RefusedIff(bodies, branches, 10_000);
  }
}
