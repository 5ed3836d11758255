/** Rows a query manufactures rather than scans (core/scans.py): the multiplier a plan cannot see, and the
  * refusal that stands in when it cannot be read. Two walks of one tree, one for each purpose. */
module Generators {
  import opened Prelude
  import opened CteBodies
  import opened Sequences

  const MAX_INLINE_ROWS: nat := 1000
  const MAX_COUNTED_ROWS: nat := 10_000_000

  // ----- the tree, in the order the walks visit it -----

  /** Where a node hangs in its parent: among a select's FROM and joins (or as a join's relation), in a select
    * list, as an input of a generator, or anywhere else. */
  datatype Role = Relation | Projection | Input | Clause

  /** A node, as far as the walks tell nodes apart. A select carries the answers to the three questions put to
    * it alone: does it narrow its rows, scan a table of its own, emit exactly one row. A column or a call
    * feeding a generator carries the answers its resolution gives, and the steps they take. */
  datatype Kind =
    | Plain
    | Scan(table: string)
    | Ref(name: string)
    | Series(span: Span)
    | Array(count: nat, literal: bool)
    | Column(boundedPriced: bool, boundedAlone: bool, checkSteps: nat, rows: Rows, rowSteps: nat)
    | Call(boundedPriced: bool, boundedAlone: bool, checkSteps: nat)
    | Generator
    | Select(narrows: bool, scans: bool, oneRow: bool)
    | Join
    | Predicate

  datatype Node = Node(kind: Kind, parent: nat, role: Role)

  /** A subtree, root first and every parent before its children. */
  type Subtree = nodes: seq<Node> | forall i :: 0 < i < |nodes| ==> nodes[i].parent < i witness []

  type Bodies = map<string, seq<Subtree>>

  /** The select a subtree's own rows leave through: the first one met. */
  function BranchSelect(nodes: Subtree, i: nat): (select: Option<nat>)
    requires i <= |nodes|
    ensures select.Some? ==> i <= select.value < |nodes| && nodes[select.value].kind.Select?
    decreases |nodes| - i
  {
    if i == |nodes| then None else if nodes[i].kind.Select? then Some(i) else BranchSelect(nodes, i + 1)
  }

  predicate Collapses(nodes: Subtree) {
    BranchSelect(nodes, 0).Some? && nodes[BranchSelect(nodes, 0).value].kind.narrows
  }

  predicate YieldsOneRow(nodes: Subtree) {
    BranchSelect(nodes, 0).Some? && nodes[BranchSelect(nodes, 0).value].kind.oneRow
  }

  predicate Descends(nodes: Subtree, top: nat, i: nat)
    requires i < |nodes|
    decreases i
  {
    i > top && (nodes[i].parent == top || Descends(nodes, top, nodes[i].parent))
  }

  /** Does the step from node i to its parent keep the rows from meeting the branch: a value of a select list, a
    * scope that narrows what it built alone, or a predicate that only asks for a match? */
  predicate Stops(nodes: Subtree, i: nat)
    requires 0 < i < |nodes|
  {
    var p := nodes[i].parent;
    match nodes[p].kind
    case Select(narrows, scans, _) => nodes[i].role.Projection? || (BranchSelect(nodes, 0) != Some(p) && narrows && !scans)
    case Predicate => true
    case _ => false
  }

  /** Do the rows made here meet the branch's rows and multiply them? */
  predicate Meets(nodes: Subtree, i: nat)
    requires i < |nodes|
    decreases i
  {
    i == 0 || (!Stops(nodes, i) && Meets(nodes, nodes[i].parent))
  }

  /** Does a scope between here and the branch emit one row, having built nothing but these rows? */
  predicate LandsInOneRow(nodes: Subtree, i: nat, metTable: bool)
    requires i < |nodes|
    decreases i
  {
    i != 0 &&
    var p := nodes[i].parent;
    match nodes[p].kind
    case Select(_, scans, oneRow) =>
      if BranchSelect(nodes, 0) == Some(p) then LandsInOneRow(nodes, p, metTable)
      else (!scans && oneRow) || LandsInOneRow(nodes, p, metTable || scans)
    case Predicate => !metTable
    case _ => LandsInOneRow(nodes, p, metTable)
  }

  /** Is this table one the FROM or a JOIN puts beside the rows, all the way up? */
  predicate MetRelation(nodes: Subtree, i: nat)
    requires i < |nodes|
    decreases i
  {
    i == 0 ||
    var p := nodes[i].parent;
    (nodes[p].kind.Select? || nodes[p].kind.Join? ==> nodes[i].role.Relation?) && MetRelation(nodes, p)
  }

  method MultipliesItsBranch(nodes: Subtree, generator: nat) returns (meets: bool)
    requires generator < |nodes|
    ensures meets == Meets(nodes, generator)
  {
    var branch := BranchSelect(nodes, 0);
    var node: nat := generator;
    while node != 0
      invariant node < |nodes| && Meets(nodes, generator) == Meets(nodes, node)
    {
      var p := nodes[node].parent;
      if nodes[p].kind.Select? {
        if nodes[node].role.Projection? {
          return false;
        }
        if branch != Some(p) && nodes[p].kind.narrows && !nodes[p].kind.scans {
          return false;
        }
      }
      if nodes[p].kind.Predicate? {
        return false;
      }
      node := p;
    }
    meets := true;
  }

  method ScopeLandsInOneRow(nodes: Subtree, generator: nat) returns (lands: bool)
    requires generator < |nodes|
    ensures lands == LandsInOneRow(nodes, generator, false)
  {
    var branch, metTable := BranchSelect(nodes, 0), false;
    var node: nat := generator;
    while node != 0
      invariant node < |nodes| && LandsInOneRow(nodes, generator, false) == LandsInOneRow(nodes, node, metTable)
    {
      var p := nodes[node].parent;
      if nodes[p].kind.Select? && branch != Some(p) {
        var scans := nodes[p].kind.scans;
        if !scans && nodes[p].kind.oneRow {
          return true;
        }
        metTable := metTable || scans;
      }
      if nodes[p].kind.Predicate? {
        return !metTable;
      }
      node := p;
    }
    lands := false;
  }

  // ----- does a subtree read a table? -----

  /** Does the subtree scan a table from node i on, following references into the bodies? */
  predicate ReadsATable(bodies: Bodies, nodes: Subtree, i: nat, pending: set<string>, metOnly: bool)
    requires i <= |nodes|
    decreases |bodies.Keys - pending|, 1, |nodes| - i
  {
    i < |nodes| && (ReadsHere(bodies, nodes, i, pending, metOnly) || ReadsATable(bodies, nodes, i + 1, pending, metOnly))
  }

  predicate ReadsHere(bodies: Bodies, nodes: Subtree, i: nat, pending: set<string>, metOnly: bool)
    requires i < |nodes|
    decreases |bodies.Keys - pending|, 1, |nodes| - i, 0
  {
    (metOnly ==> MetRelation(nodes, i)) &&
    match nodes[i].kind
    case Scan(_) => true
    case Ref(name) => RefReads(bodies, name, pending)
    case _ => false
  }

  predicate RefReads(bodies: Bodies, name: string, pending: set<string>)
    decreases |bodies.Keys - pending|, 1, 0
  {
    if name !in bodies then true
    else if name in pending then false
    else
      Shrinks(bodies, pending, name);
      AnyReads(bodies, bodies[name], pending + {name})
  }

  predicate AnyReads(bodies: Bodies, all: seq<Subtree>, pending: set<string>)
    decreases |bodies.Keys - pending|, 2, |all|
  {
    all != [] && (ReadsATable(bodies, all[0], 0, pending, false) || AnyReads(bodies, all[1..], pending))
  }

  /** One question about one subtree in one scope. */
  datatype Question = Question(nodes: Subtree, pending: set<string>, metOnly: bool)

  /** Answers kept per subtree and scope, with "no" recorded before the answer is known. */
  class TableReader {
    const bodies: Bodies
    var answered: map<Question, bool>

    constructor (bodies: Bodies)
      ensures this.bodies == bodies && answered == map[]
    {
      this.bodies, answered := bodies, map[];
    }

    /** The answers about scopes of at least this depth are right, one open question aside. */
    ghost predicate Settled(depth: nat, open: set<Question>)
      reads this
    {
      forall q :: q in answered && |q.pending| >= depth && q !in open ==> answered[q] == ReadsATable(bodies, q.nodes, 0, q.pending, q.metOnly)
    }

    /** No shallower answer was touched. */
    twostate predicate Untouched(depth: nat)
      reads this
    {
      forall q: Question :: |q.pending| < depth ==>
        (q in answered <==> q in old(answered)) && (q in answered ==> answered[q] == old(answered)[q])
    }

    method Asks(nodes: Subtree, pending: set<string>, metOnly: bool) returns (reading: bool)
      requires Settled(|pending|, {})
      modifies this
      ensures reading == ReadsATable(bodies, nodes, 0, pending, metOnly)
      ensures Settled(|pending|, {}) && Untouched(|pending|)
      decreases |bodies.Keys - pending|, 1
    {
      var key := Question(nodes, pending, metOnly);
      if key in answered {
        return answered[key];
      }
      answered := answered[key := false];
      for i := 0 to |nodes|
        invariant Settled(|pending|, {key}) && Untouched(|pending|) && key in answered && !answered[key]
        invariant ReadsATable(bodies, nodes, 0, pending, metOnly) == ReadsATable(bodies, nodes, i, pending, metOnly)
      {
        reading := false;
        if !metOnly || MetRelation(nodes, i) {
          match nodes[i].kind {
            case Scan(_) => reading := true;
            case Ref(name) => reading := AsksBodies(name, pending);
            case _ =>
          }
        }
        if reading {
          answered := answered[key := true];
          return;
        }
      }
      reading := false;
    }

    method AsksBodies(name: string, pending: set<string>) returns (reading: bool)
      requires Settled(|pending| + 1, {})
      modifies this
      ensures reading == RefReads(bodies, name, pending)
      ensures Settled(|pending| + 1, {}) && Untouched(|pending| + 1)
      decreases |bodies.Keys - pending|, 0
    {
      if name !in bodies {
        return true;
      }
      if name in pending {
        return false;
      }
      Shrinks(bodies, pending, name);
      var all := bodies[name];
      assert all[0..] == all && |pending + {name}| == |pending| + 1;
      for i := 0 to |all|
        invariant Settled(|pending| + 1, {}) && Untouched(|pending| + 1)
        invariant AnyReads(bodies, all, pending + {name}) == AnyReads(bodies, all[i..], pending + {name})
      {
        assert all[i..][1..] == all[i + 1..];
        reading := Asks(all[i], pending + {name}, false);
        if reading {
          return;
        }
      }
      reading := false;
    }
  }

  /** A fresh memo for every question put from outside. */
  method AskReadsATable(bodies: Bodies, nodes: Subtree, pending: set<string>, metOnly: bool) returns (reading: bool)
    ensures reading == ReadsATable(bodies, nodes, 0, pending, metOnly)
  {
    var reader := new TableReader(bodies);
    reading := reader.Asks(nodes, pending, metOnly);
  }

  // ----- one generator: is its input bounded, and how many rows does it make? -----

  predicate IsInput(nodes: Subtree, generator: nat, j: nat)
    requires j < |nodes|
  {
    j > generator && nodes[j].parent == generator && nodes[j].role.Input?
  }

  /** Is this input's length something the query spells out or a table prices? */
  predicate InputBounded(kind: Kind, priced: bool, cap: nat) {
    match kind
    case Array(count, literal) => count <= MAX_INLINE_ROWS && literal
    case Series(span) => SequenceLength(span).Some? && SequenceLength(span).value <= cap
    case Column(boundedPriced, boundedAlone, _, _, _) => if priced then boundedPriced else boundedAlone
    case Call(boundedPriced, boundedAlone, _) => if priced then boundedPriced else boundedAlone
    case _ => false
  }

  /** A table the generator meets prices its rows, and a scope that lands in one row builds them alone. */
  function InputCap(nodes: Subtree, generator: nat, priced: bool): nat
    requires generator < |nodes|
  {
    if priced && (Meets(nodes, generator) || LandsInOneRow(nodes, generator, false)) then MAX_COUNTED_ROWS else MAX_INLINE_ROWS
  }

  predicate Bounded(nodes: Subtree, generator: nat, priced: bool)
    requires generator < |nodes|
  {
    && (exists j :: generator < j < |nodes| && IsInput(nodes, generator, j))
    && forall j :: generator < j < |nodes| && IsInput(nodes, generator, j) ==>
         InputBounded(nodes[j].kind, priced, InputCap(nodes, generator, priced))
  }

  /** Resolving a generator's inputs costs a step each, and more where names are followed. */
  function CheckSteps(nodes: Subtree, generator: nat, j: nat): nat
    requires j <= |nodes|
    decreases |nodes| - j
  {
    if j == |nodes| then 0
    else
      (if !IsInput(nodes, generator, j) then 0
       else if nodes[j].kind.Column? then nodes[j].kind.checkSteps
       else if nodes[j].kind.Call? then nodes[j].kind.checkSteps
       else 1)
      + CheckSteps(nodes, generator, j + 1)
  }

  /** The rows one node under a generator stands for, at least one. */
  function RowsOf(kind: Kind): Rows {
    match kind
    case Array(count, _) => if count > 0 then count else 1
    case Series(span) => if SequenceLength(span).Some? then SequenceLength(span).value else 1
    case Column(_, _, _, rows, _) => rows
    case _ => 1
  }

  /** The widest of everything under the generator: literal arrays, readable sequences, followed columns. */
  function GeneratorRows(nodes: Subtree, generator: nat, j: nat): Rows
    requires j <= |nodes|
    decreases |nodes| - j
  {
    if j == |nodes| then 1
    else Max(if Descends(nodes, generator, j) then RowsOf(nodes[j].kind) else 1, GeneratorRows(nodes, generator, j + 1))
  }

  function RowSteps(nodes: Subtree, generator: nat, j: nat): nat
    requires j <= |nodes|
    decreases |nodes| - j
  {
    if j == |nodes| then 0
    else
      (if Descends(nodes, generator, j) && nodes[j].kind.Column? then nodes[j].kind.rowSteps else 0) + RowSteps(nodes, generator, j + 1)
  }

  // ----- the product of a subtree's generators -----

  /** A walk's answer and the budget it left; None is "no quote", whatever the reason. */
  datatype Walked = Walked(product: Option<nat>, budget: int)

  /** A product past the counting cap is no product. */
  function Capped(product: nat): Option<nat> { if product > MAX_COUNTED_ROWS then None else Some(product) }

  /** The first pass: every node costs a step, and every generator its resolution. */
  function WalkNodes(nodes: Subtree, i: nat, priced: bool, pricing: bool, budget: int, product: nat): Walked
    requires i <= |nodes|
    decreases |nodes| - i
  {
    if i == |nodes| then Walked(Some(product), budget)
    else if budget - 1 <= 0 then Walked(None, budget - 1)
    else if !nodes[i].kind.Generator? then WalkNodes(nodes, i + 1, priced, pricing, budget - 1, product)
    else
      var checked := budget - 1 - CheckSteps(nodes, i, i + 1);
      if checked <= 0 || !Bounded(nodes, i, priced) then Walked(None, checked)
      else if pricing && !Meets(nodes, i) then WalkNodes(nodes, i + 1, priced, pricing, checked, product)
      else
        var sized := checked - RowSteps(nodes, i, i + 1);
        var rows := if sized <= 0 then MAX_COUNTED_ROWS else GeneratorRows(nodes, i, i + 1);
        if Capped(product * rows).None? then Walked(None, sized)
        else WalkNodes(nodes, i + 1, priced, pricing, sized, product * rows)
  }

  predicate CountedGenerator(nodes: Subtree, g: nat, pricing: bool)
    requires g < |nodes|
  {
    nodes[g].kind.Generator? && (pricing ==> Meets(nodes, g))
  }

  /** The series inside some counted generator before node n. */
  function WrappedUpTo(nodes: Subtree, pricing: bool, n: nat): set<nat>
    requires n <= |nodes|
  {
    set s | 0 <= s < |nodes| && nodes[s].kind.Series? && exists g :: 0 <= g < n && CountedGenerator(nodes, g, pricing) && Descends(nodes, g, s)
  }

  function Wrapped(nodes: Subtree, pricing: bool): set<nat> { WrappedUpTo(nodes, pricing, |nodes|) }

  /** The second pass: series in a table position, without a counted generator around them. */
  function LooseSeries(nodes: Subtree, i: nat, priced: bool, pricing: bool, product: nat): Option<nat>
    requires i <= |nodes|
    decreases |nodes| - i
  {
    if i == |nodes| then Some(product)
    else if !nodes[i].kind.Series? || i in Wrapped(nodes, pricing) || (pricing && !Meets(nodes, i))
    then LooseSeries(nodes, i + 1, priced, pricing, product)
    else
      var length := SequenceLength(nodes[i].kind.span);
      if length.None? || length.value > (if priced then MAX_COUNTED_ROWS else MAX_INLINE_ROWS) || Capped(product * length.value).None?
      then None
      else LooseSeries(nodes, i + 1, priced, pricing, product * length.value)
  }

  /** The names read from node i on, one for each reference. */
  function References(bodies: Bodies, nodes: Subtree, i: nat, pending: set<string>): seq<string>
    requires i <= |nodes|
    decreases |nodes| - i
  {
    if i == |nodes| then []
    else
      (if nodes[i].kind.Ref? && nodes[i].kind.name in bodies && nodes[i].kind.name !in pending then [nodes[i].kind.name] else [])
      + References(bodies, nodes, i + 1, pending)
  }

  /** Names a walk may follow: bound, and not being followed already. */
  predicate Followed(bodies: Bodies, refs: seq<string>, pending: set<string>) {
    forall i :: 0 <= i < |refs| ==> refs[i] in bodies && refs[i] !in pending
  }

  lemma {:induction false} ReferencesPending(bodies: Bodies, nodes: Subtree, i: nat, pending: set<string>)
    requires i <= |nodes|
    ensures Followed(bodies, References(bodies, nodes, i, pending), pending)
    decreases |nodes| - i
  {
    if i < |nodes| {
      ReferencesPending(bodies, nodes, i + 1, pending);
    }
  }

  /** The whole product of a subtree. */
  function GeneratorProduct(bodies: Bodies, nodes: Subtree, pending: set<string>, budget: int, pricing: bool, underTable: bool): Walked
    decreases |bodies.Keys - pending|, 4, 0
  {
    if budget <= 0 then Walked(None, budget)
    else
      var priced := underTable || ReadsATable(bodies, nodes, 0, pending, true);
      var walked := WalkNodes(nodes, 0, priced, pricing, budget, 1);
      if walked.product.None? then walked
      else
        match LooseSeries(nodes, 0, priced, pricing, walked.product.value)
        case None => Walked(None, walked.budget)
        case Some(product) =>
          ReferencesPending(bodies, nodes, 0, pending);
          TimesReferences(bodies, References(bodies, nodes, 0, pending), pending, walked.budget, pricing, priced, map[], product)
  }

  /** The third pass: each name is walked once, at its dearest binding, and applied once per reference. */
  function TimesReferences(bodies: Bodies, refs: seq<string>, pending: set<string>, budget: int, pricing: bool, priced: bool,
                           perName: map<string, nat>, product: nat): Walked
    requires Followed(bodies, refs, pending)
    decreases |bodies.Keys - pending|, 3, |refs|
  {
    if refs == [] then Walked(Some(product), budget)
    else
      var cost := CostOf(bodies, refs[0], pending, budget, pricing, priced, perName);
      if cost.product.None? then cost
      else if Capped(product * cost.product.value).None? then Walked(None, cost.budget)
      else TimesReferences(bodies, refs[1..], pending, cost.budget, pricing, priced, perName[refs[0] := cost.product.value], product * cost.product.value)
  }

  /** What one reference is charged: the remembered answer, or the name's dearest body. */
  function CostOf(bodies: Bodies, name: string, pending: set<string>, budget: int, pricing: bool, priced: bool, perName: map<string, nat>): Walked
    requires name in bodies && name !in pending
    decreases |bodies.Keys - pending|, 2, 0
  {
    if name in perName then Walked(Some(perName[name]), budget)
    else
      Shrinks(bodies, pending, name);
      Dearest(bodies, bodies[name], pending + {name}, budget, pricing, priced, 1)
  }

  /** The widest of a name's bodies; when pricing, a body that collapses what it alone invents counts once. */
  function Dearest(bodies: Bodies, all: seq<Subtree>, pending: set<string>, budget: int, pricing: bool, priced: bool, widest: nat): Walked
    decreases |bodies.Keys - pending|, 5, |all|
  {
    if all == [] then Walked(Some(widest), budget)
    else
      var reading := ReadsATable(bodies, all[0], 0, pending, false);
      var nested := GeneratorProduct(bodies, all[0], pending, budget, pricing, priced && YieldsOneRow(all[0]) && !reading);
      if nested.product.None? then nested
      else
        var rows := if pricing && Collapses(all[0]) && !reading then 1 else nested.product.value;
        Dearest(bodies, all[1..], pending, nested.budget, pricing, priced, Max(widest, rows))
  }

  // ----- the two questions -----

  /** Does some branch invent rows nothing prices? */
  function Refuses(bodies: Bodies, branches: seq<Subtree>, budget: int): bool {
    if branches == [] then false
    else
      var walked := GeneratorProduct(bodies, branches[0], {}, budget, false, false);
      walked.product.None?
      || (walked.product.value > MAX_INLINE_ROWS && !ReadsATable(bodies, branches[0], 0, {}, false))
      || Refuses(bodies, branches[1..], walked.budget)
  }

  /** The widest multiplier over the branches that read a table, or None where one could not be read
    * (the caller then multiplies by 1). */
  function Multiplier(bodies: Bodies, branches: seq<Subtree>, budget: int, widest: nat): Option<nat> {
    if branches == [] then Some(widest)
    else if !ReadsATable(bodies, branches[0], 0, {}, false) then Multiplier(bodies, branches[1..], budget, widest)
    else
      var walked := GeneratorProduct(bodies, branches[0], {}, budget, true, false);
      if walked.product.None? then None
      else Multiplier(bodies, branches[1..], walked.budget, Max(widest, walked.product.value))
  }

  function GeneratesRows(bodies: Bodies, branches: seq<Subtree>): bool { Refuses(bodies, branches, MAX_SCAN_COUNT) }

  function GeneratorFanout(bodies: Bodies, branches: seq<Subtree>): nat {
    match Multiplier(bodies, branches, MAX_SCAN_COUNT, 1)
    case None => 1
    case Some(widest) => widest
  }

  // ----- the walks themselves -----

  /** A walk ended as specified: the same product, and with one in hand the same budget left. */
  ghost predicate Ends(product: Option<nat>, budget: int, walked: Walked) {
    product == walked.product && (product.Some? ==> budget == walked.budget)
  }

  /** One walk over a tree: the steps left, shared by everything it resolves. */
  class GeneratorWalk {
    const bodies: Bodies
    var budget: int

    constructor (bodies: Bodies)
      ensures this.bodies == bodies && budget == MAX_SCAN_COUNT
    {
      this.bodies, budget := bodies, MAX_SCAN_COUNT;
    }

    method Product(nodes: Subtree, pending: set<string>, pricing: bool, underTable: bool) returns (product: Option<nat>)
      modifies this
      ensures Ends(product, budget, GeneratorProduct(bodies, nodes, pending, old(budget), pricing, underTable))
      decreases |bodies.Keys - pending|, 4
    {
      if budget <= 0 {
        return None;
      }
      var priced := underTable;
      if !priced {
        priced := AskReadsATable(bodies, nodes, pending, true);
      }
      var wrapped: set<nat>;
      product, wrapped := VisitNodes(nodes, priced, pricing);
      if product.None? {
        return;
      }
      product := ApplySeries(nodes, wrapped, priced, pricing, product.value);
      if product.None? {
        return;
      }
      ReferencesPending(bodies, nodes, 0, pending);
      product := ApplyReferences(References(bodies, nodes, 0, pending), pending, pricing, priced, product.value);
    }

    method VisitNodes(nodes: Subtree, priced: bool, pricing: bool) returns (product: Option<nat>, wrapped: set<nat>)
      modifies this
      ensures Ends(product, budget, WalkNodes(nodes, 0, priced, pricing, old(budget), 1))
      ensures product.Some? ==> wrapped == Wrapped(nodes, pricing)
    {
      var total: nat := 1;
      wrapped := {};
      for i := 0 to |nodes|
        invariant WalkNodes(nodes, 0, priced, pricing, old(budget), 1) == WalkNodes(nodes, i, priced, pricing, budget, total)
        invariant wrapped == WrappedUpTo(nodes, pricing, i)
      {
        budget := budget - 1;
        if budget <= 0 {
          return None, wrapped;
        }
        if nodes[i].kind.Generator? {
          var meets := MultipliesItsBranch(nodes, i);
          budget := budget - CheckSteps(nodes, i, i + 1);
          if budget <= 0 || !Bounded(nodes, i, priced) {
            return None, wrapped;
          }
          if pricing && !meets {
            continue;
          }
          budget := budget - RowSteps(nodes, i, i + 1);
          total := total * (if budget <= 0 then MAX_COUNTED_ROWS else GeneratorRows(nodes, i, i + 1));
          if total > MAX_COUNTED_ROWS {
            return None, wrapped;
          }
          wrapped := wrapped + set s | i < s < |nodes| && nodes[s].kind.Series? && Descends(nodes, i, s);
        }
      }
      product := Some(total);
    }

    method ApplySeries(nodes: Subtree, wrapped: set<nat>, priced: bool, pricing: bool, start: nat) returns (product: Option<nat>)
      requires wrapped == Wrapped(nodes, pricing)
      ensures product == LooseSeries(nodes, 0, priced, pricing, start)
    {
      var total: nat := start;
      for i := 0 to |nodes|
        invariant LooseSeries(nodes, 0, priced, pricing, start) == LooseSeries(nodes, i, priced, pricing, total)
      {
        if !nodes[i].kind.Series? || i in wrapped {
          continue;
        }
        var meets := MultipliesItsBranch(nodes, i);
        if pricing && !meets {
          continue;
        }
        var length := SequenceLength(nodes[i].kind.span);
        if length.None? || length.value > (if priced then MAX_COUNTED_ROWS else MAX_INLINE_ROWS) {
          return None;
        }
        if total * length.value > MAX_COUNTED_ROWS {
          return None;
        }
        total := total * length.value;
      }
      product := Some(total);
    }

    method ApplyReferences(refs: seq<string>, pending: set<string>, pricing: bool, priced: bool, start: nat) returns (product: Option<nat>)
      requires Followed(bodies, refs, pending)
      modifies this
      ensures Ends(product, budget, TimesReferences(bodies, refs, pending, old(budget), pricing, priced, map[], start))
      decreases |bodies.Keys - pending|, 3
    {
      var perName: map<string, nat>, total: nat := map[], start;
      assert refs[0..] == refs;
      for i := 0 to |refs|
        invariant TimesReferences(bodies, refs, pending, old(budget), pricing, priced, map[], start)
               == TimesReferences(bodies, refs[i..], pending, budget, pricing, priced, perName, total)
      {
        assert refs[i..][1..] == refs[i + 1..];
        var name := refs[i];
        Shrinks(bodies, pending, name);
        var cost: nat;
        if name in perName {
          cost := perName[name];
        } else {
          var widest := WidestBinding(bodies[name], pending + {name}, pricing, priced);
          if widest.None? {
            return None;
          }
          cost := widest.value;
        }
        perName := perName[name := cost];
        if total * cost > MAX_COUNTED_ROWS {
          return None;
        }
        total := total * cost;
      }
      product := Some(total);
    }

    method WidestBinding(all: seq<Subtree>, pending: set<string>, pricing: bool, priced: bool) returns (rows: Option<nat>)
      modifies this
      ensures Ends(rows, budget, Dearest(bodies, all, pending, old(budget), pricing, priced, 1))
      decreases |bodies.Keys - pending|, 5
    {
      var widest: nat := 1;
      assert all[0..] == all;
      for i := 0 to |all|
        invariant Dearest(bodies, all, pending, old(budget), pricing, priced, 1)
               == Dearest(bodies, all[i..], pending, budget, pricing, priced, widest)
      {
        assert all[i..][1..] == all[i + 1..];
        var reading := AskReadsATable(bodies, all[i], pending, false);
        var nested := Product(all[i], pending, pricing, priced && YieldsOneRow(all[i]) && !reading);
        if nested.None? {
          return None;
        }
        widest := Max(widest, if pricing && Collapses(all[i]) && !reading then 1 else nested.value);
      }
      rows := Some(widest);
    }
  }

  method HasUnpriceableShape(bodies: Bodies, branches: seq<Subtree>) returns (refused: bool)
    ensures refused == GeneratesRows(bodies, branches)
  {
    var walk := new GeneratorWalk(bodies);
    assert branches[0..] == branches;
    for i := 0 to |branches|
      invariant fresh(walk) && walk.bodies == bodies
      invariant GeneratesRows(bodies, branches) == Refuses(bodies, branches[i..], walk.budget)
    {
      assert branches[i..][1..] == branches[i + 1..];
      var product := walk.Product(branches[i], {}, false, false);
      if product.None? {
        return true;
      }
      if product.value > MAX_INLINE_ROWS {
        var reading := AskReadsATable(bodies, branches[i], {}, false);
        if !reading {
          return true;
        }
      }
    }
    refused := false;
  }

  method Fanout(bodies: Bodies, branches: seq<Subtree>) returns (fanout: nat)
    ensures fanout == GeneratorFanout(bodies, branches)
  {
    var walk := new GeneratorWalk(bodies);
    fanout := 1;
    assert branches[0..] == branches;
    for i := 0 to |branches|
      invariant fresh(walk) && walk.bodies == bodies
      invariant Multiplier(bodies, branches, MAX_SCAN_COUNT, 1) == Multiplier(bodies, branches[i..], walk.budget, fanout)
    {
      assert branches[i..][1..] == branches[i + 1..];
      var reading := AskReadsATable(bodies, branches[i], {}, false);
      if !reading {
        continue;
      }
      var product := walk.Product(branches[i], {}, true, false);
      if product.None? {
        return 1;
      }
      fanout := Max(fanout, product.value);
    }
  }

  // ----- dominance: what pricing cannot read, refusal has already refused -----

  /** The pricing run is ahead: it answers when the refusal run does, with no more rows and no less budget. */
  ghost predicate Ahead(refusal: Walked, pricing: Walked) {
    refusal.product.Some? ==>
      pricing.product.Some? && pricing.product.value <= refusal.product.value && pricing.budget >= refusal.budget
  }

  /** What lies inside a generator meets the branch only if the generator does: its way up passes through it. */
  lemma {:induction false} MeetsPassesUp(nodes: Subtree, top: nat, i: nat)
    requires i < |nodes| && Descends(nodes, top, i) && Meets(nodes, i)
    ensures Meets(nodes, top)
    decreases i
  {
    if nodes[i].parent != top {
      MeetsPassesUp(nodes, top, nodes[i].parent);
    }
  }

  /** A series the refusal run skips as wrapped, the pricing run skips too: as wrapped, or as not meeting. */
  lemma WrappedAhead(nodes: Subtree, i: nat)
    requires i < |nodes| && i in Wrapped(nodes, false)
    ensures i in Wrapped(nodes, true) || !Meets(nodes, i)
  {
    var g :| 0 <= g < |nodes| && CountedGenerator(nodes, g, false) && Descends(nodes, g, i);
    if Meets(nodes, i) {
      MeetsPassesUp(nodes, g, i);
      assert CountedGenerator(nodes, g, true);
    }
  }

  lemma {:induction false} NodesAhead(nodes: Subtree, i: nat, priced: bool, low: int, high: int, more: nat, less: nat)
    requires i <= |nodes| && low <= high && less <= more
    ensures Ahead(WalkNodes(nodes, i, priced, false, low, more), WalkNodes(nodes, i, priced, true, high, less))
    decreases |nodes| - i
  {
    if i < |nodes| && low - 1 > 0 {
      if nodes[i].kind.Generator? {
        var steps, rowSteps, rows := CheckSteps(nodes, i, i + 1), RowSteps(nodes, i, i + 1), GeneratorRows(nodes, i, i + 1);
        var checked, wide := low - 1 - steps, high - 1 - steps;
        if checked > 0 && Bounded(nodes, i, priced) {
          var sized := checked - rowSteps;
          if sized > 0 {
            MulMonotone(less, more, rows, rows);
            MulMonotone(more, more, 1, rows);
            if Meets(nodes, i) {
              NodesAhead(nodes, i + 1, priced, sized, wide - rowSteps, more * rows, less * rows);
            } else {
              NodesAhead(nodes, i + 1, priced, sized, wide, more * rows, less);
            }
          } else {
            assert WalkNodes(nodes, i + 1, priced, false, sized, more * MAX_COUNTED_ROWS).product.None?;
          }
        }
      } else {
        NodesAhead(nodes, i + 1, priced, low - 1, high - 1, more, less);
      }
    }
  }

  lemma {:induction false} SeriesAhead(nodes: Subtree, i: nat, priced: bool, more: nat, less: nat)
    requires i <= |nodes| && less <= more
    ensures var refusal, pricing := LooseSeries(nodes, i, priced, false, more), LooseSeries(nodes, i, priced, true, less);
      refusal.Some? ==> pricing.Some? && pricing.value <= refusal.value
    decreases |nodes| - i
  {
    if i < |nodes| {
      var length := if nodes[i].kind.Series? then SequenceLength(nodes[i].kind.span) else None;
      if !nodes[i].kind.Series? {
        SeriesAhead(nodes, i + 1, priced, more, less);
      } else if i in Wrapped(nodes, false) {
        WrappedAhead(nodes, i);
        SeriesAhead(nodes, i + 1, priced, more, less);
      } else if length.Some? {
        MulMonotone(less, more, length.value, length.value);
        MulMonotone(more, more, 1, length.value);
        if i in Wrapped(nodes, true) || !Meets(nodes, i) {
          SeriesAhead(nodes, i + 1, priced, more * length.value, less);
        } else {
          SeriesAhead(nodes, i + 1, priced, more * length.value, less * length.value);
        }
      }
    }
  }

  lemma {:induction false} ProductAhead(bodies: Bodies, nodes: Subtree, pending: set<string>, low: int, high: int, underTable: bool)
    requires low <= high
    ensures Ahead(GeneratorProduct(bodies, nodes, pending, low, false, underTable), GeneratorProduct(bodies, nodes, pending, high, true, underTable))
    decreases |bodies.Keys - pending|, 4, 0
  {
    if low > 0 {
      var priced := underTable || ReadsATable(bodies, nodes, 0, pending, true);
      var refusal, pricing := WalkNodes(nodes, 0, priced, false, low, 1), WalkNodes(nodes, 0, priced, true, high, 1);
      NodesAhead(nodes, 0, priced, low, high, 1, 1);
      if refusal.product.Some? {
        SeriesAhead(nodes, 0, priced, refusal.product.value, pricing.product.value);
        var more := LooseSeries(nodes, 0, priced, false, refusal.product.value);
        var less := LooseSeries(nodes, 0, priced, true, pricing.product.value);
        if more.Some? {
          ReferencesPending(bodies, nodes, 0, pending);
          ReferencesAhead(bodies, References(bodies, nodes, 0, pending), pending, refusal.budget, pricing.budget, priced, map[], map[],
            more.value, less.value);
        }
      }
    }
  }

  /** The remembered costs of one run against the other's. */
  ghost predicate CostsAhead(more: map<string, nat>, less: map<string, nat>) {
    more.Keys == less.Keys && forall name :: name in more ==> less[name] <= more[name]
  }

  lemma {:induction false} ReferencesAhead(bodies: Bodies, refs: seq<string>, pending: set<string>, low: int, high: int, priced: bool,
                                           costly: map<string, nat>, cheap: map<string, nat>, more: nat, less: nat)
    requires low <= high && less <= more && CostsAhead(costly, cheap) && Followed(bodies, refs, pending)
    ensures Ahead(TimesReferences(bodies, refs, pending, low, false, priced, costly, more),
                  TimesReferences(bodies, refs, pending, high, true, priced, cheap, less))
    decreases |bodies.Keys - pending|, 3, |refs|
  {
    if refs != [] {
      var name := refs[0];
      Shrinks(bodies, pending, name);
      var refusal := CostOf(bodies, name, pending, low, false, priced, costly);
      var pricing := CostOf(bodies, name, pending, high, true, priced, cheap);
      if name !in costly {
        DearestAhead(bodies, bodies[name], pending + {name}, low, high, priced, 1, 1);
      }
      if refusal.product.Some? {
        MulMonotone(less, more, pricing.product.value, refusal.product.value);
        ReferencesAhead(bodies, refs[1..], pending, refusal.budget, pricing.budget, priced,
          costly[name := refusal.product.value], cheap[name := pricing.product.value],
          more * refusal.product.value, less * pricing.product.value);
      }
    }
  }

  lemma {:induction false} DearestAhead(bodies: Bodies, all: seq<Subtree>, pending: set<string>, low: int, high: int, priced: bool,
                                        more: nat, less: nat)
    requires low <= high && 1 <= less <= more
    ensures Ahead(Dearest(bodies, all, pending, low, false, priced, more), Dearest(bodies, all, pending, high, true, priced, less))
    decreases |bodies.Keys - pending|, 5, |all|
  {
    if all != [] {
      var reading := ReadsATable(bodies, all[0], 0, pending, false);
      var under := priced && YieldsOneRow(all[0]) && !reading;
      ProductAhead(bodies, all[0], pending, low, high, under);
      var refusal := GeneratorProduct(bodies, all[0], pending, low, false, under);
      var pricing := GeneratorProduct(bodies, all[0], pending, high, true, under);
      if refusal.product.Some? {
        var rows := if Collapses(all[0]) && !reading then 1 else pricing.product.value;
        DearestAhead(bodies, all[1..], pending, refusal.budget, pricing.budget, priced,
          Max(more, refusal.product.value), Max(less, rows));
      }
    }
  }

  /** If no branch is refused, the multiplier is always read. */
  lemma {:induction false} UnrefusedIsPriced(bodies: Bodies, branches: seq<Subtree>, low: int, high: int, widest: nat)
    requires low <= high && !Refuses(bodies, branches, low)
    ensures Multiplier(bodies, branches, high, widest).Some?
    ensures Multiplier(bodies, branches, high, widest).value >= widest
    decreases |branches|
  {
    if branches != [] {
      ProductAhead(bodies, branches[0], {}, low, high, false);
      var refusal := GeneratorProduct(bodies, branches[0], {}, low, false, false);
      if ReadsATable(bodies, branches[0], 0, {}, false) {
        var pricing := GeneratorProduct(bodies, branches[0], {}, high, true, false);
        UnrefusedIsPriced(bodies, branches[1..], refusal.budget, pricing.budget, Max(widest, pricing.product.value));
      } else {
        NeverGains(bodies, branches[0], {}, low, false, false);
        UnrefusedIsPriced(bodies, branches[1..], refusal.budget, high, widest);
      }
    }
  }

  lemma {:induction false} MultiplierAtLeast(bodies: Bodies, branches: seq<Subtree>, budget: int, widest: nat)
    ensures Multiplier(bodies, branches, budget, widest).Some? ==> Multiplier(bodies, branches, budget, widest).value >= widest
    decreases |branches|
  {
    if branches != [] {
      if !ReadsATable(bodies, branches[0], 0, {}, false) {
        MultiplierAtLeast(bodies, branches[1..], budget, widest);
      } else {
        var walked := GeneratorProduct(bodies, branches[0], {}, budget, true, false);
        if walked.product.Some? {
          MultiplierAtLeast(bodies, branches[1..], walked.budget, Max(widest, walked.product.value));
        }
      }
    }
  }

  /** Multiplying by the fanout never lowers a row count. */
  lemma FanoutIsPositive(bodies: Bodies, branches: seq<Subtree>)
    ensures GeneratorFanout(bodies, branches) >= 1
  {
    MultiplierAtLeast(bodies, branches, MAX_SCAN_COUNT, 1);
  }

  /** The fallback multiplier of 1 is never used as a quote: whenever it is taken, the shape was refused. */
  lemma FallbackIsRefused(bodies: Bodies, branches: seq<Subtree>)
    requires Multiplier(bodies, branches, MAX_SCAN_COUNT, 1).None?
    ensures GeneratesRows(bodies, branches)
  {
    if !GeneratesRows(bodies, branches) {
      UnrefusedIsPriced(bodies, branches, MAX_SCAN_COUNT, MAX_SCAN_COUNT, 1);
    }
  }

  // ----- a walk only spends -----

  lemma {:induction false} NodesSpend(nodes: Subtree, i: nat, priced: bool, pricing: bool, budget: int, product: nat)
    requires i <= |nodes|
    ensures WalkNodes(nodes, i, priced, pricing, budget, product).budget <= budget
    decreases |nodes| - i
  {
    if i < |nodes| && budget - 1 > 0 {
      if !nodes[i].kind.Generator? {
        NodesSpend(nodes, i + 1, priced, pricing, budget - 1, product);
      } else {
        var checked := budget - 1 - CheckSteps(nodes, i, i + 1);
        var sized := checked - RowSteps(nodes, i, i + 1);
        NodesSpend(nodes, i + 1, priced, pricing, checked, product);
        NodesSpend(nodes, i + 1, priced, pricing, sized, product * (if sized <= 0 then MAX_COUNTED_ROWS else GeneratorRows(nodes, i, i + 1)));
      }
    }
  }

  lemma {:induction false} NeverGains(bodies: Bodies, nodes: Subtree, pending: set<string>, budget: int, pricing: bool, underTable: bool)
    ensures GeneratorProduct(bodies, nodes, pending, budget, pricing, underTable).budget <= budget
    decreases |bodies.Keys - pending|, 4, 0
  {
    if budget > 0 {
      var priced := underTable || ReadsATable(bodies, nodes, 0, pending, true);
      var walked := WalkNodes(nodes, 0, priced, pricing, budget, 1);
      NodesSpend(nodes, 0, priced, pricing, budget, 1);
      if walked.product.Some? {
        var series := LooseSeries(nodes, 0, priced, pricing, walked.product.value);
        if series.Some? {
          ReferencesPending(bodies, nodes, 0, pending);
          ReferencesSpend(bodies, References(bodies, nodes, 0, pending), pending, walked.budget, pricing, priced, map[], series.value);
        }
      }
    }
  }

  lemma {:induction false} ReferencesSpend(bodies: Bodies, refs: seq<string>, pending: set<string>, budget: int, pricing: bool, priced: bool,
                                           perName: map<string, nat>, product: nat)
    requires Followed(bodies, refs, pending)
    ensures TimesReferences(bodies, refs, pending, budget, pricing, priced, perName, product).budget <= budget
    decreases |bodies.Keys - pending|, 3, |refs|
  {
    if refs != [] {
      var name := refs[0];
      Shrinks(bodies, pending, name);
      var cost := CostOf(bodies, name, pending, budget, pricing, priced, perName);
      DearestSpends(bodies, bodies[name], pending + {name}, budget, pricing, priced, 1);
      if cost.product.Some? {
        ReferencesSpend(bodies, refs[1..], pending, cost.budget, pricing, priced, perName[name := cost.product.value], product * cost.product.value);
      }
    }
  }

  lemma {:induction false} DearestSpends(bodies: Bodies, all: seq<Subtree>, pending: set<string>, budget: int, pricing: bool, priced: bool, widest: nat)
    ensures Dearest(bodies, all, pending, budget, pricing, priced, widest).budget <= budget
    decreases |bodies.Keys - pending|, 5, |all|
  {
    if all != [] {
      var reading := ReadsATable(bodies, all[0], 0, pending, false);
      var under := priced && YieldsOneRow(all[0]) && !reading;
      NeverGains(bodies, all[0], pending, budget, pricing, under);
      var nested := GeneratorProduct(bodies, all[0], pending, budget, pricing, under);
      if nested.product.Some? {
        DearestSpends(bodies, all[1..], pending, nested.budget, pricing, priced,
          Max(widest, if pricing && Collapses(all[0]) && !reading then 1 else nested.product.value));
      }
    }
  }
}
