/** What the multiplier multiplies: the rows a plan counts against the rows the engine builds, with every CTE
  * written out at every reference (core/scans.py, generator_fanout). */
module Fanout {
  import opened Prelude
  import opened CteBodies
  import opened Sequences
  import opened Generators

  /** What a tally counts: the rows of scanned tables (what the plan sees), the rows generators are counted as
    * making, the rows they really make, or the tables' and the made ones (what the engine builds). */
  datatype Tallied = Tables | Counted | Made | Built

  /** The elements one input of a generator really has. */
  function InputRows(kind: Kind): nat {
    match kind
    case Array(count, _) => count
    case Series(span) => if SequenceLength(span).Some? then |Elements(span)| else 0
    case _ => 0
  }

  /** Inputs side by side yield as many rows as the longest of them has elements. */
  function Zipped(nodes: Subtree, generator: nat, j: nat): nat
    requires j <= |nodes|
    decreases |nodes| - j
  {
    if j == |nodes| then 0
    else Max(if IsInput(nodes, generator, j) then InputRows(nodes[j].kind) else 0, Zipped(nodes, generator, j + 1))
  }

  /** A series a plain branch counts on its own. */
  predicate Loose(nodes: Subtree, i: nat)
    requires i < |nodes|
  {
    nodes[i].kind.Series? && i !in Wrapped(nodes, true) && SequenceLength(nodes[i].kind.span).Some?
  }

  /** The product, from node i on, of everything that meets the branch; a reference is counted wherever it stands. */
  function Tally(what: Tallied, bodies: Bodies, nodes: Subtree, i: nat, pending: set<string>, size: string -> nat): nat
    requires i <= |nodes|
    decreases |bodies.Keys - pending|, 1, |nodes| - i
  {
    if i == |nodes| then 1
    else TallyNode(what, bodies, nodes, i, pending, size) * Tally(what, bodies, nodes, i + 1, pending, size)
  }

  function TallyNode(what: Tallied, bodies: Bodies, nodes: Subtree, i: nat, pending: set<string>, size: string -> nat): nat
    requires i < |nodes|
    decreases |bodies.Keys - pending|, 1, |nodes| - i, 0
  {
    if !Meets(nodes, i) && !(what.Counted? && nodes[i].kind.Ref?) then 1
    else
      match nodes[i].kind
      case Scan(table) => if what.Tables? || what.Built? then size(table) else 1
      case Ref(name) => RefRows(what, bodies, name, pending, size)
      case Series(span) =>
        if what.Tables? || !Loose(nodes, i) then 1 else if what.Counted? then SequenceLength(span).value else |Elements(span)|
      case Generator =>
        if what.Tables? then 1 else if what.Counted? then GeneratorRows(nodes, i, i + 1) else Zipped(nodes, i, i + 1)
      case _ => 1
  }

  /** A reference stands for its body, and an unbound name for a table. */
  function RefRows(what: Tallied, bodies: Bodies, name: string, pending: set<string>, size: string -> nat): nat
    decreases |bodies.Keys - pending|, 1, 0
  {
    if name !in bodies then (if what.Tables? || what.Built? then size(name) else 1)
    else if name in pending || bodies[name] == [] then 1
    else
      Shrinks(bodies, pending, name);
      Tally(what, bodies, bodies[name][0], 0, pending + {name}, size)
  }

  /** A generator over literal lists and sequences only, all of them its own inputs. */
  predicate Literal(nodes: Subtree, g: nat) {
    forall j :: g < j < |nodes| && Descends(nodes, g, j) ==>
      !nodes[j].kind.Column? && (nodes[j].kind.Array? || nodes[j].kind.Series? ==> IsInput(nodes, g, j))
  }

  /** A plain branch: every generator is literal. */
  predicate PlainNodes(nodes: Subtree) {
    forall i :: 0 <= i < |nodes| && nodes[i].kind.Generator? ==> Literal(nodes, i)
  }

  /** Every name is bound once, to a plain body that collapses nothing. */
  predicate AllPlain(bodies: Bodies) {
    forall name :: name in bodies ==> |bodies[name]| == 1 && PlainNodes(bodies[name][0]) && !Collapses(bodies[name][0])
  }

  lemma Associate(a: nat, b: nat, c: nat)
    ensures (a * b) * c == a * (b * c)
  {
  }

  lemma Regroup(a: nat, b: nat, c: nat, d: nat)
    ensures (a * b) * (c * d) == (a * c) * (b * d)
  {
    calc {
      (a * b) * (c * d);
      a * (b * (c * d));
      { assert b * (c * d) == c * (b * d); }
      a * (c * (b * d));
      (a * c) * (b * d);
    }
  }

  /** What the engine builds is what the plan counts times what the generators make. */
  lemma {:induction false} BuiltIsProduct(bodies: Bodies, nodes: Subtree, i: nat, pending: set<string>, size: string -> nat)
    requires i <= |nodes|
    ensures Tally(Built, bodies, nodes, i, pending, size) == Tally(Made, bodies, nodes, i, pending, size) * Tally(Tables, bodies, nodes, i, pending, size)
    decreases |bodies.Keys - pending|, 1, |nodes| - i
  {
    if i < |nodes| {
      NodeIsProduct(bodies, nodes, i, pending, size);
      BuiltIsProduct(bodies, nodes, i + 1, pending, size);
      Regroup(TallyNode(Made, bodies, nodes, i, pending, size), TallyNode(Tables, bodies, nodes, i, pending, size),
              Tally(Made, bodies, nodes, i + 1, pending, size), Tally(Tables, bodies, nodes, i + 1, pending, size));
    }
  }

  lemma {:induction false} NodeIsProduct(bodies: Bodies, nodes: Subtree, i: nat, pending: set<string>, size: string -> nat)
    requires i < |nodes|
    ensures TallyNode(Built, bodies, nodes, i, pending, size)
         == TallyNode(Made, bodies, nodes, i, pending, size) * TallyNode(Tables, bodies, nodes, i, pending, size)
    decreases |bodies.Keys - pending|, 1, |nodes| - i, 0
  {
    if Meets(nodes, i) && nodes[i].kind.Ref? {
      RefIsProduct(bodies, nodes[i].kind.name, pending, size);
    }
  }

  lemma {:induction false} RefIsProduct(bodies: Bodies, name: string, pending: set<string>, size: string -> nat)
    ensures RefRows(Built, bodies, name, pending, size) == RefRows(Made, bodies, name, pending, size) * RefRows(Tables, bodies, name, pending, size)
    decreases |bodies.Keys - pending|, 1, 0
  {
    if name in bodies && name !in pending && bodies[name] != [] {
      Shrinks(bodies, pending, name);
      BuiltIsProduct(bodies, bodies[name][0], 0, pending + {name}, size);
    }
  }

  // ----- a product that is read is what the generators are counted as making -----

  /** The rows counted for the generators alone, for the loose series alone, and for the references alone. */
  function CountedByNodes(nodes: Subtree, i: nat): nat
    requires i <= |nodes|
    decreases |nodes| - i
  {
    if i == |nodes| then 1
    else (if nodes[i].kind.Generator? && Meets(nodes, i) then GeneratorRows(nodes, i, i + 1) else 1) * CountedByNodes(nodes, i + 1)
  }

  function CountedBySeries(nodes: Subtree, i: nat): nat
    requires i <= |nodes|
    decreases |nodes| - i
  {
    if i == |nodes| then 1
    else (if Loose(nodes, i) && Meets(nodes, i) then SequenceLength(nodes[i].kind.span).value else 1) * CountedBySeries(nodes, i + 1)
  }

  function CountedByReferences(bodies: Bodies, refs: seq<string>, pending: set<string>, size: string -> nat): nat
    requires Followed(bodies, refs, pending)
  {
    if refs == [] then 1
    else CountedByReference(bodies, refs[0], pending, size) * CountedByReferences(bodies, refs[1..], pending, size)
  }

  function CountedByReference(bodies: Bodies, name: string, pending: set<string>, size: string -> nat): nat
    requires name in bodies && name !in pending
  {
    if bodies[name] == [] then 1 else Tally(Counted, bodies, bodies[name][0], 0, pending + {name}, size)
  }

  lemma {:induction false} NodesCount(nodes: Subtree, i: nat, priced: bool, budget: int, product: nat)
    requires i <= |nodes| && PlainNodes(nodes) && WalkNodes(nodes, i, priced, true, budget, product).product.Some?
    ensures WalkNodes(nodes, i, priced, true, budget, product).product.value == product * CountedByNodes(nodes, i)
    decreases |nodes| - i
  {
    if i < |nodes| {
      if !nodes[i].kind.Generator? {
        NodesCount(nodes, i + 1, priced, budget - 1, product);
      } else if !Meets(nodes, i) {
        NodesCount(nodes, i + 1, priced, budget - 1 - CheckSteps(nodes, i, i + 1), product);
      } else {
        var sized := budget - 1 - CheckSteps(nodes, i, i + 1) - RowSteps(nodes, i, i + 1);
        assert sized > 0;
        NodesCount(nodes, i + 1, priced, sized, product * GeneratorRows(nodes, i, i + 1));
        Associate(product, GeneratorRows(nodes, i, i + 1), CountedByNodes(nodes, i + 1));
      }
    }
  }

  lemma {:induction false} SeriesCount(nodes: Subtree, i: nat, priced: bool, product: nat)
    requires i <= |nodes| && PlainNodes(nodes) && LooseSeries(nodes, i, priced, true, product).Some?
    ensures LooseSeries(nodes, i, priced, true, product).value == product * CountedBySeries(nodes, i)
    decreases |nodes| - i
  {
    if i < |nodes| {
      if !nodes[i].kind.Series? || i in Wrapped(nodes, true) || !Meets(nodes, i) {
        SeriesCount(nodes, i + 1, priced, product);
      } else {
        var length := SequenceLength(nodes[i].kind.span).value;
        SeriesCount(nodes, i + 1, priced, product * length);
        Associate(product, length, CountedBySeries(nodes, i + 1));
      }
    }
  }

  /** What the memo remembers is the name's count. */
  ghost predicate Remembers(bodies: Bodies, perName: map<string, nat>, pending: set<string>, size: string -> nat) {
    forall name :: name in perName && name in bodies && name !in pending ==> perName[name] == CountedByReference(bodies, name, pending, size)
  }

  lemma ReferenceCounts(bodies: Bodies, name: string, pending: set<string>, budget: int, priced: bool, perName: map<string, nat>,
                        size: string -> nat)
    requires AllPlain(bodies) && Remembers(bodies, perName, pending, size) && name in bodies && name !in pending
    requires CostOf(bodies, name, pending, budget, true, priced, perName).product.Some?
    ensures CostOf(bodies, name, pending, budget, true, priced, perName).product.value == CountedByReference(bodies, name, pending, size)
    decreases |bodies.Keys - pending|, 2, 1
  {
    if name !in perName {
      BodyCounts(bodies, name, pending, budget, priced, size);
    }
  }

  lemma {:induction false} ReferencesCount(bodies: Bodies, refs: seq<string>, pending: set<string>, budget: int, priced: bool,
                                           perName: map<string, nat>, product: nat, size: string -> nat)
    requires AllPlain(bodies) && Remembers(bodies, perName, pending, size) && Followed(bodies, refs, pending)
    requires TimesReferences(bodies, refs, pending, budget, true, priced, perName, product).product.Some?
    ensures TimesReferences(bodies, refs, pending, budget, true, priced, perName, product).product.value
         == product * CountedByReferences(bodies, refs, pending, size)
    decreases |bodies.Keys - pending|, 3, |refs|
  {
    if refs != [] {
      var cost := CostOf(bodies, refs[0], pending, budget, true, priced, perName);
      ReferenceCounts(bodies, refs[0], pending, budget, priced, perName, size);
      var rows := cost.product.value;
      ReferencesCount(bodies, refs[1..], pending, cost.budget, priced, perName[refs[0] := rows], product * rows, size);
      Associate(product, rows, CountedByReferences(bodies, refs[1..], pending, size));
    }
  }

  lemma {:induction false} BodyCounts(bodies: Bodies, name: string, pending: set<string>, budget: int, priced: bool, size: string -> nat)
    requires AllPlain(bodies) && name in bodies && name !in pending
    requires Dearest(bodies, bodies[name], pending + {name}, budget, true, priced, 1).product.Some?
    ensures Dearest(bodies, bodies[name], pending + {name}, budget, true, priced, 1).product.value == CountedByReference(bodies, name, pending, size)
    decreases |bodies.Keys - pending|, 2, 0
  {
    Shrinks(bodies, pending, name);
    var all, inside := bodies[name], pending + {name};
    var under := priced && YieldsOneRow(all[0]) && !ReadsATable(bodies, all[0], 0, inside, false);
    ProductIsCounted(bodies, all[0], inside, budget, under, size);
    CountedIsPositive(bodies, all[0], 0, inside, size);
    var nested := GeneratorProduct(bodies, all[0], inside, budget, true, under);
    assert all[1..] == [];
    assert Dearest(bodies, all[1..], inside, nested.budget, true, priced, Max(1, nested.product.value))
        == Walked(Some(Max(1, nested.product.value)), nested.budget);
  }

  lemma {:induction false} CountedIsPositive(bodies: Bodies, nodes: Subtree, i: nat, pending: set<string>, size: string -> nat)
    requires i <= |nodes|
    ensures Tally(Counted, bodies, nodes, i, pending, size) > 0
    decreases |bodies.Keys - pending|, 1, |nodes| - i
  {
    if i < |nodes| {
      CountedIsPositive(bodies, nodes, i + 1, pending, size);
      if nodes[i].kind.Ref? {
        RefIsPositive(bodies, nodes[i].kind.name, pending, size);
      }
      MulMonotone(1, TallyNode(Counted, bodies, nodes, i, pending, size), 1, Tally(Counted, bodies, nodes, i + 1, pending, size));
    }
  }

  lemma {:induction false} RefIsPositive(bodies: Bodies, name: string, pending: set<string>, size: string -> nat)
    ensures RefRows(Counted, bodies, name, pending, size) > 0
    decreases |bodies.Keys - pending|, 1, 0
  {
    if name in bodies && name !in pending && bodies[name] != [] {
      Shrinks(bodies, pending, name);
      CountedIsPositive(bodies, bodies[name][0], 0, pending + {name}, size);
    }
  }

  /** What is counted of generators does not depend on the tables' sizes. */
  lemma {:induction false} CountedAnySize(bodies: Bodies, nodes: Subtree, i: nat, pending: set<string>, size: string -> nat, other: string -> nat)
    requires i <= |nodes|
    ensures Tally(Counted, bodies, nodes, i, pending, size) == Tally(Counted, bodies, nodes, i, pending, other)
    decreases |bodies.Keys - pending|, 1, |nodes| - i
  {
    if i < |nodes| {
      CountedAnySize(bodies, nodes, i + 1, pending, size, other);
      if nodes[i].kind.Ref? {
        RefAnySize(bodies, nodes[i].kind.name, pending, size, other);
      }
    }
  }

  lemma {:induction false} RefAnySize(bodies: Bodies, name: string, pending: set<string>, size: string -> nat, other: string -> nat)
    ensures RefRows(Counted, bodies, name, pending, size) == RefRows(Counted, bodies, name, pending, other)
    decreases |bodies.Keys - pending|, 1, 0
  {
    if name in bodies && name !in pending && bodies[name] != [] {
      Shrinks(bodies, pending, name);
      CountedAnySize(bodies, bodies[name][0], 0, pending + {name}, size, other);
    }
  }

  /** One factor moved into the group it belongs to. */
  lemma MoveIn(x: nat, g: nat, s: nat, r: nat)
    ensures x * (g * s * r) == (x * g) * s * r
    ensures x * (g * s * r) == g * (x * s) * r
    ensures x * (g * s * r) == g * s * (x * r)
  {
    Associate(x, g * s, r);
    Associate(x, g, s);
    Associate(g, x, s);
    Associate(g * s, x, r);
  }

  /** What one node counts for belongs to exactly one of the three passes. */
  lemma NodeCounts(bodies: Bodies, nodes: Subtree, i: nat, pending: set<string>, size: string -> nat) returns (g: nat, s: nat, r: nat)
    requires i < |nodes| && AllPlain(bodies)
    requires Followed(bodies, References(bodies, nodes, i + 1, pending), pending)
    requires Followed(bodies, References(bodies, nodes, i, pending), pending)
    ensures CountedByNodes(nodes, i) == g * CountedByNodes(nodes, i + 1)
    ensures CountedBySeries(nodes, i) == s * CountedBySeries(nodes, i + 1)
    ensures CountedByReferences(bodies, References(bodies, nodes, i, pending), pending, size)
         == r * CountedByReferences(bodies, References(bodies, nodes, i + 1, pending), pending, size)
    ensures var x := TallyNode(Counted, bodies, nodes, i, pending, size);
      (g, s, r) == (x, 1, 1) || (g, s, r) == (1, x, 1) || (g, s, r) == (1, 1, x)
  {
    g, s, r := 1, 1, 1;
    var later := References(bodies, nodes, i + 1, pending);
    if nodes[i].kind.Ref? && nodes[i].kind.name in bodies && nodes[i].kind.name !in pending {
      r := CountedByReference(bodies, nodes[i].kind.name, pending, size);
      assert References(bodies, nodes, i, pending) == [nodes[i].kind.name] + later;
      assert ([nodes[i].kind.name] + later)[1..] == later;
    } else {
      assert References(bodies, nodes, i, pending) == later;
      if nodes[i].kind.Generator? && Meets(nodes, i) {
        g := GeneratorRows(nodes, i, i + 1);
      } else if Loose(nodes, i) && Meets(nodes, i) {
        s := SequenceLength(nodes[i].kind.span).value;
      }
    }
  }

  /** The three passes together count everything, once. */
  lemma {:induction false} CountedSplits(bodies: Bodies, nodes: Subtree, i: nat, pending: set<string>, size: string -> nat)
    requires i <= |nodes| && AllPlain(bodies)
    ensures Followed(bodies, References(bodies, nodes, i, pending), pending)
    ensures Tally(Counted, bodies, nodes, i, pending, size)
         == CountedByNodes(nodes, i) * CountedBySeries(nodes, i) * CountedByReferences(bodies, References(bodies, nodes, i, pending), pending, size)
    decreases |nodes| - i
  {
    ReferencesPending(bodies, nodes, i, pending);
    if i < |nodes| {
      CountedSplits(bodies, nodes, i + 1, pending, size);
      var g, s, r := NodeCounts(bodies, nodes, i, pending, size);
      MoveIn(TallyNode(Counted, bodies, nodes, i, pending, size), CountedByNodes(nodes, i + 1), CountedBySeries(nodes, i + 1),
             CountedByReferences(bodies, References(bodies, nodes, i + 1, pending), pending, size));
    }
  }

  /** A product that is read is exactly what the branch's generators are counted as making, CTEs written out. */
  lemma {:induction false} ProductIsCounted(bodies: Bodies, nodes: Subtree, pending: set<string>, budget: int, underTable: bool, size: string -> nat)
    requires AllPlain(bodies) && PlainNodes(nodes)
    requires GeneratorProduct(bodies, nodes, pending, budget, true, underTable).product.Some?
    ensures GeneratorProduct(bodies, nodes, pending, budget, true, underTable).product.value == Tally(Counted, bodies, nodes, 0, pending, size)
    decreases |bodies.Keys - pending|, 4
  {
    var priced := underTable || ReadsATable(bodies, nodes, 0, pending, true);
    var walked := WalkNodes(nodes, 0, priced, true, budget, 1);
    NodesCount(nodes, 0, priced, budget, 1);
    var series := LooseSeries(nodes, 0, priced, true, walked.product.value);
    SeriesCount(nodes, 0, priced, walked.product.value);
    ReferencesPending(bodies, nodes, 0, pending);
    ReferencesCount(bodies, References(bodies, nodes, 0, pending), pending, walked.budget, priced, map[], series.value, size);
    CountedSplits(bodies, nodes, 0, pending, size);
  }

  // ----- what is counted against what is made -----

  /** Does this input really have as many elements as the generator is counted for? */
  predicate Attains(nodes: Subtree, g: nat, j: nat)
    requires j < |nodes| && g < |nodes|
  {
    IsInput(nodes, g, j) &&
    match nodes[j].kind
    case Array(count, _) => count == GeneratorRows(nodes, g, g + 1)
    case Series(span) => SequenceLength(span) == Some(GeneratorRows(nodes, g, g + 1)) && PointsTowardsEnd(span)
    case _ => false
  }

  lemma {:induction false} ZipAtMost(nodes: Subtree, g: nat, j: nat)
    requires g < j <= |nodes| && Literal(nodes, g)
    ensures Zipped(nodes, g, j) <= GeneratorRows(nodes, g, j)
    decreases |nodes| - j
  {
    if j < |nodes| {
      ZipAtMost(nodes, g, j + 1);
      InputAtMost(nodes[j].kind);
    }
  }

  lemma InputAtMost(kind: Kind)
    ensures InputRows(kind) <= RowsOf(kind)
  {
    if kind.Series? && SequenceLength(kind.span).Some? {
      LengthIsExactIffPointing(kind.span);
    }
  }

  lemma {:induction false} ZipAtLeast(nodes: Subtree, g: nat, j: nat, at: nat)
    requires g < j <= at < |nodes| && IsInput(nodes, g, at)
    ensures Zipped(nodes, g, j) >= InputRows(nodes[at].kind)
    decreases at - j
  {
    if j < at {
      ZipAtLeast(nodes, g, j + 1, at);
    }
  }

  lemma {:induction false} ZipIsSome(nodes: Subtree, g: nat, j: nat) returns (at: nat)
    requires g < j <= |nodes| && Zipped(nodes, g, j) > 0
    ensures j <= at < |nodes| && IsInput(nodes, g, at) && InputRows(nodes[at].kind) == Zipped(nodes, g, j)
    decreases |nodes| - j
  {
    if IsInput(nodes, g, j) && InputRows(nodes[j].kind) == Zipped(nodes, g, j) {
      at := j;
    } else {
      at := ZipIsSome(nodes, g, j + 1);
    }
  }

  /** A literal generator makes what it is counted for exactly when some list, or some sequence that points
    * towards its end, is as long as that. */
  lemma GeneratorIsExactIff(nodes: Subtree, g: nat)
    requires g < |nodes| && Literal(nodes, g)
    ensures Zipped(nodes, g, g + 1) <= GeneratorRows(nodes, g, g + 1)
    ensures Zipped(nodes, g, g + 1) == GeneratorRows(nodes, g, g + 1) <==> exists j :: g < j < |nodes| && Attains(nodes, g, j)
  {
    ZipAtMost(nodes, g, g + 1);
    if Zipped(nodes, g, g + 1) == GeneratorRows(nodes, g, g + 1) {
      var at := ZipIsSome(nodes, g, g + 1);
      if nodes[at].kind.Series? {
        LengthIsExactIffPointing(nodes[at].kind.span);
        WidestAtLeast(nodes, g, g + 1, at);
      }
      assert Attains(nodes, g, at);
    }
    if j :| g < j < |nodes| && Attains(nodes, g, j) {
      if nodes[j].kind.Series? {
        LengthIsExactIffPointing(nodes[j].kind.span);
      }
      ZipAtLeast(nodes, g, g + 1, j);
    }
  }

  lemma {:induction false} WidestAtLeast(nodes: Subtree, g: nat, j: nat, at: nat)
    requires g < j <= at < |nodes| && Descends(nodes, g, at)
    ensures GeneratorRows(nodes, g, j) >= RowsOf(nodes[at].kind)
    decreases at - j
  {
    if j < at {
      WidestAtLeast(nodes, g, j + 1, at);
    }
  }

  /** From node i on, through every reference: whatever meets the branch is made as counted, that is each loose
    * sequence points towards its end and each generator has a literal list or such a sequence as long as it is
    * counted for; and a reference that does not meet it is counted as one row. */
  predicate AllPoint(bodies: Bodies, nodes: Subtree, i: nat, pending: set<string>)
    requires i <= |nodes|
    decreases |bodies.Keys - pending|, 1, |nodes| - i
  {
    i == |nodes| || (NodePoints(bodies, nodes, i, pending) && AllPoint(bodies, nodes, i + 1, pending))
  }

  predicate NodePoints(bodies: Bodies, nodes: Subtree, i: nat, pending: set<string>)
    requires i < |nodes|
    decreases |bodies.Keys - pending|, 1, |nodes| - i, 0
  {
    match nodes[i].kind
    case Ref(name) => if Meets(nodes, i) then RefPoints(bodies, name, pending) else RefRows(Counted, bodies, name, pending, _ => 0) == 1
    case Series(span) => Loose(nodes, i) && Meets(nodes, i) ==> PointsTowardsEnd(span)
    case Generator => Meets(nodes, i) ==> exists j :: i < j < |nodes| && Attains(nodes, i, j)
    case _ => true
  }

  predicate RefPoints(bodies: Bodies, name: string, pending: set<string>)
    decreases |bodies.Keys - pending|, 1, 0
  {
    if name !in bodies || name in pending || bodies[name] == [] then true
    else
      Shrinks(bodies, pending, name);
      AllPoint(bodies, bodies[name][0], 0, pending + {name})
  }

  lemma FactorsEqualIff(a: nat, b: nat, more: nat, most: nat)
    requires a <= more && b <= most && more > 0 && most > 0
    ensures a * b <= more * most
    ensures a * b == more * most <==> a == more && b == most
  {
    MulMonotone(a, more, b, most);
    if a < more {
      MulMonotone(a, more - 1, b, most);
    } else if b < most {
      MulMonotone(a, more, b, most - 1);
    }
  }

  /** No more is made than is counted, and as much exactly when everything counted points towards its end. */
  lemma {:induction false} MadeIsCountedIff(bodies: Bodies, nodes: Subtree, i: nat, pending: set<string>, size: string -> nat)
    requires i <= |nodes| && AllPlain(bodies) && PlainNodes(nodes)
    ensures Tally(Made, bodies, nodes, i, pending, size) <= Tally(Counted, bodies, nodes, i, pending, size)
    ensures Tally(Made, bodies, nodes, i, pending, size) == Tally(Counted, bodies, nodes, i, pending, size) <==> AllPoint(bodies, nodes, i, pending)
    decreases |bodies.Keys - pending|, 1, |nodes| - i
  {
    if i < |nodes| {
      MadeIsCountedIff(bodies, nodes, i + 1, pending, size);
      NodeIsCountedIff(bodies, nodes, i, pending, size);
      CountedIsPositive(bodies, nodes, i + 1, pending, size);
      FactorsEqualIff(TallyNode(Made, bodies, nodes, i, pending, size), Tally(Made, bodies, nodes, i + 1, pending, size),
                      TallyNode(Counted, bodies, nodes, i, pending, size), Tally(Counted, bodies, nodes, i + 1, pending, size));
    }
  }

  /** One node: nothing but a generator, a loose series or a followed reference is counted as making anything. */
  lemma {:induction false} NodeIsCountedIff(bodies: Bodies, nodes: Subtree, i: nat, pending: set<string>, size: string -> nat)
    requires i < |nodes| && AllPlain(bodies) && PlainNodes(nodes)
    ensures TallyNode(Counted, bodies, nodes, i, pending, size) > 0
    ensures TallyNode(Made, bodies, nodes, i, pending, size) <= TallyNode(Counted, bodies, nodes, i, pending, size)
    ensures TallyNode(Made, bodies, nodes, i, pending, size) == TallyNode(Counted, bodies, nodes, i, pending, size)
        <==> NodePoints(bodies, nodes, i, pending)
    decreases |bodies.Keys - pending|, 1, |nodes| - i, 0
  {
    if nodes[i].kind.Ref? {
      ReferenceIsCountedIff(bodies, nodes[i].kind.name, pending, size);
      RefAnySize(bodies, nodes[i].kind.name, pending, size, _ => 0);
    } else if nodes[i].kind.Generator? {
      GeneratorIsExactIff(nodes, i);
    } else if Loose(nodes, i) {
      LengthIsExactIffPointing(nodes[i].kind.span);
    }
  }

  lemma {:induction false} ReferenceIsCountedIff(bodies: Bodies, name: string, pending: set<string>, size: string -> nat)
    requires AllPlain(bodies)
    ensures RefRows(Counted, bodies, name, pending, size) > 0
    ensures RefRows(Made, bodies, name, pending, size) <= RefRows(Counted, bodies, name, pending, size)
    ensures RefRows(Made, bodies, name, pending, size) == RefRows(Counted, bodies, name, pending, size) <==> RefPoints(bodies, name, pending)
    decreases |bodies.Keys - pending|, 1, 0
  {
    if name in bodies && name !in pending && bodies[name] != [] {
      Shrinks(bodies, pending, name);
      MadeIsCountedIff(bodies, bodies[name][0], 0, pending + {name}, size);
      CountedIsPositive(bodies, bodies[name][0], 0, pending + {name}, size);
    }
  }

  // ----- the multiplier -----

  /** The multiplier of one plain branch times the plan's tally is never below what is built, and where the plan
    * counts any row it is exactly that if and only if everything counted points towards its end. */
  lemma TallyIsExactIff(bodies: Bodies, nodes: Subtree, budget: int, size: string -> nat)
    requires AllPlain(bodies) && PlainNodes(nodes)
    requires GeneratorProduct(bodies, nodes, {}, budget, true, false).product.Some?
    ensures var product, tables := GeneratorProduct(bodies, nodes, {}, budget, true, false).product.value, Tally(Tables, bodies, nodes, 0, {}, size);
      && Tally(Built, bodies, nodes, 0, {}, size) <= product * tables
      && (tables > 0 ==> (product * tables == Tally(Built, bodies, nodes, 0, {}, size) <==> AllPoint(bodies, nodes, 0, {})))
  {
    ProductIsCounted(bodies, nodes, {}, budget, false, size);
    BuiltIsProduct(bodies, nodes, 0, {}, size);
    MadeIsCountedIff(bodies, nodes, 0, {}, size);
    CountedIsPositive(bodies, nodes, 0, {}, size);
    var made, counted, tables := Tally(Made, bodies, nodes, 0, {}, size), Tally(Counted, bodies, nodes, 0, {}, size), Tally(Tables, bodies, nodes, 0, {}, size);
    MulMonotone(made, counted, tables, tables);
    if tables > 0 {
      FactorsEqualIff(made, tables, counted, tables);
    }
  }
}
