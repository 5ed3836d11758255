/** A plan written out as a sum of products of tables, against the branches the multiplier is priced on
  * (adapters/pinot/plan.py, core/scans.py). */
module PlanTerms {
  import opened Prelude
  import opened Rels
  import opened JoinKeys
  import opened PlanBound
  import CteBodies
  import Generators
  import Fanout
  import BranchRows

  // ----- products of table sizes -----

  /** The rows of a cross join of these tables. */
  function TableProduct(tables: seq<string>, size: string -> nat): nat {
    if tables == [] then 1 else size(tables[0]) * TableProduct(tables[1..], size)
  }

  /** The rows of a union of cross joins. */
  function TermRows(terms: seq<seq<string>>, size: string -> nat): nat {
    if terms == [] then 0 else TableProduct(terms[0], size) + TermRows(terms[1..], size)
  }

  lemma {:induction false} ProductAppend(a: seq<string>, b: seq<string>, size: string -> nat)
    ensures TableProduct(a + b, size) == TableProduct(a, size) * TableProduct(b, size)
  {
    if a == [] {
      assert a + b == b;
    } else {
      assert (a + b)[1..] == a[1..] + b;
      ProductAppend(a[1..], b, size);
      Fanout.Associate(size(a[0]), TableProduct(a[1..], size), TableProduct(b, size));
    }
  }

  function Without(tables: seq<string>, i: nat): seq<string>
    requires i < |tables|
  {
    tables[..i] + tables[i + 1..]
  }

  lemma SameWithout(a: seq<string>, b: seq<string>, i: nat)
    requires a != [] && i < |b| && b[i] == a[0] && multiset(a) == multiset(b)
    ensures multiset(a[1..]) == multiset(Without(b, i))
  {
    assert a == [a[0]] + a[1..];
    assert b == b[..i] + ([b[i]] + b[i + 1..]);
    assert multiset(b) == multiset{b[i]} + multiset(Without(b, i));
    assert multiset(a) - multiset{a[0]} == multiset(a[1..]);
  }

  lemma ProductWithout(tables: seq<string>, i: nat, size: string -> nat)
    requires i < |tables|
    ensures TableProduct(tables, size) == size(tables[i]) * TableProduct(Without(tables, i), size)
  {
    var before, rest := tables[..i], tables[i..];
    assert tables == before + rest && rest[1..] == tables[i + 1..];
    ProductAppend(before, rest, size);
    ProductAppend(before, rest[1..], size);
    Exchange(TableProduct(before, size), size(tables[i]), TableProduct(rest[1..], size));
  }

  lemma Exchange(a: nat, x: nat, b: nat)
    ensures a * (x * b) == x * (a * b)
  {
    Fanout.Associate(a, x, b);
    Fanout.Associate(x, a, b);
  }

  /** The order of the tables does not matter. */
  lemma {:induction false} ProductOfSame(a: seq<string>, b: seq<string>, size: string -> nat)
    requires multiset(a) == multiset(b)
    ensures TableProduct(a, size) == TableProduct(b, size)
  {
    if a == [] {
      assert |b| == |multiset(b)| == |multiset(a)| == 0;
    } else {
      assert a[0] in multiset(b);
      var i :| 0 <= i < |b| && b[i] == a[0];
      SameWithout(a, b, i);
      ProductOfSame(a[1..], Without(b, i), size);
      ProductWithout(b, i, size);
    }
  }

  lemma {:induction false} TermsAppend(a: seq<seq<string>>, b: seq<seq<string>>, size: string -> nat)
    ensures TermRows(a + b, size) == TermRows(a, size) + TermRows(b, size)
  {
    if a == [] {
      assert a + b == b;
    } else {
      assert (a + b)[1..] == a[1..] + b;
      TermsAppend(a[1..], b, size);
    }
  }

  function Times(tables: seq<string>, terms: seq<seq<string>>): seq<seq<string>> {
    if terms == [] then [] else [tables + terms[0]] + Times(tables, terms[1..])
  }

  /** Every term of one with every term of the other. */
  function Crossed(a: seq<seq<string>>, b: seq<seq<string>>): seq<seq<string>> {
    if a == [] then [] else Times(a[0], b) + Crossed(a[1..], b)
  }

  lemma {:induction false} TimesRows(tables: seq<string>, terms: seq<seq<string>>, size: string -> nat)
    ensures TermRows(Times(tables, terms), size) == TableProduct(tables, size) * TermRows(terms, size)
  {
    if terms != [] {
      ProductAppend(tables, terms[0], size);
      TimesRows(tables, terms[1..], size);
      assert Times(tables, terms)[1..] == Times(tables, terms[1..]);
      Distribute(TableProduct(tables, size), TableProduct(terms[0], size), TermRows(terms[1..], size));
    }
  }

  lemma Distribute(a: nat, b: nat, c: nat)
    ensures a * (b + c) == a * b + a * c && (b + c) * a == b * a + c * a
  {
  }

  lemma {:induction false} CrossedRows(a: seq<seq<string>>, b: seq<seq<string>>, size: string -> nat)
    ensures TermRows(Crossed(a, b), size) == TermRows(a, size) * TermRows(b, size)
  {
    if a != [] {
      TimesRows(a[0], b, size);
      CrossedRows(a[1..], b, size);
      TermsAppend(Times(a[0], b), Crossed(a[1..], b), size);
      Distribute(TermRows(b, size), TableProduct(a[0], size), TermRows(a[1..], size));
    }
  }

  // ----- a plan written out -----

  /** A node charged for every pair of its inputs' rows: no side of it is proved to match at most once. */
  predicate PairsAll(p: Pricing, id: string, op: Op, kids: seq<string>) {
    IsJoin(op) && (|kids| != 2 || CoveredSides(p.g, id, kids, p.evidence) == (false, false))
  }

  /** A node as a union of cross joins of tables: a scan is its table, one input is passed on, a union has the
    * terms of all its inputs, and a join that pairs all its rows crosses them. Nothing else is written out. */
  function Terms(p: Pricing, id: string, height: nat): Option<seq<seq<string>>>
    decreases height, 0
  {
    if height == 0 || id !in p.g.byId then None
    else
      match Children(p.g, id, p.g.byId[id])
      case None => None
      case Some(kids) =>
        var rel := p.g.byId[id];
        if kids == [] then (if rel.table.Some? then Some([[rel.table.value]]) else None)
        else if rel.op.Union? || (|kids| == 1 && !IsJoin(rel.op)) then AllUnited(p, kids, height - 1)
        else if PairsAll(p, id, rel.op, kids) then AllCrossed(p, kids, height - 1)
        else None
  }

  function AllUnited(p: Pricing, ids: seq<string>, height: nat): Option<seq<seq<string>>>
    decreases height, 1 + |ids|
  {
    if ids == [] then Some([])
    else
      var first, rest := Terms(p, ids[0], height), AllUnited(p, ids[1..], height);
      if first.None? || rest.None? then None else Some(first.value + rest.value)
  }

  function AllCrossed(p: Pricing, ids: seq<string>, height: nat): Option<seq<seq<string>>>
    decreases height, 1 + |ids|
  {
    if ids == [] then Some([[]])
    else
      var first, rest := Terms(p, ids[0], height), AllCrossed(p, ids[1..], height);
      if first.None? || rest.None? then None else Some(Crossed(first.value, rest.value))
  }

  /** No table has more rows than its leaf is charged. */
  ghost predicate SizesWithin(size: string -> nat, leafDocs: map<string, Option<nat>>) {
    forall table :: table in leafDocs && leafDocs[table].Some? ==> size(table) <= leafDocs[table].value
  }

  lemma PairsAllCharge(p: Pricing, id: string, op: Op, kids: seq<string>, rows: seq<nat>)
    requires |kids| == |rows| && PairsAll(p, id, op, kids)
    ensures JoinRows(p, id, kids, rows) >= Product(rows)
  {
    if |rows| == 2 {
      assert rows[1..][1..] == [] && Product(rows[1..]) == rows[1];
    }
  }

  /** A node is charged at least the rows it amounts to written out. */
  lemma {:induction false} TermsAreCharged(p: Pricing, id: string, height: nat, size: string -> nat)
    requires SizesWithin(size, p.leafDocs) && Terms(p, id, height).Some? && RowsWithin(p, id, height).Some?
    ensures TermRows(Terms(p, id, height).value, size) <= RowsWithin(p, id, height).value
    decreases height, 0
  {
    var rel, kids := p.g.byId[id], Children(p.g, id, p.g.byId[id]).value;
    var rows := AllWithin(p, kids, height - 1).value;
    if kids == [] {
      ScanIsCharged(rel.table.value, size);
    } else if rel.op.Union? || (|kids| == 1 && !IsJoin(rel.op)) {
      UnitedAreCharged(p, kids, height - 1, size);
      if |kids| == 1 {
        assert rows[1..] == [] && Sum(rows) == rows[0];
      }
    } else {
      CrossedAreCharged(p, kids, height - 1, size);
      PairsAllCharge(p, id, rel.op, kids, rows);
    }
  }

  lemma ScanIsCharged(table: string, size: string -> nat)
    ensures TermRows([[table]], size) == size(table)
  {
    assert [[table]][1..] == [] && [table][1..] == [];
    assert TableProduct([table], size) == size(table) * TableProduct([], size);
  }

  lemma {:induction false} UnitedAreCharged(p: Pricing, ids: seq<string>, height: nat, size: string -> nat)
    requires SizesWithin(size, p.leafDocs) && AllUnited(p, ids, height).Some? && AllWithin(p, ids, height).Some?
    ensures TermRows(AllUnited(p, ids, height).value, size) <= Sum(AllWithin(p, ids, height).value)
    decreases height, 1 + |ids|
  {
    if ids != [] {
      TermsAreCharged(p, ids[0], height, size);
      UnitedAreCharged(p, ids[1..], height, size);
      TermsAppend(Terms(p, ids[0], height).value, AllUnited(p, ids[1..], height).value, size);
      assert AllWithin(p, ids, height).value[1..] == AllWithin(p, ids[1..], height).value;
    }
  }

  lemma {:induction false} CrossedAreCharged(p: Pricing, ids: seq<string>, height: nat, size: string -> nat)
    requires SizesWithin(size, p.leafDocs) && AllCrossed(p, ids, height).Some? && AllWithin(p, ids, height).Some?
    ensures TermRows(AllCrossed(p, ids, height).value, size) <= Product(AllWithin(p, ids, height).value)
    decreases height, 1 + |ids|
  {
    if ids == [] {
      var none: seq<string> := [];
      assert [none][1..] == [] && TermRows([none], size) == 1;
    } else {
      TermsAreCharged(p, ids[0], height, size);
      CrossedAreCharged(p, ids[1..], height, size);
      var first, rest := Terms(p, ids[0], height).value, AllCrossed(p, ids[1..], height).value;
      CrossedRows(first, rest, size);
      var rows := AllWithin(p, ids, height).value;
      assert rows[1..] == AllWithin(p, ids[1..], height).value;
      MulMonotone(TermRows(first, size), rows[0], TermRows(rest, size), Product(rows[1..]));
    }
  }

  lemma {:induction false} TermsStable(p: Pricing, id: string, low: nat, high: nat)
    requires low <= high && Terms(p, id, low).Some?
    ensures Terms(p, id, high) == Terms(p, id, low)
    decreases low, 0
  {
    var rel, kids := p.g.byId[id], Children(p.g, id, p.g.byId[id]).value;
    if kids == [] {
    } else if rel.op.Union? || (|kids| == 1 && !IsJoin(rel.op)) {
      UnitedStable(p, kids, low - 1, high - 1);
    } else {
      CrossedStable(p, kids, low - 1, high - 1);
    }
  }

  lemma {:induction false} UnitedStable(p: Pricing, ids: seq<string>, low: nat, high: nat)
    requires low <= high && AllUnited(p, ids, low).Some?
    ensures AllUnited(p, ids, high) == AllUnited(p, ids, low)
    decreases low, 1 + |ids|
  {
    if ids != [] {
      TermsStable(p, ids[0], low, high);
      UnitedStable(p, ids[1..], low, high);
    }
  }

  lemma {:induction false} CrossedStable(p: Pricing, ids: seq<string>, low: nat, high: nat)
    requires low <= high && AllCrossed(p, ids, low).Some?
    ensures AllCrossed(p, ids, high) == AllCrossed(p, ids, low)
    decreases low, 1 + |ids|
  {
    if ids != [] {
      TermsStable(p, ids[0], low, high);
      CrossedStable(p, ids[1..], low, high);
    }
  }

  // ----- the branches' tables -----

  /** The tables whose rows a node hands to its parent, with every CTE written out. */
  function TablesOf(bodies: Generators.Bodies, nodes: Generators.Subtree, i: nat, pending: set<string>): seq<string>
    requires i < |nodes|
    decreases |bodies.Keys - pending|, |nodes| - i, |nodes| + 1
  {
    match nodes[i].kind
    case Predicate => []
    case Generator => []
    case Select(narrows, scans, _) => if narrows && !scans && !BranchRows.FirstSelect(nodes, i) then [] else TablesUnder(bodies, nodes, i, i + 1, pending)
    case Scan(table) => [table] + TablesUnder(bodies, nodes, i, i + 1, pending)
    case Ref(name) => TablesNamed(bodies, name, pending) + TablesUnder(bodies, nodes, i, i + 1, pending)
    case _ => TablesUnder(bodies, nodes, i, i + 1, pending)
  }

  function TablesUnder(bodies: Generators.Bodies, nodes: Generators.Subtree, p: nat, j: nat, pending: set<string>): seq<string>
    requires p < j <= |nodes|
    decreases |bodies.Keys - pending|, |nodes| - p, |nodes| - j
  {
    if j == |nodes| then []
    else
      (if nodes[j].parent == p && !(nodes[p].kind.Select? && nodes[j].role.Projection?) then TablesOf(bodies, nodes, j, pending) else [])
      + TablesUnder(bodies, nodes, p, j + 1, pending)
  }

  function TablesNamed(bodies: Generators.Bodies, name: string, pending: set<string>): seq<string>
    decreases |bodies.Keys - pending|, 0, 0
  {
    if name !in bodies then [name]
    else if name in pending || bodies[name] == [] || bodies[name][0] == [] then []
    else
      CteBodies.Shrinks(bodies, pending, name);
      TablesOf(bodies, bodies[name][0], 0, pending + {name})
  }

  function TablesRead(bodies: Generators.Bodies, nodes: Generators.Subtree): seq<string> {
    if nodes == [] then [] else TablesOf(bodies, nodes, 0, {})
  }

  lemma OneTable(table: string, size: string -> nat)
    ensures TableProduct([table], size) == size(table)
  {
    assert [table][1..] == [] && TableProduct([table], size) == size(table) * TableProduct([], size);
  }

  /** What a plan counts of a branch is the cross product of those tables. */
  lemma {:induction false} EmitsIsProduct(bodies: Generators.Bodies, nodes: Generators.Subtree, i: nat, pending: set<string>, size: string -> nat)
    requires i < |nodes|
    ensures BranchRows.Emits(false, bodies, nodes, i, pending, size) == TableProduct(TablesOf(bodies, nodes, i, pending), size)
    decreases |bodies.Keys - pending|, |nodes| - i, |nodes| + 1
  {
    var under := TablesUnder(bodies, nodes, i, i + 1, pending);
    CrossedIsProduct(bodies, nodes, i, i + 1, pending, size);
    match nodes[i].kind
    case Scan(table) =>
      OneTable(table, size);
      ProductAppend([table], under, size);
    case Ref(name) =>
      NamedIsProduct(bodies, name, pending, size);
      ProductAppend(TablesNamed(bodies, name, pending), under, size);
    case _ =>
  }

  lemma {:induction false} CrossedIsProduct(bodies: Generators.Bodies, nodes: Generators.Subtree, p: nat, j: nat, pending: set<string>, size: string -> nat)
    requires p < j <= |nodes|
    ensures BranchRows.Crossed(false, bodies, nodes, p, j, pending, size) == TableProduct(TablesUnder(bodies, nodes, p, j, pending), size)
    decreases |bodies.Keys - pending|, |nodes| - p, |nodes| - j
  {
    if j < |nodes| {
      CrossedIsProduct(bodies, nodes, p, j + 1, pending, size);
      if nodes[j].parent == p && !(nodes[p].kind.Select? && nodes[j].role.Projection?) {
        EmitsIsProduct(bodies, nodes, j, pending, size);
        ProductAppend(TablesOf(bodies, nodes, j, pending), TablesUnder(bodies, nodes, p, j + 1, pending), size);
      } else {
        assert [] + TablesUnder(bodies, nodes, p, j + 1, pending) == TablesUnder(bodies, nodes, p, j + 1, pending);
      }
    }
  }

  lemma {:induction false} NamedIsProduct(bodies: Generators.Bodies, name: string, pending: set<string>, size: string -> nat)
    ensures BranchRows.NamedRows(false, bodies, name, pending, size) == TableProduct(TablesNamed(bodies, name, pending), size)
    decreases |bodies.Keys - pending|, 0, 0
  {
    if name !in bodies {
      OneTable(name, size);
    } else if name !in pending && bodies[name] != [] && bodies[name][0] != [] {
      CteBodies.Shrinks(bodies, pending, name);
      EmitsIsProduct(bodies, bodies[name][0], 0, pending + {name}, size);
    }
  }

  // ----- a plan of the branches -----

  predicate SameTables(terms: seq<seq<string>>, bodies: Generators.Bodies, branches: seq<Generators.Subtree>) {
    |terms| == |branches| && forall b :: 0 <= b < |branches| ==> multiset(terms[b]) == multiset(TablesRead(bodies, branches[b]))
  }

  /** The node, written out, crosses the tables of each branch in turn, in any order within the branch. */
  ghost predicate Mirrors(p: Pricing, id: string, bodies: Generators.Bodies, branches: seq<Generators.Subtree>) {
    exists height: nat :: Terms(p, id, height).Some? && SameTables(Terms(p, id, height).value, bodies, branches)
  }

  lemma {:induction false} SameTablesSameRows(terms: seq<seq<string>>, bodies: Generators.Bodies, branches: seq<Generators.Subtree>, size: string -> nat)
    requires SameTables(terms, bodies, branches)
    ensures TermRows(terms, size) == BranchRows.UnionEmits(false, bodies, branches, size)
    decreases |branches|
  {
    if branches != [] {
      ProductOfSame(terms[0], TablesRead(bodies, branches[0]), size);
      if branches[0] != [] {
        EmitsIsProduct(bodies, branches[0], 0, {}, size);
      }
      forall b | 0 <= b < |branches[1..]| ensures multiset(terms[1..][b]) == multiset(TablesRead(bodies, branches[1..][b])) {
        assert terms[1..][b] == terms[b + 1] && branches[1..][b] == branches[b + 1];
      }
      SameTablesSameRows(terms[1..], bodies, branches[1..], size);
    }
  }

  /** A plan that mirrors the branches is charged for every row their tables cross to. */
  lemma MirroredRowsAreCharged(p: Pricing, id: string, bodies: Generators.Bodies, branches: seq<Generators.Subtree>, size: string -> nat, n: nat)
    requires Mirrors(p, id, bodies, branches) && HasRows(p, id, n) && SizesWithin(size, p.leafDocs)
    ensures BranchRows.UnionEmits(false, bodies, branches, size) <= n
  {
    var low: nat :| Terms(p, id, low).Some? && SameTables(Terms(p, id, low).value, bodies, branches);
    var height: nat :| RowsWithin(p, id, height) == Some(n);
    var high := Max(low, height);
    TermsStable(p, id, low, high);
    RowsStable(p, id, height, high);
    TermsAreCharged(p, id, high, size);
    SameTablesSameRows(Terms(p, id, low).value, bodies, branches, size);
  }
}
