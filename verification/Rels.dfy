/** The flat node list of a multi-stage plan, and the graph its ids spell (adapters/pinot/rels.py). */
module Rels {
  import opened Prelude

  /** Recursion and chain walks stop here; a deeper plan yields no number. */
  const MAX_DEPTH: nat := 400

  /** What a project puts in one column: a bare input position, or anything computed. */
  datatype Expr = BareInput(index: int) | Computed(id: nat)

  datatype Operand = Input(index: int) | Expression(id: nat)

  datatype Condition =
    | NoCondition
    | Equals(operands: seq<Operand>)
    | And(conjuncts: seq<Condition>)
    | OtherKind(id: nat)

  datatype JoinType = Inner | Left | Right | Full | Semi | Anti

  /** The operator a node's relOp names. The plan readers tell scans, the three pass-throughs, unions, joins
    * and correlates apart; everything else is priced at its widest input. A correlate is never a right or a
    * full join. */
  datatype Op =
    | TableScan
    | Values
    | Project
    | Filter
    | Exchange
    | Union
    | Join(joinType: JoinType)
    | Correlate(joinType: JoinType)
    | Sort
    | Window
    | Aggregate(groups: seq<nat>)
    | Intersect
    | Minus

  /** The "inputs" key: absent means "the node just before me". */
  datatype Inputs = Absent | Unreadable | Listed(ids: seq<string>)

  datatype Rel = Rel(
    id: Option<string>,
    op: Op,
    inputs: Inputs,
    table: Option<string>,                   // lowercase database.table, None if unreadable
    fields: Option<seq<Option<string>>>,     // None entries are names that are not strings
    exprs: Option<seq<Expr>>,
    condition: Condition)

  datatype Graph = Graph(
    byId: map<string, Rel>,
    previous: map<string, Option<string>>,
    order: seq<string>)

  /** Every id is present and none repeats. */
  ghost predicate Indexable(rels: seq<Rel>) {
    && (forall i :: 0 <= i < |rels| ==> rels[i].id.Some?)
    && (forall i, j :: 0 <= i < j < |rels| ==> rels[i].id != rels[j].id)
  }

  /** The graph holds exactly these nodes, in this order, each with the one before it. */
  ghost predicate Indexes(g: Graph, rels: seq<Rel>) {
    && |g.order| == |rels|
    && Distinct(g.order)
    && (forall id :: id in g.byId <==> id in g.order)
    && (forall id :: id in g.previous <==> id in g.order)
    && (forall i :: 0 <= i < |rels| ==> IndexedAt(g, i, rels[i]))
  }

  ghost predicate IndexedAt(g: Graph, i: int, rel: Rel)
    requires 0 <= i < |g.order|
  {
    var id := g.order[i];
    && rel.id == Some(id)
    && id in g.byId && g.byId[id] == rel
    && id in g.previous && g.previous[id] == Before(g.order, i)
  }

  function Before(order: seq<string>, i: nat): Option<string>
    requires i <= |order|
  {
    if i == 0 then None else Some(order[i - 1])
  }

  lemma IndexOneMore(g: Graph, rels: seq<Rel>, rel: Rel, id: string)
    requires Indexes(g, rels) && rel.id == Some(id) && id !in g.byId
    ensures Indexes(Graph(g.byId[id := rel], g.previous[id := Before(g.order, |rels|)], g.order + [id]), rels + [rel])
  {
    var h := Graph(g.byId[id := rel], g.previous[id := Before(g.order, |rels|)], g.order + [id]);
    forall i | 0 <= i < |rels + [rel]| ensures IndexedAt(h, i, (rels + [rel])[i]) {
      if i < |rels| {
        assert IndexedAt(g, i, rels[i]);
      }
    }
  }

  /** A repeated or missing id makes the whole plan unreadable, and nothing else does. */
  method IndexRels(rels: seq<Rel>) returns (indexed: Option<Graph>)
    ensures indexed.Some? <==> Indexable(rels)
    ensures indexed.Some? ==> Indexes(indexed.value, rels)
  {
    var byId: map<string, Rel>, previous: map<string, Option<string>>, order: seq<string> := map[], map[], [];
    var last: Option<string> := None;
    for i := 0 to |rels|
      invariant Indexes(Graph(byId, previous, order), rels[..i])
      invariant last == Before(order, i)
    {
      var rel := rels[i];
      if rel.id.None? {
        return None;
      }
      var id := rel.id.value;
      if id in byId {
        var k :| 0 <= k < |order| && order[k] == id;
        assert IndexedAt(Graph(byId, previous, order), k, rels[..i][k]);
        return None;
      }
      IndexOneMore(Graph(byId, previous, order), rels[..i], rel, id);
      assert rels[..i + 1] == rels[..i] + [rel];
      byId, previous, order, last := byId[id := rel], previous[id := last], order + [id], Some(id);
    }
    assert rels[..|rels|] == rels;
    IndexedAreIndexable(Graph(byId, previous, order), rels);
    indexed := Some(Graph(byId, previous, order));
  }

  lemma IndexedAreIndexable(g: Graph, rels: seq<Rel>)
    requires Indexes(g, rels)
    ensures Indexable(rels)
  {
    assert forall i :: 0 <= i < |rels| ==> IndexedAt(g, i, rels[i]);
  }

  /** A list has at most one index. */
  lemma IndexesOnce(g: Graph, h: Graph, rels: seq<Rel>)
    requires Indexes(g, rels) && Indexes(h, rels)
    ensures g == h
  {
    forall i | 0 <= i < |rels| ensures g.order[i] == h.order[i] {
      assert IndexedAt(g, i, rels[i]) && IndexedAt(h, i, rels[i]);
    }
    assert g.order == h.order;
    forall id | id in g.byId ensures g.byId[id] == h.byId[id] && g.previous[id] == h.previous[id] {
      var i :| 0 <= i < |g.order| && g.order[i] == id;
      assert IndexedAt(g, i, rels[i]) && IndexedAt(h, i, rels[i]);
    }
    assert g.byId == h.byId && g.previous == h.previous;
  }

  /** A node's input ids, [] for a leaf, None if unreadable. */
  function Children(g: Graph, id: string, rel: Rel): Option<seq<string>> {
    match rel.inputs
    case Absent =>
      if id in g.previous && g.previous[id].Some? then Some([g.previous[id].value]) else Some([])
    case Unreadable => None
    case Listed(ids) => Some(ids)
  }

  /** In a list: a node that names no inputs is fed by the one before it, unless it is the first; otherwise by
    * those it names, if they can be read. */
  lemma ChildrenInList(g: Graph, rels: seq<Rel>, i: nat)
    requires Indexes(g, rels) && i < |rels|
    ensures rels[i].id.Some?
    ensures rels[i].inputs == Absent && i == 0 ==> Children(g, rels[i].id.value, rels[i]) == Some([])
    ensures rels[i].inputs == Absent && i > 0 ==> rels[i - 1].id.Some? && Children(g, rels[i].id.value, rels[i]) == Some([rels[i - 1].id.value])
    ensures rels[i].inputs == Unreadable ==> Children(g, rels[i].id.value, rels[i]) == None
    ensures rels[i].inputs.Listed? ==> Children(g, rels[i].id.value, rels[i]) == Some(rels[i].inputs.ids)
  {
    assert IndexedAt(g, i, rels[i]);
    if i > 0 {
      assert IndexedAt(g, i - 1, rels[i - 1]);
    }
  }
}
