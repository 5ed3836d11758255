/** Where the rows of a join side come from, and why a covered side matches at most once. */
module Provenance {
  import opened Prelude
  import opened Rels
  import opened JoinKeys
  import opened Execution

  /** Column k of the emitted row is column `ordinal` of the stored row. */
  ghost predicate ColumnCopies(out: Row, stored: Row, k: nat, ordinal: nat) {
    k < |out| ==> ordinal < |stored| && out[k] == stored[ordinal]
  }

  /** Does the project copy an input position into its column k, whatever its other columns are? */
  predicate IsBare(rel: Rel, k: nat) {
    rel.exprs.Some? && k < |rel.exprs.value| && rel.exprs.value[k].BareInput? && rel.exprs.value[k].index >= 0
  }

  /** The scan column behind one column at the top of a chain, followed column by column; None where some
    * project computes it. */
  function ColumnOf(g: Graph, chain: seq<string>, k: nat): Option<nat> {
    if chain == [] then Some(k)
    else if chain[0] !in g.byId then None
    else
      var rel := g.byId[chain[0]];
      if !rel.op.Project? then ColumnOf(g, chain[1..], k)
      else if IsBare(rel, k) then ColumnOf(g, chain[1..], rel.exprs.value[k].index)
      else None
  }

  /** Where the readers compose an index at all, it is that column. */
  lemma {:induction false} ComposedIsColumn(g: Graph, chain: seq<string>, k: nat)
    ensures Composed(g, chain, k).Some? ==> ColumnOf(g, chain, k) == Composed(g, chain, k)
  {
    if chain != [] && chain[0] in g.byId {
      var rel := g.byId[chain[0]];
      if !rel.op.Project? {
        ComposedIsColumn(g, chain[1..], k);
      } else if ProjectReads(rel).Some? && k < |ProjectReads(rel).value| {
        ComposedIsColumn(g, chain[1..], ProjectReads(rel).value[k]);
      }
    }
  }

  /** The rows come one for one from different stored rows, and every column that is not computed on the way
    * still holds that stored row's column. */
  ghost predicate Traces(g: Graph, chain: seq<string>, out: seq<Row>, stored: seq<Row>, picks: seq<nat>) {
    && |picks| == |out| && Picks(picks, |stored|)
    && forall i, k: nat :: 0 <= i < |out| && ColumnOf(g, chain, k).Some? ==>
         ColumnCopies(out[i], stored[picks[i]], k, ColumnOf(g, chain, k).value)
  }

  /** Passing a choice of the rows on keeps the trace. */
  lemma TraceOfChoice(g: Graph, chain: seq<string>, out: seq<Row>, mid: seq<Row>, stored: seq<Row>,
                      outer: seq<nat>, inner: seq<nat>) returns (picks: seq<nat>)
    requires TracedBy(out, mid, outer) && Traces(g, chain, mid, stored, inner)
    ensures Traces(g, chain, out, stored, picks)
  {
    PicksCompose(inner, outer, |stored|);
    picks := seq(|outer|, i requires 0 <= i < |outer| => inner[outer[i]]);
    forall i, k: nat | 0 <= i < |out| && ColumnOf(g, chain, k).Some?
      ensures ColumnCopies(out[i], stored[picks[i]], k, ColumnOf(g, chain, k).value)
    {
      assert ColumnCopies(mid[outer[i]], stored[inner[outer[i]]], k, ColumnOf(g, chain, k).value);
    }
  }

  /** A project moves each column as its bare expressions say. */
  lemma TraceOfProject(g: Graph, id: string, chain: seq<string>, out: seq<Row>, mid: seq<Row>,
                       stored: seq<Row>, picks: seq<nat>, width: nat)
    requires id in g.byId && g.byId[id].op.Project? && Projects(g.byId[id], mid, out, width)
    requires forall i :: 0 <= i < |out| ==> |out[i]| == width
    requires Traces(g, chain, mid, stored, picks)
    ensures Traces(g, [id] + chain, out, stored, picks)
  {
    var rel := g.byId[id];
    assert ([id] + chain)[1..] == chain;
    forall i, k: nat | 0 <= i < |out| && ColumnOf(g, [id] + chain, k).Some?
      ensures ColumnCopies(out[i], stored[picks[i]], k, ColumnOf(g, [id] + chain, k).value)
    {
      if k < |out[i]| {
        var at := rel.exprs.value[k].index;
        assert ProjectsAt(rel.exprs.value[k], mid[i], out[i], k);
        assert ColumnCopies(mid[i], stored[picks[i]], at, ColumnOf(g, chain, at).value);
      }
    }
  }

  lemma {:induction false} ChainProvenance(db: Database, g: Graph, run: Run, env: Env, id: string, fuel: nat)
    returns (picks: seq<nat>)
    requires IsRun(db, g, run) && ChainDown(g, id, fuel).Some?
    ensures var (chain, table) := ChainDown(g, id, fuel).value;
      table in db.tables && Traces(g, chain, run.out(env, id), db.tables[table], picks)
    decreases fuel
  {
    assert Emits(db, g, run, env, id);
    var rel, out := g.byId[id], run.out(env, id);
    var kids := Children(g, id, rel).value;
    var (chain, table) := ChainDown(g, id, fuel).value;
    if rel.op.TableScan? {
      picks :| TracedBy(out, db.tables[table], picks);
    } else {
      var inner := ChainProvenance(db, g, run, env, kids[0], fuel - 1);
      var mid, stored := run.out(env, kids[0]), db.tables[table];
      assert chain[1..] == ChainDown(g, kids[0], fuel - 1).value.0;
      if rel.op.Project? {
        picks := inner;
        TraceOfProject(g, id, chain[1..], out, mid, stored, picks, run.widths(id));
        assert [id] + chain[1..] == chain;
      } else {
        var outer :| TracedBy(out, mid, outer);
        picks := TraceOfChoice(g, chain[1..], out, mid, stored, outer, inner);
        assert forall k: nat :: ColumnOf(g, chain, k) == ColumnOf(g, chain[1..], k);
      }
    }
  }

  /** A side's rows are as wide as its numbering says, and traceable when it names a table. */
  lemma {:induction false} SideProvenance(db: Database, g: Graph, run: Run, env: Env, id: string, fuel: nat)
    returns (picks: seq<nat>)
    requires IsRun(db, g, run) && SideFields(g, id, fuel).Some?
    ensures var side := SideFields(g, id, fuel).value;
      && side.width == run.widths(id)
      && (forall i :: 0 <= i < |run.out(env, id)| ==> |run.out(env, id)[i]| == side.width)
      && (side.table.Some? ==> side.table.value in db.tables)
      && (side.table.Some? ==> Traces(g, side.chain, run.out(env, id), db.tables[side.table.value], picks))
    decreases fuel
  {
    assert Emits(db, g, run, env, id);
    var rel, out, side := g.byId[id], run.out(env, id), SideFields(g, id, fuel).value;
    var kids := Children(g, id, rel).value;
    picks := [];
    if rel.op.Project? {
      if side.table.Some? {
        assert side.chain == ChainDown(g, id, fuel).value.0;
        picks := ChainProvenance(db, g, run, env, id, fuel);
      }
    } else {
      var inner := SideProvenance(db, g, run, env, kids[0], fuel - 1);
      if side.table.Some? {
        var outer :| TracedBy(out, run.out(env, kids[0]), outer);
        picks := TraceOfChoice(g, side.chain, out, run.out(env, kids[0]), db.tables[side.table.value], outer, inner);
      }
    }
  }
}
