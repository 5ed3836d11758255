/** End to end: what a query the gate admits may scan and build. */
module AdmittedQueries {
  import opened Prelude
  import opened Quote
  import opened ScanSoundness
  import opened Survivors
  import opened ReadCounts
  import opened Admission
  import Rels
  import JoinKeys
  import PlanBound
  import Execution
  import PlanSoundness
  import PlanEvidence
  import PlanTerms
  import Generators
  import BranchRows

  // ----- rows and bytes scanned -----

  /** The pruning a read of a single-table query underwent, if anything is known of it: one the EXPLAIN allows. */
  ghost predicate PrunedAs(e: Explain, trustLimit: bool, tableCount: nat, scan: Scan) {
    tableCount == 1 && HasOracle(e) ==> exists p :: Explains(e, trustLimit, p) && Count(scan.sealed) <= SealedSurvivors(e, p)
  }

  /** Every table carries the surviving count the adapter read off that EXPLAIN. */
  ghost predicate CarriesSurviving(located: seq<Located>, e: Explain, trustLimit: bool) {
    forall t :: 0 <= t < |located| ==> located[t].surviving == SurvivingOf(e, |located|, trustLimit)
  }

  lemma {:induction false} CountAtMost(mask: seq<bool>)
    ensures Count(mask) <= |mask|
  {
    if mask != [] {
      CountAtMost(mask[1..]);
    }
  }

  /** A pruned scan is one the quote allowed for. */
  lemma PrunedIsAllowed(e: Explain, trustLimit: bool, tableCount: nat, facts: TableFacts, scan: Scan)
    requires IsScanOf(facts, scan) && PrunedAs(e, trustLimit, tableCount, scan)
    ensures Allowed(facts, SurvivingOf(e, tableCount, trustLimit), scan)
  {
    CountAtMost(scan.sealed);
    if tableCount == 1 && HasOracle(e) {
      var p :| Explains(e, trustLimit, p) && Count(scan.sealed) <= SealedSurvivors(e, p);
      QuoteChargesEverySurvivor(e, trustLimit, p, |facts.segments|, Count(scan.sealed));
    }
  }

  /** One execution: for every read of the inlined text, a scan of its table, pruned as the EXPLAIN allows. */
  ghost predicate Executes(names: seq<string>, located: seq<Located>, stored: seq<seq<StoredSegment>>, e: Explain, trustLimit: bool,
                           execution: seq<ReadOf>) {
    && |execution| == |names| && |stored| == |located|
    && (forall t :: 0 <= t < |located| ==> CountsRows(located[t].facts, stored[t]))
    && forall i :: 0 <= i < |names| ==> ReadsAt(names, located, e, trustLimit, execution, i)
  }

  ghost predicate ReadsAt(names: seq<string>, located: seq<Located>, e: Explain, trustLimit: bool, execution: seq<ReadOf>, i: nat)
    requires i < |names| == |execution|
  {
    && execution[i].table < |located| && names[i] == ReadKey(located[execution[i].table])
    && IsScanOf(located[execution[i].table].facts, execution[i].scan)
    && PrunedAs(e, trustLimit, |located|, execution[i].scan)
  }

  /** Its bytes, as the reports to the adapter's requests describe the tables. */
  ghost predicate BytesReported(located: seq<Located>, stored: seq<seq<StoredSegment>>, columns: Option<set<string>>, execution: seq<ReadOf>) {
    && |stored| == |located|
    && (forall t :: 0 <= t < |located| ==> ReportsBytes(located[t].facts, stored[t], columns))
    && forall i :: 0 <= i < |execution| && execution[i].table < |located| ==>
         ReadsBytesOf(located[execution[i].table].facts, columns, execution[i].scan)
  }

  /** Whatever the gate admits scans, over all its inlined reads, no more rows than its ceiling, and no more
    * bytes than its ceiling where the tables' bytes are as reported. */
  lemma AdmittedScansFit(ctes: seq<Cte>, main: seq<Ref>, shape: Shape, located: seq<Located>, stored: seq<seq<StoredSegment>>,
                         e: Explain, trustLimit: bool, columns: Option<set<string>>, widest: Option<nat>, budget: QueryBudget,
                         execution: seq<ReadOf>)
    requires EarlierOnly(ctes) && (!shape.saturated ==> shape.counts == Reads(BodiesOf(ctes), main, {}))
    requires Distinct(Keys(located)) && CarriesSurviving(located, e, trustLimit)
    requires Executes(Names(Inline(main, ctes)), located, stored, e, trustLimit, execution)
    requires EnforceBudget(EstimateCost(shape, located, columns, widest), budget) == Admitted
    ensures budget.maxRows.Some? ==> Sum(RowsOfReads(located, stored, execution)) <= budget.maxRows.value
    ensures budget.maxScanBytes.Some? && BytesReported(located, stored, columns, execution) ==>
      Sum(BytesOfReads(located, stored, execution)) <= budget.maxScanBytes.value
  {
    var names := Names(Inline(main, ctes));
    forall i | 0 <= i < |names|
      ensures execution[i].table < |located| && names[i] == ReadKey(located[execution[i].table])
      ensures Allowed(located[execution[i].table].facts, located[execution[i].table].surviving, execution[i].scan)
    {
      assert ReadsAt(names, located, e, trustLimit, execution, i);
      PrunedIsAllowed(e, trustLimit, |located|, located[execution[i].table].facts, execution[i].scan);
    }
    assert IsExecution(names, located, stored, execution);
    ReadsAreInlinedOccurrences(ctes, main);
    QuoteCoversRows(names, located, stored, execution);
    if BytesReported(located, stored, columns, execution) {
      forall t | 0 <= t < |located| ensures DescribesBytes(located[t].facts, stored[t], columns) {
        ReportedIsDescribed(located[t].facts, stored[t], columns);
      }
      QuoteCoversBytes(names, located, stored, columns, execution);
    }
  }

  // ----- rows built -----

  /** The leaf bounds the plan is priced with: each table's surviving docs, under its name in the plan. */
  function LeafDocs(located: seq<Located>): map<string, Option<nat>> {
    if located == [] then map[]
    else
      var n := |located| - 1;
      LeafDocs(located[..n])[located[n].name := SurvivingDocs(located[n].facts, located[n].surviving)]
  }

  lemma {:induction false} LeafDocsFrom(located: seq<Located>, name: string) returns (t: nat)
    requires name in LeafDocs(located)
    ensures t < |located| && located[t].name == name && LeafDocs(located)[name] == SurvivingDocs(located[t].facts, located[t].surviving)
    decreases |located|
  {
    var n := |located| - 1;
    if located[n].name == name {
      t := n;
    } else {
      t := LeafDocsFrom(located[..n], name);
    }
  }

  /** What the plan's scans emit at a time are rows of an allowed scan of their table. */
  ghost predicate ScansRead(g: Rels.Graph, run: Execution.Run, located: seq<Located>, stored: seq<seq<StoredSegment>>) {
    && |stored| == |located|
    && (forall t :: 0 <= t < |located| ==> CountsRows(located[t].facts, stored[t]))
    && forall env, id, t :: id in g.byId && 0 <= t < |located| && IsLeafOf(g, id, located[t].name) ==>
         ScanReads(|run.out(env, id)|, located[t], stored[t])
  }

  predicate IsLeafOf(g: Rels.Graph, id: string, name: string)
    requires id in g.byId
  {
    Rels.Children(g, id, g.byId[id]) == Some([]) && g.byId[id].table == Some(name)
  }

  ghost predicate ScanReads(rows: nat, table: Located, stored: seq<StoredSegment>) {
    exists scan :: Allowed(table.facts, table.surviving, scan) && |scan.sealed| == |stored| && rows <= RowsRead(stored, scan)
  }

  /** So they stay within the leaf bounds. */
  lemma ReadScansAreWithin(g: Rels.Graph, run: Execution.Run, located: seq<Located>, stored: seq<seq<StoredSegment>>)
    requires ScansRead(g, run, located, stored)
    ensures Execution.ScansWithin(g, run, LeafDocs(located))
  {
    var leafDocs := LeafDocs(located);
    forall env, id | id in g.byId && Rels.Children(g, id, g.byId[id]) == Some([])
      ensures Execution.ScanWithin(g.byId[id], run, env, id, leafDocs)
    {
      var rel := g.byId[id];
      if rel.table.Some? && rel.table.value in leafDocs && leafDocs[rel.table.value].Some? {
        var t := LeafDocsFrom(located, rel.table.value);
        assert ScanReads(|run.out(env, id)|, located[t], stored[t]);
        var scan :| Allowed(located[t].facts, located[t].surviving, scan) && |scan.sealed| == |stored[t]|
          && |run.out(env, id)| <= RowsRead(stored[t], scan);
        RowsCovered(located[t].facts, stored[t], located[t].surviving, scan);
      }
    }
  }

  /** The evidence a plan is priced with, read off a catalog that tells the truth about the database. */
  ghost predicate TrueEvidence(db: Execution.Database, evidence: JoinKeys.Evidence, catalog: map<string, PlanEvidence.Catalogued>) {
    forall name :: name in db.tables && name in evidence.uniqueKeys && name in evidence.keyOrdinals ==>
      name in catalog && PlanEvidence.TrueOf(catalog[name], db.tables[name])
      && PlanEvidence.ReadOff(catalog[name], evidence.uniqueKeys[name], evidence.keyOrdinals[name])
  }

  /** The number the adapter prices a plan with bounds every node of every run the facts and the catalog allow. */
  lemma PlanIsWithin(rels: seq<Rels.Rel>, g: Rels.Graph, db: Execution.Database, run: Execution.Run,
                     located: seq<Located>, stored: seq<seq<StoredSegment>>,
                     evidence: JoinKeys.Evidence, catalog: map<string, PlanEvidence.Catalogued>, widest: nat)
    requires Rels.Indexes(g, rels) && PlanBound.IsBound(rels, LeafDocs(located), evidence, Some(widest))
    requires Execution.IsRun(db, g, run) && TrueEvidence(db, evidence, catalog) && ScansRead(g, run, located, stored)
    requires PlanSoundness.LoopsAreCharged(PlanBound.Pricing(g, LeafDocs(located), evidence))
    ensures forall env, id :: id in g.order ==> |run.out(env, id)| <= widest
  {
    PlanEvidence.CatalogEvidenceHolds(db, evidence, catalog);
    ReadScansAreWithin(g, run, located, stored);
    var h :| Rels.Indexes(h, rels) && PlanBound.IsWidest(PlanBound.Pricing(h, LeafDocs(located), evidence), widest);
    Rels.IndexesOnce(g, h, rels);
    PlanSoundness.PlanBoundIsSound(PlanBound.Pricing(g, LeafDocs(located), evidence), db, run, widest);
  }

  /** What is admitted under an intermediate-row ceiling builds no wider node in any run of its plan, with its
    * generators' multiplier or without: from the tables' facts, the catalog's documents and the plan itself to
    * the gate. */
  lemma AdmittedPlansFit(rels: seq<Rels.Rel>, g: Rels.Graph, db: Execution.Database, run: Execution.Run,
                         located: seq<Located>, stored: seq<seq<StoredSegment>>, columns: Option<set<string>>,
                         evidence: JoinKeys.Evidence, catalog: map<string, PlanEvidence.Catalogued>,
                         bodies: Generators.Bodies, branches: seq<Generators.Subtree>,
                         shape: Shape, widest: Option<nat>, budget: QueryBudget)
    requires Rels.Indexes(g, rels) && PlanBound.IsBound(rels, LeafDocs(located), evidence, widest)
    requires Execution.IsRun(db, g, run) && TrueEvidence(db, evidence, catalog) && ScansRead(g, run, located, stored)
    requires PlanSoundness.LoopsAreCharged(PlanBound.Pricing(g, LeafDocs(located), evidence))
    requires shape.fanout == Generators.GeneratorFanout(bodies, branches)
    requires EnforceBudget(EstimateCost(shape, located, columns, widest), budget) == Admitted
    ensures budget.maxIntermediateRows.Some? ==> forall env, id :: id in g.order ==>
      |run.out(env, id)| <= |run.out(env, id)| * shape.fanout <= budget.maxIntermediateRows.value
  {
    if budget.maxIntermediateRows.Some? {
      assert widest.Some? && widest.value * shape.fanout <= budget.maxIntermediateRows.value by {
        AdmittedIffKnownAndWithin(shape, located, columns, widest, budget);
      }
      PlanIsWithin(rels, g, db, run, located, stored, evidence, catalog, widest.value);
      Generators.FanoutIsPositive(bodies, branches);
      forall env, id | id in g.order
        ensures |run.out(env, id)| <= |run.out(env, id)| * shape.fanout <= widest.value * shape.fanout
      {
        MulMonotone(|run.out(env, id)|, |run.out(env, id)|, 1, shape.fanout);
        MulMonotone(|run.out(env, id)|, widest.value, shape.fanout, shape.fanout);
      }
    }
  }

  /** And what its generators multiply those rows into stays under the same ceiling, for a UNION ALL of plain
    * table-reading branches whose table rows the plan has counted in one of its nodes. */
  lemma AdmittedRowsFit(bodies: Generators.Bodies, branches: seq<Generators.Subtree>, size: string -> nat, shape: Shape,
                        located: seq<Located>, columns: Option<set<string>>, widest: nat, budget: QueryBudget)
    requires shape.unpriceable == Generators.GeneratesRows(bodies, branches) && shape.fanout == Generators.GeneratorFanout(bodies, branches)
    requires BranchRows.PlainBodies(bodies) && BranchRows.PlainReading(bodies, branches)
    requires BranchRows.UnionEmits(false, bodies, branches, size) <= widest
    requires EnforceBudget(EstimateCost(shape, located, columns, Some(widest)), budget) == Admitted
    ensures budget.maxIntermediateRows.Some? ==>
      BranchRows.UnionEmits(true, bodies, branches, size) <= budget.maxIntermediateRows.value
  {
    if budget.maxIntermediateRows.Some? {
      BranchRows.FanoutCoversUnion(bodies, branches, size);
      MulMonotone(BranchRows.UnionEmits(false, bodies, branches, size), widest, shape.fanout, shape.fanout);
    }
  }

  /** Every table has no more rows than some allowed scan of it read. */
  ghost predicate SizesRead(size: string -> nat, located: seq<Located>, stored: seq<seq<StoredSegment>>) {
    && |stored| == |located|
    && forall t :: 0 <= t < |located| ==>
         CountsRows(located[t].facts, stored[t]) && ScanReads(size(located[t].name), located[t], stored[t])
  }

  lemma ReadSizesAreWithin(size: string -> nat, located: seq<Located>, stored: seq<seq<StoredSegment>>)
    requires SizesRead(size, located, stored)
    ensures PlanTerms.SizesWithin(size, LeafDocs(located))
  {
    forall name | name in LeafDocs(located) && LeafDocs(located)[name].Some? ensures size(name) <= LeafDocs(located)[name].value {
      var t := LeafDocsFrom(located, name);
      assert ScanReads(size(located[t].name), located[t], stored[t]);
      var scan :| Allowed(located[t].facts, located[t].surviving, scan) && |scan.sealed| == |stored[t]|
        && size(located[t].name) <= RowsRead(stored[t], scan);
      RowsCovered(located[t].facts, stored[t], located[t].surviving, scan);
    }
  }

  /** The same with nothing assumed of what the plan counted: it is enough that some node of the plan, written
    * out, crosses the tables each branch crosses. */
  lemma AdmittedMirrorsFit(rels: seq<Rels.Rel>, g: Rels.Graph, located: seq<Located>, stored: seq<seq<StoredSegment>>,
                           evidence: JoinKeys.Evidence, id: string,
                           bodies: Generators.Bodies, branches: seq<Generators.Subtree>, size: string -> nat, shape: Shape,
                           columns: Option<set<string>>, widest: Option<nat>, budget: QueryBudget)
    requires Rels.Indexes(g, rels) && PlanBound.IsBound(rels, LeafDocs(located), evidence, widest) && SizesRead(size, located, stored)
    requires id in g.order && PlanTerms.Mirrors(PlanBound.Pricing(g, LeafDocs(located), evidence), id, bodies, branches)
    requires shape.unpriceable == Generators.GeneratesRows(bodies, branches) && shape.fanout == Generators.GeneratorFanout(bodies, branches)
    requires BranchRows.PlainBodies(bodies) && BranchRows.PlainReading(bodies, branches)
    requires EnforceBudget(EstimateCost(shape, located, columns, widest), budget) == Admitted
    ensures budget.maxIntermediateRows.Some? ==>
      BranchRows.UnionEmits(true, bodies, branches, size) <= budget.maxIntermediateRows.value
  {
    if budget.maxIntermediateRows.Some? {
      assert widest.Some? by {
        AdmittedIffKnownAndWithin(shape, located, columns, widest, budget);
      }
      var h :| Rels.Indexes(h, rels) && PlanBound.IsWidest(PlanBound.Pricing(h, LeafDocs(located), evidence), widest.value);
      Rels.IndexesOnce(g, h, rels);
      var p := PlanBound.Pricing(g, LeafDocs(located), evidence);
      var n: nat :| PlanBound.HasRows(p, id, n) && n <= widest.value;
      ReadSizesAreWithin(size, located, stored);
      PlanTerms.MirroredRowsAreCharged(p, id, bodies, branches, size, n);
      AdmittedRowsFit(bodies, branches, size, shape, located, columns, widest.value, budget);
    }
  }
}
