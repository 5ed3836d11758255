/** How the plan bound moves when the facts it is built from do. */
module PlanMonotone {
  import opened Prelude
  import opened Rels
  import opened JoinKeys
  import opened PlanBound
  import opened PlanSoundness
  import opened TwoTables

  /** Every sized table is still sized, at no fewer rows. */
  ghost predicate LeavesGrow(low: map<string, Option<nat>>, high: map<string, Option<nat>>) {
    forall table :: table in low && low[table].Some? ==>
      table in high && high[table].Some? && low[table].value <= high[table].value
  }

  /** Every claimed key and ordinal is still claimed. */
  ghost predicate EvidenceGrows(less: Evidence, more: Evidence) {
    && (forall table :: table in less.uniqueKeys ==> table in more.uniqueKeys && less.uniqueKeys[table] <= more.uniqueKeys[table])
    && (forall table :: table in less.keyOrdinals ==> table in more.keyOrdinals)
    && (forall table :: table in less.keyOrdinals ==> less.keyOrdinals[table].Items <= more.keyOrdinals[table].Items)
  }

  /** No sized table is empty. */
  ghost predicate NoEmptyLeaf(leafDocs: map<string, Option<nat>>) {
    forall table :: table in leafDocs && leafDocs[table].Some? ==> leafDocs[table].value >= 1
  }

  lemma CoverageGrows(g: Graph, id: string, kids: seq<string>, less: Evidence, more: Evidence)
    requires EvidenceGrows(less, more)
    ensures CoveredSides(g, id, kids, less).0 ==> CoveredSides(g, id, kids, more).0
    ensures CoveredSides(g, id, kids, less).1 ==> CoveredSides(g, id, kids, more).1
  {
    var pairs := JoinKeyPairs(g, id, kids);
    if pairs != [] {
      SideCoverageGrows(SideFields(g, kids[0], MAX_DEPTH), LeftOrdinals(pairs), less, more);
      SideCoverageGrows(SideFields(g, kids[1], MAX_DEPTH), RightOrdinals(pairs), less, more);
    }
  }

  lemma SideCoverageGrows(side: Option<Side>, reached: set<nat>, less: Evidence, more: Evidence)
    requires EvidenceGrows(less, more)
    ensures SideCovered(side, reached, less) ==> SideCovered(side, reached, more)
  {
    if SideCovered(side, reached, less) {
      var table := side.value.table.value;
      var key :| key in less.uniqueKeys[table] && key != {} && key <= NamedColumns(less.keyOrdinals[table], reached);
      forall column | column in key ensures column in NamedColumns(more.keyOrdinals[table], reached) {
        assert (column, less.keyOrdinals[table][column]) in less.keyOrdinals[table].Items;
      }
      assert key in more.uniqueKeys[table];
    }
  }

  /** Proving more sides unique lowers a join's charge, except when the newly proved side is the empty one. */
  lemma CoverageLowersUnlessEmpty(left: nat, right: nat, less: (bool, bool), more: (bool, bool))
    requires (less.0 ==> more.0) && (less.1 ==> more.1)
    ensures PairedRows(left, right, more) <= PairedRows(left, right, less) <==>
      !(less == (false, false) && ((more == (true, false) && left == 0 && right > 0) || (more == (false, true) && right == 0 && left > 0)))
  {
    if left > 0 && right > 0 {
      MulMonotone(1, left, right, right);
      MulMonotone(left, left, 1, right);
    }
  }

  lemma LocalRowsGrow(low: Pricing, high: Pricing, id: string, kids: seq<string>, less: seq<nat>, more: seq<nat>)
    requires low.g == high.g && low.evidence == high.evidence && LeavesGrow(low.leafDocs, high.leafDocs)
    requires id in low.g.byId && |less| == |more| == |kids| && forall i :: 0 <= i < |kids| ==> less[i] <= more[i]
    requires LocalRows(low, id, low.g.byId[id], kids, less).Some?
    ensures LocalRows(high, id, high.g.byId[id], kids, more).Some?
    ensures LocalRows(low, id, low.g.byId[id], kids, less).value <= LocalRows(high, id, high.g.byId[id], kids, more).value
  {
    if kids != [] {
      SumMonotone(less, more);
      ProductMonotone(less, more);
      if |kids| == 2 {
        PairedRowsMonotone(less[0], less[1], more[0], more[1], CoveredSides(low.g, id, kids, low.evidence));
      }
      var i :| 0 <= i < |less| && less[i] == Largest(less);
      assert less[i] <= more[i] <= Largest(more);
    }
  }

  lemma {:induction false} RowsGrow(low: Pricing, high: Pricing, id: string, height: nat)
    requires low.g == high.g && low.evidence == high.evidence && LeavesGrow(low.leafDocs, high.leafDocs)
    requires RowsWithin(low, id, height).Some?
    ensures RowsWithin(high, id, height).Some?
    ensures RowsWithin(low, id, height).value <= RowsWithin(high, id, height).value
    decreases height, 0
  {
    var kids := Children(low.g, id, low.g.byId[id]).value;
    AllGrow(low, high, kids, height - 1);
    LocalRowsGrow(low, high, id, kids, AllWithin(low, kids, height - 1).value, AllWithin(high, kids, height - 1).value);
  }

  lemma {:induction false} AllGrow(low: Pricing, high: Pricing, ids: seq<string>, height: nat)
    requires low.g == high.g && low.evidence == high.evidence && LeavesGrow(low.leafDocs, high.leafDocs)
    requires AllWithin(low, ids, height).Some?
    ensures AllWithin(high, ids, height).Some?
    ensures forall i :: 0 <= i < |ids| ==> AllWithin(low, ids, height).value[i] <= AllWithin(high, ids, height).value[i]
    decreases height, 1 + |ids|
  {
    if ids != [] {
      RowsGrow(low, high, ids[0], height);
      AllGrow(low, high, ids[1..], height);
    }
  }

  lemma JoinRowsShrink(less: Pricing, more: Pricing, id: string, kids: seq<string>, upper: seq<nat>, lower: seq<nat>)
    requires less.g == more.g && EvidenceGrows(less.evidence, more.evidence)
    requires |upper| == |lower| == |kids| > 0 && forall i :: 0 <= i < |kids| ==> 1 <= lower[i] <= upper[i]
    ensures 1 <= JoinRows(more, id, kids, lower) <= JoinRows(less, id, kids, upper)
  {
    SumMonotone(lower, upper);
    ProductMonotone(lower, upper);
    PartAtMostSum(lower, 0);
    if |kids| == 2 {
      var before, after := CoveredSides(less.g, id, kids, less.evidence), CoveredSides(more.g, id, kids, more.evidence);
      CoverageGrows(less.g, id, kids, less.evidence, more.evidence);
      CoverageLowersUnlessEmpty(lower[0], lower[1], before, after);
      PairedRowsMonotone(lower[0], lower[1], upper[0], upper[1], before);
    }
  }

  lemma LocalRowsShrink(less: Pricing, more: Pricing, id: string, kids: seq<string>, upper: seq<nat>, lower: seq<nat>)
    requires less.g == more.g && less.leafDocs == more.leafDocs && NoEmptyLeaf(less.leafDocs)
    requires EvidenceGrows(less.evidence, more.evidence)
    requires id in less.g.byId && |upper| == |lower| == |kids| && forall i :: 0 <= i < |kids| ==> 1 <= lower[i] <= upper[i]
    requires LocalRows(less, id, less.g.byId[id], kids, upper).Some?
    ensures LocalRows(more, id, more.g.byId[id], kids, lower).Some?
    ensures 1 <= LocalRows(more, id, more.g.byId[id], kids, lower).value <= LocalRows(less, id, less.g.byId[id], kids, upper).value
  {
    if kids != [] {
      SumMonotone(lower, upper);
      PartAtMostSum(lower, 0);
      JoinRowsShrink(less, more, id, kids, upper, lower);
      var i :| 0 <= i < |lower| && lower[i] == Largest(lower);
      assert lower[i] <= upper[i] <= Largest(upper);
    }
  }

  lemma {:induction false} RowsShrink(less: Pricing, more: Pricing, id: string, height: nat)
    requires less.g == more.g && less.leafDocs == more.leafDocs && NoEmptyLeaf(less.leafDocs)
    requires EvidenceGrows(less.evidence, more.evidence) && RowsWithin(less, id, height).Some?
    ensures RowsWithin(more, id, height).Some?
    ensures 1 <= RowsWithin(more, id, height).value <= RowsWithin(less, id, height).value
    decreases height, 0
  {
    var kids := Children(less.g, id, less.g.byId[id]).value;
    AllShrink(less, more, kids, height - 1);
    LocalRowsShrink(less, more, id, kids, AllWithin(less, kids, height - 1).value, AllWithin(more, kids, height - 1).value);
  }

  lemma {:induction false} AllShrink(less: Pricing, more: Pricing, ids: seq<string>, height: nat)
    requires less.g == more.g && less.leafDocs == more.leafDocs && NoEmptyLeaf(less.leafDocs)
    requires EvidenceGrows(less.evidence, more.evidence) && AllWithin(less, ids, height).Some?
    ensures AllWithin(more, ids, height).Some?
    ensures forall i :: 0 <= i < |ids| ==> 1 <= AllWithin(more, ids, height).value[i] <= AllWithin(less, ids, height).value[i]
    decreases height, 1 + |ids|
  {
    if ids != [] {
      RowsShrink(less, more, ids[0], height);
      AllShrink(less, more, ids[1..], height);
    }
  }

  /** A call that answers still answers, and with the same nodes, when more tables are sized. */
  lemma {:induction false} AnsweredStays(g: Graph, less: set<string>, more: set<string>, id: string, depth: nat, done: set<string>, open: set<string>)
    requires depth <= MAX_DEPTH + 1 && less <= more && Answered(g, less, id, depth, done, open).Some?
    ensures Answered(g, more, id, depth, done, open) == Answered(g, less, id, depth, done, open)
    decreases MAX_DEPTH + 1 - depth, 1, 0
  {
    if id !in done {
      AllAnsweredStays(g, less, more, Children(g, id, g.byId[id]).value, depth, done, open + {id});
    }
  }

  lemma {:induction false} AllAnsweredStays(g: Graph, less: set<string>, more: set<string>, ids: seq<string>, depth: nat, done: set<string>,
                                            open: set<string>)
    requires depth <= MAX_DEPTH && less <= more && AllAnswered(g, less, ids, depth, done, open).Some?
    ensures AllAnswered(g, more, ids, depth, done, open) == AllAnswered(g, less, ids, depth, done, open)
    decreases MAX_DEPTH + 1 - depth, 0, |ids|
  {
    if ids != [] {
      AnsweredStays(g, less, more, ids[0], depth + 1, done, open);
      AllAnsweredStays(g, less, more, ids[1..], depth, Answered(g, less, ids[0], depth + 1, done, open).value, open);
    }
  }

  lemma {:induction false} OrderStays(g: Graph, less: set<string>, more: set<string>, ids: seq<string>, done: set<string>)
    requires less <= more && OrderAnswered(g, less, ids, done)
    ensures OrderAnswered(g, more, ids, done)
    decreases |ids|
  {
    if ids != [] {
      AnsweredStays(g, less, more, ids[0], 0, done, {});
      OrderStays(g, less, more, ids[1..], Answered(g, less, ids[0], 0, done, {}).value);
    }
  }

  /** Raising leaf bounds never takes the answer away and never lowers it. */
  lemma BoundGrowsWithLeaves(rels: seq<Rel>, low: map<string, Option<nat>>, high: map<string, Option<nat>>, evidence: Evidence,
                             lower: Option<nat>, higher: Option<nat>)
    requires LeavesGrow(low, high) && IsBound(rels, low, evidence, lower) && IsBound(rels, high, evidence, higher)
    ensures lower.Some? ==> higher.Some? && lower.value <= higher.value
  {
    if lower.Some? {
      var g :| Indexes(g, rels) && Answers(g, Sized(low));
      OrderStays(g, Sized(low), Sized(high), g.order, {});
      var h :| Indexes(h, rels) && IsWidest(Pricing(h, low, evidence), lower.value);
      var k :| Indexes(k, rels) && IsWidest(Pricing(k, high, evidence), higher.value);
      IndexesOnce(h, k, rels);
      var p, q := Pricing(k, low, evidence), Pricing(k, high, evidence);
      var id :| id in k.order && HasRows(p, id, lower.value);
      var height: nat :| RowsWithin(p, id, height) == Some(lower.value);
      RowsGrow(p, q, id, height);
      var m: nat :| HasRows(q, id, m) && m <= higher.value;
      RowsUnique(q, id, m, RowsWithin(q, id, height).value);
    }
  }

  /** More key evidence never takes the answer away and never gives one; with no empty leaf it never raises it. */
  lemma BoundShrinksWithEvidence(rels: seq<Rel>, leafDocs: map<string, Option<nat>>, less: Evidence, more: Evidence,
                                 looser: Option<nat>, tighter: Option<nat>)
    requires EvidenceGrows(less, more) && IsBound(rels, leafDocs, less, looser) && IsBound(rels, leafDocs, more, tighter)
    ensures looser.Some? <==> tighter.Some?
    ensures looser.Some? && NoEmptyLeaf(leafDocs) ==> tighter.value <= looser.value
  {
    if looser.Some? && NoEmptyLeaf(leafDocs) {
      var h :| Indexes(h, rels) && IsWidest(Pricing(h, leafDocs, less), looser.value);
      var k :| Indexes(k, rels) && IsWidest(Pricing(k, leafDocs, more), tighter.value);
      IndexesOnce(h, k, rels);
      var p, q := Pricing(k, leafDocs, less), Pricing(k, leafDocs, more);
      var id :| id in k.order && HasRows(q, id, tighter.value);
      var m: nat :| HasRows(p, id, m) && m <= looser.value;
      var height: nat :| RowsWithin(p, id, height) == Some(m);
      RowsShrink(p, q, id, height);
      RowsUnique(q, id, tighter.value, RowsWithin(q, id, height).value);
    }
  }

  /** The left table is empty and the right one has five rows. */
  function EmptyLeft(evidence: Evidence): Pricing { Priced(BareInput(0), Join(Inner), 0, 5, evidence) }

  lemma JoinedRows(evidence: Evidence, joined: nat)
    requires joined == PairedRows(0, 5, CoveredSides(EmptyLeft(evidence).g, "j", ["b", "d"], evidence)) && joined >= 5
    ensures IsWidest(EmptyLeft(evidence), joined)
  {
    SideRows(BareInput(0), Join(Inner), 0, 5, evidence);
    PairedRowCount(BareInput(0), Join(Inner), 0, 5, evidence);
    var p := EmptyLeft(evidence);
    forall id | id in p.g.order ensures exists m: nat :: HasRows(p, id, m) && m <= joined {
      assert id == "a" || id == "b" || id == "c" || id == "d" || id == "j";
    }
    assert "j" in p.g.order;
  }

  /** Over an empty leaf, proving a key doubles the number: monotonicity in evidence needs its condition. */
  lemma KeyOnEmptyLeafRaisesBound()
    ensures EvidenceGrows(NO_KEYS, LEFT_KEY) && !NoEmptyLeaf(EmptyLeft(NO_KEYS).leafDocs)
    ensures IsWidest(EmptyLeft(NO_KEYS), 5) && IsWidest(EmptyLeft(LEFT_KEY), 10)
  {
    Coverage(BareInput(0), Join(Inner));
    JoinedRows(NO_KEYS, 5);
    JoinedRows(LEFT_KEY, 10);
    LeafDocs(BareInput(0), Join(Inner), 0, 5, NO_KEYS);
    var leafDocs := EmptyLeft(NO_KEYS).leafDocs;
    assert "d.l" in leafDocs && leafDocs["d.l"].value < 1;
  }
}
