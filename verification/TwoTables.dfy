/** One small plan used to show what the bound does: two projected scans, paired on their only columns. */
module TwoTables {
  import opened Prelude
  import opened Rels
  import opened JoinKeys
  import opened PlanBound

  const LEFT_SCAN := Rel(Some("a"), TableScan, Listed([]), Some("d.l"), None, None, NoCondition)

  const LEFT_PROJECT := Rel(Some("b"), Project, Listed(["a"]), None, Some([Some("k")]), Some([BareInput(0)]), NoCondition)

  const RIGHT_SCAN := Rel(Some("c"), TableScan, Listed([]), Some("d.r"), None, None, NoCondition)

  /** The right column is a bare input or computed. */
  function RightProject(column: Expr): Rel {
    Rel(Some("d"), Project, Listed(["c"]), None, Some([Some("k")]), Some([column]), NoCondition)
  }

  function Pairing(op: Op): Rel { Rel(Some("j"), op, Listed(["b", "d"]), None, None, None, Equals([Input(0), Input(1)])) }

  function PairedTables(column: Expr, op: Op): Graph {
    Graph(map["a" := LEFT_SCAN, "b" := LEFT_PROJECT, "c" := RIGHT_SCAN, "d" := RightProject(column), "j" := Pairing(op)],
          map["a" := None, "b" := Some("a"), "c" := Some("b"), "d" := Some("c"), "j" := Some("d")],
          ["a", "b", "c", "d", "j"])
  }

  const NO_KEYS := Evidence(map[], map[])

  const LEFT_KEY := Evidence(map["d.l" := {{"k"}}], map["d.l" := map["k" := 0]])

  /** The left table holds at most `left` rows and the right one at most `right`. */
  function Priced(column: Expr, op: Op, left: nat, right: nat, evidence: Evidence): Pricing {
    Pricing(PairedTables(column, op), map["d.l" := Some(left), "d.r" := Some(right)], evidence)
  }

  lemma LeafDocs(column: Expr, op: Op, left: nat, right: nat, evidence: Evidence)
    ensures var leafDocs := Priced(column, op, left, right, evidence).leafDocs; leafDocs["d.l"] == Some(left) && leafDocs["d.r"] == Some(right)
  {
    assert "d.l"[2] != "d.r"[2];
  }

  lemma SideIs(column: Expr, op: Op, id: string, scan: string, table: string)
    requires (id == "b" && scan == "a" && table == "d.l") || (id == "d" && scan == "c" && table == "d.r")
    ensures SideFields(PairedTables(column, op), id, MAX_DEPTH) == Some(Side(1, [id], Some(table)))
  {
    var g := PairedTables(column, op);
    assert ChainDown(g, scan, 399) == Some(([], table));
    assert [id] + [] == [id] && [] + [id] == [id];
    assert ChainDown(g, id, 400) == Some(([id], table));
  }

  lemma ComposedIs(column: Expr, op: Op, id: string)
    requires (id == "b" || id == "d") && (column == BareInput(0) || column.Computed?)
    ensures Composed(PairedTables(column, op), [id], 0) == if id == "b" || column == BareInput(0) then Some(0) else None
  {
    var rel := PairedTables(column, op).byId[id];
    assert [id][1..] == [];
    assert rel.exprs == Some(if id == "b" then [BareInput(0)] else [column]);
    if rel.exprs.value[0] == BareInput(0) {
      assert ProjectReads(rel).value == [0];
    } else {
      assert ProjectReads(rel).None?;
    }
  }

  /** With the left key known the left side alone is covered, whatever the right column is. */
  lemma Coverage(column: Expr, op: Op)
    requires column == BareInput(0) || column.Computed?
    ensures CoveredSides(PairedTables(column, op), "j", ["b", "d"], NO_KEYS) == (false, false)
    ensures CoveredSides(PairedTables(column, op), "j", ["b", "d"], LEFT_KEY) == (true, false)
  {
    var g := PairedTables(column, op);
    SideIs(column, op, "b", "a", "d.l");
    SideIs(column, op, "d", "c", "d.r");
    ComposedIs(column, op, "b");
    ComposedIs(column, op, "d");
    assert OperandIndexes([Input(0), Input(1)]) == Some((0, 1));
    var pairs := JoinKeyPairs(g, "j", ["b", "d"]);
    assert pairs == [(Some(0), if column == BareInput(0) then Some(0) else None)];
    assert pairs[0].0.value in LeftOrdinals(pairs);
    assert "k" in NamedColumns(map["k" := 0], LeftOrdinals(pairs));
    assert {"k"} in LEFT_KEY.uniqueKeys["d.l"] && {"k"} <= NamedColumns(map["k" := 0], LeftOrdinals(pairs));
    assert "d.l"[2] != "d.r"[2];
  }

  lemma SideRows(column: Expr, op: Op, left: nat, right: nat, evidence: Evidence)
    ensures var p := Priced(column, op, left, right, evidence);
      HasRows(p, "a", left) && HasRows(p, "b", left) && HasRows(p, "c", right) && HasRows(p, "d", right)
  {
    var p := Priced(column, op, left, right, evidence);
    LeafDocs(column, op, left, right, evidence);
    HasRowsFromChildren(p, "a", [], [], left);
    HasRowsFromChildren(p, "b", ["a"], [left], left);
    HasRowsFromChildren(p, "c", [], [], right);
    HasRowsFromChildren(p, "d", ["c"], [right], right);
  }

  lemma PairedRowCount(column: Expr, op: Op, left: nat, right: nat, evidence: Evidence)
    requires IsJoin(op)
    ensures HasRows(Priced(column, op, left, right, evidence), "j",
                    PairedRows(left, right, CoveredSides(PairedTables(column, op), "j", ["b", "d"], evidence)))
  {
    var p := Priced(column, op, left, right, evidence);
    SideRows(column, op, left, right, evidence);
    HasRowsFromChildren(p, "j", ["b", "d"], [left, right], PairedRows(left, right, CoveredSides(p.g, "j", ["b", "d"], evidence)));
  }
}
