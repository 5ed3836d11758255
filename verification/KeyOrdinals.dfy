/** Learning each key column's scan ordinal from one EXPLAIN of those columns (adapters/pinot/keys.py, key_ordinals). */
module KeyOrdinals {
  import opened Prelude
  import opened Rels
  import opened JoinKeys
  import opened Execution
  import opened Provenance
  import KeyCoverage

  /** The side the learner reads: the last node of the list. */
  function Subject(g: Graph): Option<Side> {
    if g.order == [] then None else SideFields(g, g.order[|g.order| - 1], MAX_DEPTH)
  }

  /** A straight chain whose top project copies bare positions under non-empty names. */
  predicate Learnable(g: Graph) {
    && Subject(g).Some? && Subject(g).value.table.Some? && Subject(g).value.chain != []
    && Subject(g).value.chain[0] in g.byId
    && var top := g.byId[Subject(g).value.chain[0]];
    && top.op.Project? && ReadableFields(top) && ProjectReads(top).Some?
    && top.fields.value != []
    && forall i :: 0 <= i < |top.fields.value| ==> top.fields.value[i].value != ""
  }

  function Top(g: Graph): Rel
    requires Learnable(g)
  {
    g.byId[Subject(g).value.chain[0]]
  }

  /** Every name, lowercased, with the position the top project copies it from; a later duplicate wins. */
  function NamedPositions(names: seq<Option<string>>, positions: seq<nat>): map<string, nat>
    requires |names| == |positions| && forall i :: 0 <= i < |names| ==> names[i].Some?
  {
    if names == [] then map[]
    else
      var n := |names| - 1;
      NamedPositions(names[..n], positions[..n])[Lower(names[n].value) := positions[n]]
  }

  /** The field a column's ordinal was read from. */
  lemma {:induction false} PositionOf(names: seq<Option<string>>, positions: seq<nat>, column: string) returns (i: nat)
    requires |names| == |positions| && forall i :: 0 <= i < |names| ==> names[i].Some?
    requires column in NamedPositions(names, positions)
    ensures i < |names| && Lower(names[i].value) == column && NamedPositions(names, positions)[column] == positions[i]
  {
    var n := |names| - 1;
    if Lower(names[n].value) == column {
      i := n;
    } else {
      i := PositionOf(names[..n], positions[..n], column);
    }
  }

  method NameColumns(names: seq<Option<string>>, positions: seq<nat>) returns (ordinals: Option<map<string, nat>>)
    requires |names| == |positions| && forall i :: 0 <= i < |names| ==> names[i].Some?
    ensures ordinals.Some? <==> names != [] && forall i :: 0 <= i < |names| ==> names[i].value != ""
    ensures ordinals.Some? ==> ordinals.value == NamedPositions(names, positions)
  {
    var learned: map<string, nat> := map[];
    for i := 0 to |names|
      invariant forall k :: 0 <= k < i ==> names[k].value != ""
      invariant learned == NamedPositions(names[..i], positions[..i])
    {
      if names[i].value == "" {
        return None;
      }
      assert names[..i + 1][..i] == names[..i] && positions[..i + 1][..i] == positions[..i];
      learned := learned[Lower(names[i].value) := positions[i]];
    }
    assert names[..|names|] == names && positions[..|names|] == positions;
    ordinals := if names == [] then None else Some(learned);
  }

  method LearnOrdinals(g: Graph) returns (ordinals: Option<map<string, nat>>)
    ensures ordinals.Some? <==> Learnable(g)
    ensures ordinals.Some? ==> ordinals.value == NamedPositions(Top(g).fields.value, ProjectReads(Top(g)).value)
  {
    if g.order == [] {
      return None;
    }
    var side := WalkSide(g, g.order[|g.order| - 1]);
    if side.None? || side.value.table.None? || side.value.chain == [] || side.value.chain[0] !in g.byId {
      return None;
    }
    var top := g.byId[side.value.chain[0]];
    if !top.op.Project? || !ReadableFields(top) {
      return None;
    }
    var positions := ReadProject(top);
    if positions.None? {
      return None;
    }
    ordinals := NameColumns(top.fields.value, positions.value);
  }

  /** The last node's rows in a run of the EXPLAINed query, outside any loop. */
  function Emitted(g: Graph, run: Run): seq<Row>
    requires Learnable(g)
  {
    run.out([], g.order[|g.order| - 1])
  }

  /** A learned position is the stored column behind the field in every run of the EXPLAINed query. */
  ghost predicate TrueOrdinal(g: Graph, i: nat, ordinal: nat)
    requires Learnable(g)
  {
    forall db, run | IsRun(db, g, run) :: OrdinalHoldsIn(g, db, run, i, ordinal)
  }

  ghost predicate OrdinalHoldsIn(g: Graph, db: Database, run: Run, i: nat, ordinal: nat)
    requires Learnable(g)
  {
    && Subject(g).value.table.value in db.tables
    && exists picks :: FieldComesFrom(Emitted(g, run), db.tables[Subject(g).value.table.value], picks, i, ordinal)
  }

  ghost predicate FieldComesFrom(out: seq<Row>, stored: seq<Row>, picks: seq<nat>, i: nat, ordinal: nat) {
    && |picks| == |out| && Picks(picks, |stored|)
    && forall r :: 0 <= r < |out| ==> ColumnCopies(out[r], stored[picks[r]], i, ordinal)
  }

  /** The column a field is followed down to is the true one, whatever else the projects on the way compute. */
  lemma ColumnIsTrue(g: Graph, i: nat, ordinal: nat)
    requires Learnable(g) && ColumnOf(g, Subject(g).value.chain, i) == Some(ordinal)
    ensures TrueOrdinal(g, i, ordinal)
  {
    var side := Subject(g).value;
    forall db, run | IsRun(db, g, run) ensures OrdinalHoldsIn(g, db, run, i, ordinal) {
      var picks := SideProvenance(db, g, run, [], g.order[|g.order| - 1], MAX_DEPTH);
      var out, stored := Emitted(g, run), db.tables[side.table.value];
      forall r | 0 <= r < |out| ensures ColumnCopies(out[r], stored[picks[r]], i, ordinal) {
        assert ColumnCopies(out[r], stored[picks[r]], i, ColumnOf(g, side.chain, i).value);
      }
      assert FieldComesFrom(out, stored, picks, i, ordinal);
    }
  }

  /** The composed position, where there is one, is the true one. */
  lemma ComposedIsTrue(g: Graph, i: nat, ordinal: nat)
    requires Learnable(g) && Composed(g, Subject(g).value.chain, i) == Some(ordinal)
    ensures TrueOrdinal(g, i, ordinal)
  {
    ComposedIsColumn(g, Subject(g).value.chain, i);
    ColumnIsTrue(g, i, ordinal);
  }

  // ----- when the learned position is the true one -----

  /** A side that reaches a table starts its chain at the project that gives its width. */
  lemma {:induction false} ChainStartsAtTheWidth(g: Graph, id: string, fuel: nat)
    requires SideFields(g, id, fuel).Some? && SideFields(g, id, fuel).value.chain != []
    ensures var side := SideFields(g, id, fuel).value;
      side.chain[0] in g.byId && g.byId[side.chain[0]].fields.Some? && |g.byId[side.chain[0]].fields.value| == side.width
    decreases fuel
  {
    var rel := g.byId[id];
    if !rel.op.Project? {
      ChainStartsAtTheWidth(g, OnlyChild(g, id, rel).value, fuel - 1);
    }
  }

  /** No two stored columns share a value, so that a copy betrays its column. */
  ghost predicate TellsColumnsApart(stored: seq<Row>) {
    forall r, s, c, d :: 0 <= r < |stored| && 0 <= s < |stored| && 0 <= c < |stored[r]| && 0 <= d < |stored[s]| && c != d
      ==> stored[r][c] != stored[s][d]
  }

  ghost predicate IsStored(v: Value, stored: seq<Row>) {
    exists r, c :: 0 <= r < |stored| && 0 <= c < |stored[r]| && stored[r][c] == v
  }

  /** What a project computes, rather than copies, is stored nowhere. */
  ghost predicate ComputesFresh(rel: Rel, out: seq<Row>, stored: seq<Row>) {
    rel.op.Project? ==> forall r, c :: 0 <= r < |out| && 0 <= c < |out[r]| && !IsBare(rel, c) ==> !IsStored(out[r][c], stored)
  }

  /** A run over data that gives every column away. */
  ghost predicate Telling(g: Graph, db: Database, run: Run)
    requires Learnable(g)
  {
    && IsRun(db, g, run) && Emitted(g, run) != []
    && Subject(g).value.table.value in db.tables
    && TellsColumnsApart(db.tables[Subject(g).value.table.value])
    && forall id :: id in g.byId ==> ComputesFresh(g.byId[id], run.out([], id), db.tables[Subject(g).value.table.value])
  }

  /** Where no column is followed down to the scan, the field holds nothing stored. */
  lemma {:induction false} ComputedIsFresh(db: Database, g: Graph, run: Run, id: string, fuel: nat, stored: seq<Row>, r: nat, k: nat)
    requires IsRun(db, g, run) && ChainDown(g, id, fuel).Some? && r < |run.out([], id)| && k < |run.out([], id)[r]|
    requires forall node :: node in g.byId ==> ComputesFresh(g.byId[node], run.out([], node), stored)
    requires ColumnOf(g, ChainDown(g, id, fuel).value.0, k).None?
    ensures !IsStored(run.out([], id)[r][k], stored)
    decreases fuel
  {
    assert Emits(db, g, run, [], id);
    var rel := g.byId[id];
    if !rel.op.TableScan? {
      var kids := Children(g, id, rel).value;
      var chain, below := ChainDown(g, id, fuel).value.0, ChainDown(g, kids[0], fuel - 1).value.0;
      assert chain == [id] + below && chain[1..] == below;
      assert ComputesFresh(rel, run.out([], id), stored);
      if rel.op.Project? && IsBare(rel, k) {
        assert ProjectsAt(rel.exprs.value[k], run.out([], kids[0])[r], run.out([], id)[r], k);
        ComputedIsFresh(db, g, run, kids[0], fuel - 1, stored, r, rel.exprs.value[k].index);
      } else if !rel.op.Project? {
        var picks :| TracedBy(run.out([], id), run.out([], kids[0]), picks);
        ComputedIsFresh(db, g, run, kids[0], fuel - 1, stored, picks[r], k);
      }
    }
  }

  lemma {:induction false} FieldIsFresh(db: Database, g: Graph, run: Run, id: string, fuel: nat, stored: seq<Row>, r: nat, k: nat)
    requires IsRun(db, g, run) && SideFields(g, id, fuel).Some? && SideFields(g, id, fuel).value.table.Some?
    requires r < |run.out([], id)| && k < |run.out([], id)[r]|
    requires forall node :: node in g.byId ==> ComputesFresh(g.byId[node], run.out([], node), stored)
    requires ColumnOf(g, SideFields(g, id, fuel).value.chain, k).None?
    ensures !IsStored(run.out([], id)[r][k], stored)
    decreases fuel
  {
    assert Emits(db, g, run, [], id);
    var rel := g.byId[id];
    if rel.op.Project? {
      assert [] + ChainDown(g, id, fuel).value.0 == ChainDown(g, id, fuel).value.0;
      ComputedIsFresh(db, g, run, id, fuel, stored, r, k);
    } else {
      var kids := Children(g, id, rel).value;
      var picks :| TracedBy(run.out([], id), run.out([], kids[0]), picks);
      FieldIsFresh(db, g, run, kids[0], fuel - 1, stored, picks[r], k);
    }
  }

  lemma FreshComesFromNowhere(out: seq<Row>, stored: seq<Row>, picks: seq<nat>, i: nat, ordinal: nat)
    requires out != [] && i < |out[0]| && !IsStored(out[0][i], stored)
    ensures !FieldComesFrom(out, stored, picks, i, ordinal)
  {
    if |picks| == |out| && Picks(picks, |stored|) {
      assert ordinal < |stored[picks[0]]| ==> IsStored(stored[picks[0]][ordinal], stored);
      assert !ColumnCopies(out[0], stored[picks[0]], i, ordinal);
    }
  }

  /** The learner reads the top project only. In every run that gives its columns away, the position it reads
    * is the stored column exactly when the projects below copy that column and leave it where it is. */
  lemma LearnedHoldsIff(g: Graph, db: Database, run: Run, i: nat)
    requires Learnable(g) && i < |Top(g).fields.value| && Telling(g, db, run)
    ensures var position := ProjectReads(Top(g)).value[i];
      OrdinalHoldsIn(g, db, run, i, position) <==> ColumnOf(g, Subject(g).value.chain[1..], position) == Some(position)
  {
    var side, position, last := Subject(g).value, ProjectReads(Top(g)).value[i], g.order[|g.order| - 1];
    var out, stored := Emitted(g, run), db.tables[side.table.value];
    var picks := SideProvenance(db, g, run, [], last, MAX_DEPTH);
    ChainStartsAtTheWidth(g, last, MAX_DEPTH);
    assert i < |out[0]|;
    assert ColumnOf(g, side.chain, i) == ColumnOf(g, side.chain[1..], position);
    var column := ColumnOf(g, side.chain, i);
    if column.Some? {
      ColumnIsTrue(g, i, column.value);
      assert ColumnCopies(out[0], stored[picks[0]], i, column.value);
      if OrdinalHoldsIn(g, db, run, i, position) {
        var others :| FieldComesFrom(out, stored, others, i, position);
        assert ColumnCopies(out[0], stored[others[0]], i, position);
        assert stored[picks[0]][column.value] == stored[others[0]][position];
      }
    } else {
      FieldIsFresh(db, g, run, last, MAX_DEPTH, stored, 0, i);
      forall others: seq<nat> ensures !FieldComesFrom(out, stored, others, i, position) {
        FreshComesFromNowhere(out, stored, others, i, position);
      }
    }
  }

  /** So wherever some run gives the columns away, the learned position is true of every run exactly then. */
  lemma LearnedIsTrueIff(g: Graph, i: nat)
    requires Learnable(g) && i < |Top(g).fields.value| && exists db, run :: Telling(g, db, run)
    ensures var position := ProjectReads(Top(g)).value[i];
      TrueOrdinal(g, i, position) <==> ColumnOf(g, Subject(g).value.chain[1..], position) == Some(position)
  {
    var position, chain := ProjectReads(Top(g)).value[i], Subject(g).value.chain;
    var db, run :| Telling(g, db, run);
    LearnedHoldsIff(g, db, run, i);
    assert ColumnOf(g, chain, i) == ColumnOf(g, chain[1..], position);
    if ColumnOf(g, chain[1..], position) == Some(position) {
      ColumnIsTrue(g, i, position);
    }
  }

  lemma {:induction false} NoProjectKeepsIndex(g: Graph, chain: seq<string>, index: nat)
    requires forall k :: 0 <= k < |chain| ==> chain[k] in g.byId && !g.byId[chain[k]].op.Project?
    ensures ColumnOf(g, chain, index) == Some(index)
  {
    if chain != [] {
      forall k | 0 <= k < |chain[1..]| ensures chain[1..][k] in g.byId && !g.byId[chain[1..][k]].op.Project? {
        assert chain[1..][k] == chain[k + 1];
      }
      NoProjectKeepsIndex(g, chain[1..], index);
    }
  }

  /** Below the top project, nothing on the chain is a project: the shape the EXPLAIN is meant to have. */
  ghost predicate SingleProject(g: Graph)
    requires Learnable(g)
  {
    forall k :: 1 <= k < |Subject(g).value.chain| ==>
      Subject(g).value.chain[k] in g.byId && !g.byId[Subject(g).value.chain[k]].op.Project?
  }

  /** The projects below the top one leave every position the top one reads where it is. */
  ghost predicate PositionsStay(g: Graph)
    requires Learnable(g)
  {
    forall i :: 0 <= i < |Top(g).fields.value| ==> PositionStays(g, i)
  }

  ghost predicate PositionStays(g: Graph, i: nat)
    requires Learnable(g) && i < |Top(g).fields.value|
  {
    var position := ProjectReads(Top(g)).value[i];
    ColumnOf(g, Subject(g).value.chain[1..], position) == Some(position)
  }

  /** As they do when there are none. */
  lemma SingleProjectStays(g: Graph)
    requires Learnable(g) && SingleProject(g)
    ensures PositionsStay(g)
  {
    var chain := Subject(g).value.chain;
    forall k | 0 <= k < |chain[1..]| ensures chain[1..][k] in g.byId && !g.byId[chain[1..][k]].op.Project? {
      assert chain[1..][k] == chain[k + 1];
    }
    forall i | 0 <= i < |Top(g).fields.value| ensures PositionStays(g, i) {
      NoProjectKeepsIndex(g, chain[1..], ProjectReads(Top(g)).value[i]);
    }
  }

  /** Every learned column names a field that holds the stored column at its ordinal in every run. */
  lemma LearnedOrdinalsAreTrue(g: Graph, column: string) returns (i: nat)
    requires Learnable(g) && PositionsStay(g) && column in NamedPositions(Top(g).fields.value, ProjectReads(Top(g)).value)
    ensures i < |Top(g).fields.value| && Lower(Top(g).fields.value[i].value) == column
    ensures ColumnOf(g, Subject(g).value.chain, i) == Some(NamedPositions(Top(g).fields.value, ProjectReads(Top(g)).value)[column])
    ensures TrueOrdinal(g, i, NamedPositions(Top(g).fields.value, ProjectReads(Top(g)).value)[column])
  {
    i := PositionOf(Top(g).fields.value, ProjectReads(Top(g)).value, column);
    var position := ProjectReads(Top(g)).value[i];
    assert PositionStays(g, i);
    assert ColumnOf(g, Subject(g).value.chain, i) == ColumnOf(g, Subject(g).value.chain[1..], position);
    ColumnIsTrue(g, i, position);
  }

  // ----- two projects, one above the other -----

  function Named(n: nat): seq<Option<string>> { seq(n, _ => Some("a")) }

  const SCAN := Rel(Some("s"), TableScan, Listed([]), Some("d.t"), None, None, NoCondition)

  const UPPER := Rel(Some("q"), Project, Listed(["p"]), None, Some([Some("k")]), Some([BareInput(0)]), NoCondition)

  function LowerProject(exprs: seq<Expr>): Rel {
    Rel(Some("p"), Project, Listed(["s"]), None, Some(Named(|exprs|)), Some(exprs), NoCondition)
  }

  /** A scan under any project, under a project that reads the lower one's first column. */
  function Stacked(exprs: seq<Expr>): Graph {
    Graph(map["s" := SCAN, "p" := LowerProject(exprs), "q" := UPPER], map["s" := None, "p" := Some("s"), "q" := Some("p")], ["s", "p", "q"])
  }

  lemma StackedIsLearnable(exprs: seq<Expr>)
    ensures Subject(Stacked(exprs)) == Some(Side(1, ["q", "p"], Some("d.t")))
    ensures Learnable(Stacked(exprs)) && ProjectReads(Top(Stacked(exprs))) == Some([0]) && |Top(Stacked(exprs)).fields.value| == 1
  {
    var g := Stacked(exprs);
    assert ["p"] + [] == ["p"] && ["q"] + ["p"] == ["q", "p"] && [] + ["q", "p"] == ["q", "p"];
    assert g.byId["s"] == SCAN && g.byId["p"] == LowerProject(exprs) && g.byId["q"] == UPPER;
    assert OnlyChild(g, "p", g.byId["p"]) == Some("s") && OnlyChild(g, "q", g.byId["q"]) == Some("p");
    assert ChainDown(g, "s", 398) == Some(([], "d.t"));
    assert ChainDown(g, "p", 399) == Some((["p"], "d.t"));
    assert ChainDown(g, "q", 400) == Some((["q", "p"], "d.t"));
    assert UPPER.exprs.value[0] == BareInput(0) && UPPER.fields.value[0] == Some("k");
    assert ProjectReads(UPPER).value == [0];
  }

  lemma StackedColumn(exprs: seq<Expr>, chain: seq<string>)
    requires exprs != [] && chain == ["p"]
    ensures ColumnOf(Stacked(exprs), chain, 0) == Some(0) <==> exprs[0] == BareInput(0)
  {
    var g := Stacked(exprs);
    assert chain[1..] == [] && g.byId["p"] == LowerProject(exprs);
    if IsBare(LowerProject(exprs), 0) {
      assert exprs[0] == BareInput(exprs[0].index);
      assert ColumnOf(g, chain[1..], exprs[0].index) == Some(exprs[0].index);
    }
  }

  /** One more than the largest input position read. */
  function InputWidth(exprs: seq<Expr>): nat {
    if exprs == [] then 0
    else Max(InputWidth(exprs[1..]), if exprs[0].BareInput? then exprs[0].index + 1 else 0)
  }

  lemma {:induction false} InputWidthBounds(exprs: seq<Expr>, c: nat)
    requires c < |exprs| && exprs[c].BareInput?
    ensures exprs[c].index < InputWidth(exprs)
  {
    if c > 0 {
      InputWidthBounds(exprs[1..], c - 1);
    }
  }

  /** Stored columns hold 0, 1, 2, ...; what is computed is -1. */
  function StoredCells(n: nat): Row { seq(n, c => Datum(c)) }

  function LowerCells(exprs: seq<Expr>): Row {
    seq(|exprs|, c requires 0 <= c < |exprs| => if exprs[c].BareInput? && exprs[c].index >= 0 then Datum(exprs[c].index) else Datum(-1))
  }

  function StackedDatabase(exprs: seq<Expr>): Database {
    Database(map["d.t" := [StoredCells(InputWidth(exprs))]], _ => Engine(false, (_, _) => false))
  }

  function StackedRun(exprs: seq<Expr>): Run
    requires exprs != []
  {
    Run((_, id) => if id == "s" then [StoredCells(InputWidth(exprs))] else if id == "p" then [LowerCells(exprs)] else [[LowerCells(exprs)[0]]],
        id => if id == "s" then InputWidth(exprs) else if id == "p" then |exprs| else 1)
  }

  lemma StackedIsRun(exprs: seq<Expr>)
    requires exprs != []
    ensures IsRun(StackedDatabase(exprs), Stacked(exprs), StackedRun(exprs))
  {
    var db, g, run := StackedDatabase(exprs), Stacked(exprs), StackedRun(exprs);
    var stored, lower := StoredCells(InputWidth(exprs)), LowerCells(exprs);
    forall c | 0 <= c < |exprs| ensures ProjectsAt(exprs[c], stored, lower, c) {
      if exprs[c].BareInput? {
        InputWidthBounds(exprs, c);
      }
    }
    assert Projects(LowerProject(exprs), [stored], [lower], |exprs|);
    assert Projects(UPPER, [lower], [[lower[0]]], 1);
    assert TracedBy([stored], [stored], [0]);
    forall env, id | id in g.byId ensures Emits(db, g, run, env, id) {
      assert id == "s" || id == "p" || id == "q";
    }
  }

  lemma StackedTells(exprs: seq<Expr>)
    requires exprs != []
    ensures Learnable(Stacked(exprs)) && Telling(Stacked(exprs), StackedDatabase(exprs), StackedRun(exprs))
  {
    var g, run, stored := Stacked(exprs), StackedRun(exprs), [StoredCells(InputWidth(exprs))];
    StackedIsLearnable(exprs);
    StackedIsRun(exprs);
    assert !IsStored(Datum(-1), stored);
    assert ComputesFresh(LowerProject(exprs), [LowerCells(exprs)], stored);
    assert ComputesFresh(UPPER, [[LowerCells(exprs)[0]]], stored);
    forall id | id in g.byId ensures ComputesFresh(g.byId[id], run.out([], id), stored) {
      assert id == "s" || id == "p" || id == "q";
    }
  }

  /** Over two stacked projects the learner always answers, and is right exactly when the lower project copies
    * its first input to its first column, whatever else it computes. Reading stored column 1, or computing
    * the column, both mislead it. */
  lemma StackedProjectsMisleadIff(exprs: seq<Expr>)
    requires exprs != []
    ensures Learnable(Stacked(exprs)) && ProjectReads(Top(Stacked(exprs))) == Some([0])
    ensures TrueOrdinal(Stacked(exprs), 0, 0) <==> exprs[0] == BareInput(0)
  {
    StackedIsLearnable(exprs);
    StackedTells(exprs);
    StackedColumn(exprs, ["q", "p"][1..]);
    LearnedIsTrueIff(Stacked(exprs), 0);
  }

  // ----- exactly what is learned -----

  /** The last node leads down to one scan, and the first project on the way copies an input into each of its
    * fields, all of them named. */
  ghost predicate Teaches(g: Graph, path: seq<string>, table: string, k: nat) {
    && g.order != [] && |path| <= 400 && KeyCoverage.EndsAtScan(g, g.order[|g.order| - 1], path, table) && KeyCoverage.FirstProject(g, path, k)
    && var top := g.byId[path[k]];
    && KeyCoverage.WhollyBare(top) && top.fields.value != []
    && forall i :: 0 <= i < |top.fields.value| ==> top.fields.value[i].Some? && top.fields.value[i] != Some("")
  }

  lemma TeachesIsLearnable(g: Graph, path: seq<string>, table: string, k: nat)
    requires Teaches(g, path, table, k)
    ensures Learnable(g) && Top(g) == g.byId[path[k]]
  {
    var last := g.order[|g.order| - 1];
    KeyCoverage.WidthAtFirst(g, last, 400, path, table, k);
    KeyCoverage.SideOfPath(g, last, 400, path, table);
    KeyCoverage.ChainStarts(g, last, 400, path, table, k);
    BareIsRead(g.byId[path[k]]);
  }

  lemma BareIsRead(rel: Rel)
    ensures KeyCoverage.WhollyBare(rel) <==> ProjectReads(rel).Some?
    ensures ProjectReads(rel).Some? ==> |ProjectReads(rel).value| == |rel.fields.value|
    ensures ProjectReads(rel).Some? ==>
      forall i :: 0 <= i < |rel.fields.value| ==> rel.exprs.value[i] == BareInput(ProjectReads(rel).value[i])
  {
  }

  /** Ordinals are learned exactly from a list that teaches them. */
  lemma LearnableIff(g: Graph)
    ensures Learnable(g) <==> exists path, table, k :: Teaches(g, path, table, k)
  {
    if path, table, k: nat :| Teaches(g, path, table, k) {
      TeachesIsLearnable(g, path, table, k);
    }
    if Learnable(g) {
      var last, table := g.order[|g.order| - 1], Subject(g).value.table.value;
      var path := KeyCoverage.SideFrom(g, last, 400);
      var k := KeyCoverage.FirstProjectOf(g, last, 400, path, table);
      KeyCoverage.ChainStarts(g, last, 400, path, table, k);
      BareIsRead(g.byId[path[k]]);
      assert Teaches(g, path, table, k);
    }
  }

  /** Place i is the last of this name, and this is what stands there. */
  ghost predicate LastNamed(names: seq<Option<string>>, positions: seq<nat>, column: string, ordinal: nat, i: nat) {
    && |names| == |positions| && i < |names| && names[i].Some? && Lower(names[i].value) == column && positions[i] == ordinal
    && forall j :: i < j < |names| ==> names[j].Some? && Lower(names[j].value) != column
  }

  lemma {:induction false} LastOfName(names: seq<Option<string>>, positions: seq<nat>, column: string, ordinal: nat)
    requires |names| == |positions| && forall i :: 0 <= i < |names| ==> names[i].Some?
    ensures column in NamedPositions(names, positions) && NamedPositions(names, positions)[column] == ordinal <==>
      exists i: nat :: LastNamed(names, positions, column, ordinal, i)
    decreases |names|
  {
    if names != [] {
      var n := |names| - 1;
      LastOfName(names[..n], positions[..n], column, ordinal);
      if Lower(names[n].value) != column {
        if i: nat :| LastNamed(names, positions, column, ordinal, i) {
          assert LastNamed(names[..n], positions[..n], column, ordinal, i);
        }
        if i: nat :| LastNamed(names[..n], positions[..n], column, ordinal, i) {
          assert forall j :: i < j < n ==> names[..n][j] == names[j];
          assert LastNamed(names, positions, column, ordinal, i);
        }
      } else {
        if positions[n] == ordinal {
          assert LastNamed(names, positions, column, ordinal, n);
        }
        forall i: nat | LastNamed(names, positions, column, ordinal, i) ensures i == n {
        }
      }
    }
  }

  /** And what is learned of a name is the input its last field copies. */
  lemma LearnedIs(g: Graph, path: seq<string>, table: string, k: nat, column: string, ordinal: nat)
    requires Teaches(g, path, table, k)
    ensures Learnable(g)
    ensures var learned := NamedPositions(Top(g).fields.value, ProjectReads(Top(g)).value);
      column in learned && learned[column] == ordinal <==> exists i: nat :: Copies(g.byId[path[k]], column, ordinal, i)
  {
    TeachesIsLearnable(g, path, table, k);
    var top, positions := Top(g), ProjectReads(Top(g)).value;
    BareIsRead(top);
    LastOfName(top.fields.value, positions, column, ordinal);
    forall i: nat ensures LastNamed(top.fields.value, positions, column, ordinal, i) <==> Copies(top, column, ordinal, i) {
      assert i < |positions| ==> (positions[i] == ordinal <==> top.exprs.value[i] == BareInput(ordinal));
    }
  }

  /** Field i is the project's last of this name, and copies this input. */
  ghost predicate Copies(top: Rel, column: string, ordinal: nat, i: nat) {
    && top.fields.Some? && top.exprs.Some? && i < |top.fields.value| && i < |top.exprs.value|
    && top.fields.value[i].Some? && Lower(top.fields.value[i].value) == column && top.exprs.value[i] == BareInput(ordinal)
    && forall j :: i < j < |top.fields.value| ==> top.fields.value[j].Some? && Lower(top.fields.value[j].value) != column
  }
}
