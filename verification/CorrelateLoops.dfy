/** Where the plan bound stops short of a nested loop: a correlate with a unique left side, whose right side
  * recomputes the equated column for every left row. */
module CorrelateLoops {
  import opened Prelude
  import opened Rels
  import opened JoinKeys
  import opened PlanBound
  import opened Execution
  import opened PlanSoundness
  import opened TwoTables

  const COMPUTED := Computed(0)

  const LOOP := Pairing(Correlate(Inner))

  /** A projected scan, looped over a project that computes its only column. */
  const LOOPED := PairedTables(COMPUTED, Correlate(Inner))

  /** The left table holds at most `left` rows and the right one at most `right`. */
  function Looped(left: nat, right: nat): Pricing { Priced(COMPUTED, Correlate(Inner), left, right, LEFT_KEY) }

  lemma LoopedDocs(left: nat, right: nat)
    ensures Looped(left, right).leafDocs["d.l"] == Some(left) && Looped(left, right).leafDocs["d.r"] == Some(right)
  {
    LeafDocs(COMPUTED, Correlate(Inner), left, right, LEFT_KEY);
  }

  lemma LoopedRowCount(left: nat, right: nat)
    ensures HasRows(Looped(left, right), "b", left) && HasRows(Looped(left, right), "d", right)
    ensures HasRows(Looped(left, right), "j", left + 2 * right)
  {
    Coverage(COMPUTED, Correlate(Inner));
    SideRows(COMPUTED, Correlate(Inner), left, right, LEFT_KEY);
    PairedRowCount(COMPUTED, Correlate(Inner), left, right, LEFT_KEY);
  }

  lemma LoopedFitsIff(left: nat, right: nat)
    ensures LoopFits(Looped(left, right), "j", ["b", "d"], [left, right]) <==> left * right <= left + 2 * right
  {
    Coverage(COMPUTED, Correlate(Inner));
    assert [left, right][0] == left && [left, right][1] == right;
    if right > 0 {
      assert Max(1, right) == right;
    }
  }

  lemma OneCorrelate(left: nat, right: nat)
    ensures "j" in LOOPED.byId && Children(LOOPED, "j", LOOPED.byId["j"]) == Some(["b", "d"])
    ensures LoopsAreCharged(Looped(left, right)) <==> LoopIsCharged(Looped(left, right), "j")
  {
    forall id | id in LOOPED.byId && LOOPED.byId[id].op.Correlate? ensures id == "j" {
    }
    assert LOOPED.byId["j"] == LOOP && LOOP.op.Correlate?;
  }

  /** The loop is charged for its own sizes exactly when the product fits the charge. */
  lemma LoopedIsChargedIff(left: nat, right: nat)
    ensures LoopsAreCharged(Looped(left, right)) <==> left * right <= left + 2 * right
  {
    LoopedRowCount(left, right);
    OneCorrelate(left, right);
    LoopIsChargedAt(Looped(left, right), "j", ["b", "d"], left, right);
    LoopedFitsIff(left, right);
  }

  // ----- a run that emits the whole product -----

  function Counting(n: nat): seq<Row> { seq(n, i => [Datum(i)]) }

  function Copies(row: Row, n: nat): seq<Row> { seq(n, _ => row) }

  /** Every left row beside as many copies of itself. */
  function Doubled(left: seq<Row>, n: nat): seq<Row> {
    if left == [] then [] else Copies(left[0] + left[0], n) + Doubled(left[1..], n)
  }

  /** Inside the loop the right side emits the row being looped over; outside, nulls. */
  function RightRows(env: Env, n: nat): seq<Row> {
    Copies(if env != [] && |env[|env| - 1]| == 1 then env[|env| - 1] else [Null], n)
  }

  const ENGINE := Engine(false, (_, _) => false)

  function LoopedDatabase(left: nat, right: nat): Database {
    Database(map["d.l" := Counting(left), "d.r" := Counting(right)], _ => ENGINE)
  }

  function LoopedRun(left: nat, right: nat): Run {
    Run((env: Env, id: string) =>
          if id == "a" || id == "b" then Counting(left)
          else if id == "c" then Counting(right)
          else if id == "d" then RightRows(env, right)
          else Doubled(Counting(left), right),
        id => if id == "j" then 2 else 1)
  }

  lemma {:induction false} DoubledRows(left: seq<Row>, n: nat)
    requires forall i :: 0 <= i < |left| ==> |left[i]| == 1
    ensures |Doubled(left, n)| == |left| * n
    ensures forall i :: 0 <= i < |Doubled(left, n)| ==> |Doubled(left, n)[i]| == 2
  {
    if left != [] {
      DoubledRows(left[1..], n);
      MulStep(|left|, n);
    }
  }

  lemma {:induction false} CopiesAllMatch(rel: Rel, row: Row, n: nat)
    requires rel.condition == Equals([Input(0), Input(1)]) && |row| == 1 && row[0].Datum?
    ensures Matching(ENGINE, rel, row, Copies(row, n)) == Copies(row + row, n)
    decreases n
  {
    if n > 0 {
      assert Copies(row, n)[1..] == Copies(row, n - 1);
      CopiesAllMatch(rel, row, n - 1);
      assert OperandIndexes([Input(0), Input(1)]) == Some((0, 1));
      assert Match(ENGINE, rel, row, row);
      assert Copies(row + row, n) == [row + row] + Copies(row + row, n - 1);
    }
  }

  lemma {:induction false} LoopIsDoubled(rel: Rel, left: seq<Row>, right: Row -> seq<Row>, n: nat, lw: nat, rw: nat)
    requires rel.op == Correlate(Inner) && rel.condition == Equals([Input(0), Input(1)])
    requires forall i :: 0 <= i < |left| ==> |left[i]| == 1 && left[i][0].Datum? && right(left[i]) == Copies(left[i], n)
    ensures LoopOutput(ENGINE, rel, left, right, lw, rw) == Doubled(left, n)
  {
    if left != [] {
      var l := left[0];
      CopiesAllMatch(rel, l, n);
      assert [l][1..] == [];
      assert Pairs(ENGINE, rel, [l], right(l)) == Matching(ENGINE, rel, l, right(l));
      forall i | 0 <= i < |left[1..]|
        ensures |left[1..][i]| == 1 && left[1..][i][0].Datum? && right(left[1..][i]) == Copies(left[1..][i], n)
      {
        assert left[1..][i] == left[1 + i];
      }
      LoopIsDoubled(rel, left[1..], right, n, lw, rw);
    }
  }

  lemma CountingIsItself(n: nat)
    ensures SubBag(Counting(n), Counting(n))
  {
    assert TracedBy(Counting(n), Counting(n), seq(n, i => i));
  }

  lemma ScansEmit(left: nat, right: nat, env: Env)
    ensures Emits(LoopedDatabase(left, right), LOOPED, LoopedRun(left, right), env, "a")
    ensures Emits(LoopedDatabase(left, right), LOOPED, LoopedRun(left, right), env, "c")
  {
    CountingIsItself(left);
    CountingIsItself(right);
  }

  lemma ProjectsEmit(left: nat, right: nat, env: Env)
    ensures Emits(LoopedDatabase(left, right), LOOPED, LoopedRun(left, right), env, "b")
    ensures Emits(LoopedDatabase(left, right), LOOPED, LoopedRun(left, right), env, "d")
  {
    assert LEFT_PROJECT.exprs.value[0] == BareInput(0) && RightProject(COMPUTED).exprs.value[0] == Computed(0);
    assert Projects(LEFT_PROJECT, Counting(left), Counting(left), 1);
    assert Projects(RightProject(COMPUTED), Counting(right), RightRows(env, right), 1);
  }

  lemma LoopJoins(left: nat, right: nat, env: Env)
    ensures Joined(LoopedDatabase(left, right), LOOP, LoopedRun(left, right), env, "b", "d") == Doubled(Counting(left), right)
  {
    var run := LoopedRun(left, right);
    var inner: Row -> seq<Row> := l => run.out(env + [l], "d");
    assert "d"[0] != "a"[0] && "d"[0] != "b"[0] && "d"[0] != "c"[0];
    forall i | 0 <= i < left ensures inner(Counting(left)[i]) == Copies(Counting(left)[i], right) {
      var l := Counting(left)[i];
      assert run.out(env + [l], "d") == RightRows(env + [l], right);
      assert (env + [l])[|env + [l]| - 1] == l;
    }
    LoopIsDoubled(LOOP, Counting(left), inner, right, 1, 1);
  }

  lemma LoopEmits(left: nat, right: nat, env: Env)
    ensures Emits(LoopedDatabase(left, right), LOOPED, LoopedRun(left, right), env, "j")
  {
    LoopJoins(left, right, env);
    DoubledRows(Counting(left), right);
  }

  lemma LoopedRespects(left: nat, right: nat)
    ensures Respects(LoopedDatabase(left, right), LEFT_KEY)
  {
    var ordinals := map["k" := 0];
    forall i, j | 0 <= i < j < left ensures DifferOn(Counting(left)[i], Counting(left)[j], ordinals, {"k"}) {
      assert "k" in ordinals && Counting(left)[i][0] != Counting(left)[j][0];
    }
    assert UniqueOn(Counting(left), ordinals, {"k"});
  }

  lemma LoopedIsRun(left: nat, right: nat)
    ensures IsRun(LoopedDatabase(left, right), LOOPED, LoopedRun(left, right))
  {
    var db, run := LoopedDatabase(left, right), LoopedRun(left, right);
    forall env, id | id in LOOPED.byId ensures Emits(db, LOOPED, run, env, id) {
      ScansEmit(left, right, env);
      ProjectsEmit(left, right, env);
      LoopEmits(left, right, env);
    }
  }

  lemma LoopedScansWithin(left: nat, right: nat)
    ensures ScansWithin(LOOPED, LoopedRun(left, right), Looped(left, right).leafDocs)
  {
    var run, leafDocs := LoopedRun(left, right), Looped(left, right).leafDocs;
    LoopedDocs(left, right);
    forall env, id | id in LOOPED.byId && Children(LOOPED, id, LOOPED.byId[id]) == Some([])
      ensures ScanWithin(LOOPED.byId[id], run, env, id, leafDocs)
    {
      assert id == "a" || id == "c";
      if id == "a" {
        assert run.out(env, "a") == Counting(left);
      } else {
        assert run.out(env, "c") == Counting(right);
      }
    }
  }

  /** Every size of the loop is attained. */
  lemma LoopAttains(left: nat, right: nat) returns (db: Database, run: Run)
    ensures IsRun(db, LOOPED, run) && Respects(db, LEFT_KEY) && ScansWithin(LOOPED, run, Looped(left, right).leafDocs)
    ensures |run.out([], "j")| == left * right
  {
    db, run := LoopedDatabase(left, right), LoopedRun(left, right);
    LoopedIsRun(left, right);
    LoopedScansWithin(left, right);
    LoopedRespects(left, right);
    DoubledRows(Counting(left), right);
  }

  lemma SidesAreWithin(left: nat, right: nat, db: Database, run: Run, env: Env)
    requires IsRun(db, LOOPED, run) && ScansWithin(LOOPED, run, Looped(left, right).leafDocs)
    ensures |run.out(env, "b")| <= left && |run.out(env, "d")| <= right
  {
    LoopedDocs(left, right);
    assert Emits(db, LOOPED, run, env, "b") && Emits(db, LOOPED, run, env, "d");
    assert ScanWithin(LOOPED.byId["a"], run, env, "a", Looped(left, right).leafDocs);
    assert ScanWithin(LOOPED.byId["c"], run, env, "c", Looped(left, right).leafDocs);
  }

  /** And none is exceeded. */
  lemma LoopIsWithin(left: nat, right: nat, db: Database, run: Run)
    requires IsRun(db, LOOPED, run) && Respects(db, LEFT_KEY) && ScansWithin(LOOPED, run, Looped(left, right).leafDocs)
    ensures |run.out([], "j")| <= left * Max(1, right)
  {
    forall env ensures |run.out(env, "b")| <= left && |run.out(env, "d")| <= right {
      SidesAreWithin(left, right, db, run, env);
    }
    Coverage(COMPUTED, Correlate(Inner));
    assert Emits(db, LOOPED, run, [], "j");
    assert |multiset(run.out([], "j"))| == |run.out([], "j")|;
    CorrelateAtMost(db, LEFT_KEY, LOOPED, run, [], "j", ["b", "d"], right);
    MulMonotone(|run.out([], "b")|, left, Max(1, right), Max(1, right));
  }

  /** On this plan the charge is left + 2 * right, and it covers the correlate's rows in every run exactly when
    * the loop is charged for its sizes, that is when the product fits: with 100 left rows and 5 right rows at a
    * time, 110 are charged for 500. */
  lemma ChargeHoldsIff(left: nat, right: nat)
    ensures HasRows(Looped(left, right), "j", left + 2 * right)
    ensures LoopsAreCharged(Looped(left, right)) <==> left * right <= left + 2 * right
    ensures (forall db, run :: IsRun(db, LOOPED, run) && Respects(db, LEFT_KEY) && ScansWithin(LOOPED, run, Looped(left, right).leafDocs)
               ==> |run.out([], "j")| <= left + 2 * right)
        <==> left * right <= left + 2 * right
  {
    LoopedRowCount(left, right);
    LoopedIsChargedIff(left, right);
    if left * right <= left + 2 * right {
      forall db, run | IsRun(db, LOOPED, run) && Respects(db, LEFT_KEY) && ScansWithin(LOOPED, run, Looped(left, right).leafDocs)
        ensures |run.out([], "j")| <= left + 2 * right
      {
        LoopIsWithin(left, right, db, run);
      }
    } else {
      var db, run := LoopAttains(left, right);
    }
  }
}
