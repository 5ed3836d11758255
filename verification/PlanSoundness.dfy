/** The plan bound is never below what a run builds, at any node. */
module PlanSoundness {
  import opened Prelude
  import opened Rels
  import opened JoinKeys
  import opened PlanBound
  import opened Execution
  import opened Provenance

  lemma EqualityHolds(e: Engine, c: Condition, row: Row, t: nat)
    requires Holds(e, c, row) && t < |Equalities(c)|
    ensures var (i, j) := Equalities(c)[t]; i < |row| && j < |row| && row[i] == row[j]
  {
    if c.And? {
      assert Holds(e, c.conjuncts[t], row);
    }
  }

  /** The two rows differ at every column index that composes down to this ordinal. */
  ghost predicate DisagreeAt(g: Graph, chain: seq<string>, x: Row, y: Row, ordinal: nat) {
    forall k: nat :: Composed(g, chain, k) == Some(ordinal) && k < |x| && k < |y| ==> x[k] != y[k]
  }

  /** Two rows of a covered side differ at some ordinal the join's equalities reach. */
  lemma CoveredRowsDiffer(db: Database, evidence: Evidence, g: Graph, side: Side, reached: set<nat>,
                          out: seq<Row>, picks: seq<nat>, a: nat, b: nat) returns (ordinal: nat)
    requires Respects(db, evidence) && SideCovered(Some(side), reached, evidence)
    requires side.table.value in db.tables && Traces(g, side.chain, out, db.tables[side.table.value], picks)
    requires a < b < |out|
    ensures ordinal in reached && DisagreeAt(g, side.chain, out[a], out[b], ordinal)
  {
    var table := side.table.value;
    var stored, ordinals := db.tables[table], evidence.keyOrdinals[table];
    var key :| key in evidence.uniqueKeys[table] && key != {} && key <= NamedColumns(ordinals, reached);
    assert key <= ordinals.Keys;
    assert UniqueOn(stored, ordinals, key);
    var x, y := stored[picks[a]], stored[picks[b]];
    assert DifferOn(x, y, ordinals, key) || DifferOn(y, x, ordinals, key);
    var column :| column in key && column in ordinals && ordinals[column] < |x| && ordinals[column] < |y|
      && x[ordinals[column]] != y[ordinals[column]];
    ordinal := ordinals[column];
    forall k: nat | Composed(g, side.chain, k) == Some(ordinal) && k < |out[a]| && k < |out[b]|
      ensures out[a][k] != out[b][k]
    {
      ComposedIsColumn(g, side.chain, k);
      assert ColumnCopies(out[a], x, k, ordinal) && ColumnCopies(out[b], y, k, ordinal);
    }
  }

  /** No row of `ls` pairs with two rows of `rs`. */
  ghost predicate MatchesOnceRight(e: Engine, rel: Rel, ls: seq<Row>, rs: seq<Row>) {
    forall i, a, b :: 0 <= i < |ls| && 0 <= a < b < |rs| ==> !(Match(e, rel, ls[i], rs[a]) && Match(e, rel, ls[i], rs[b]))
  }

  /** No row of `rs` pairs with two rows of `ls`. */
  ghost predicate MatchesOnceLeft(e: Engine, rel: Rel, ls: seq<Row>, rs: seq<Row>) {
    forall j, a, b :: 0 <= j < |rs| && 0 <= a < b < |ls| ==> !(Match(e, rel, ls[a], rs[j]) && Match(e, rel, ls[b], rs[j]))
  }

  /** The equality a right ordinal came from, as an index into each side. */
  lemma RightEquality(g: Graph, eqs: seq<(nat, nat)>, left: Side, right: Option<Side>, ordinal: nat)
    returns (t: nat, lo: nat, hi: nat)
    requires ordinal in RightOrdinals(LocatedPairs(g, eqs, left, right))
    ensures t < |eqs| && (eqs[t] == (lo, left.width + hi) || eqs[t] == (left.width + hi, lo)) && lo < left.width
    ensures right.Some? && Composed(g, right.value.chain, hi) == Some(ordinal)
  {
    var pairs := LocatedPairs(g, eqs, left, right);
    t :| 0 <= t < |pairs| && pairs[t].1 == Some(ordinal);
    assert Straddles(eqs[t], left.width, left.width + WidthOf(right));
    lo, hi := Min(eqs[t].0, eqs[t].1), Max(eqs[t].0, eqs[t].1) - left.width;
  }

  lemma LeftEquality(g: Graph, eqs: seq<(nat, nat)>, left: Side, right: Option<Side>, ordinal: nat)
    returns (t: nat, lo: nat, hi: nat)
    requires ordinal in LeftOrdinals(LocatedPairs(g, eqs, left, right))
    ensures t < |eqs| && (eqs[t] == (lo, left.width + hi) || eqs[t] == (left.width + hi, lo)) && lo < left.width
    ensures Composed(g, left.chain, lo) == Some(ordinal)
  {
    var pairs := LocatedPairs(g, eqs, left, right);
    t :| 0 <= t < |pairs| && pairs[t].0 == Some(ordinal);
    assert Straddles(eqs[t], left.width, left.width + WidthOf(right));
    lo, hi := Min(eqs[t].0, eqs[t].1), Max(eqs[t].0, eqs[t].1) - left.width;
  }

  /** Two right rows paired with one left row agree wherever an equality reaches. */
  lemma RightPartnersAgree(e: Engine, g: Graph, rel: Rel, left: Side, right: Option<Side>, l: Row, x: Row, y: Row, ordinal: nat)
    requires ordinal in RightOrdinals(LocatedPairs(g, Equalities(rel.condition), left, right)) && |l| == left.width
    requires Match(e, rel, l, x) && Match(e, rel, l, y)
    ensures right.Some? && !DisagreeAt(g, right.value.chain, x, y, ordinal)
  {
    var t, lo, hi := RightEquality(g, Equalities(rel.condition), left, right, ordinal);
    EqualityHolds(e, rel.condition, l + x, t);
    EqualityHolds(e, rel.condition, l + y, t);
    assert x[hi] == l[lo] == y[hi];
  }

  lemma LeftPartnersAgree(e: Engine, g: Graph, rel: Rel, left: Side, right: Option<Side>, x: Row, y: Row, r: Row, ordinal: nat)
    requires ordinal in LeftOrdinals(LocatedPairs(g, Equalities(rel.condition), left, right)) && |x| == |y| == left.width
    requires Match(e, rel, x, r) && Match(e, rel, y, r)
    ensures !DisagreeAt(g, left.chain, x, y, ordinal)
  {
    var t, lo, hi := LeftEquality(g, Equalities(rel.condition), left, right, ordinal);
    EqualityHolds(e, rel.condition, x + r, t);
    EqualityHolds(e, rel.condition, y + r, t);
    assert x[lo] == r[hi] == y[lo];
  }

  /** A covered right side matches each left row at most once, whichever loop it runs in. */
  lemma RightMatchesOnce(db: Database, evidence: Evidence, g: Graph, run: Run, env: Env, inner: Env, id: string, kids: seq<string>)
    requires IsRun(db, g, run) && Respects(db, evidence) && id in g.byId
    requires |kids| == 2 && CoveredSides(g, id, kids, evidence).1
    ensures MatchesOnceRight(db.engine(env), g.byId[id], run.out(env, kids[0]), run.out(inner, kids[1]))
  {
    var rel, ls, rs := g.byId[id], run.out(env, kids[0]), run.out(inner, kids[1]);
    var left, right := SideFields(g, kids[0], MAX_DEPTH).value, SideFields(g, kids[1], MAX_DEPTH).value;
    var reached := RightOrdinals(JoinKeyPairs(g, id, kids));
    var _ := SideProvenance(db, g, run, env, kids[0], MAX_DEPTH);
    var picks := SideProvenance(db, g, run, inner, kids[1], MAX_DEPTH);
    forall i, a, b | 0 <= i < |ls| && 0 <= a < b < |rs| && Match(db.engine(env), rel, ls[i], rs[a])
      ensures !Match(db.engine(env), rel, ls[i], rs[b])
    {
      var ordinal := CoveredRowsDiffer(db, evidence, g, right, reached, rs, picks, a, b);
      if Match(db.engine(env), rel, ls[i], rs[b]) {
        RightPartnersAgree(db.engine(env), g, rel, left, Some(right), ls[i], rs[a], rs[b], ordinal);
      }
    }
  }

  /** A covered left side matches each right row at most once: each row of one right bag, that is. */
  lemma LeftMatchesOnce(db: Database, evidence: Evidence, g: Graph, run: Run, env: Env, inner: Env, id: string, kids: seq<string>)
    requires IsRun(db, g, run) && Respects(db, evidence) && id in g.byId
    requires |kids| == 2 && CoveredSides(g, id, kids, evidence).0
    ensures MatchesOnceLeft(db.engine(env), g.byId[id], run.out(env, kids[0]), run.out(inner, kids[1]))
  {
    var rel, ls, rs := g.byId[id], run.out(env, kids[0]), run.out(inner, kids[1]);
    var left, reached := SideFields(g, kids[0], MAX_DEPTH).value, LeftOrdinals(JoinKeyPairs(g, id, kids));
    var picks := SideProvenance(db, g, run, env, kids[0], MAX_DEPTH);
    forall j, a, b | 0 <= j < |rs| && 0 <= a < b < |ls| && Match(db.engine(env), rel, ls[a], rs[j])
      ensures !Match(db.engine(env), rel, ls[b], rs[j])
    {
      var ordinal := CoveredRowsDiffer(db, evidence, g, left, reached, ls, picks, a, b);
      if Match(db.engine(env), rel, ls[b], rs[j]) {
        LeftPartnersAgree(db.engine(env), g, rel, left, SideFields(g, kids[1], MAX_DEPTH), ls[a], ls[b], rs[j], ordinal);
      }
    }
  }

  lemma {:induction false} MatchingSize(e: Engine, rel: Rel, l: Row, rs: seq<Row>)
    ensures |Matching(e, rel, l, rs)| <= |rs|
    ensures (forall b :: 0 <= b < |rs| ==> !Match(e, rel, l, rs[b])) ==> Matching(e, rel, l, rs) == []
    ensures (forall a, b :: 0 <= a < b < |rs| ==> !(Match(e, rel, l, rs[a]) && Match(e, rel, l, rs[b]))) ==> |Matching(e, rel, l, rs)| <= 1
  {
    if rs != [] {
      MatchingSize(e, rel, l, rs[1..]);
      assert forall b :: 0 <= b < |rs[1..]| ==> rs[1..][b] == rs[1 + b];
    }
  }

  lemma {:induction false} PairsAtMostProduct(e: Engine, rel: Rel, ls: seq<Row>, rs: seq<Row>)
    ensures |Pairs(e, rel, ls, rs)| <= |ls| * |rs|
  {
    if ls != [] {
      MatchingSize(e, rel, ls[0], rs);
      PairsAtMostProduct(e, rel, ls[1..], rs);
      MulStep(|ls|, |rs|);
    }
  }

  lemma {:induction false} PairsAtMostLeft(e: Engine, rel: Rel, ls: seq<Row>, rs: seq<Row>)
    requires MatchesOnceRight(e, rel, ls, rs)
    ensures |Pairs(e, rel, ls, rs)| <= |ls|
  {
    if ls != [] {
      MatchingSize(e, rel, ls[0], rs);
      assert forall i :: 0 <= i < |ls[1..]| ==> ls[1..][i] == ls[1 + i];
      PairsAtMostLeft(e, rel, ls[1..], rs);
    }
  }

  /** Pairs are counted the same right row by right row. */
  lemma {:induction false} PairsByRight(e: Engine, rel: Rel, ls: seq<Row>, rs: seq<Row>)
    requires rs != []
    ensures |Pairs(e, rel, ls, rs)| == |Pairs(e, rel, ls, [rs[0]])| + |Pairs(e, rel, ls, rs[1..])|
  {
    if ls != [] {
      PairsByRight(e, rel, ls[1..], rs);
      assert [rs[0]][1..] == [];
      assert Matching(e, rel, ls[0], [rs[0]]) == if Match(e, rel, ls[0], rs[0]) then [ls[0] + rs[0]] else [];
    }
  }

  lemma {:induction false} PairsWithOne(e: Engine, rel: Rel, ls: seq<Row>, r: Row)
    requires forall a, b :: 0 <= a < b < |ls| ==> !(Match(e, rel, ls[a], r) && Match(e, rel, ls[b], r))
    ensures |Pairs(e, rel, ls, [r])| <= 1
    ensures (forall a :: 0 <= a < |ls| ==> !Match(e, rel, ls[a], r)) ==> |Pairs(e, rel, ls, [r])| == 0
  {
    if ls != [] {
      assert forall i :: 0 <= i < |ls[1..]| ==> ls[1..][i] == ls[1 + i];
      PairsWithOne(e, rel, ls[1..], r);
      assert [r][1..] == [];
      assert Matching(e, rel, ls[0], [r]) == if Match(e, rel, ls[0], r) then [ls[0] + r] else [];
    }
  }

  lemma {:induction false} PairsAtMostRight(e: Engine, rel: Rel, ls: seq<Row>, rs: seq<Row>)
    requires MatchesOnceLeft(e, rel, ls, rs)
    ensures |Pairs(e, rel, ls, rs)| <= |rs|
  {
    if rs == [] {
      PairsAtMostProduct(e, rel, ls, rs);
    } else {
      PairsByRight(e, rel, ls, rs);
      assert forall a, b :: 0 <= a < b < |ls| ==> !(Match(e, rel, ls[a], rs[0]) && Match(e, rel, ls[b], rs[0]));
      PairsWithOne(e, rel, ls, rs[0]);
      assert forall j :: 0 <= j < |rs[1..]| ==> rs[1..][j] == rs[1 + j];
      PairsAtMostRight(e, rel, ls, rs[1..]);
    }
  }

  lemma {:induction false} UnmatchedAtMost(e: Engine, rel: Rel, ls: seq<Row>, rs: seq<Row>, matched: bool, pad: Row)
    ensures |LeftWhere(e, rel, ls, rs, matched, pad)| <= |ls|
    decreases |ls|
  {
    if ls != [] {
      UnmatchedAtMost(e, rel, ls[1..], rs, matched, pad);
    }
  }

  lemma {:induction false} UnmatchedRightAtMost(e: Engine, rel: Rel, ls: seq<Row>, rs: seq<Row>, pad: Row)
    ensures |UnmatchedRight(e, rel, ls, rs, pad)| <= |rs|
  {
    if rs != [] {
      UnmatchedRightAtMost(e, rel, ls, rs[1..], pad);
    }
  }

  /** Whatever two bags the sides emit, the matching pairs and the rows of both are within the charge. */
  lemma PairsWithinCharge(db: Database, evidence: Evidence, g: Graph, run: Run, env: Env, id: string, kids: seq<string>)
    requires IsRun(db, g, run) && Respects(db, evidence) && id in g.byId && |kids| == 2
    ensures var ls, rs := run.out(env, kids[0]), run.out(env, kids[1]);
      |Pairs(db.engine(env), g.byId[id], ls, rs)| + |ls| + |rs| <= PairedRows(|ls|, |rs|, CoveredSides(g, id, kids, evidence))
  {
    var rel, ls, rs := g.byId[id], run.out(env, kids[0]), run.out(env, kids[1]);
    var covered := CoveredSides(g, id, kids, evidence);
    if covered.0 {
      LeftMatchesOnce(db, evidence, g, run, env, env, id, kids);
      PairsAtMostRight(db.engine(env), rel, ls, rs);
    }
    if covered.1 {
      RightMatchesOnce(db, evidence, g, run, env, env, id, kids);
      PairsAtMostLeft(db.engine(env), rel, ls, rs);
    }
    PairsAtMostProduct(db.engine(env), rel, ls, rs);
  }

  lemma OutputAtMostPairsAndSides(e: Engine, rel: Rel, ls: seq<Row>, rs: seq<Row>, lw: nat, rw: nat)
    requires IsJoin(rel.op)
    ensures |JoinOutput(e, rel, ls, rs, lw, rw)| <= |Pairs(e, rel, ls, rs)| + |ls| + |rs|
  {
    UnmatchedAtMost(e, rel, ls, rs, true, []);
    UnmatchedAtMost(e, rel, ls, rs, false, []);
    UnmatchedAtMost(e, rel, ls, rs, false, Nulls(rw));
    UnmatchedRightAtMost(e, rel, ls, rs, Nulls(lw));
  }

  /** Whatever its type, a join emits no more rows than it is charged. */
  lemma JoinOutputAtMost(db: Database, evidence: Evidence, g: Graph, run: Run, env: Env, id: string, kids: seq<string>)
    requires IsRun(db, g, run) && Respects(db, evidence) && id in g.byId && |kids| == 2 && g.byId[id].op.Join?
    ensures var ls, rs := run.out(env, kids[0]), run.out(env, kids[1]);
      |Joined(db, g.byId[id], run, env, kids[0], kids[1])| <= PairedRows(|ls|, |rs|, CoveredSides(g, id, kids, evidence))
  {
    PairsWithinCharge(db, evidence, g, run, env, id, kids);
    OutputAtMostPairsAndSides(db.engine(env), g.byId[id], run.out(env, kids[0]), run.out(env, kids[1]), run.widths(kids[0]), run.widths(kids[1]));
  }

  // ----- correlates -----

  /** The most a nested loop can emit over this many left rows and this many right rows at a time. */
  function LargestLoop(left: nat, right: nat, covered: (bool, bool)): nat {
    if covered.1 then left else left * Max(1, right)
  }

  /** The charge covers a nested loop of every size exactly when the left side is not the only one proved
    * unique: a unique left side lets no two left rows match one right row, but the loop shows each left row
    * right rows of its own. */
  lemma LoopIsChargedIff(covered: (bool, bool))
    ensures (forall left: nat, right: nat :: LargestLoop(left, right, covered) <= PairedRows(left, right, covered))
        <==> covered != (true, false)
  {
    if covered == (true, false) {
      assert LargestLoop(5, 2, covered) > PairedRows(5, 2, covered);
    } else {
      forall left: nat, right: nat ensures LargestLoop(left, right, covered) <= PairedRows(left, right, covered) {
        MulMonotone(left, left, Max(1, right), right + 1);
      }
    }
  }

  /** One iteration: a left row joined with the rows the right side emits for it. */
  lemma IterationAtMost(e: Engine, rel: Rel, l: Row, rs: seq<Row>, lw: nat, rw: nat)
    requires rel.op.Correlate? && !rel.op.joinType.Right? && !rel.op.joinType.Full?
    ensures |JoinOutput(e, rel, [l], rs, lw, rw)| <= Max(1, |rs|)
    ensures MatchesOnceRight(e, rel, [l], rs) ==> |JoinOutput(e, rel, [l], rs, lw, rw)| <= 1
  {
    assert [l][1..] == [];
    assert Pairs(e, rel, [l], rs) == Matching(e, rel, l, rs);
    MatchingSize(e, rel, l, rs);
    if MatchesOnceRight(e, rel, [l], rs) {
      assert [l][0] == l;
    }
    UnmatchedAtMost(e, rel, [l], rs, false, Nulls(rw));
    UnmatchedAtMost(e, rel, [l], rs, false, []);
    UnmatchedAtMost(e, rel, [l], rs, true, []);
  }

  lemma {:induction false} LoopAtMost(e: Engine, rel: Rel, ls: seq<Row>, right: Row -> seq<Row>, lw: nat, rw: nat, most: nat)
    requires rel.op.Correlate? && forall i :: 0 <= i < |ls| ==> |JoinOutput(e, rel, [ls[i]], right(ls[i]), lw, rw)| <= most
    ensures |LoopOutput(e, rel, ls, right, lw, rw)| <= |ls| * most
  {
    if ls != [] {
      forall i | 0 <= i < |ls[1..]| ensures |JoinOutput(e, rel, [ls[1..][i]], right(ls[1..][i]), lw, rw)| <= most {
        assert ls[1..][i] == ls[1 + i];
      }
      LoopAtMost(e, rel, ls[1..], right, lw, rw, most);
      MulStep(|ls|, most);
    }
  }

  /** A correlate emits at most the largest loop over what its right side emits at a time. */
  lemma CorrelateAtMost(db: Database, evidence: Evidence, g: Graph, run: Run, env: Env, id: string, kids: seq<string>, right: nat)
    requires IsRun(db, g, run) && Respects(db, evidence) && id in g.byId && |kids| == 2
    requires g.byId[id].op.Correlate? && !g.byId[id].op.joinType.Right? && !g.byId[id].op.joinType.Full?
    requires forall inner :: |run.out(inner, kids[1])| <= right
    ensures |Joined(db, g.byId[id], run, env, kids[0], kids[1])|
         <= LargestLoop(|run.out(env, kids[0])|, right, CoveredSides(g, id, kids, evidence))
  {
    var rel, ls, e := g.byId[id], run.out(env, kids[0]), db.engine(env);
    var lw, rw := run.widths(kids[0]), run.widths(kids[1]);
    var covered := CoveredSides(g, id, kids, evidence).1;
    var most: nat := if covered then 1 else Max(1, right);
    forall i | 0 <= i < |ls| ensures |JoinOutput(e, rel, [ls[i]], run.out(env + [ls[i]], kids[1]), lw, rw)| <= most {
      IterationAtMost(e, rel, ls[i], run.out(env + [ls[i]], kids[1]), lw, rw);
      if covered {
        RightMatchesOnce(db, evidence, g, run, env, env + [ls[i]], id, kids);
      }
    }
    LoopAtMost(e, rel, ls, l => run.out(env + [l], kids[1]), lw, rw, most);
  }

  /** The right rows of all iterations together. */
  function LoopedRows(run: Run, env: Env, left: seq<Row>, right: string): nat {
    if left == [] then 0 else |run.out(env + [left[0]], right)| + LoopedRows(run, env, left[1..], right)
  }

  /** The bound of a node inside a loop is per iteration. Summed over the iterations its rows are at most the
    * product. */
  lemma {:induction false} LoopedRowsAtMost(run: Run, env: Env, left: seq<Row>, right: string, most: nat)
    requires forall inner :: |run.out(inner, right)| <= most
    ensures LoopedRows(run, env, left, right) <= |left| * most
  {
    if left != [] {
      LoopedRowsAtMost(run, env, left[1..], right, most);
      MulStep(|left|, most);
    }
  }

  predicate ChargesLoopedRows(left: nat, right: nat, covered: (bool, bool)) { left * right <= PairedRows(left, right, covered) }

  /** The correlate's own charge holds that sum at every size exactly when neither side is covered: coverage
    * lowers what the loop emits, not what its right side runs through. */
  lemma LoopedRowsAreChargedIff(covered: (bool, bool))
    ensures (forall left: nat, right: nat :: ChargesLoopedRows(left, right, covered)) <==> covered == (false, false)
  {
    if covered.0 || covered.1 {
      var left, right := if covered.1 then 4 else 5, if covered.0 then 4 else 5;
      assert !ChargesLoopedRows(left, right, covered);
    } else {
      assert covered == (false, false);
    }
  }

  /** The charge never falls when a side grows. */
  lemma PairedRowsMonotone(l: nat, r: nat, left: nat, right: nat, covered: (bool, bool))
    requires l <= left && r <= right
    ensures PairedRows(l, r, covered) <= PairedRows(left, right, covered)
  {
    MulMonotone(l, left, r, right);
  }

  function Sizes(inputs: seq<seq<Row>>): seq<nat> {
    seq(|inputs|, i requires 0 <= i < |inputs| => |inputs[i]|)
  }

  lemma {:induction false} ConcatSize(inputs: seq<seq<Row>>)
    ensures |Concat(inputs)| == Sum(Sizes(inputs))
  {
    if inputs != [] {
      ConcatSize(inputs[1..]);
      assert Sizes(inputs)[1..] == Sizes(inputs[1..]);
    }
  }

  lemma {:induction false} CrossWithSize(left: seq<Row>, right: seq<Row>)
    ensures |CrossWith(left, right)| == |left| * |right|
  {
    if left != [] {
      CrossWithSize(left[1..], right);
      MulStep(|left|, |right|);
    }
  }

  lemma {:induction false} CrossSize(inputs: seq<seq<Row>>)
    ensures |Cross(inputs)| == Product(Sizes(inputs))
  {
    if inputs != [] {
      CrossSize(inputs[1..]);
      CrossWithSize(inputs[0], Cross(inputs[1..]));
      assert Sizes(inputs)[1..] == Sizes(inputs[1..]);
    }
  }

  lemma SubBagAtMost(out: seq<Row>, source: seq<Row>)
    requires SubBag(out, source)
    ensures |out| <= |source|
  {
    var picks :| TracedBy(out, source, picks);
    PicksAtMost(picks, |source|);
  }

  /** Some input row with this key. */
  ghost function WithKey(input: seq<Row>, groups: seq<nat>, key: Row): (i: nat)
    requires HasKey(input, groups, key)
    ensures i < |input| && KeyOf(input[i], groups) == key
  {
    var i :| 0 <= i < |input| && KeyOf(input[i], groups) == key;
    i
  }

  /** Groups come from different rows, so there are no more of them than rows. */
  lemma GroupsAtMost(groups: seq<nat>, input: seq<Row>, out: seq<Row>)
    requires Aggregates(groups, input, out)
    ensures |out| <= |input|
  {
    var picks := seq(|out|, r requires 0 <= r < |out| => WithKey(input, groups, out[r][..|groups|]));
    forall a, b | 0 <= a < b < |picks| ensures picks[a] != picks[b] {
      assert out[a][..|groups|] != out[b][..|groups|];
    }
    PicksAtMost(picks, |input|);
  }

  /** Every correlate is charged for the largest loop of its sides' own row counts. */
  ghost predicate LoopsAreCharged(p: Pricing) {
    forall id :: id in p.g.byId && p.g.byId[id].op.Correlate? ==> LoopIsCharged(p, id)
  }

  ghost predicate LoopIsCharged(p: Pricing, id: string)
    requires id in p.g.byId
  {
    var kids := Children(p.g, id, p.g.byId[id]);
    kids.Some? && |kids.value| == 2 ==>
      forall left: nat, right: nat :: HasRows(p, kids.value[0], left) && HasRows(p, kids.value[1], right) ==>
        LoopFits(p, id, kids.value, [left, right])
  }

  /** The charge is no less than the largest loop over these row counts. */
  ghost predicate LoopFits(p: Pricing, id: string, kids: seq<string>, rows: seq<nat>)
    requires |rows| == |kids|
  {
    |kids| == 2 ==>
      var covered := CoveredSides(p.g, id, kids, p.evidence);
      LargestLoop(rows[0], rows[1], covered) <= PairedRows(rows[0], rows[1], covered)
  }

  /** A correlate whose sides have row counts is charged exactly when they fit. */
  lemma LoopIsChargedAt(p: Pricing, id: string, kids: seq<string>, left: nat, right: nat)
    requires id in p.g.byId && Children(p.g, id, p.g.byId[id]) == Some(kids) && |kids| == 2
    requires HasRows(p, kids[0], left) && HasRows(p, kids[1], right)
    ensures LoopIsCharged(p, id) <==> LoopFits(p, id, kids, [left, right])
  {
    forall l: nat, r: nat | HasRows(p, kids[0], l) && HasRows(p, kids[1], r) ensures l == left && r == right {
      RowsUnique(p, kids[0], l, left);
      RowsUnique(p, kids[1], r, right);
    }
  }

  lemma ChargedLoopFits(p: Pricing, id: string, kids: seq<string>, height: nat, rows: seq<nat>)
    requires LoopsAreCharged(p) && id in p.g.byId && p.g.byId[id].op.Correlate? && Children(p.g, id, p.g.byId[id]) == Some(kids)
    requires AllWithin(p, kids, height) == Some(rows)
    ensures LoopFits(p, id, kids, rows)
  {
    if |kids| == 2 {
      AllWithinAt(p, kids, height, 0);
      AllWithinAt(p, kids, height, 1);
      assert HasRows(p, kids[0], rows[0]) && HasRows(p, kids[1], rows[1]);
      LoopIsChargedAt(p, id, kids, rows[0], rows[1]);
      assert rows == [rows[0], rows[1]];
    }
  }

  /** As every correlate is, at any size, whose left side is not the only one proved unique. */
  lemma LoopIsChargedUnlessLeftOnly(p: Pricing, id: string)
    requires id in p.g.byId
    requires var kids := Children(p.g, id, p.g.byId[id]);
      kids.Some? && |kids.value| == 2 ==> CoveredSides(p.g, id, kids.value, p.evidence) != (true, false)
    ensures LoopIsCharged(p, id)
  {
    var kids := Children(p.g, id, p.g.byId[id]);
    if kids.Some? && |kids.value| == 2 {
      LoopIsChargedIff(CoveredSides(p.g, id, kids.value, p.evidence));
    }
  }

  /** And every one whose condition names no usable equality. */
  lemma UnconditionalLoopIsCharged(p: Pricing, id: string)
    requires id in p.g.byId && Equalities(p.g.byId[id].condition) == []
    ensures LoopIsCharged(p, id)
  {
    LoopIsChargedUnlessLeftOnly(p, id);
  }

  /** A join or correlate emits no more than it is charged when its sides stay within theirs. */
  lemma PairingSound(p: Pricing, db: Database, run: Run, env: Env, id: string, kids: seq<string>, rows: seq<nat>)
    requires IsRun(db, p.g, run) && Respects(db, p.evidence)
    requires id in p.g.byId && Children(p.g, id, p.g.byId[id]) == Some(kids) && |rows| == |kids| == 2 && IsJoin(p.g.byId[id].op)
    requires p.g.byId[id].op.Correlate? ==> LoopFits(p, id, kids, rows)
    requires forall inner, i :: 0 <= i < |kids| ==> |run.out(inner, kids[i])| <= rows[i]
    ensures |run.out(env, id)| <= PairedRows(rows[0], rows[1], CoveredSides(p.g, id, kids, p.evidence))
  {
    var rel, out, covered := p.g.byId[id], run.out(env, id), CoveredSides(p.g, id, kids, p.evidence);
    assert Emits(db, p.g, run, env, id);
    assert |multiset(out)| == |out|;
    if rel.op.Join? {
      JoinOutputAtMost(db, p.evidence, p.g, run, env, id, kids);
      PairedRowsMonotone(|run.out(env, kids[0])|, |run.out(env, kids[1])|, rows[0], rows[1], covered);
    } else {
      CorrelateAtMost(db, p.evidence, p.g, run, env, id, kids, rows[1]);
      MulMonotone(|run.out(env, kids[0])|, rows[0], Max(1, rows[1]), Max(1, rows[1]));
    }
  }

  /** One operator emits no more than it is charged when its inputs stay within theirs. */
  lemma OperatorSound(p: Pricing, db: Database, run: Run, env: Env, id: string, kids: seq<string>, rows: seq<nat>)
    requires IsRun(db, p.g, run) && Respects(db, p.evidence) && ScansWithin(p.g, run, p.leafDocs)
    requires id in p.g.byId && Children(p.g, id, p.g.byId[id]) == Some(kids) && |rows| == |kids|
    requires p.g.byId[id].op.Correlate? ==> LoopFits(p, id, kids, rows)
    requires forall inner, i :: 0 <= i < |kids| ==> |run.out(inner, kids[i])| <= rows[i]
    requires LocalRows(p, id, p.g.byId[id], kids, rows).Some?
    ensures |run.out(env, id)| <= LocalRows(p, id, p.g.byId[id], kids, rows).value
  {
    var rel, out, inputs := p.g.byId[id], run.out(env, id), InputRows(run, env, kids);
    assert Emits(db, p.g, run, env, id);
    if kids == [] {
      assert ScanWithin(rel, run, env, id, p.leafDocs);
    } else if rel.op.Union? {
      SubBagAtMost(out, Concat(inputs));
      ConcatSize(inputs);
      SumMonotone(Sizes(inputs), rows);
    } else if IsJoin(rel.op) && |kids| == 2 {
      PairingSound(p, db, run, env, id, kids, rows);
    } else if IsJoin(rel.op) {
      SubBagAtMost(out, Cross(inputs));
      CrossSize(inputs);
      ProductMonotone(Sizes(inputs), rows);
    } else {
      assert |run.out(env, kids[0])| <= rows[0];
      if rel.op.Aggregate? {
        GroupsAtMost(rel.op.groups, run.out(env, kids[0]), out);
      } else if !rel.op.Project? && !rel.op.Window? {
        SubBagAtMost(out, run.out(env, kids[0]));
      }
    }
  }

  lemma {:induction false} NodeSound(p: Pricing, db: Database, run: Run, env: Env, id: string, height: nat)
    requires IsRun(db, p.g, run) && Respects(db, p.evidence) && ScansWithin(p.g, run, p.leafDocs) && LoopsAreCharged(p)
    requires RowsWithin(p, id, height).Some?
    ensures |run.out(env, id)| <= RowsWithin(p, id, height).value
    decreases height
  {
    var kids := Children(p.g, id, p.g.byId[id]).value;
    var rows := AllWithin(p, kids, height - 1).value;
    forall inner, i | 0 <= i < |kids| ensures |run.out(inner, kids[i])| <= rows[i] {
      AllWithinAt(p, kids, height - 1, i);
      NodeSound(p, db, run, inner, kids[i], height - 1);
    }
    if p.g.byId[id].op.Correlate? {
      ChargedLoopFits(p, id, kids, height - 1, rows);
    }
    OperatorSound(p, db, run, env, id, kids, rows);
  }

  /** The bound covers every node of every run over every database the facts describe, at each turn of every
    * loop it runs in. */
  lemma PlanBoundIsSound(p: Pricing, db: Database, run: Run, bound: nat)
    requires IsRun(db, p.g, run) && Respects(db, p.evidence) && ScansWithin(p.g, run, p.leafDocs) && LoopsAreCharged(p)
    requires IsWidest(p, bound)
    ensures forall env, id :: id in p.g.order ==> |run.out(env, id)| <= bound
  {
    forall env, id | id in p.g.order ensures |run.out(env, id)| <= bound {
      var m: nat :| HasRows(p, id, m) && m <= bound;
      var height: nat :| RowsWithin(p, id, height) == Some(m);
      NodeSound(p, db, run, env, id, height);
    }
  }
}
