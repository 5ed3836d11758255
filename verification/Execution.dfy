/** What an engine running a plan may emit: a bag of rows at every node
  * (joined tables as in section 7.7 of ISO/IEC 9075-2:2003). */
module Execution {
  import opened Prelude
  import opened Rels
  import opened JoinKeys

  datatype Value = Null | Datum(n: int)

  type Row = seq<Value>

  /** The left rows of the correlates being looped over, outermost first; [] outside any loop. */
  type Env = seq<Row>

  /** The engine's answers where the plan does not fix one: whether two nulls match, and how a condition the
    * plan readers do not parse comes out. */
  datatype Engine = Engine(nullsMatch: bool, truth: (Condition, Row) -> bool)

  /** The stored tables, and the engine's answers inside each loop. */
  datatype Database = Database(tables: map<string, seq<Row>>, engine: Env -> Engine)

  /** One execution: the rows each node emitted under each environment, and how wide they are. */
  datatype Run = Run(out: (Env, string) -> seq<Row>, widths: string -> nat)

  predicate Holds(e: Engine, c: Condition, row: Row) {
    match c
    case NoCondition => true
    case Equals(operands) =>
      (match OperandIndexes(operands)
       case None => e.truth(c, row)
       case Some((i, j)) =>
         i < |row| && j < |row| && row[i] == row[j] && (row[i].Datum? || e.nullsMatch))
    case And(cs) => forall i :: 0 <= i < |cs| ==> Holds(e, cs[i], row)
    case OtherKind(_) => e.truth(c, row)
  }

  /** Does the join node pair these two rows? */
  predicate Match(e: Engine, rel: Rel, l: Row, r: Row) { Holds(e, rel.condition, l + r) }

  function Nulls(n: nat): Row { seq(n, _ => Null) }

  /** The pairs one left row makes, right row by right row. */
  function Matching(e: Engine, rel: Rel, l: Row, right: seq<Row>): seq<Row> {
    if right == [] then []
    else (if Match(e, rel, l, right[0]) then [l + right[0]] else []) + Matching(e, rel, l, right[1..])
  }

  function Pairs(e: Engine, rel: Rel, left: seq<Row>, right: seq<Row>): seq<Row> {
    if left == [] then [] else Matching(e, rel, left[0], right) + Pairs(e, rel, left[1..], right)
  }

  /** The left rows that have (or lack) a match, each followed by a padding. */
  function LeftWhere(e: Engine, rel: Rel, left: seq<Row>, right: seq<Row>, matched: bool, pad: Row): seq<Row> {
    if left == [] then []
    else
      var kept := (exists j :: 0 <= j < |right| && Match(e, rel, left[0], right[j])) == matched;
      (if kept then [left[0] + pad] else []) + LeftWhere(e, rel, left[1..], right, matched, pad)
  }

  function UnmatchedRight(e: Engine, rel: Rel, left: seq<Row>, right: seq<Row>, pad: Row): seq<Row> {
    if right == [] then []
    else
      var matched := exists i :: 0 <= i < |left| && Match(e, rel, left[i], right[0]);
      (if matched then [] else [pad + right[0]]) + UnmatchedRight(e, rel, left, right[1..], pad)
  }

  /** A two-sided join's rows: the matching pairs, and what the join type keeps of the unmatched. */
  function JoinOutput(e: Engine, rel: Rel, left: seq<Row>, right: seq<Row>, lw: nat, rw: nat): seq<Row>
    requires rel.op.Join? || rel.op.Correlate?
  {
    match rel.op.joinType
    case Inner => Pairs(e, rel, left, right)
    case Left => Pairs(e, rel, left, right) + LeftWhere(e, rel, left, right, false, Nulls(rw))
    case Right => Pairs(e, rel, left, right) + UnmatchedRight(e, rel, left, right, Nulls(lw))
    case Full =>
      Pairs(e, rel, left, right) + LeftWhere(e, rel, left, right, false, Nulls(rw))
        + UnmatchedRight(e, rel, left, right, Nulls(lw))
    case Semi => LeftWhere(e, rel, left, right, true, [])
    case Anti => LeftWhere(e, rel, left, right, false, [])
  }

  /** A correlate is a nested loop: the right side runs again for every left row, and each left row is joined
    * with the rows it then emits. */
  function LoopOutput(e: Engine, rel: Rel, left: seq<Row>, right: Row -> seq<Row>, lw: nat, rw: nat): seq<Row>
    requires rel.op.Correlate?
  {
    if left == [] then []
    else JoinOutput(e, rel, [left[0]], right(left[0]), lw, rw) + LoopOutput(e, rel, left[1..], right, lw, rw)
  }

  function Prefixed(l: Row, rows: seq<Row>): seq<Row> {
    seq(|rows|, i requires 0 <= i < |rows| => l + rows[i])
  }

  /** Every way to put one row of each input side by side. */
  function Cross(inputs: seq<seq<Row>>): seq<Row> {
    if inputs == [] then [[]] else CrossWith(inputs[0], Cross(inputs[1..]))
  }

  function CrossWith(left: seq<Row>, right: seq<Row>): seq<Row> {
    if left == [] then [] else Prefixed(left[0], right) + CrossWith(left[1..], right)
  }

  function Concat(inputs: seq<seq<Row>>): seq<Row> {
    if inputs == [] then [] else inputs[0] + Concat(inputs[1..])
  }

  /** Every emitted row is a different source row, passed on unchanged. */
  ghost predicate TracedBy(out: seq<Row>, source: seq<Row>, picks: seq<nat>) {
    |picks| == |out| && Picks(picks, |source|) && forall i :: 0 <= i < |out| ==> out[i] == source[picks[i]]
  }

  ghost predicate SubBag(out: seq<Row>, source: seq<Row>) {
    exists picks :: TracedBy(out, source, picks)
  }

  /** A row's group key. */
  function KeyOf(row: Row, groups: seq<nat>): Row {
    seq(|groups|, i requires 0 <= i < |groups| => if groups[i] < |row| then row[groups[i]] else Null)
  }

  ghost predicate HasKey(rows: seq<Row>, groups: seq<nat>, key: Row) {
    exists i :: 0 <= i < |rows| && KeyOf(rows[i], groups) == key
  }

  /** One row for each distinct group key of the input, led by that key. */
  ghost predicate Aggregates(groups: seq<nat>, input: seq<Row>, out: seq<Row>) {
    && (forall r :: 0 <= r < |out| ==> |out[r]| >= |groups| && HasKey(input, groups, out[r][..|groups|]))
    && (forall r, s :: 0 <= r < s < |out| ==> out[r][..|groups|] != out[s][..|groups|])
    && (forall i :: 0 <= i < |input| ==> exists r :: 0 <= r < |out| && out[r][..|groups|] == KeyOf(input[i], groups))
  }

  /** A window adds columns to every row. */
  ghost predicate Extends(input: seq<Row>, out: seq<Row>) {
    |out| == |input| && forall r :: 0 <= r < |out| ==> input[r] <= out[r]
  }

  /** A project emits one row per input row; a bare column copies the input position it names. */
  ghost predicate Projects(rel: Rel, input: seq<Row>, out: seq<Row>, width: nat) {
    && (rel.fields.Some? ==> width == |rel.fields.value|)
    && |out| == |input|
    && (rel.exprs.Some? ==> forall r, c :: 0 <= r < |out| && 0 <= c < Min(|rel.exprs.value|, width) ==>
          ProjectsAt(rel.exprs.value[c], input[r], out[r], c))
  }

  ghost predicate ProjectsAt(e: Expr, input: Row, out: Row, c: nat) {
    e.BareInput? && e.index >= 0 ==> e.index < |input| && c < |out| && out[c] == input[e.index]
  }

  function InputRows(run: Run, env: Env, kids: seq<string>): seq<seq<Row>> {
    seq(|kids|, i requires 0 <= i < |kids| => run.out(env, kids[i]))
  }

  /** The rows a run may record at one node under one environment, given what it recorded at the inputs. */
  ghost predicate Emits(db: Database, g: Graph, run: Run, env: Env, id: string) {
    && id in g.byId && Children(g, id, g.byId[id]).Some?
    && (forall i :: 0 <= i < |run.out(env, id)| ==> |run.out(env, id)[i]| == run.widths(id))
    && var kids := Children(g, id, g.byId[id]).value;
    && OperatorEmits(db, g.byId[id], run, env, kids, run.out(env, id), run.widths(id))
  }

  ghost predicate OperatorEmits(db: Database, rel: Rel, run: Run, env: Env, kids: seq<string>, out: seq<Row>, width: nat) {
    match rel.op
    case TableScan =>
      kids == [] && (rel.table.Some? ==> rel.table.value in db.tables && SubBag(out, db.tables[rel.table.value]))
    case Values => kids == [] && rel.table.None?
    case Project => |kids| == 1 && Projects(rel, run.out(env, kids[0]), out, width)
    case Filter => |kids| == 1 && SubBag(out, run.out(env, kids[0])) && width == run.widths(kids[0])
    case Exchange =>
      |kids| == 1 && SubBag(out, run.out(env, kids[0])) && |out| == |run.out(env, kids[0])| && width == run.widths(kids[0])
    case Union => SubBag(out, Concat(InputRows(run, env, kids)))
    case Join(_) => kids != [] && JoinEmits(db, rel, run, env, kids, out)
    case Correlate(joinType) => kids != [] && !joinType.Right? && !joinType.Full? && JoinEmits(db, rel, run, env, kids, out)
    case Sort => |kids| == 1 && SubBag(out, run.out(env, kids[0])) && width == run.widths(kids[0])
    case Window => |kids| == 1 && Extends(run.out(env, kids[0]), out)
    case Aggregate(groups) => |kids| == 1 && groups != [] && Aggregates(groups, run.out(env, kids[0]), out)
    case Intersect =>
      kids != [] && SubBag(out, run.out(env, kids[0])) && forall kid, row :: kid in kids && row in out ==> row in run.out(env, kid)
    case Minus => kids != [] && SubBag(out, run.out(env, kids[0]))
  }

  ghost predicate JoinEmits(db: Database, rel: Rel, run: Run, env: Env, kids: seq<string>, out: seq<Row>)
    requires rel.op.Join? || rel.op.Correlate?
  {
    if |kids| != 2 then SubBag(out, Cross(InputRows(run, env, kids)))
    else multiset(out) == multiset(Joined(db, rel, run, env, kids[0], kids[1]))
  }

  /** A join reads both sides once; a correlate's right side runs under each of its left rows. */
  function Joined(db: Database, rel: Rel, run: Run, env: Env, left: string, right: string): seq<Row>
    requires rel.op.Join? || rel.op.Correlate?
  {
    var ls, lw, rw := run.out(env, left), run.widths(left), run.widths(right);
    if rel.op.Join? then JoinOutput(db.engine(env), rel, ls, run.out(env, right), lw, rw)
    else LoopOutput(db.engine(env), rel, ls, l => run.out(env + [l], right), lw, rw)
  }

  /** A whole execution of the plan over the database, inside every loop. */
  ghost predicate IsRun(db: Database, g: Graph, run: Run) {
    forall env, id :: id in g.byId ==> Emits(db, g, run, env, id)
  }

  /** No scan emits more rows at a time than the segment facts allow its table. */
  ghost predicate ScansWithin(g: Graph, run: Run, leafDocs: map<string, Option<nat>>) {
    forall env, id :: id in g.byId && Children(g, id, g.byId[id]) == Some([]) ==> ScanWithin(g.byId[id], run, env, id, leafDocs)
  }

  ghost predicate ScanWithin(rel: Rel, run: Run, env: Env, id: string, leafDocs: map<string, Option<nat>>) {
    rel.table.Some? && rel.table.value in leafDocs && leafDocs[rel.table.value].Some? ==>
      |run.out(env, id)| <= leafDocs[rel.table.value].value
  }

  /** Two stored rows differ in some column of the key. */
  ghost predicate DifferOn(a: Row, b: Row, ordinals: map<string, nat>, key: set<string>) {
    exists column :: column in key && column in ordinals
      && ordinals[column] < |a| && ordinals[column] < |b| && a[ordinals[column]] != b[ordinals[column]]
  }

  ghost predicate UniqueOn(rows: seq<Row>, ordinals: map<string, nat>, key: set<string>) {
    forall i, j :: 0 <= i < j < |rows| ==> DifferOn(rows[i], rows[j], ordinals, key)
  }

  /** The claimed keys are unique in the stored tables, at the claimed ordinals. */
  ghost predicate Respects(db: Database, evidence: Evidence) {
    forall table, key ::
      table in db.tables && table in evidence.uniqueKeys && table in evidence.keyOrdinals
      && key in evidence.uniqueKeys[table] && key != {} && key <= evidence.keyOrdinals[table].Keys
      ==> UniqueOn(db.tables[table], evidence.keyOrdinals[table], key)
  }
}
