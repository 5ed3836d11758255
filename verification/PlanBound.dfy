/** The widest row count anywhere in a plan (adapters/pinot/plan.py): the plain recursive
  * definition, and the memoised walk over the node graph that computes it. */
module PlanBound {
  import opened Prelude
  import opened Rels
  import opened JoinKeys

  /** Everything one pricing of a plan reads. */
  datatype Pricing = Pricing(g: Graph, leafDocs: map<string, Option<nat>>, evidence: Evidence)

  /** A leaf's rows: its table's surviving docs. */
  function LeafRows(rel: Rel, leafDocs: map<string, Option<nat>>): Option<nat> {
    if rel.table.Some? && rel.table.value in leafDocs then leafDocs[rel.table.value] else None
  }

  predicate IsJoin(op: Op) { op.Join? || op.Correlate? }

  /** Rows a two-sided join is charged, by which sides are proved to match at most once. */
  function PairedRows(left: nat, right: nat, covered: (bool, bool)): nat {
    (if covered.0 && covered.1 then Min(left, right)
     else if covered.0 then right
     else if covered.1 then left
     else left * right) + left + right
  }

  function JoinRows(p: Pricing, id: string, kids: seq<string>, rows: seq<nat>): nat
    requires |kids| == |rows|
  {
    if |kids| != 2 then Product(rows) + Sum(rows)
    else PairedRows(rows[0], rows[1], CoveredSides(p.g, id, kids, p.evidence))
  }

  /** One node's rows from its children's. */
  function LocalRows(p: Pricing, id: string, rel: Rel, kids: seq<string>, rows: seq<nat>): Option<nat>
    requires |kids| == |rows|
  {
    if rows == [] then LeafRows(rel, p.leafDocs)
    else if rel.op.Union? then Some(Sum(rows))
    else if IsJoin(rel.op) then Some(JoinRows(p, id, kids, rows))
    else Some(Largest(rows))
  }

  /** What each operator is charged, by its kind: a leaf its table's docs, a union all its inputs together, a join
    * of two sides each pair of them and both of them again, a side fewer pairs where it is proved to match at
    * most once, and anything else its widest input. */
  lemma ChargedByKind(p: Pricing, id: string, rel: Rel, kids: seq<string>, rows: seq<nat>)
    requires |kids| == |rows|
    ensures rows == [] ==>
      LocalRows(p, id, rel, kids, rows) == if rel.table.Some? && rel.table.value in p.leafDocs then p.leafDocs[rel.table.value] else None
    ensures rows != [] && rel.op == Union ==> LocalRows(p, id, rel, kids, rows) == Some(Sum(rows))
    ensures |rows| == 2 && (rel.op.Join? || rel.op.Correlate?) ==>
      var (left, right) := CoveredSides(p.g, id, kids, p.evidence);
      LocalRows(p, id, rel, kids, rows) == Some(rows[0] + rows[1] +
        if !left && !right then rows[0] * rows[1] else if !left then rows[0] else if !right then rows[1] else if rows[0] < rows[1] then rows[0] else rows[1])
    ensures |rows| != 2 && rows != [] && (rel.op.Join? || rel.op.Correlate?) ==> LocalRows(p, id, rel, kids, rows) == Some(Product(rows) + Sum(rows))
    ensures rows != [] && !rel.op.Union? && !rel.op.Join? && !rel.op.Correlate? ==>
      exists i :: 0 <= i < |rows| && LocalRows(p, id, rel, kids, rows) == Some(rows[i]) && forall k :: 0 <= k < |rows| ==> rows[k] <= rows[i]
  {
    if rows != [] && !rel.op.Union? && !IsJoin(rel.op) {
      var i :| 0 <= i < |rows| && rows[i] == Largest(rows);
    }
  }

  /** The plain recursion, cut off below the given height. */
  function RowsWithin(p: Pricing, id: string, height: nat): Option<nat>
    decreases height, 0
  {
    if height == 0 || id !in p.g.byId then None
    else
      match Children(p.g, id, p.g.byId[id])
      case None => None
      case Some(kids) =>
        match AllWithin(p, kids, height - 1)
        case None => None
        case Some(rows) => LocalRows(p, id, p.g.byId[id], kids, rows)
  }

  function AllWithin(p: Pricing, ids: seq<string>, height: nat): (rows: Option<seq<nat>>)
    ensures rows.Some? ==> |rows.value| == |ids|
    decreases height, 1 + |ids|
  {
    if ids == [] then Some([])
    else
      var first, rest := RowsWithin(p, ids[0], height), AllWithin(p, ids[1..], height);
      if first.None? || rest.None? then None else Some([first.value] + rest.value)
  }

  /** The recursive definition gives this node n rows. */
  ghost predicate HasRows(p: Pricing, id: string, n: nat) {
    exists height: nat :: RowsWithin(p, id, height) == Some(n)
  }

  /** n is the largest row count of any node, and every node has one. */
  ghost predicate IsWidest(p: Pricing, n: nat) {
    && (forall id :: id in p.g.order ==> exists m: nat :: HasRows(p, id, m) && m <= n)
    && exists id :: id in p.g.order && HasRows(p, id, n)
  }

  lemma {:induction false} AllWithinAt(p: Pricing, ids: seq<string>, height: nat, i: nat)
    requires i < |ids| && AllWithin(p, ids, height).Some?
    ensures RowsWithin(p, ids[i], height) == Some(AllWithin(p, ids, height).value[i])
  {
    if i > 0 {
      AllWithinAt(p, ids[1..], height, i - 1);
    }
  }

  lemma {:induction false} AllWithinFrom(p: Pricing, ids: seq<string>, height: nat, rows: seq<nat>)
    requires |rows| == |ids|
    requires forall i :: 0 <= i < |ids| ==> RowsWithin(p, ids[i], height) == Some(rows[i])
    ensures AllWithin(p, ids, height) == Some(rows)
  {
    if ids != [] {
      forall i | 0 <= i < |ids[1..]| ensures RowsWithin(p, ids[1..][i], height) == Some(rows[1..][i]) {
        assert RowsWithin(p, ids[1 + i], height) == Some(rows[1 + i]);
      }
      AllWithinFrom(p, ids[1..], height, rows[1..]);
      assert rows == [rows[0]] + rows[1..];
    }
  }

  /** Once the recursion answers it keeps its answer. */
  lemma {:induction false} RowsStable(p: Pricing, id: string, low: nat, high: nat)
    requires low <= high && RowsWithin(p, id, low).Some?
    ensures RowsWithin(p, id, high) == RowsWithin(p, id, low)
    decreases low, 0
  {
    AllStable(p, Children(p.g, id, p.g.byId[id]).value, low - 1, high - 1);
  }

  lemma {:induction false} AllStable(p: Pricing, ids: seq<string>, low: nat, high: nat)
    requires low <= high && AllWithin(p, ids, low).Some?
    ensures AllWithin(p, ids, high) == AllWithin(p, ids, low)
    decreases low, 1 + |ids|
  {
    if ids != [] {
      RowsStable(p, ids[0], low, high);
      AllStable(p, ids[1..], low, high);
    }
  }

  lemma RowsUnique(p: Pricing, id: string, m: nat, n: nat)
    requires HasRows(p, id, m) && HasRows(p, id, n)
    ensures m == n
  {
    var a: nat :| RowsWithin(p, id, a) == Some(m);
    var b: nat :| RowsWithin(p, id, b) == Some(n);
    RowsStable(p, id, Min(a, b), Max(a, b));
  }

  /** A node whose children all have rows has the rows its own operator makes of them. */
  lemma {:induction false} HasRowsFromChildren(p: Pricing, id: string, kids: seq<string>, rows: seq<nat>, n: nat)
    requires id in p.g.byId && Children(p.g, id, p.g.byId[id]) == Some(kids) && |rows| == |kids|
    requires forall i :: 0 <= i < |kids| ==> HasRows(p, kids[i], rows[i])
    requires LocalRows(p, id, p.g.byId[id], kids, rows) == Some(n)
    ensures HasRows(p, id, n)
  {
    var height := CommonHeight(p, kids, rows);
    AllWithinFrom(p, kids, height, rows);
    assert RowsWithin(p, id, height + 1) == Some(n);
  }

  lemma {:induction false} CommonHeight(p: Pricing, ids: seq<string>, rows: seq<nat>) returns (height: nat)
    requires |rows| == |ids|
    requires forall i :: 0 <= i < |ids| ==> HasRows(p, ids[i], rows[i])
    ensures forall i :: 0 <= i < |ids| ==> RowsWithin(p, ids[i], height) == Some(rows[i])
  {
    height := 0;
    for k := 0 to |ids|
      invariant forall i :: 0 <= i < k ==> RowsWithin(p, ids[i], height) == Some(rows[i])
    {
      var h: nat :| RowsWithin(p, ids[k], h) == Some(rows[k]);
      forall i | 0 <= i <= k ensures RowsWithin(p, ids[i], Max(h, height)) == Some(rows[i]) {
        RowsStable(p, ids[i], if i < k then height else h, Max(h, height));
      }
      height := Max(h, height);
    }
  }

  ghost predicate IsChild(p: Pricing, parent: string, child: string) {
    && parent in p.g.byId
    && Children(p.g, parent, p.g.byId[parent]).Some?
    && child in Children(p.g, parent, p.g.byId[parent]).value
  }

  ghost predicate StepsDown(p: Pricing, path: seq<string>, i: nat)
    requires i + 1 < |path|
  {
    IsChild(p, path[i], path[i + 1])
  }

  /** A walk from child to child. */
  ghost predicate Descends(p: Pricing, path: seq<string>) {
    forall i: nat :: i + 1 < |path| ==> StepsDown(p, path, i)
  }

  /** A node's input has rows one level lower. */
  lemma ChildRows(p: Pricing, parent: string, child: string, height: nat)
    requires IsChild(p, parent, child) && RowsWithin(p, parent, height).Some?
    ensures height > 0 && RowsWithin(p, child, height - 1).Some?
  {
    var kids := Children(p.g, parent, p.g.byId[parent]).value;
    var i :| 0 <= i < |kids| && kids[i] == child;
    AllWithinAt(p, kids, height - 1, i);
  }

  ghost predicate Passes(path: seq<string>, known: (string, int) -> bool, k: nat, h: int)
    requires k + 1 < |path|
  {
    known(path[k], h) ==> h > 0 && known(path[k + 1], h - 1)
  }

  /** Whatever passes from each node of a path to the next one level lower reaches its end that much lower. */
  lemma {:induction false} PassesDown(path: seq<string>, known: (string, int) -> bool, height: int, i: nat)
    requires i < |path| && known(path[0], height)
    requires forall k: nat, h: int :: k + 1 < |path| ==> Passes(path, known, k, h)
    ensures known(path[i], height - i)
    decreases i
  {
    if i > 0 {
      PassesDown(path, known, height, i - 1);
      assert Passes(path, known, i - 1, height - (i - 1));
    }
  }

  /** Below a node with rows every path ends within its height, at a node with rows. */
  lemma DescendingRows(p: Pricing, path: seq<string>, height: nat)
    requires path != [] && Descends(p, path) && RowsWithin(p, path[0], height).Some?
    ensures |path| - 1 <= height && RowsWithin(p, path[|path| - 1], height - (|path| - 1)).Some?
  {
    var known: (string, int) -> bool := (id, h) => h >= 0 && RowsWithin(p, id, h).Some?;
    forall k: nat, h: int | k + 1 < |path| ensures Passes(path, known, k, h) {
      assert StepsDown(p, path, k);
      if known(path[k], h) {
        ChildRows(p, path[k], path[k + 1], h);
      }
    }
    PassesDown(path, known, height, |path| - 1);
  }

  /** A node with rows lies on no cycle, whatever its length. */
  lemma SizedNodesAreAcyclic(p: Pricing, path: seq<string>, n: nat)
    requires |path| > 1 && Descends(p, path) && HasRows(p, path[0], n)
    ensures path[|path| - 1] != path[0]
  {
    if path[|path| - 1] == path[0] {
      var height: nat :| RowsWithin(p, path[0], height) == Some(n);
      while true
        invariant RowsWithin(p, path[0], height).Some?
        decreases height
      {
        DescendingRows(p, path, height);
        height := height - (|path| - 1);
      }
    }
  }

  // ----- when the walk answers -----

  /** The tables whose size is known. */
  function Sized(leafDocs: map<string, Option<nat>>): set<string> { set table | table in leafDocs && leafDocs[table].Some? }

  predicate LeafSized(rel: Rel, sized: set<string>) { rel.table.Some? && rel.table.value in sized }

  /** One call of the depth-capped walk, from the nodes already answered and those still open above it: the
    * nodes answered after it, or None if it meets the cap, a cycle, a dangling id, unreadable inputs or an
    * unsized leaf. The sizes themselves and the key evidence play no part. */
  function Answered(g: Graph, sized: set<string>, id: string, depth: nat, done: set<string>, open: set<string>): Option<set<string>>
    requires depth <= MAX_DEPTH + 1
    decreases MAX_DEPTH + 1 - depth, 1, 0
  {
    if depth > MAX_DEPTH then None
    else if id in done then Some(done)
    else if id in open || id !in g.byId then None
    else
      match Children(g, id, g.byId[id])
      case None => None
      case Some(kids) =>
        match AllAnswered(g, sized, kids, depth, done, open + {id})
        case None => None
        case Some(after) => if kids == [] && !LeafSized(g.byId[id], sized) then None else Some(after + {id})
  }

  function AllAnswered(g: Graph, sized: set<string>, ids: seq<string>, depth: nat, done: set<string>, open: set<string>): Option<set<string>>
    requires depth <= MAX_DEPTH
    decreases MAX_DEPTH + 1 - depth, 0, |ids|
  {
    if ids == [] then Some(done)
    else
      match Answered(g, sized, ids[0], depth + 1, done, open)
      case None => None
      case Some(after) => AllAnswered(g, sized, ids[1..], depth, after, open)
  }

  /** Every node of the list, in order, each from the top. */
  predicate OrderAnswered(g: Graph, sized: set<string>, ids: seq<string>, done: set<string>)
    decreases |ids|
  {
    ids == [] || (Answered(g, sized, ids[0], 0, done, {}).Some? && OrderAnswered(g, sized, ids[1..], Answered(g, sized, ids[0], 0, done, {}).value))
  }

  predicate Answers(g: Graph, sized: set<string>) { g.order != [] && OrderAnswered(g, sized, g.order, {}) }

  /** Each node's inputs come before it in the list, and every leaf is a table of known size. */
  ghost predicate OrderedAndSized(g: Graph, sized: set<string>) {
    forall i :: 0 <= i < |g.order| ==> ReadyAt(g, sized, i)
  }

  ghost predicate ReadyAt(g: Graph, sized: set<string>, i: nat)
    requires i < |g.order|
  {
    var id := g.order[i];
    && id in g.byId
    && Children(g, id, g.byId[id]).Some?
    && var kids := Children(g, id, g.byId[id]).value;
    && (forall kid :: kid in kids ==> kid in g.order[..i])
    && (kids == [] ==> LeafSized(g.byId[id], sized))
  }

  lemma {:induction false} KnownInputsAnswer(g: Graph, sized: set<string>, ids: seq<string>, depth: nat, done: set<string>, open: set<string>)
    requires depth < MAX_DEPTH && forall id :: id in ids ==> id in done
    ensures AllAnswered(g, sized, ids, depth, done, open) == Some(done)
    decreases |ids|
  {
    if ids != [] {
      assert ids[0] in ids;
      KnownInputsAnswer(g, sized, ids[1..], depth, done, open);
    }
  }

  lemma {:induction false} OrderedAnswersFrom(g: Graph, sized: set<string>, i: nat, done: set<string>)
    requires i <= |g.order| && OrderedAndSized(g, sized) && forall id :: id in done <==> id in g.order[..i]
    ensures OrderAnswered(g, sized, g.order[i..], done)
    decreases |g.order| - i
  {
    if i < |g.order| {
      var id := g.order[i];
      assert ReadyAt(g, sized, i);
      var kids := Children(g, id, g.byId[id]).value;
      KnownInputsAnswer(g, sized, kids, 0, done, {id});
      assert {} + {id} == {id};
      assert Answered(g, sized, id, 0, done, {}) == Some(if id in done then done else done + {id});
      assert g.order[..i + 1] == g.order[..i] + [id];
      OrderedAnswersFrom(g, sized, i + 1, done + {id});
      assert g.order[i..][1..] == g.order[i + 1..];
      assert id in done ==> done + {id} == done;
    }
  }

  /** A list in dependency order with every leaf sized always answers: the cap cannot stop it. */
  lemma OrderedAnswers(g: Graph, sized: set<string>)
    requires g.order != [] && OrderedAndSized(g, sized)
    ensures Answers(g, sized)
  {
    OrderedAnswersFrom(g, sized, 0, {});
    assert g.order[0..] == g.order;
  }

  /** A node whose row count is found within the height still under the cap answers, whatever is open above it. */
  lemma {:induction false} LowNodeAnswers(p: Pricing, id: string, height: nat, depth: nat, done: set<string>, open: set<string>)
    requires RowsWithin(p, id, height).Some? && depth + height <= MAX_DEPTH + 1
    requires forall o :: o in open ==> RowsWithin(p, o, height).None?
    ensures Answered(p.g, Sized(p.leafDocs), id, depth, done, open).Some?
    decreases height, 0
  {
    if RowsWithin(p, id, height - 1).Some? {
      forall o | o in open ensures RowsWithin(p, o, height - 1).None? {
        StaysUnknown(p, o, height);
      }
      LowNodeAnswers(p, id, height - 1, depth, done, open);
    } else if id !in done {
      var kids := Children(p.g, id, p.g.byId[id]).value;
      forall o | o in open + {id} ensures RowsWithin(p, o, height - 1).None? {
        if o in open {
          StaysUnknown(p, o, height);
        }
      }
      LowNodesAnswer(p, kids, height - 1, depth, done, open + {id});
    }
  }

  lemma {:induction false} LowNodesAnswer(p: Pricing, ids: seq<string>, height: nat, depth: nat, done: set<string>, open: set<string>)
    requires AllWithin(p, ids, height).Some? && depth + 1 + height <= MAX_DEPTH + 1
    requires forall o :: o in open ==> RowsWithin(p, o, height).None?
    ensures AllAnswered(p.g, Sized(p.leafDocs), ids, depth, done, open).Some?
    decreases height, 1 + |ids|
  {
    if ids != [] {
      LowNodeAnswers(p, ids[0], height, depth + 1, done, open);
      LowNodesAnswer(p, ids[1..], height, depth, Answered(p.g, Sized(p.leafDocs), ids[0], depth + 1, done, open).value, open);
    }
  }

  /** What is not known within a height is not known within a lower one. */
  lemma StaysUnknown(p: Pricing, id: string, height: nat)
    requires height > 0 && RowsWithin(p, id, height).None?
    ensures RowsWithin(p, id, height - 1).None?
  {
    if RowsWithin(p, id, height - 1).Some? {
      RowsStable(p, id, height - 1, height);
    }
  }

  lemma {:induction false} LowOrderAnswers(p: Pricing, ids: seq<string>, done: set<string>)
    requires forall i :: 0 <= i < |ids| ==> RowsWithin(p, ids[i], MAX_DEPTH + 1).Some?
    ensures OrderAnswered(p.g, Sized(p.leafDocs), ids, done)
    decreases |ids|
  {
    if ids != [] {
      LowNodeAnswers(p, ids[0], MAX_DEPTH + 1, 0, done, {});
      LowOrderAnswers(p, ids[1..], Answered(p.g, Sized(p.leafDocs), ids[0], 0, done, {}).value);
    }
  }

  lemma {:induction false} AnsweredGrows(g: Graph, sized: set<string>, id: string, depth: nat, done: set<string>, open: set<string>)
    requires depth <= MAX_DEPTH + 1 && Answered(g, sized, id, depth, done, open).Some?
    ensures done + {id} <= Answered(g, sized, id, depth, done, open).value
    decreases MAX_DEPTH + 1 - depth, 1, 0
  {
    if id !in done {
      AllAnsweredGrows(g, sized, Children(g, id, g.byId[id]).value, depth, done, open + {id});
    }
  }

  lemma {:induction false} AllAnsweredGrows(g: Graph, sized: set<string>, ids: seq<string>, depth: nat, done: set<string>, open: set<string>)
    requires depth <= MAX_DEPTH && AllAnswered(g, sized, ids, depth, done, open).Some?
    ensures done <= AllAnswered(g, sized, ids, depth, done, open).value
    ensures forall i :: 0 <= i < |ids| ==> ids[i] in AllAnswered(g, sized, ids, depth, done, open).value
    decreases MAX_DEPTH + 1 - depth, 0, |ids|
  {
    if ids != [] {
      AnsweredGrows(g, sized, ids[0], depth + 1, done, open);
      AllAnsweredGrows(g, sized, ids[1..], depth, Answered(g, sized, ids[0], depth + 1, done, open).value, open);
    }
  }

  ghost predicate Sizable(p: Pricing, id: string) { exists n: nat :: HasRows(p, id, n) }

  ghost function RowsOf(p: Pricing, id: string): (n: nat)
    requires Sizable(p, id)
    ensures HasRows(p, id, n)
  {
    var n: nat :| HasRows(p, id, n);
    n
  }

  lemma SizableFromInputs(p: Pricing, id: string)
    requires id in p.g.byId && Children(p.g, id, p.g.byId[id]).Some?
    requires forall i :: 0 <= i < |Children(p.g, id, p.g.byId[id]).value| ==> Sizable(p, Children(p.g, id, p.g.byId[id]).value[i])
    requires Children(p.g, id, p.g.byId[id]).value == [] ==> LeafSized(p.g.byId[id], Sized(p.leafDocs))
    ensures Sizable(p, id)
  {
    var kids := Children(p.g, id, p.g.byId[id]).value;
    var rows := seq(|kids|, i requires 0 <= i < |kids| => RowsOf(p, kids[i]));
    HasRowsFromChildren(p, id, kids, rows, LocalRows(p, id, p.g.byId[id], kids, rows).value);
  }

  /** What a call answers has a row count. */
  lemma {:induction false} AnsweredAreSizable(p: Pricing, id: string, depth: nat, done: set<string>, open: set<string>)
    requires depth <= MAX_DEPTH + 1 && Answered(p.g, Sized(p.leafDocs), id, depth, done, open).Some?
    requires forall d :: d in done ==> Sizable(p, d)
    ensures forall d :: d in Answered(p.g, Sized(p.leafDocs), id, depth, done, open).value ==> Sizable(p, d)
    decreases MAX_DEPTH + 1 - depth, 1, 0
  {
    if id !in done {
      var kids := Children(p.g, id, p.g.byId[id]).value;
      AllAnsweredAreSizable(p, kids, depth, done, open + {id});
      AllAnsweredGrows(p.g, Sized(p.leafDocs), kids, depth, done, open + {id});
      SizableFromInputs(p, id);
    }
  }

  lemma {:induction false} AllAnsweredAreSizable(p: Pricing, ids: seq<string>, depth: nat, done: set<string>, open: set<string>)
    requires depth <= MAX_DEPTH && AllAnswered(p.g, Sized(p.leafDocs), ids, depth, done, open).Some?
    requires forall d :: d in done ==> Sizable(p, d)
    ensures forall d :: d in AllAnswered(p.g, Sized(p.leafDocs), ids, depth, done, open).value ==> Sizable(p, d)
    decreases MAX_DEPTH + 1 - depth, 0, |ids|
  {
    if ids != [] {
      AnsweredAreSizable(p, ids[0], depth + 1, done, open);
      AllAnsweredAreSizable(p, ids[1..], depth, Answered(p.g, Sized(p.leafDocs), ids[0], depth + 1, done, open).value, open);
    }
  }

  lemma {:induction false} OrderIsSizable(p: Pricing, ids: seq<string>, done: set<string>)
    requires OrderAnswered(p.g, Sized(p.leafDocs), ids, done) && forall d :: d in done ==> Sizable(p, d)
    ensures forall i :: 0 <= i < |ids| ==> Sizable(p, ids[i])
    decreases |ids|
  {
    if ids != [] {
      AnsweredAreSizable(p, ids[0], 0, done, {});
      AnsweredGrows(p.g, Sized(p.leafDocs), ids[0], 0, done, {});
      OrderIsSizable(p, ids[1..], Answered(p.g, Sized(p.leafDocs), ids[0], 0, done, {}).value);
    }
  }

  /** On a plan no deeper than the cap, in whatever order, the walk answers exactly when every node has a row
    * count: no cycle, no dangling id, no unreadable inputs and no unsized leaf anywhere. */
  lemma ShallowPlansAnswerIff(p: Pricing)
    requires p.g.order != []
    requires forall i :: 0 <= i < |p.g.order| && Sizable(p, p.g.order[i]) ==> RowsWithin(p, p.g.order[i], 401).Some?
    ensures Answers(p.g, Sized(p.leafDocs)) <==> forall i :: 0 <= i < |p.g.order| ==> Sizable(p, p.g.order[i])
  {
    if Answers(p.g, Sized(p.leafDocs)) {
      OrderIsSizable(p, p.g.order, {});
    }
    if forall i :: 0 <= i < |p.g.order| ==> Sizable(p, p.g.order[i]) {
      LowOrderAnswers(p, p.g.order, {});
    }
  }

  // ----- the memoised walk -----

  /** The nodes a memo answers, and those it only claims. */
  function Done(memo: map<string, Option<nat>>): set<string> { set id | id in memo && memo[id].Some? }

  function Open(memo: map<string, Option<nat>>): set<string> { set id | id in memo && memo[id].None? }

  lemma Claiming(memo: map<string, Option<nat>>, id: string)
    requires id !in memo
    ensures Done(memo[id := None]) == Done(memo) && Open(memo[id := None]) == Open(memo) + {id}
  {
  }

  lemma Settling(memo: map<string, Option<nat>>, id: string, rows: nat)
    requires id in memo && memo[id].None?
    ensures Done(memo[id := Some(rows)]) == Done(memo) + {id} && Open(memo[id := Some(rows)]) == Open(memo) - {id}
  {
  }

  /** The walk went as the specification says: it stopped, or it knows these nodes and left the same ones open. */
  ghost predicate Went(rows: bool, memo: map<string, Option<nat>>, open: set<string>, answered: Option<set<string>>) {
    (rows <==> answered.Some?) && (rows ==> Done(memo) == answered.value && Open(memo) == open)
  }

  /** The shared state of one walk: the memo, and every count recorded so far. */
  class RowWalk {
    const p: Pricing
    var memo: map<string, Option<nat>>
    var widest: seq<nat>
    ghost var finished: seq<string>

    ghost predicate Valid()
      reads this
    {
      && |finished| == |widest|
      && Distinct(finished)
      && (forall i :: 0 <= i < |finished| ==>
            finished[i] in memo && memo[finished[i]] == Some(widest[i]) && HasRows(p, finished[i], widest[i]))
      && (forall id :: id in memo && memo[id].Some? ==> id in finished)
    }

    constructor (p: Pricing)
      ensures Valid() && this.p == p && memo == map[]
    {
      this.p := p;
      memo, widest, finished := map[], [], [];
    }

    method Rows(id: string, depth: nat) returns (rows: Option<nat>)
      requires Valid() && depth <= MAX_DEPTH + 1
      modifies this
      ensures Valid()
      ensures rows.Some? ==> id in memo && memo[id] == rows && HasRows(p, id, rows.value)
      ensures depth <= MAX_DEPTH && id in old(memo) ==> rows == old(memo)[id] && memo == old(memo)
      ensures Went(rows.Some?, memo, Open(old(memo)), Answered(p.g, Sized(p.leafDocs), id, depth, Done(old(memo)), Open(old(memo))))
      decreases MAX_DEPTH + 1 - depth, 1
    {
      if depth > MAX_DEPTH {
        return None;
      }
      if id in memo {
        rows := memo[id];
        if rows.Some? {
          assert id in finished;
        }
        return;
      }
      Claiming(memo, id);
      memo := memo[id := None];
      if id !in p.g.byId {
        return None;
      }
      var rel := p.g.byId[id];
      var kids := Children(p.g, id, rel);
      if kids.None? {
        return None;
      }
      var childRows := InputRows(kids.value, depth);
      if childRows.None? {
        return None;
      }
      assert id in Open(memo);
      rows := Settle(id, rel, kids.value, childRows.value);
    }

    /** The inputs' answers, in order, with the node's own slot claimed; None at the first unknown one. */
    method InputRows(kids: seq<string>, depth: nat) returns (rows: Option<seq<nat>>)
      requires Valid() && depth <= MAX_DEPTH
      modifies this
      ensures Valid()
      ensures rows.Some? ==> |rows.value| == |kids| && forall k :: 0 <= k < |kids| ==> HasRows(p, kids[k], rows.value[k])
      ensures Went(rows.Some?, memo, Open(old(memo)), AllAnswered(p.g, Sized(p.leafDocs), kids, depth, Done(old(memo)), Open(old(memo))))
      decreases MAX_DEPTH + 1 - depth, 0
    {
      var known: seq<nat> := [];
      ghost var sized, open := Sized(p.leafDocs), Open(memo);
      assert kids[0..] == kids;
      for i := 0 to |kids|
        invariant Valid() && Open(memo) == open
        invariant |known| == i && forall k :: 0 <= k < i ==> HasRows(p, kids[k], known[k])
        invariant AllAnswered(p.g, sized, kids, depth, Done(old(memo)), open) == AllAnswered(p.g, sized, kids[i..], depth, Done(memo), open)
      {
        assert kids[i..][1..] == kids[i + 1..];
        var row := Rows(kids[i], depth + 1);
        if row.None? {
          return None;
        }
        known := known + [row.value];
      }
      rows := Some(known);
    }

    /** The node's own answer from its children's, memoised and recorded. */
    method Settle(id: string, rel: Rel, kids: seq<string>, childRows: seq<nat>) returns (rows: Option<nat>)
      requires Valid() && id in memo && memo[id] == None
      requires id in p.g.byId && rel == p.g.byId[id] && Children(p.g, id, rel) == Some(kids)
      requires |childRows| == |kids| && forall k :: 0 <= k < |kids| ==> HasRows(p, kids[k], childRows[k])
      modifies this
      ensures Valid() && rows == LocalRows(p, id, rel, kids, childRows)
      ensures rows.Some? ==> HasRows(p, id, rows.value)
      ensures rows.None? <==> kids == [] && !LeafSized(rel, Sized(p.leafDocs))
      ensures memo == old(memo)[id := rows]
      ensures rows.Some? ==> Done(memo) == Done(old(memo)) + {id} && Open(memo) == Open(old(memo)) - {id}
      ensures finished == if rows.Some? then old(finished) + [id] else old(finished)
    {
      if childRows == [] {
        rows := LeafRows(rel, p.leafDocs);
      } else if rel.op.Union? {
        rows := Some(Sum(childRows));
      } else if IsJoin(rel.op) {
        var joined := JoinCharge(id, kids, childRows);
        rows := Some(joined);
      } else {
        rows := Some(Largest(childRows));
      }
      if rows.Some? {
        Settling(memo, id, rows.value);
      }
      memo := memo[id := rows];
      if rows.Some? {
        HasRowsFromChildren(p, id, kids, childRows, rows.value);
        assert id !in finished;
        widest, finished := widest + [rows.value], finished + [id];
      }
    }

    method JoinCharge(id: string, kids: seq<string>, childRows: seq<nat>) returns (rows: nat)
      requires |kids| == |childRows|
      ensures rows == JoinRows(p, id, kids, childRows)
    {
      if |kids| != 2 {
        return Product(childRows) + Sum(childRows);
      }
      var left, right := ReadCoveredSides(p.g, id, kids, p.evidence);
      rows := PairedRows(childRows[0], childRows[1], (left, right));
    }
  }

  lemma WidestOfFinished(walk: RowWalk)
    requires walk.Valid() && walk.widest != []
    requires forall id :: id in walk.p.g.order <==> id in walk.finished
    ensures IsWidest(walk.p, Largest(walk.widest))
  {
    var n := Largest(walk.widest);
    forall id | id in walk.p.g.order ensures exists m: nat :: HasRows(walk.p, id, m) && m <= n {
      assert id in walk.finished;
      var i :| 0 <= i < |walk.finished| && walk.finished[i] == id;
      assert HasRows(walk.p, id, walk.widest[i]);
    }
    var i :| 0 <= i < |walk.widest| && walk.widest[i] == n;
    assert walk.finished[i] in walk.p.g.order;
  }

  /** Visits every node once in document order. */
  method WalkInOrder(p: Pricing) returns (bound: Option<nat>)
    requires forall id :: id in p.g.byId ==> id in p.g.order
    ensures bound.Some? <==> Answers(p.g, Sized(p.leafDocs))
    ensures bound.Some? ==> IsWidest(p, bound.value)
  {
    var order := p.g.order;
    var walk := new RowWalk(p);
    ghost var sized := Sized(p.leafDocs);
    assert order[0..] == order && Done(walk.memo) == {} && Open(walk.memo) == {};
    for i := 0 to |order|
      invariant fresh(walk) && walk.Valid() && walk.p == p && Open(walk.memo) == {}
      invariant forall k :: 0 <= k < i ==> order[k] in Done(walk.memo)
      invariant OrderAnswered(p.g, sized, order, {}) <==> OrderAnswered(p.g, sized, order[i..], Done(walk.memo))
    {
      assert order[i..][1..] == order[i + 1..];
      ghost var before := Done(walk.memo);
      var rows := walk.Rows(order[i], 0);
      if rows.None? {
        return None;
      }
      AnsweredGrows(p.g, sized, order[i], 0, before, {});
    }
    forall id | id in walk.finished ensures id in order {
      assert id in p.g.byId by {
        var i :| 0 <= i < |walk.finished| && walk.finished[i] == id;
        assert HasRows(p, id, walk.widest[i]);
      }
    }
    if walk.widest == [] {
      return None;
    }
    WidestOfFinished(walk);
    bound := Some(Largest(walk.widest));
  }

  /** An answer for a node list: a number exactly when the list has an index and the walk of it answers, and
    * then the widest node of an acyclic, fully sized plan. */
  ghost predicate IsBound(rels: seq<Rel>, leafDocs: map<string, Option<nat>>, evidence: Evidence, bound: Option<nat>) {
    && (bound.Some? <==> exists g :: Indexes(g, rels) && Answers(g, Sized(leafDocs)))
    && (bound.Some? ==> exists g :: Indexes(g, rels) && IsWidest(Pricing(g, leafDocs, evidence), bound.value))
  }

  method MaxIntermediateRows(rels: seq<Rel>, leafDocs: map<string, Option<nat>>, evidence: Evidence)
    returns (bound: Option<nat>)
    ensures IsBound(rels, leafDocs, evidence, bound)
  {
    var indexed := IndexRels(rels);
    forall g | Indexes(g, rels) ensures indexed == Some(g) {
      IndexedAreIndexable(g, rels);
      IndexesOnce(g, indexed.value, rels);
    }
    if indexed.None? {
      return None;
    }
    bound := WalkInOrder(Pricing(indexed.value, leafDocs, evidence));
  }
}
