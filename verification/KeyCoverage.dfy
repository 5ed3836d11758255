/** When a join side counts as keyed (covered_sides in adapters/pinot/keys.py), told from the plan's nodes and the
  * evidence alone. */
module KeyCoverage {
  import opened Prelude
  import opened Rels
  import JoinKeys

  // ----- paths down one side -----

  /** The one input of a node: the only id it lists, or the node before it where it lists none. */
  ghost predicate OnlyInput(g: Graph, id: string, kid: string)
    requires id in g.byId
  {
    || g.byId[id].inputs == Listed([kid])
    || (g.byId[id].inputs == Absent && id in g.previous && g.previous[id] == Some(kid))
  }

  ghost predicate StepsDown(g: Graph, path: seq<string>, i: nat)
    requires i + 1 < |path|
  {
    path[i] in g.byId && (g.byId[path[i]].op in {Project, Filter, Exchange}) && OnlyInput(g, path[i], path[i + 1])
  }

  /** A walk from a node down single inputs through projects, filters and exchanges. */
  ghost predicate PathFrom(g: Graph, id: string, path: seq<string>) {
    path != [] && path[0] == id && path[|path| - 1] in g.byId && forall i: nat :: i + 1 < |path| ==> StepsDown(g, path, i)
  }

  function Last(g: Graph, path: seq<string>): Rel
    requires path != [] && path[|path| - 1] in g.byId
  {
    g.byId[path[|path| - 1]]
  }

  ghost predicate IsProject(g: Graph, id: string) { id in g.byId && g.byId[id].op == Project }

  /** The path ends at the first project on it, which has this many fields, every one of them named. */
  ghost predicate EndsAtFields(g: Graph, id: string, path: seq<string>, width: nat) {
    && PathFrom(g, id, path) && IsProject(g, path[|path| - 1])
    && (forall i :: 0 <= i < |path| - 1 ==> !IsProject(g, path[i]))
    && Last(g, path).fields.Some? && |Last(g, path).fields.value| == width
    && forall k :: 0 <= k < width ==> Last(g, path).fields.value[k].Some?
  }

  /** A side numbers its rows by the fields of its topmost project, at most 400 nodes down. */
  ghost predicate HasWidth(g: Graph, id: string, depth: nat, width: nat) {
    exists path :: |path| <= depth && EndsAtFields(g, id, path, width)
  }

  /** The path ends at the scan of this table. */
  ghost predicate EndsAtScan(g: Graph, id: string, path: seq<string>, table: string) {
    PathFrom(g, id, path) && Last(g, path).op == TableScan && Last(g, path).table == Some(table)
  }

  // ----- columns along a path -----

  /** Every one of a project's fields copies an input. */
  ghost predicate WhollyBare(rel: Rel) {
    && rel.fields.Some? && rel.exprs.Some? && |rel.fields.value| <= |rel.exprs.value|
    && forall k :: 0 <= k < |rel.fields.value| ==> rel.exprs.value[k].BareInput? && rel.exprs.value[k].index >= 0
  }

  /** Column a of what a node emits is column b of its input. */
  ghost predicate Copies(rel: Rel, a: nat, b: nat) {
    if rel.op == Project then WhollyBare(rel) && a < |rel.fields.value| && rel.exprs.value[a] == BareInput(b) else a == b
  }

  ghost predicate Follows(g: Graph, path: seq<string>, columns: seq<nat>) {
    |columns| == |path| && forall i: nat :: i + 1 < |path| ==> path[i] in g.byId && Copies(g.byId[path[i]], columns[i], columns[i + 1])
  }

  /** Column `from` at the top of the path is column `ordinal` of its scan. */
  ghost predicate Reaches(g: Graph, path: seq<string>, from: nat, ordinal: nat)
    requires path != []
  {
    exists columns :: Follows(g, path, columns) && columns[0] == from && columns[|path| - 1] == ordinal
  }

  // ----- the condition -----

  /** The condition itself, or the members of its AND. */
  function Conjuncts(c: Condition): seq<Condition> {
    match c
    case Equals(_) => [c]
    case And(conjuncts) => conjuncts
    case _ => []
  }

  /** The conjunct equates column l of the left side with column r of the right one, written either way round. */
  ghost predicate Equates(c: Condition, left: nat, right: nat, l: nat, r: nat) {
    && l < left && r < right
    && (c == Equals([Input(l), Input(left + r)]) || c == Equals([Input(left + r), Input(l)]))
  }

  ghost predicate EquatesSome(c: Condition, left: nat, right: nat) { exists l, r :: Equates(c, left, right, l, r) }

  /** There is a conjunct, and every one of them equates a column of each side. */
  ghost predicate AllEquate(cs: seq<Condition>, left: nat, right: nat) {
    cs != [] && forall i :: 0 <= i < |cs| ==> EquatesSome(cs[i], left, right)
  }

  // ----- a keyed side -----

  datatype Which = OnTheLeft | OnTheRight

  function Own(kids: seq<string>, which: Which): string
    requires |kids| == 2
  {
    if which.OnTheLeft? then kids[0] else kids[1]
  }

  ghost predicate LocatedBy(g: Graph, c: Condition, left: nat, right: nat, which: Which, path: seq<string>, ordinal: nat, l: nat, r: nat)
    requires path != []
  {
    Equates(c, left, right, l, r) && Reaches(g, path, if which.OnTheLeft? then l else r, ordinal)
  }

  /** Some conjunct's operand on this side is the table's column `ordinal`. */
  ghost predicate Located(g: Graph, cs: seq<Condition>, left: nat, right: nat, which: Which, path: seq<string>, ordinal: nat)
    requires path != []
  {
    exists i: nat, l: nat, r: nat :: i < |cs| && LocatedBy(g, cs[i], left, right, which, path, ordinal, l, r)
  }

  /** Every column of a key the evidence claims is where some operand leads. */
  ghost predicate KeyLocated(g: Graph, cs: seq<Condition>, left: nat, right: nat, which: Which, path: seq<string>,
                             ordinals: map<string, nat>, key: set<string>)
    requires path != []
  {
    key != {} && forall column :: column in key ==> column in ordinals && Located(g, cs, left, right, which, path, ordinals[column])
  }

  /** One table scanned below the side, at most 400 nodes down, and a claimed key of it that is located there. */
  ghost predicate KeyedBelow(g: Graph, side: string, cs: seq<Condition>, left: nat, right: nat, which: Which, evidence: JoinKeys.Evidence,
                             path: seq<string>, table: string) {
    && |path| <= 400 && EndsAtScan(g, side, path, table)
    && table in evidence.uniqueKeys && table in evidence.keyOrdinals
    && exists key :: key in evidence.uniqueKeys[table]
         && KeyLocated(g, cs, left, right, which, path, evidence.keyOrdinals[table], key)
  }

  ghost predicate KeyedAt(g: Graph, id: string, kids: seq<string>, evidence: JoinKeys.Evidence, which: Which, left: nat, right: nat)
    requires |kids| == 2 && id in g.byId
  {
    var cs := Conjuncts(g.byId[id].condition);
    && HasWidth(g, kids[0], 400, left) && HasWidth(g, kids[1], 400, right) && AllEquate(cs, left, right)
    && exists path, table :: KeyedBelow(g, Own(kids, which), cs, left, right, which, evidence, path, table)
  }

  /** The side is keyed: both sides number their rows, every conjunct equates one with the other, and a claimed
    * key of the one table below it is located. */
  ghost predicate Keyed(g: Graph, id: string, kids: seq<string>, evidence: JoinKeys.Evidence, which: Which) {
    |kids| == 2 && id in g.byId && exists left, right :: KeyedAt(g, id, kids, evidence, which, left, right)
  }

  // ----- widths -----

  lemma PathBelow(g: Graph, path: seq<string>)
    requires |path| > 1 && PathFrom(g, path[0], path)
    ensures PathFrom(g, path[1], path[1..]) && StepsDown(g, path, 0)
  {
    forall i: nat | i + 1 < |path[1..]| ensures StepsDown(g, path[1..], i) {
      assert StepsDown(g, path, i + 1);
    }
  }

  lemma PathAbove(g: Graph, id: string, path: seq<string>)
    requires path != [] && PathFrom(g, path[0], path) && StepsDown(g, [id] + path, 0)
    ensures PathFrom(g, id, [id] + path) && ([id] + path)[1..] == path
  {
    forall i: nat | i + 1 < |[id] + path| ensures StepsDown(g, [id] + path, i) {
      if i > 0 {
        assert StepsDown(g, path, i - 1);
      }
    }
  }

  lemma OnlyInputIs(g: Graph, id: string, kid: string)
    requires id in g.byId
    ensures OnlyInput(g, id, kid) <==> JoinKeys.OnlyChild(g, id, g.byId[id]) == Some(kid)
  {
  }

  lemma {:induction false} WidthFrom(g: Graph, id: string, fuel: nat) returns (path: seq<string>)
    requires JoinKeys.SideFields(g, id, fuel).Some?
    ensures |path| <= fuel && EndsAtFields(g, id, path, JoinKeys.SideFields(g, id, fuel).value.width)
    decreases fuel
  {
    if g.byId[id].op.Project? {
      path := [id];
    } else {
      var kid := JoinKeys.OnlyChild(g, id, g.byId[id]).value;
      var below := WidthFrom(g, kid, fuel - 1);
      OnlyInputIs(g, id, kid);
      path := [id] + below;
      PathAbove(g, id, below);
    }
  }

  lemma {:induction false} WidthOfPath(g: Graph, id: string, fuel: nat, path: seq<string>, width: nat)
    requires |path| <= fuel && EndsAtFields(g, id, path, width)
    ensures JoinKeys.SideFields(g, id, fuel).Some? && JoinKeys.SideFields(g, id, fuel).value.width == width
    decreases fuel
  {
    if |path| > 1 {
      PathBelow(g, path);
      OnlyInputIs(g, id, path[1]);
      assert !IsProject(g, path[0]);
      assert forall i :: 0 <= i < |path[1..]| - 1 ==> path[1..][i] == path[i + 1];
      WidthOfPath(g, path[1], fuel - 1, path[1..], width);
    }
  }

  lemma WidthIff(g: Graph, id: string, fuel: nat, width: nat)
    ensures HasWidth(g, id, fuel, width) <==> JoinKeys.SideFields(g, id, fuel).Some? && JoinKeys.SideFields(g, id, fuel).value.width == width
  {
    if HasWidth(g, id, fuel, width) {
      var path :| |path| <= fuel && EndsAtFields(g, id, path, width);
      WidthOfPath(g, id, fuel, path, width);
    }
    if JoinKeys.SideFields(g, id, fuel).Some? {
      var path := WidthFrom(g, id, fuel);
    }
  }

  // ----- columns -----

  lemma ReachesStep(g: Graph, path: seq<string>, from: nat, ordinal: nat)
    requires |path| > 1 && path[0] in g.byId
    ensures Reaches(g, path, from, ordinal) <==> exists next :: Copies(g.byId[path[0]], from, next) && Reaches(g, path[1..], next, ordinal)
  {
    if Reaches(g, path, from, ordinal) {
      var columns :| Follows(g, path, columns) && columns[0] == from && columns[|path| - 1] == ordinal;
      var rest := columns[1..];
      forall i: nat | i + 1 < |path[1..]| ensures path[1..][i] in g.byId && Copies(g.byId[path[1..][i]], rest[i], rest[i + 1]) {
        assert Copies(g.byId[path[i + 1]], columns[i + 1], columns[i + 2]);
      }
      assert Follows(g, path[1..], rest) && rest[|path[1..]| - 1] == ordinal;
      assert Copies(g.byId[path[0]], columns[0], columns[0 + 1]);
    }
    if next :| Copies(g.byId[path[0]], from, next) && Reaches(g, path[1..], next, ordinal) {
      var rest :| Follows(g, path[1..], rest) && rest[0] == next && rest[|path[1..]| - 1] == ordinal;
      var columns := [from] + rest;
      forall i: nat | i + 1 < |path| ensures path[i] in g.byId && Copies(g.byId[path[i]], columns[i], columns[i + 1]) {
        if i > 0 {
          assert path[1..][i - 1] in g.byId && Copies(g.byId[path[1..][i - 1]], rest[i - 1], rest[i - 1 + 1]);
        }
      }
      assert Follows(g, path, columns) && columns[|path| - 1] == ordinal;
    }
  }

  /** A chain of the readers composes exactly what the path leads to. */
  ghost predicate Agree(g: Graph, path: seq<string>, chain: seq<string>)
    requires path != []
  {
    forall from: nat, ordinal: nat :: AgreeAt(g, path, chain, from, ordinal)
  }

  ghost predicate AgreeAt(g: Graph, path: seq<string>, chain: seq<string>, from: nat, ordinal: nat)
    requires path != []
  {
    Reaches(g, path, from, ordinal) <==> JoinKeys.Composed(g, chain, from) == Some(ordinal)
  }

  lemma AgreeAtScan(g: Graph, id: string)
    ensures Agree(g, [id], [])
  {
    forall from: nat, ordinal: nat ensures AgreeAt(g, [id], [], from, ordinal) {
      if from == ordinal {
        var columns: seq<nat> := [from];
        assert Follows(g, [id], columns);
      }
    }
  }

  lemma CopiesIs(rel: Rel, a: nat, b: nat)
    requires rel.op == Project
    ensures Copies(rel, a, b) <==> JoinKeys.ProjectReads(rel).Some? && a < |JoinKeys.ProjectReads(rel).value| && JoinKeys.ProjectReads(rel).value[a] == b
  {
    assert WhollyBare(rel) <==> JoinKeys.ProjectReads(rel).Some?;
  }

  lemma AgreeAboveAt(g: Graph, path: seq<string>, chain: seq<string>, from: nat, ordinal: nat)
    requires |path| > 1 && path[0] in g.byId && Agree(g, path[1..], chain)
    ensures AgreeAt(g, path, [path[0]] + chain, from, ordinal)
  {
    var rel, longer := g.byId[path[0]], [path[0]] + chain;
    assert longer[1..] == chain;
    ReachesStep(g, path, from, ordinal);
    if rel.op != Project {
      assert Copies(rel, from, from) && AgreeAt(g, path[1..], chain, from, ordinal);
    } else if JoinKeys.ProjectReads(rel).Some? && from < |JoinKeys.ProjectReads(rel).value| {
      var next := JoinKeys.ProjectReads(rel).value[from];
      CopiesIs(rel, from, next);
      assert AgreeAt(g, path[1..], chain, next, ordinal);
      forall other: nat | Copies(rel, from, other) ensures other == next {
        CopiesIs(rel, from, other);
      }
    } else {
      forall other: nat ensures !Copies(rel, from, other) {
        CopiesIs(rel, from, other);
      }
    }
  }

  lemma AgreeAbove(g: Graph, path: seq<string>, chain: seq<string>)
    requires |path| > 1 && path[0] in g.byId && Agree(g, path[1..], chain)
    ensures Agree(g, path, [path[0]] + chain)
  {
    var longer := [path[0]] + chain;
    forall from: nat, ordinal: nat ensures AgreeAt(g, path, longer, from, ordinal) {
      AgreeAboveAt(g, path, chain, from, ordinal);
    }
  }

  /** Above the topmost project nothing is renumbered. */
  lemma AgreeOver(g: Graph, path: seq<string>, chain: seq<string>)
    requires |path| > 1 && path[0] in g.byId && g.byId[path[0]].op != Project && Agree(g, path[1..], chain)
    ensures Agree(g, path, chain)
  {
    forall from: nat, ordinal: nat ensures AgreeAt(g, path, chain, from, ordinal) {
      ReachesStep(g, path, from, ordinal);
      assert Copies(g.byId[path[0]], from, from) && AgreeAt(g, path[1..], chain, from, ordinal);
    }
  }

  // ----- scans -----

  lemma {:induction false} ChainFrom(g: Graph, id: string, fuel: nat) returns (path: seq<string>)
    requires JoinKeys.ChainDown(g, id, fuel).Some?
    ensures |path| <= fuel && EndsAtScan(g, id, path, JoinKeys.ChainDown(g, id, fuel).value.1)
    decreases fuel
  {
    if g.byId[id].op.TableScan? {
      path := [id];
    } else {
      var kid := JoinKeys.OnlyChild(g, id, g.byId[id]).value;
      var below := ChainFrom(g, kid, fuel - 1);
      OnlyInputIs(g, id, kid);
      path := [id] + below;
      PathAbove(g, id, below);
    }
  }

  lemma {:induction false} ChainOfPath(g: Graph, id: string, fuel: nat, path: seq<string>, table: string)
    requires |path| <= fuel && EndsAtScan(g, id, path, table)
    ensures JoinKeys.ChainDown(g, id, fuel).Some? && JoinKeys.ChainDown(g, id, fuel).value.1 == table
    ensures Agree(g, path, JoinKeys.ChainDown(g, id, fuel).value.0)
    decreases fuel
  {
    if |path| > 1 {
      PathBelow(g, path);
      OnlyInputIs(g, id, path[1]);
      ChainOfPath(g, path[1], fuel - 1, path[1..], table);
      AgreeAbove(g, path, JoinKeys.ChainDown(g, path[1], fuel - 1).value.0);
    } else {
      AgreeAtScan(g, id);
      assert path == [id];
    }
  }

  lemma {:induction false} SideFrom(g: Graph, id: string, fuel: nat) returns (path: seq<string>)
    requires JoinKeys.SideFields(g, id, fuel).Some? && JoinKeys.SideFields(g, id, fuel).value.table.Some?
    ensures |path| <= fuel && EndsAtScan(g, id, path, JoinKeys.SideFields(g, id, fuel).value.table.value)
    decreases fuel
  {
    if g.byId[id].op.Project? {
      path := ChainFrom(g, id, fuel);
    } else {
      var kid := JoinKeys.OnlyChild(g, id, g.byId[id]).value;
      var below := SideFrom(g, kid, fuel - 1);
      OnlyInputIs(g, id, kid);
      path := [id] + below;
      PathAbove(g, id, below);
    }
  }

  lemma {:induction false} SideOfPath(g: Graph, id: string, fuel: nat, path: seq<string>, table: string)
    requires |path| <= fuel && EndsAtScan(g, id, path, table) && JoinKeys.SideFields(g, id, fuel).Some?
    ensures var side := JoinKeys.SideFields(g, id, fuel).value;
      side.table == Some(table) && side.chain != [] && Agree(g, path, side.chain)
    decreases fuel
  {
    assert |path| > 1;
    PathBelow(g, path);
    OnlyInputIs(g, id, path[1]);
    if g.byId[id].op.Project? {
      ChainOfPath(g, id, fuel, path, table);
      var chain := JoinKeys.ChainDown(g, id, fuel).value.0;
      assert [] + chain == chain;
    } else {
      SideOfPath(g, path[1], fuel - 1, path[1..], table);
      AgreeOver(g, path, JoinKeys.SideFields(g, id, fuel).value.chain);
    }
  }

  // ----- the condition, as the readers pair it -----

  ghost predicate PairIs(pair: (nat, nat), left: nat, l: nat, r: nat) {
    Min(pair.0, pair.1) == l && Max(pair.0, pair.1) == left + r
  }

  lemma EquatesIs(c: Condition, left: nat, right: nat, l: nat, r: nat)
    requires l < left && r < right
    ensures Equates(c, left, right, l, r) <==> JoinKeys.UsableEquals(c) && PairIs(JoinKeys.OperandIndexes(c.operands).value, left, l, r)
  {
    if c.Equals? && |c.operands| == 2 {
      assert c.operands == [c.operands[0], c.operands[1]];
    }
  }

  lemma StraddlesIs(c: Condition, left: nat, right: nat)
    ensures EquatesSome(c, left, right) <==>
      JoinKeys.UsableEquals(c) && JoinKeys.Straddles(JoinKeys.OperandIndexes(c.operands).value, left, left + right)
  {
    if EquatesSome(c, left, right) {
      var l: nat, r: nat :| Equates(c, left, right, l, r);
      EquatesIs(c, left, right, l, r);
    }
    if JoinKeys.UsableEquals(c) && JoinKeys.Straddles(JoinKeys.OperandIndexes(c.operands).value, left, left + right) {
      var pair := JoinKeys.OperandIndexes(c.operands).value;
      var l: nat, r: nat := Min(pair.0, pair.1), Max(pair.0, pair.1) - left;
      EquatesIs(c, left, right, l, r);
      assert Equates(c, left, right, l, r);
    }
  }

  ghost predicate PairsAre(pairs: seq<(nat, nat)>, cs: seq<Condition>) {
    |pairs| == |cs| && forall i :: 0 <= i < |cs| ==> JoinKeys.UsableEquals(cs[i]) && pairs[i] == JoinKeys.OperandIndexes(cs[i].operands).value
  }

  /** The readers pair a condition exactly where every conjunct is usable. */
  lemma EqualitiesAre(c: Condition)
    ensures PairsAre(JoinKeys.Equalities(c), Conjuncts(c)) || (JoinKeys.Equalities(c) == [] && exists i :: 0 <= i < |Conjuncts(c)| && !JoinKeys.UsableEquals(Conjuncts(c)[i]))
  {
    match c
    case Equals(_) => assert Conjuncts(c)[0] == c;
    case And(conjuncts) => assert JoinKeys.AllUsable(conjuncts) || exists i :: 0 <= i < |conjuncts| && !JoinKeys.UsableEquals(conjuncts[i]);
    case _ =>
  }

  lemma AllEquateIs(c: Condition, left: nat, right: nat)
    ensures AllEquate(Conjuncts(c), left, right) <==>
      JoinKeys.Equalities(c) != [] && JoinKeys.AllStraddle(JoinKeys.Equalities(c), left, left + right)
    ensures AllEquate(Conjuncts(c), left, right) ==> PairsAre(JoinKeys.Equalities(c), Conjuncts(c))
  {
    EqualitiesAre(c);
    var cs := Conjuncts(c);
    forall i | 0 <= i < |cs| ensures EquatesSome(cs[i], left, right) <==>
      JoinKeys.UsableEquals(cs[i]) && JoinKeys.Straddles(JoinKeys.OperandIndexes(cs[i].operands).value, left, left + right)
    {
      StraddlesIs(cs[i], left, right);
    }
  }

  // ----- what the readers locate is what is located -----

  function Ordinals(which: Which, pairs: seq<(Option<nat>, Option<nat>)>): set<nat> {
    if which.OnTheLeft? then JoinKeys.LeftOrdinals(pairs) else JoinKeys.RightOrdinals(pairs)
  }

  function SideOf(g: Graph, kids: seq<string>, which: Which): Option<JoinKeys.Side>
    requires |kids| == 2
  {
    JoinKeys.SideFields(g, Own(kids, which), 400)
  }

  function OrdinalOf(which: Which, pair: (Option<nat>, Option<nat>)): Option<nat> { if which.OnTheLeft? then pair.0 else pair.1 }

  lemma OrdinalsHold(which: Which, pairs: seq<(Option<nat>, Option<nat>)>, ordinal: nat)
    ensures ordinal in Ordinals(which, pairs) <==> exists i: nat :: i < |pairs| && OrdinalOf(which, pairs[i]) == Some(ordinal)
  {
    if i: nat :| i < |pairs| && OrdinalOf(which, pairs[i]) == Some(ordinal) {
      assert ordinal in Ordinals(which, pairs);
    }
    if ordinal in Ordinals(which, pairs) {
      if which.OnTheLeft? {
        var i :| 0 <= i < |pairs| && pairs[i].0.Some? && pairs[i].0.value == ordinal;
        assert OrdinalOf(which, pairs[i]) == Some(ordinal);
      } else {
        var i :| 0 <= i < |pairs| && pairs[i].1.Some? && pairs[i].1.value == ordinal;
        assert OrdinalOf(which, pairs[i]) == Some(ordinal);
      }
    }
  }

  /** Two sides that number their rows, joined by conjuncts that all equate one with the other. */
  ghost predicate Ready(g: Graph, id: string, kids: seq<string>, left: nat, right: nat) {
    && |kids| == 2 && id in g.byId
    && HasWidth(g, kids[0], 400, left) && HasWidth(g, kids[1], 400, right) && AllEquate(Conjuncts(g.byId[id].condition), left, right)
  }

  lemma PairsOfReady(g: Graph, id: string, kids: seq<string>, left: nat, right: nat)
    requires Ready(g, id, kids, left, right)
    ensures SideOf(g, kids, OnTheLeft).Some? && SideOf(g, kids, OnTheLeft).value.width == left && SideOf(g, kids, OnTheRight).Some?
    ensures JoinKeys.JoinKeyPairs(g, id, kids)
      == JoinKeys.LocatedPairs(g, JoinKeys.Equalities(g.byId[id].condition), SideOf(g, kids, OnTheLeft).value, SideOf(g, kids, OnTheRight))
    ensures |JoinKeys.JoinKeyPairs(g, id, kids)| == |Conjuncts(g.byId[id].condition)| > 0
  {
    WidthIff(g, kids[0], 400, left);
    WidthIff(g, kids[1], 400, right);
    AllEquateIs(g.byId[id].condition, left, right);
  }

  lemma ReadyIff(g: Graph, id: string, kids: seq<string>)
    requires |kids| == 2 && id in g.byId
    ensures JoinKeys.JoinKeyPairs(g, id, kids) != [] <==> exists left, right :: Ready(g, id, kids, left, right)
  {
    if left: nat, right: nat :| Ready(g, id, kids, left, right) {
      PairsOfReady(g, id, kids, left, right);
    }
    if JoinKeys.JoinKeyPairs(g, id, kids) != [] {
      var l, r := JoinKeys.SideFields(g, kids[0], 400).value, JoinKeys.SideFields(g, kids[1], 400);
      var left, right := l.width, JoinKeys.WidthOf(r);
      AllEquateIs(g.byId[id].condition, left, right);
      assert JoinKeys.Straddles(JoinKeys.Equalities(g.byId[id].condition)[0], left, left + right);
      WidthIff(g, kids[0], 400, left);
      WidthIff(g, kids[1], 400, right);
      assert Ready(g, id, kids, left, right);
    }
  }

  /** A conjunct equates one pair of columns. */
  lemma EquatedColumns(c: Condition, left: nat, right: nat) returns (l: nat, r: nat)
    requires EquatesSome(c, left, right)
    ensures Equates(c, left, right, l, r) && JoinKeys.UsableEquals(c) && PairIs(JoinKeys.OperandIndexes(c.operands).value, left, l, r)
    ensures forall l': nat, r': nat :: Equates(c, left, right, l', r') ==> l' == l && r' == r
  {
    l, r :| Equates(c, left, right, l, r);
    EquatesIs(c, left, right, l, r);
  }

  lemma PairAt(g: Graph, id: string, kids: seq<string>, left: nat, right: nat, i: nat, l: nat, r: nat)
    requires Ready(g, id, kids, left, right) && i < |Conjuncts(g.byId[id].condition)|
    requires var c := Conjuncts(g.byId[id].condition)[i];
      JoinKeys.UsableEquals(c) && PairIs(JoinKeys.OperandIndexes(c.operands).value, left, l, r)
    ensures |JoinKeys.JoinKeyPairs(g, id, kids)| == |Conjuncts(g.byId[id].condition)|
    ensures SideOf(g, kids, OnTheLeft).Some? && SideOf(g, kids, OnTheRight).Some?
    ensures JoinKeys.JoinKeyPairs(g, id, kids)[i]
      == (JoinKeys.OrdinalAt(g, l, SideOf(g, kids, OnTheLeft)), JoinKeys.OrdinalAt(g, r, SideOf(g, kids, OnTheRight)))
  {
    PairsOfReady(g, id, kids, left, right);
    AllEquateIs(g.byId[id].condition, left, right);
  }

  lemma PairLocated(g: Graph, id: string, kids: seq<string>, left: nat, right: nat, which: Which, path: seq<string>, ordinal: nat, i: nat)
    requires Ready(g, id, kids, left, right) && path != [] && i < |Conjuncts(g.byId[id].condition)|
    requires SideOf(g, kids, which).Some? && SideOf(g, kids, which).value.chain != [] && Agree(g, path, SideOf(g, kids, which).value.chain)
    ensures |JoinKeys.JoinKeyPairs(g, id, kids)| == |Conjuncts(g.byId[id].condition)|
    ensures OrdinalOf(which, JoinKeys.JoinKeyPairs(g, id, kids)[i]) == Some(ordinal) <==>
      exists l: nat, r: nat :: LocatedBy(g, Conjuncts(g.byId[id].condition)[i], left, right, which, path, ordinal, l, r)
  {
    var l, r := EquatedColumns(Conjuncts(g.byId[id].condition)[i], left, right);
    PairAt(g, id, kids, left, right, i, l, r);
    var own := if which.OnTheLeft? then l else r;
    assert AgreeAt(g, path, SideOf(g, kids, which).value.chain, own, ordinal);
    assert Reaches(g, path, own, ordinal) ==> LocatedBy(g, Conjuncts(g.byId[id].condition)[i], left, right, which, path, ordinal, l, r);
  }

  lemma LocatedIff(g: Graph, id: string, kids: seq<string>, left: nat, right: nat, which: Which, path: seq<string>, ordinal: nat)
    requires Ready(g, id, kids, left, right) && path != []
    requires SideOf(g, kids, which).Some? && SideOf(g, kids, which).value.chain != [] && Agree(g, path, SideOf(g, kids, which).value.chain)
    ensures ordinal in Ordinals(which, JoinKeys.JoinKeyPairs(g, id, kids)) <==>
      Located(g, Conjuncts(g.byId[id].condition), left, right, which, path, ordinal)
  {
    var cs, pairs := Conjuncts(g.byId[id].condition), JoinKeys.JoinKeyPairs(g, id, kids);
    OrdinalsHold(which, pairs, ordinal);
    PairsOfReady(g, id, kids, left, right);
    forall i: nat | i < |cs| ensures OrdinalOf(which, pairs[i]) == Some(ordinal) <==>
      exists l: nat, r: nat :: LocatedBy(g, cs[i], left, right, which, path, ordinal, l, r)
    {
      PairLocated(g, id, kids, left, right, which, path, ordinal, i);
    }
  }

  lemma KeyLocatedIff(g: Graph, id: string, kids: seq<string>, left: nat, right: nat, which: Which, path: seq<string>,
                      ordinals: map<string, nat>, key: set<string>)
    requires Ready(g, id, kids, left, right) && path != []
    requires SideOf(g, kids, which).Some? && SideOf(g, kids, which).value.chain != [] && Agree(g, path, SideOf(g, kids, which).value.chain)
    ensures KeyLocated(g, Conjuncts(g.byId[id].condition), left, right, which, path, ordinals, key) <==>
      key != {} && key <= JoinKeys.NamedColumns(ordinals, Ordinals(which, JoinKeys.JoinKeyPairs(g, id, kids)))
  {
    forall column | column in key && column in ordinals
      ensures ordinals[column] in Ordinals(which, JoinKeys.JoinKeyPairs(g, id, kids)) <==>
        Located(g, Conjuncts(g.byId[id].condition), left, right, which, path, ordinals[column])
    {
      LocatedIff(g, id, kids, left, right, which, path, ordinals[column]);
    }
  }

  lemma CoveredIsKeyed(g: Graph, id: string, kids: seq<string>, evidence: JoinKeys.Evidence, which: Which, left: nat, right: nat)
    requires Ready(g, id, kids, left, right)
    requires JoinKeys.SideCovered(SideOf(g, kids, which), Ordinals(which, JoinKeys.JoinKeyPairs(g, id, kids)), evidence)
    ensures KeyedAt(g, id, kids, evidence, which, left, right)
  {
    var side, cs := Own(kids, which), Conjuncts(g.byId[id].condition);
    var table := SideOf(g, kids, which).value.table.value;
    var ordinals := evidence.keyOrdinals[table];
    var path := SideFrom(g, side, 400);
    SideOfPath(g, side, 400, path, table);
    var key :| key in evidence.uniqueKeys[table] && key != {}
      && key <= JoinKeys.NamedColumns(ordinals, Ordinals(which, JoinKeys.JoinKeyPairs(g, id, kids)));
    KeyLocatedIff(g, id, kids, left, right, which, path, ordinals, key);
    assert KeyedBelow(g, side, cs, left, right, which, evidence, path, table);
  }

  lemma KeyedIsCovered(g: Graph, id: string, kids: seq<string>, evidence: JoinKeys.Evidence, which: Which, left: nat, right: nat)
    requires |kids| == 2 && id in g.byId && KeyedAt(g, id, kids, evidence, which, left, right)
    ensures JoinKeys.SideCovered(SideOf(g, kids, which), Ordinals(which, JoinKeys.JoinKeyPairs(g, id, kids)), evidence)
  {
    var side, cs := Own(kids, which), Conjuncts(g.byId[id].condition);
    var path, table :| KeyedBelow(g, side, cs, left, right, which, evidence, path, table);
    assert Ready(g, id, kids, left, right);
    PairsOfReady(g, id, kids, left, right);
    SideOfPath(g, side, 400, path, table);
    var ordinals, pairs := evidence.keyOrdinals[table], JoinKeys.JoinKeyPairs(g, id, kids);
    var key :| key in evidence.uniqueKeys[table] && KeyLocated(g, cs, left, right, which, path, ordinals, key);
    KeyLocatedIff(g, id, kids, left, right, which, path, ordinals, key);
    var column :| column in key;
    assert ordinals[column] in Ordinals(which, pairs);
  }

  lemma KeyedIff(g: Graph, id: string, kids: seq<string>, evidence: JoinKeys.Evidence, which: Which)
    requires |kids| == 2 && id in g.byId
    ensures Keyed(g, id, kids, evidence, which) <==>
      JoinKeys.JoinKeyPairs(g, id, kids) != [] && JoinKeys.SideCovered(SideOf(g, kids, which), Ordinals(which, JoinKeys.JoinKeyPairs(g, id, kids)), evidence)
  {
    ReadyIff(g, id, kids);
    if Keyed(g, id, kids, evidence, which) {
      var left: nat, right: nat :| KeyedAt(g, id, kids, evidence, which, left, right);
      assert Ready(g, id, kids, left, right);
      KeyedIsCovered(g, id, kids, evidence, which, left, right);
    }
    if JoinKeys.JoinKeyPairs(g, id, kids) != [] && JoinKeys.SideCovered(SideOf(g, kids, which), Ordinals(which, JoinKeys.JoinKeyPairs(g, id, kids)), evidence) {
      var left: nat, right: nat :| Ready(g, id, kids, left, right);
      CoveredIsKeyed(g, id, kids, evidence, which, left, right);
    }
  }

  /** The two verdicts of covered_sides are exactly these. */
  lemma CoveredIffKeyed(g: Graph, id: string, kids: seq<string>, evidence: JoinKeys.Evidence)
    ensures JoinKeys.CoveredSides(g, id, kids, evidence).0 <==> Keyed(g, id, kids, evidence, OnTheLeft)
    ensures JoinKeys.CoveredSides(g, id, kids, evidence).1 <==> Keyed(g, id, kids, evidence, OnTheRight)
  {
    if |kids| == 2 && id in g.byId {
      KeyedIff(g, id, kids, evidence, OnTheLeft);
      KeyedIff(g, id, kids, evidence, OnTheRight);
    }
  }

  // ----- the topmost project -----

  /** Node k of the path is the first project on it. */
  ghost predicate FirstProject(g: Graph, path: seq<string>, k: nat) {
    k < |path| && IsProject(g, path[k]) && forall i :: 0 <= i < k ==> !IsProject(g, path[i])
  }

  /** The readers' chain starts there. */
  lemma {:induction false} ChainStarts(g: Graph, id: string, fuel: nat, path: seq<string>, table: string, k: nat)
    requires |path| <= fuel && EndsAtScan(g, id, path, table) && JoinKeys.SideFields(g, id, fuel).Some? && FirstProject(g, path, k)
    ensures JoinKeys.SideFields(g, id, fuel).value.chain != [] && JoinKeys.SideFields(g, id, fuel).value.chain[0] == path[k]
    decreases fuel
  {
    SideOfPath(g, id, fuel, path, table);
    assert |path| > 1;
    PathBelow(g, path);
    OnlyInputIs(g, id, path[1]);
    if k > 0 {
      assert !IsProject(g, path[0]);
      ChainStarts(g, path[1], fuel - 1, path[1..], table, k - 1);
    }
  }

  /** A side that numbers its rows and scans a table has a first project on the path to it. */
  lemma {:induction false} FirstProjectOf(g: Graph, id: string, fuel: nat, path: seq<string>, table: string) returns (k: nat)
    requires |path| <= fuel && EndsAtScan(g, id, path, table) && JoinKeys.SideFields(g, id, fuel).Some?
    ensures FirstProject(g, path, k)
    decreases fuel
  {
    if IsProject(g, id) {
      k := 0;
    } else {
      assert |path| > 1;
      PathBelow(g, path);
      OnlyInputIs(g, id, path[1]);
      k := FirstProjectOf(g, path[1], fuel - 1, path[1..], table);
      k := k + 1;
      assert forall i :: 1 <= i < k ==> path[i] == path[1..][i - 1];
    }
  }

  /** A path whose first project names all its fields gives the side a width. */
  lemma {:induction false} WidthAtFirst(g: Graph, id: string, fuel: nat, path: seq<string>, table: string, k: nat)
    requires |path| <= fuel && EndsAtScan(g, id, path, table) && FirstProject(g, path, k)
    requires g.byId[path[k]].fields.Some? && forall i :: 0 <= i < |g.byId[path[k]].fields.value| ==> g.byId[path[k]].fields.value[i].Some?
    ensures JoinKeys.SideFields(g, id, fuel).Some?
  {
    var upTo := path[..k + 1];
    forall i: nat | i + 1 < |upTo| ensures StepsDown(g, upTo, i) {
      assert StepsDown(g, path, i);
    }
    WidthOfPath(g, id, fuel, upTo, |g.byId[path[k]].fields.value|);
  }
}
