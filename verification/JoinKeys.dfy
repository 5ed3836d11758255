/** When a join may be charged less than the product (adapters/pinot/keys.py).
  *
  * A key column is recognised by the scan ordinal an operand composes down to, never by name. */
module JoinKeys {
  import opened Prelude
  import opened Rels

  /** Which column sets are unique on a table, and the scan ordinal of each key column. */
  datatype Evidence = Evidence(
    uniqueKeys: map<string, set<set<string>>>,
    keyOrdinals: map<string, map<string, nat>>)

  /** A join side: its share of the operand numbering, and its chain down to one scan (if any). */
  datatype Side = Side(width: nat, chain: seq<string>, table: Option<string>)

  predicate PassesThrough(op: Op) { op.Project? || op.Exchange? || op.Filter? }

  function OnlyChild(g: Graph, id: string, rel: Rel): Option<string> {
    match Children(g, id, rel)
    case None => None
    case Some(kids) => if |kids| == 1 then Some(kids[0]) else None
  }

  /** The pass-through nodes from here down to one readable scan, top first, and its table. */
  function ChainDown(g: Graph, id: string, fuel: nat): Option<(seq<string>, string)>
    decreases fuel
  {
    if fuel == 0 || id !in g.byId then None
    else
      var rel := g.byId[id];
      if rel.op.TableScan? then
        if rel.table.Some? then Some(([], rel.table.value)) else None
      else if !PassesThrough(rel.op) || OnlyChild(g, id, rel).None? then None
      else
        match ChainDown(g, OnlyChild(g, id, rel).value, fuel - 1)
        case None => None
        case Some((ids, table)) => Some(([id] + ids, table))
  }

  predicate ReadableFields(rel: Rel) {
    rel.fields.Some? && forall i :: 0 <= i < |rel.fields.value| ==> rel.fields.value[i].Some?
  }

  function Assembled(width: nat, above: seq<string>, below: Option<(seq<string>, string)>): Side {
    match below
    case None => Side(width, [], None)
    case Some((ids, table)) => Side(width, above + ids, Some(table))
  }

  /** One side of a join: the width of its topmost project, and the chain from there to the scan. */
  function SideFields(g: Graph, id: string, fuel: nat): Option<Side>
    decreases fuel
  {
    if fuel == 0 || id !in g.byId then None
    else
      var rel := g.byId[id];
      if !PassesThrough(rel.op) then None
      else if rel.op.Project? then
        if ReadableFields(rel) then Some(Assembled(|rel.fields.value|, [], ChainDown(g, id, fuel)))
        else None
      else if OnlyChild(g, id, rel).None? then None
      else SideFields(g, OnlyChild(g, id, rel).value, fuel - 1)
  }

  method WalkSide(g: Graph, relId: string) returns (side: Option<Side>)
    ensures side == SideFields(g, relId, MAX_DEPTH)
  {
    var width: Option<nat>, chain: seq<string>, current := None, [], relId;
    var steps := 0;
    while steps < MAX_DEPTH
      invariant 0 <= steps <= MAX_DEPTH
      invariant width.None? ==>
        chain == [] && SideFields(g, relId, MAX_DEPTH) == SideFields(g, current, MAX_DEPTH - steps)
      invariant width.Some? ==>
        SideFields(g, relId, MAX_DEPTH) == Some(Assembled(width.value, chain, ChainDown(g, current, MAX_DEPTH - steps)))
    {
      if current !in g.byId {
        break;
      }
      var rel := g.byId[current];
      if rel.op.TableScan? {
        if width.None? {
          return None;
        }
        assert chain + [] == chain;
        return Some(Side(width.value, if rel.table.Some? then chain else [], rel.table));
      }
      if !PassesThrough(rel.op) {
        break;
      }
      if rel.op.Project? && width.None? {
        if !ReadableFields(rel) {
          return None;
        }
        width := Some(|rel.fields.value|);
      }
      if width.Some? {
        assert forall ids: seq<string> :: chain + ([current] + ids) == (chain + [current]) + ids;
        chain := chain + [current];
      }
      if OnlyChild(g, current, rel).None? {
        break;
      }
      current, steps := OnlyChild(g, current, rel).value, steps + 1;
    }
    return if width.None? then None else Some(Side(width.value, [], None));
  }

  predicate BareBelow(exprs: seq<Expr>, n: nat)
    requires n <= |exprs|
  {
    forall i :: 0 <= i < n ==> exprs[i].BareInput? && exprs[i].index >= 0
  }

  /** A project's columns as bare input positions; None if any one of them is not. */
  function ProjectReads(rel: Rel): Option<seq<nat>> {
    if rel.fields.None? || rel.exprs.None? then None
    else
      var n, exprs := |rel.fields.value|, rel.exprs.value;
      if |exprs| < n || !BareBelow(exprs, n) then None
      else Some(seq(n, i requires 0 <= i < n => exprs[i].index))
  }

  method ReadProject(rel: Rel) returns (sources: Option<seq<nat>>)
    ensures sources == ProjectReads(rel)
  {
    if rel.fields.None? || rel.exprs.None? || |rel.exprs.value| < |rel.fields.value| {
      return None;
    }
    var exprs, positions: seq<nat> := rel.exprs.value, [];
    for i := 0 to |rel.fields.value|
      invariant BareBelow(exprs, i)
      invariant positions == seq(i, k requires 0 <= k < i => exprs[k].index)
    {
      if !exprs[i].BareInput? || exprs[i].index < 0 {
        return None;
      }
      positions := positions + [exprs[i].index];
    }
    sources := Some(positions);
  }

  /** The scan ordinal an index composes down to along a chain: a project rewrites it, anything
    * else leaves it alone. */
  function Composed(g: Graph, chain: seq<string>, index: nat): Option<nat> {
    if chain == [] then Some(index)
    else if chain[0] !in g.byId then None
    else
      var rel := g.byId[chain[0]];
      if !rel.op.Project? then Composed(g, chain[1..], index)
      else
        match ProjectReads(rel)
        case None => None
        case Some(sources) => if index < |sources| then Composed(g, chain[1..], sources[index]) else None
  }

  function OrdinalAt(g: Graph, index: nat, side: Option<Side>): Option<nat> {
    if side.None? || side.value.chain == [] then None else Composed(g, side.value.chain, index)
  }

  method ComposeOrdinal(g: Graph, start: nat, side: Option<Side>) returns (ordinal: Option<nat>)
    ensures ordinal == OrdinalAt(g, start, side)
  {
    if side.None? || side.value.chain == [] {
      return None;
    }
    var chain, index: nat := side.value.chain, start;
    for i := 0 to |chain|
      invariant Composed(g, chain, start) == Composed(g, chain[i..], index)
    {
      assert chain[i..][1..] == chain[i + 1..];
      if chain[i] !in g.byId {
        return None;
      }
      var rel := g.byId[chain[i]];
      if rel.op.Project? {
        var sources := ReadProject(rel);
        if sources.None? || index >= |sources.value| {
          return None;
        }
        index := sources.value[index];
      }
    }
    ordinal := Some(index);
  }

  function OperandIndexes(operands: seq<Operand>): Option<(nat, nat)> {
    if |operands| == 2 && operands[0].Input? && operands[0].index >= 0 && operands[1].Input? && operands[1].index >= 0
    then Some((operands[0].index, operands[1].index))
    else None
  }

  predicate UsableEquals(c: Condition) { c.Equals? && OperandIndexes(c.operands).Some? }

  predicate AllUsable(cs: seq<Condition>) { forall i :: 0 <= i < |cs| ==> UsableEquals(cs[i]) }

  /** The operand pairs of a condition that is one usable EQUALS or an AND of nothing else. */
  function Equalities(c: Condition): seq<(nat, nat)> {
    match c
    case Equals(operands) => if UsableEquals(c) then [OperandIndexes(operands).value] else []
    case And(cs) =>
      if AllUsable(cs) then seq(|cs|, i requires 0 <= i < |cs| => OperandIndexes(cs[i].operands).value) else []
    case _ => []
  }

  method ReadEqualities(c: Condition) returns (pairs: seq<(nat, nat)>)
    ensures pairs == Equalities(c)
  {
    if !c.And? {
      return if UsableEquals(c) then [OperandIndexes(c.operands).value] else [];
    }
    pairs := [];
    for i := 0 to |c.conjuncts|
      invariant AllUsable(c.conjuncts[..i])
      invariant |pairs| == i
      invariant forall k :: 0 <= k < i ==> UsableEquals(c.conjuncts[k]) && pairs[k] == OperandIndexes(c.conjuncts[k].operands).value
    {
      if !UsableEquals(c.conjuncts[i]) {
        return [];
      }
      pairs := pairs + [OperandIndexes(c.conjuncts[i].operands).value];
    }
  }

  /** One equality numbered across both sides: the smaller index on the left, the larger on the right. */
  predicate Straddles(pair: (nat, nat), split: nat, width: nat) {
    Min(pair.0, pair.1) < split <= Max(pair.0, pair.1) < width
  }

  function Located(g: Graph, pair: (nat, nat), left: Side, right: Option<Side>): (Option<nat>, Option<nat>)
    requires left.width <= Max(pair.0, pair.1)
  {
    (OrdinalAt(g, Min(pair.0, pair.1), Some(left)), OrdinalAt(g, Max(pair.0, pair.1) - left.width, right))
  }

  predicate AllStraddle(pairs: seq<(nat, nat)>, split: nat, width: nat) {
    forall i :: 0 <= i < |pairs| ==> Straddles(pairs[i], split, width)
  }

  function WidthOf(side: Option<Side>): nat { if side.Some? then side.value.width else 0 }

  /** Every equality located on both sides, or [] if any of them is not a join key. */
  function LocatedPairs(g: Graph, pairs: seq<(nat, nat)>, left: Side, right: Option<Side>): seq<(Option<nat>, Option<nat>)> {
    if AllStraddle(pairs, left.width, left.width + WidthOf(right))
    then seq(|pairs|, i requires 0 <= i < |pairs| => Located(g, pairs[i], left, right))
    else []
  }

  /** The scan ordinals each equality of a join reaches on its two sides. */
  function JoinKeyPairs(g: Graph, id: string, kids: seq<string>): seq<(Option<nat>, Option<nat>)> {
    if |kids| != 2 || id !in g.byId || SideFields(g, kids[0], MAX_DEPTH).None? then []
    else LocatedPairs(g, Equalities(g.byId[id].condition), SideFields(g, kids[0], MAX_DEPTH).value, SideFields(g, kids[1], MAX_DEPTH))
  }

  method ReadJoinKeyPairs(g: Graph, id: string, kids: seq<string>) returns (located: seq<(Option<nat>, Option<nat>)>)
    ensures located == JoinKeyPairs(g, id, kids)
  {
    if |kids| != 2 || id !in g.byId {
      return [];
    }
    var left := WalkSide(g, kids[0]);
    var right := WalkSide(g, kids[1]);
    if left.None? {
      return [];
    }
    var pairs := ReadEqualities(g.byId[id].condition);
    located := LocateAll(g, pairs, left.value, right);
  }

  method LocateAll(g: Graph, pairs: seq<(nat, nat)>, left: Side, right: Option<Side>) returns (located: seq<(Option<nat>, Option<nat>)>)
    ensures located == LocatedPairs(g, pairs, left, right)
  {
    var split := left.width;
    var width := split + WidthOf(right);
    located := [];
    for i := 0 to |pairs|
      invariant AllStraddle(pairs[..i], split, width)
      invariant located == LocatedPairs(g, pairs[..i], left, right)
    {
      assert pairs[..i + 1] == pairs[..i] + [pairs[i]];
      var leftIndex, rightIndex := Min(pairs[i].0, pairs[i].1), Max(pairs[i].0, pairs[i].1);
      if !(leftIndex < split <= rightIndex) || rightIndex >= width {
        assert !Straddles(pairs[i], split, width);
        return [];
      }
      var leftOrdinal := ComposeOrdinal(g, leftIndex, Some(left));
      var rightOrdinal := ComposeOrdinal(g, rightIndex - split, right);
      LocatedOneMore(g, pairs[..i], pairs[i], left, right);
      located := located + [(leftOrdinal, rightOrdinal)];
    }
    assert pairs[..|pairs|] == pairs;
  }

  lemma LocatedOneMore(g: Graph, pairs: seq<(nat, nat)>, pair: (nat, nat), left: Side, right: Option<Side>)
    requires AllStraddle(pairs, left.width, left.width + WidthOf(right)) && Straddles(pair, left.width, left.width + WidthOf(right))
    ensures AllStraddle(pairs + [pair], left.width, left.width + WidthOf(right))
    ensures LocatedPairs(g, pairs + [pair], left, right) == LocatedPairs(g, pairs, left, right) + [Located(g, pair, left, right)]
  {
  }

  /** Is any known key a subset of the columns this join equates? */
  predicate Covers(keys: set<set<string>>, equated: set<string>) {
    exists key :: key in keys && key != {} && key <= equated
  }

  /** The table's columns whose known ordinal an equality reached. */
  function NamedColumns(ordinals: map<string, nat>, reached: set<nat>): set<string> {
    set column | column in ordinals && ordinals[column] in reached
  }

  predicate SideCovered(side: Option<Side>, reached: set<nat>, evidence: Evidence) {
    && side.Some? && side.value.table.Some? && reached != {}
    && var table := side.value.table.value;
    && table in evidence.keyOrdinals && table in evidence.uniqueKeys
    && Covers(evidence.uniqueKeys[table], NamedColumns(evidence.keyOrdinals[table], reached))
  }

  function LeftOrdinals(pairs: seq<(Option<nat>, Option<nat>)>): set<nat> {
    set i | 0 <= i < |pairs| && pairs[i].0.Some? :: pairs[i].0.value
  }

  function RightOrdinals(pairs: seq<(Option<nat>, Option<nat>)>): set<nat> {
    set i | 0 <= i < |pairs| && pairs[i].1.Some? :: pairs[i].1.value
  }

  /** Does each side's equated column set cover a unique key of its table? */
  function CoveredSides(g: Graph, id: string, kids: seq<string>, evidence: Evidence): (bool, bool) {
    var pairs := JoinKeyPairs(g, id, kids);
    if pairs == [] then (false, false)
    else
      (SideCovered(SideFields(g, kids[0], MAX_DEPTH), LeftOrdinals(pairs), evidence),
       SideCovered(SideFields(g, kids[1], MAX_DEPTH), RightOrdinals(pairs), evidence))
  }

  method ReadCoveredSides(g: Graph, id: string, kids: seq<string>, evidence: Evidence) returns (left: bool, right: bool)
    ensures (left, right) == CoveredSides(g, id, kids, evidence)
  {
    var pairs := ReadJoinKeyPairs(g, id, kids);
    if pairs == [] {
      return false, false;
    }
    var leftSide := WalkSide(g, kids[0]);
    var rightSide := WalkSide(g, kids[1]);
    return SideCovered(leftSide, LeftOrdinals(pairs), evidence), SideCovered(rightSide, RightOrdinals(pairs), evidence);
  }
}
