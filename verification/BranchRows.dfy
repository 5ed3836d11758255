/** The rows a branch really builds, by what each node of it does with the rows made under it, against the
  * multiplier its query is given (core/scans.py). */
module BranchRows {
  import opened Prelude
  import opened CteBodies
  import opened Sequences
  import opened Generators
  import opened Fanout

  // ----- what each node does with the rows made under it -----

  /** Is the node somewhere among a generator's arguments? */
  predicate BelowGenerator(nodes: Subtree, j: nat)
    requires j < |nodes|
    decreases j
  {
    j > 0 && (nodes[nodes[j].parent].kind.Generator? || BelowGenerator(nodes, nodes[j].parent))
  }

  /** Generators over literal lists and sequences only: what stands among a generator's arguments is one of its
    * inputs or makes no rows. */
  predicate PlainShape(nodes: Subtree) {
    forall j :: 0 <= j < |nodes| && BelowGenerator(nodes, j) ==>
      match nodes[j].kind
      case Array(_, _) => nodes[j].role.Input? && nodes[nodes[j].parent].kind.Generator?
      case Series(_) => nodes[j].role.Input? && nodes[nodes[j].parent].kind.Generator?
      case Plain => true
      case Call(_, _, _) => true
      case _ => false
  }

  /** Every CTE is bound once, to such a body, whose outermost select does not narrow its rows. */
  predicate PlainBodies(bodies: Bodies) {
    forall name :: name in bodies ==> |bodies[name]| == 1 && PlainShape(bodies[name][0]) && !OuterNarrows(bodies[name][0])
  }

  predicate FirstSelect(nodes: Subtree, i: nat)
    requires i < |nodes|
  {
    nodes[i].kind.Select? && forall j :: 0 <= j < i ==> !nodes[j].kind.Select?
  }

  predicate OuterNarrows(nodes: Subtree) {
    exists i :: 0 <= i < |nodes| && FirstSelect(nodes, i) && nodes[i].kind.narrows
  }

  /** The elements of a literal list or sequence. */
  function Made(kind: Kind): nat {
    match kind
    case Array(count, _) => count
    case Series(span) => if SequenceLength(span).Some? then |Elements(span)| else 0
    case _ => 0
  }

  /** The longest of a generator's inputs from node j on: they are laid side by side. */
  function Longest(nodes: Subtree, g: nat, j: nat): nat
    requires j <= |nodes|
    decreases |nodes| - j
  {
    if j == |nodes| then 0
    else Max(if nodes[j].parent == g && nodes[j].role.Input? then Made(nodes[j].kind) else 0, Longest(nodes, g, j + 1))
  }

  /** The rows a node hands to its parent: what the engine builds, or what the plan counts of it, which is the same
    * without what generators make. A predicate hands on a truth value and a scope that narrows what it built
    * alone one row; a select leaves out its select list's values; everything else crosses what is under it. */
  function Emits(generated: bool, bodies: Bodies, nodes: Subtree, i: nat, pending: set<string>, size: string -> nat): nat
    requires i < |nodes|
    decreases |bodies.Keys - pending|, |nodes| - i, |nodes| + 1
  {
    match nodes[i].kind
    case Predicate => 1
    case Generator => if generated then Longest(nodes, i, i + 1) else 1
    case Select(narrows, scans, _) =>
      if narrows && !scans && !FirstSelect(nodes, i) then 1 else Crossed(generated, bodies, nodes, i, i + 1, pending, size)
    case Scan(table) => size(table) * Crossed(generated, bodies, nodes, i, i + 1, pending, size)
    case Ref(name) => NamedRows(generated, bodies, name, pending, size) * Crossed(generated, bodies, nodes, i, i + 1, pending, size)
    case Series(span) =>
      (if generated && SequenceLength(span).Some? then |Elements(span)| else 1) * Crossed(generated, bodies, nodes, i, i + 1, pending, size)
    case _ => Crossed(generated, bodies, nodes, i, i + 1, pending, size)
  }

  /** The rows of node p's children from j on, crossed; a select list contributes values, not rows. */
  function Crossed(generated: bool, bodies: Bodies, nodes: Subtree, p: nat, j: nat, pending: set<string>, size: string -> nat): nat
    requires p < j <= |nodes|
    decreases |bodies.Keys - pending|, |nodes| - p, |nodes| - j
  {
    if j == |nodes| then 1
    else
      (if nodes[j].parent == p && !(nodes[p].kind.Select? && nodes[j].role.Projection?) then Emits(generated, bodies, nodes, j, pending, size) else 1)
      * Crossed(generated, bodies, nodes, p, j + 1, pending, size)
  }

  /** A name stands for the body it is bound to, or for a table. */
  function NamedRows(generated: bool, bodies: Bodies, name: string, pending: set<string>, size: string -> nat): nat
    decreases |bodies.Keys - pending|, 0, 0
  {
    if name !in bodies then size(name)
    else if name in pending || bodies[name] == [] || bodies[name][0] == [] then 1
    else
      Shrinks(bodies, pending, name);
      Emits(generated, bodies, bodies[name][0], 0, pending + {name}, size)
  }

  /** The rows of a whole branch. */
  function BranchEmits(generated: bool, bodies: Bodies, nodes: Subtree, pending: set<string>, size: string -> nat): nat {
    if nodes == [] then 1 else Emits(generated, bodies, nodes, 0, pending, size)
  }

  // ----- the same as a product over the nodes whose rows arrive -----

  /** Do the rows made at node j arrive at this node above it? */
  predicate Arrives(nodes: Subtree, top: nat, j: nat)
    requires j < |nodes|
    decreases j
  {
    j == top || (j > top && !Stops(nodes, j) && Arrives(nodes, top, nodes[j].parent))
  }

  lemma {:induction false} MeetsIsArrives(nodes: Subtree, j: nat)
    requires j < |nodes|
    ensures Meets(nodes, j) <==> Arrives(nodes, 0, j)
    decreases j
  {
    if j > 0 {
      MeetsIsArrives(nodes, nodes[j].parent);
    }
  }

  lemma {:induction false} ArrivesOn(nodes: Subtree, top: nat, mid: nat, j: nat)
    requires j < |nodes| && mid < |nodes| && Arrives(nodes, top, mid) && Arrives(nodes, mid, j)
    ensures Arrives(nodes, top, j)
    decreases j
  {
    if j > mid {
      ArrivesOn(nodes, top, mid, nodes[j].parent);
    }
  }

  lemma {:induction false} ArrivesThrough(nodes: Subtree, a: nat, b: nat, j: nat)
    requires a <= b < |nodes| && j < |nodes| && Arrives(nodes, a, j) && Arrives(nodes, b, j)
    ensures Arrives(nodes, a, b)
    decreases j
  {
    if j > b {
      ArrivesThrough(nodes, a, b, nodes[j].parent);
    }
  }

  /** A child whose rows leave for its parent. */
  predicate HandsOn(nodes: Subtree, top: nat, c: nat)
    requires c < |nodes|
  {
    c > top && nodes[c].parent == top && !Stops(nodes, c)
  }

  lemma {:induction false} ArrivesByChild(nodes: Subtree, top: nat, j: nat) returns (c: nat)
    requires top < j < |nodes| && Arrives(nodes, top, j)
    ensures c < |nodes| && HandsOn(nodes, top, c) && Arrives(nodes, c, j)
    decreases j
  {
    if nodes[j].parent == top {
      c := j;
    } else {
      c := ArrivesByChild(nodes, top, nodes[j].parent);
    }
  }

  lemma OneChildOnly(nodes: Subtree, top: nat, a: nat, b: nat, j: nat)
    requires j < |nodes| && a < |nodes| && b < |nodes| && HandsOn(nodes, top, a) && HandsOn(nodes, top, b)
    requires Arrives(nodes, a, j) && Arrives(nodes, b, j)
    ensures a == b
  {
    if a < b {
      ArrivesThrough(nodes, a, b, j);
    } else if b < a {
      ArrivesThrough(nodes, b, a, j);
    }
  }

  /** The product of the weights of the nodes before m that arrive at top. */
  function Arriving(w: seq<nat>, nodes: Subtree, top: nat, m: nat): nat
    requires |w| == |nodes| && m <= |nodes|
    decreases m
  {
    if m == 0 then 1 else Arriving(w, nodes, top, m - 1) * (if Arrives(nodes, top, m - 1) then w[m - 1] else 1)
  }

  /** The same, child by child from c on. */
  function ByChild(w: seq<nat>, nodes: Subtree, top: nat, c: nat, m: nat): nat
    requires |w| == |nodes| && m <= |nodes| && c <= |nodes|
    decreases |nodes| - c
  {
    if c == |nodes| then 1 else (if HandsOn(nodes, top, c) then Arriving(w, nodes, c, m) else 1) * ByChild(w, nodes, top, c + 1, m)
  }

  ghost predicate ThroughChild(nodes: Subtree, top: nat, c: nat, m: nat)
    requires m < |nodes|
  {
    exists kid :: c <= kid < |nodes| && HandsOn(nodes, top, kid) && Arrives(nodes, kid, m)
  }

  /** The next node's weight goes into the product of the one child it arrives through. */
  lemma {:induction false} ByChildStep(w: seq<nat>, nodes: Subtree, top: nat, c: nat, m: nat)
    requires |w| == |nodes| && m < |nodes| && c <= |nodes|
    ensures ByChild(w, nodes, top, c, m + 1) == ByChild(w, nodes, top, c, m) * (if ThroughChild(nodes, top, c, m) then w[m] else 1)
    decreases |nodes| - c
  {
    if c < |nodes| {
      ByChildStep(w, nodes, top, c + 1, m);
      var rest := ByChild(w, nodes, top, c + 1, m);
      if HandsOn(nodes, top, c) {
        var here := Arriving(w, nodes, c, m);
        if Arrives(nodes, c, m) {
          if kid :| c + 1 <= kid < |nodes| && HandsOn(nodes, top, kid) && Arrives(nodes, kid, m) {
            OneChildOnly(nodes, top, c, kid, m);
          }
          assert ThroughChild(nodes, top, c, m);
          Associate(here, w[m], rest);
          Associate(here, rest, w[m]);
        } else {
          assert ThroughChild(nodes, top, c, m) <==> ThroughChild(nodes, top, c + 1, m);
          Associate(here, rest, if ThroughChild(nodes, top, c + 1, m) then w[m] else 1);
        }
      } else {
        assert ThroughChild(nodes, top, c, m) <==> ThroughChild(nodes, top, c + 1, m);
      }
    }
  }

  lemma {:induction false} NothingYet(w: seq<nat>, nodes: Subtree, top: nat, c: nat)
    requires |w| == |nodes| && c <= |nodes|
    ensures ByChild(w, nodes, top, c, 0) == 1
    decreases |nodes| - c
  {
    if c < |nodes| {
      NothingYet(w, nodes, top, c + 1);
    }
  }

  /** What arrives at a node is its own weight and what arrives at each child that hands on. */
  lemma {:induction false} ArrivingSplits(w: seq<nat>, nodes: Subtree, top: nat, m: nat)
    requires |w| == |nodes| && m <= |nodes| && top < |nodes|
    ensures Arriving(w, nodes, top, m) == (if m > top then w[top] else 1) * ByChild(w, nodes, top, 0, m)
    decreases m
  {
    if m == 0 {
      NothingYet(w, nodes, top, 0);
    } else {
      ArrivingSplits(w, nodes, top, m - 1);
      ByChildStep(w, nodes, top, 0, m - 1);
      var before := ByChild(w, nodes, top, 0, m - 1);
      if m - 1 > top {
        if Arrives(nodes, top, m - 1) {
          var c := ArrivesByChild(nodes, top, m - 1);
          assert ThroughChild(nodes, top, 0, m - 1);
        }
        if kid :| 0 <= kid < |nodes| && HandsOn(nodes, top, kid) && Arrives(nodes, kid, m - 1) {
          ArrivesOn(nodes, top, kid, m - 1);
        }
        Associate(w[top], before, if Arrives(nodes, top, m - 1) then w[m - 1] else 1);
      } else {
        assert !ThroughChild(nodes, top, 0, m - 1);
      }
    }
  }

  // ----- the two agree -----

  function NodeWeight(generated: bool, bodies: Bodies, nodes: Subtree, j: nat, pending: set<string>, size: string -> nat): nat
    requires j < |nodes|
  {
    if BelowGenerator(nodes, j) then 1
    else
      match nodes[j].kind
      case Scan(table) => size(table)
      case Ref(name) => NamedRows(generated, bodies, name, pending, size)
      case Series(span) => if generated && SequenceLength(span).Some? then |Elements(span)| else 1
      case Generator => if generated then Longest(nodes, j, j + 1) else 1
      case _ => 1
  }

  function Weights(generated: bool, bodies: Bodies, nodes: Subtree, pending: set<string>, size: string -> nat): (w: seq<nat>)
    ensures |w| == |nodes|
  {
    seq(|nodes|, j requires 0 <= j < |nodes| => NodeWeight(generated, bodies, nodes, j, pending, size))
  }

  lemma {:induction false} ArrivesBelow(nodes: Subtree, g: nat, j: nat)
    requires g < j < |nodes| && nodes[g].kind.Generator? && Arrives(nodes, g, j)
    ensures BelowGenerator(nodes, j)
    decreases j
  {
    if nodes[j].parent != g {
      ArrivesBelow(nodes, g, nodes[j].parent);
    }
  }

  /** Nothing but its own rows arrives at a generator. */
  lemma {:induction false} GeneratorAlone(w: seq<nat>, nodes: Subtree, g: nat, m: nat)
    requires |w| == |nodes| && m <= |nodes| && g < |nodes| && nodes[g].kind.Generator?
    requires forall j :: 0 <= j < |nodes| && BelowGenerator(nodes, j) ==> w[j] == 1
    ensures Arriving(w, nodes, g, m) == if m > g then w[g] else 1
    decreases m
  {
    if m > 0 {
      GeneratorAlone(w, nodes, g, m - 1);
      if m - 1 > g && Arrives(nodes, g, m - 1) {
        ArrivesBelow(nodes, g, m - 1);
      }
    }
  }

  lemma {:induction false} NoChildBefore(w: seq<nat>, nodes: Subtree, top: nat, c: nat)
    requires |w| == |nodes| && c <= top < |nodes|
    ensures ByChild(w, nodes, top, c, |nodes|) == ByChild(w, nodes, top, top + 1, |nodes|)
    decreases top - c
  {
    if c < top {
      NoChildBefore(w, nodes, top, c + 1);
    }
  }

  lemma {:induction false} NoneHandsOn(w: seq<nat>, nodes: Subtree, top: nat, c: nat)
    requires |w| == |nodes| && c <= |nodes| && forall kid :: c <= kid < |nodes| ==> !HandsOn(nodes, top, kid)
    ensures ByChild(w, nodes, top, c, |nodes|) == 1
    decreases |nodes| - c
  {
    if c < |nodes| {
      NoneHandsOn(w, nodes, top, c + 1);
    }
  }

  lemma FirstSelectIs(nodes: Subtree, i: nat)
    requires i < |nodes|
    ensures FirstSelect(nodes, i) <==> BranchSelect(nodes, 0) == Some(i)
  {
    FirstSelectFrom(nodes, 0);
  }

  lemma {:induction false} FirstSelectFrom(nodes: Subtree, i: nat)
    requires i <= |nodes|
    ensures BranchSelect(nodes, i).Some? ==> forall j :: i <= j < BranchSelect(nodes, i).value ==> !nodes[j].kind.Select?
    ensures BranchSelect(nodes, i).None? ==> forall j :: i <= j < |nodes| ==> !nodes[j].kind.Select?
    decreases |nodes| - i
  {
    if i < |nodes| && !nodes[i].kind.Select? {
      FirstSelectFrom(nodes, i + 1);
    }
  }

  /** Does this node hand on anything at all? */
  predicate Passes(nodes: Subtree, i: nat)
    requires i < |nodes|
  {
    !nodes[i].kind.Predicate? && !nodes[i].kind.Generator?
    && (nodes[i].kind.Select? ==> !nodes[i].kind.narrows || nodes[i].kind.scans || FirstSelect(nodes, i))
  }

  /** A node's rows are the product of the weights that arrive at it. */
  lemma {:induction false} EmitsArriving(generated: bool, bodies: Bodies, nodes: Subtree, i: nat, pending: set<string>, size: string -> nat)
    requires i < |nodes| && !BelowGenerator(nodes, i)
    ensures Emits(generated, bodies, nodes, i, pending, size) == Arriving(Weights(generated, bodies, nodes, pending, size), nodes, i, |nodes|)
    decreases |nodes| - i, |nodes| + 1
  {
    var w := Weights(generated, bodies, nodes, pending, size);
    ArrivingSplits(w, nodes, i, |nodes|);
    if nodes[i].kind.Generator? {
      GeneratorAlone(w, nodes, i, |nodes|);
    } else {
      NoChildBefore(w, nodes, i, 0);
      FirstSelectIs(nodes, i);
      if Passes(nodes, i) {
        CrossedArriving(generated, bodies, nodes, i, i + 1, pending, size);
      } else {
        NoneHandsOn(w, nodes, i, i + 1);
      }
    }
  }

  lemma {:induction false} CrossedArriving(generated: bool, bodies: Bodies, nodes: Subtree, p: nat, j: nat, pending: set<string>, size: string -> nat)
    requires p < j <= |nodes| && !BelowGenerator(nodes, p) && Passes(nodes, p)
    ensures Crossed(generated, bodies, nodes, p, j, pending, size)
      == ByChild(Weights(generated, bodies, nodes, pending, size), nodes, p, j, |nodes|)
    decreases |nodes| - p, |nodes| - j
  {
    if j < |nodes| {
      CrossedArriving(generated, bodies, nodes, p, j + 1, pending, size);
      FirstSelectIs(nodes, p);
      if nodes[j].parent == p {
        EmitsArriving(generated, bodies, nodes, j, pending, size);
      }
    }
  }

  // ----- and with the tally the multiplier is proved against -----

  function What(generated: bool): Tallied { if generated then Built else Tables }

  lemma {:induction false} LongestIsZipped(nodes: Subtree, g: nat, j: nat)
    requires g < j <= |nodes|
    ensures Longest(nodes, g, j) == Zipped(nodes, g, j)
    decreases |nodes| - j
  {
    if j < |nodes| {
      LongestIsZipped(nodes, g, j + 1);
    }
  }

  lemma {:induction false} DescendsBelow(nodes: Subtree, g: nat, j: nat)
    requires j < |nodes| && Descends(nodes, g, j) && nodes[g].kind.Generator?
    ensures BelowGenerator(nodes, j)
    decreases j
  {
    if nodes[j].parent != g {
      DescendsBelow(nodes, g, nodes[j].parent);
    }
  }

  lemma {:induction false} BelowSome(nodes: Subtree, j: nat) returns (g: nat)
    requires j < |nodes| && BelowGenerator(nodes, j)
    ensures g < |nodes| && nodes[g].kind.Generator? && Descends(nodes, g, j)
    decreases j
  {
    if nodes[nodes[j].parent].kind.Generator? {
      g := nodes[j].parent;
    } else {
      g := BelowSome(nodes, nodes[j].parent);
    }
  }

  /** A series that meets the branch is wrapped exactly when it stands among a generator's arguments. */
  lemma WrappedIff(nodes: Subtree, j: nat)
    requires j < |nodes| && nodes[j].kind.Series? && Meets(nodes, j)
    ensures j in Wrapped(nodes, true) <==> BelowGenerator(nodes, j)
  {
    if j in Wrapped(nodes, true) {
      var g :| 0 <= g < |nodes| && CountedGenerator(nodes, g, true) && Descends(nodes, g, j);
      DescendsBelow(nodes, g, j);
    }
    if BelowGenerator(nodes, j) {
      var g := BelowSome(nodes, j);
      MeetsPassesUp(nodes, g, j);
      assert CountedGenerator(nodes, g, true);
    }
  }

  lemma {:induction false} NodeIsWeight(generated: bool, bodies: Bodies, nodes: Subtree, j: nat, pending: set<string>, size: string -> nat)
    requires j < |nodes| && PlainShape(nodes) && PlainBodies(bodies)
    ensures TallyNode(What(generated), bodies, nodes, j, pending, size)
      == if Arrives(nodes, 0, j) then NodeWeight(generated, bodies, nodes, j, pending, size) else 1
    decreases |bodies.Keys - pending|, 1, 0
  {
    MeetsIsArrives(nodes, j);
    if Meets(nodes, j) {
      if nodes[j].kind.Series? {
        WrappedIff(nodes, j);
      } else if nodes[j].kind.Generator? {
        LongestIsZipped(nodes, j, j + 1);
      } else if nodes[j].kind.Ref? {
        NamedIsTallied(generated, bodies, nodes[j].kind.name, pending, size);
      }
    }
  }

  lemma {:induction false} TallyArriving(generated: bool, bodies: Bodies, nodes: Subtree, j: nat, pending: set<string>, size: string -> nat)
    requires j <= |nodes| && PlainShape(nodes) && PlainBodies(bodies)
    ensures Arriving(Weights(generated, bodies, nodes, pending, size), nodes, 0, j) * Tally(What(generated), bodies, nodes, j, pending, size)
      == Arriving(Weights(generated, bodies, nodes, pending, size), nodes, 0, |nodes|)
    decreases |bodies.Keys - pending|, 2, |nodes| - j
  {
    if j < |nodes| {
      TallyArriving(generated, bodies, nodes, j + 1, pending, size);
      NodeIsWeight(generated, bodies, nodes, j, pending, size);
      Associate(Arriving(Weights(generated, bodies, nodes, pending, size), nodes, 0, j), TallyNode(What(generated), bodies, nodes, j, pending, size),
                Tally(What(generated), bodies, nodes, j + 1, pending, size));
    }
  }

  /** A branch's rows are its tally. */
  lemma {:induction false} EmitsIsTally(generated: bool, bodies: Bodies, nodes: Subtree, pending: set<string>, size: string -> nat)
    requires PlainShape(nodes) && PlainBodies(bodies)
    ensures BranchEmits(generated, bodies, nodes, pending, size) == Tally(What(generated), bodies, nodes, 0, pending, size)
    decreases |bodies.Keys - pending|, 3, 0
  {
    if nodes != [] {
      EmitsArriving(generated, bodies, nodes, 0, pending, size);
      TallyArriving(generated, bodies, nodes, 0, pending, size);
    }
  }

  lemma {:induction false} NamedIsTallied(generated: bool, bodies: Bodies, name: string, pending: set<string>, size: string -> nat)
    requires PlainBodies(bodies)
    ensures NamedRows(generated, bodies, name, pending, size) == RefRows(What(generated), bodies, name, pending, size)
    decreases |bodies.Keys - pending|, 0, 0
  {
    if name in bodies && name !in pending {
      Shrinks(bodies, pending, name);
      EmitsIsTally(generated, bodies, bodies[name][0], pending + {name}, size);
    }
  }

  // ----- plain shapes are plain -----

  lemma ShapeIsPlain(nodes: Subtree)
    requires PlainShape(nodes)
    ensures PlainNodes(nodes)
  {
    forall g, j | 0 <= g < j < |nodes| && nodes[g].kind.Generator? && Descends(nodes, g, j)
      ensures !nodes[j].kind.Column? && (nodes[j].kind.Array? || nodes[j].kind.Series? ==> IsInput(nodes, g, j))
    {
      DescendsBelow(nodes, g, j);
      if nodes[j].parent != g && nodes[nodes[j].parent].kind.Generator? {
        DescendsBelow(nodes, g, nodes[j].parent);
      }
    }
  }

  lemma BodiesArePlain(bodies: Bodies)
    requires PlainBodies(bodies)
    ensures AllPlain(bodies)
  {
    forall name | name in bodies ensures PlainNodes(bodies[name][0]) && !Collapses(bodies[name][0]) {
      var body := bodies[name][0];
      ShapeIsPlain(body);
      if Collapses(body) {
        FirstSelectIs(body, BranchSelect(body, 0).value);
      }
    }
  }

  // ----- the multiplier -----

  /** The multiplier of one branch times the rows its plan counts is never below the rows it really builds, and
    * where the plan counts any row it is exactly that if and only if everything counted points towards its end. */
  lemma FanoutIsExactIff(bodies: Bodies, nodes: Subtree, budget: int, size: string -> nat)
    requires PlainBodies(bodies) && PlainShape(nodes)
    requires GeneratorProduct(bodies, nodes, {}, budget, true, false).product.Some?
    ensures var product, counted, built := GeneratorProduct(bodies, nodes, {}, budget, true, false).product.value,
                BranchEmits(false, bodies, nodes, {}, size), BranchEmits(true, bodies, nodes, {}, size);
      && built <= product * counted
      && (counted > 0 ==> (product * counted == built <==> AllPoint(bodies, nodes, 0, {})))
  {
    BodiesArePlain(bodies);
    ShapeIsPlain(nodes);
    EmitsIsTally(true, bodies, nodes, {}, size);
    EmitsIsTally(false, bodies, nodes, {}, size);
    TallyIsExactIff(bodies, nodes, budget, size);
  }

  /** The rows of a UNION ALL: its branches' rows, added. */
  function UnionEmits(generated: bool, bodies: Bodies, branches: seq<Subtree>, size: string -> nat): nat {
    if branches == [] then 0
    else BranchEmits(generated, bodies, branches[0], {}, size) + UnionEmits(generated, bodies, branches[1..], size)
  }

  /** Is the node a table, or a name that stands for one or for a body that reads one? */
  predicate NodeReads(bodies: Bodies, nodes: Subtree, i: nat, pending: set<string>)
    requires i < |nodes|
    decreases |bodies.Keys - pending|, 0, 1
  {
    nodes[i].kind.Scan? || (nodes[i].kind.Ref? && NameReads(bodies, nodes[i].kind.name, pending))
  }

  predicate NameReads(bodies: Bodies, name: string, pending: set<string>)
    decreases |bodies.Keys - pending|, 0, 0
  {
    if name !in bodies then true
    else if name in pending || bodies[name] == [] then false
    else
      Shrinks(bodies, pending, name);
      SomeReads(bodies, bodies[name][0], |bodies[name][0]|, pending + {name})
  }

  /** Is one of the first n nodes? */
  predicate SomeReads(bodies: Bodies, nodes: Subtree, n: nat, pending: set<string>)
    requires n <= |nodes|
    decreases |bodies.Keys - pending|, 1, n
  {
    n > 0 && (NodeReads(bodies, nodes, n - 1, pending) || SomeReads(bodies, nodes, n - 1, pending))
  }

  lemma {:induction false} NodeReadsIff(bodies: Bodies, nodes: Subtree, i: nat, pending: set<string>)
    requires i < |nodes| && PlainBodies(bodies)
    ensures NodeReads(bodies, nodes, i, pending) <==> ReadsHere(bodies, nodes, i, pending, false)
    decreases |bodies.Keys - pending|, 1, 0
  {
    if nodes[i].kind.Ref? {
      NameReadsIff(bodies, nodes[i].kind.name, pending);
    }
  }

  lemma {:induction false} SomeReadsIff(bodies: Bodies, nodes: Subtree, n: nat, pending: set<string>)
    requires n <= |nodes| && PlainBodies(bodies)
    ensures SomeReads(bodies, nodes, n, pending) || ReadsATable(bodies, nodes, n, pending, false) <==> ReadsATable(bodies, nodes, 0, pending, false)
    decreases |bodies.Keys - pending|, 2, n
  {
    if n > 0 {
      NodeReadsIff(bodies, nodes, n - 1, pending);
      SomeReadsIff(bodies, nodes, n - 1, pending);
    }
  }

  lemma {:induction false} NameReadsIff(bodies: Bodies, name: string, pending: set<string>)
    requires PlainBodies(bodies)
    ensures NameReads(bodies, name, pending) <==> RefReads(bodies, name, pending)
    decreases |bodies.Keys - pending|, 0, 0
  {
    if name in bodies && name !in pending {
      Shrinks(bodies, pending, name);
      SomeReadsIff(bodies, bodies[name][0], |bodies[name][0]|, pending + {name});
      assert !AnyReads(bodies, bodies[name][1..], pending + {name});
    }
  }

  /** Branches of a UNION ALL, each plain and reading some table. */
  ghost predicate PlainReading(bodies: Bodies, branches: seq<Subtree>) {
    forall b :: 0 <= b < |branches| ==> PlainShape(branches[b]) && SomeReads(bodies, branches[b], |branches[b]|, {})
  }

  lemma ScaledSum(part: nat, whole: nat, a: nat, b: nat)
    requires part <= whole
    ensures part * a + whole * b <= whole * (a + b)
  {
    MulMonotone(part, whole, a, a);
  }

  lemma {:induction false} UnionWithin(bodies: Bodies, branches: seq<Subtree>, budget: int, widest: nat, size: string -> nat)
    requires PlainBodies(bodies) && PlainReading(bodies, branches) && Multiplier(bodies, branches, budget, widest).Some?
    ensures Multiplier(bodies, branches, budget, widest).value >= widest
    ensures UnionEmits(true, bodies, branches, size)
         <= Multiplier(bodies, branches, budget, widest).value * UnionEmits(false, bodies, branches, size)
    decreases |branches|
  {
    if branches != [] {
      SomeReadsIff(bodies, branches[0], |branches[0]|, {});
      var walked := GeneratorProduct(bodies, branches[0], {}, budget, true, false);
      FanoutIsExactIff(bodies, branches[0], budget, size);
      forall b | 0 <= b < |branches[1..]| ensures PlainShape(branches[1..][b]) && SomeReads(bodies, branches[1..][b], |branches[1..][b]|, {}) {
        assert branches[1..][b] == branches[b + 1];
      }
      UnionWithin(bodies, branches[1..], walked.budget, Max(widest, walked.product.value), size);
      ScaledSum(walked.product.value, Multiplier(bodies, branches, budget, widest).value,
                BranchEmits(false, bodies, branches[0], {}, size), UnionEmits(false, bodies, branches[1..], size));
    }
  }

  /** A UNION ALL of table-reading plain branches builds at most the fanout times what its plan counts,
    * unless it was refused. */
  lemma FanoutCoversUnion(bodies: Bodies, branches: seq<Subtree>, size: string -> nat)
    requires PlainBodies(bodies) && PlainReading(bodies, branches)
    requires !GeneratesRows(bodies, branches)
    ensures UnionEmits(true, bodies, branches, size) <= GeneratorFanout(bodies, branches) * UnionEmits(false, bodies, branches, size)
  {
    UnrefusedIsPriced(bodies, branches, MAX_SCAN_COUNT, MAX_SCAN_COUNT, 1);
    UnionWithin(bodies, branches, MAX_SCAN_COUNT, 1, size);
  }

  // ----- a literal branch within the caps is always priced -----

  /** FROM and joins put the node beside whatever else the branch reads, all the way up. */
  predicate JoinedUp(nodes: Subtree, i: nat)
    requires i < |nodes|
    decreases i
  {
    i == 0 ||
    var p := nodes[i].parent;
    && JoinedUp(nodes, p)
    && match nodes[p].kind
       case Select(narrows, scans, _) => nodes[i].role == Relation && (!narrows || scans || FirstSelect(nodes, p))
       case Join => nodes[i].role == Relation
       case Plain => true
       case _ => false
  }

  predicate HasJoinedTable(nodes: Subtree) { exists i :: 0 <= i < |nodes| && nodes[i].kind.Scan? && JoinedUp(nodes, i) }

  /** A sequence joined to a table may be as long as anything counted, any other is held to what a query may spell out. */
  function LengthCap(nodes: Subtree, joined: bool): nat { if joined && HasJoinedTable(nodes) then 10_000_000 else 1000 }

  /** The generator has inputs, and each is a literal list of at most 1000 elements or a readable sequence within its cap. */
  predicate SmallInputs(nodes: Subtree, g: nat)
    requires g < |nodes|
  {
    && (exists j :: g < j < |nodes| && nodes[j].parent == g && nodes[j].role == Input)
    && forall j :: g < j < |nodes| && nodes[j].parent == g && nodes[j].role == Input ==>
         match nodes[j].kind
         case Array(count, literal) => literal && count <= 1000
         case Series(span) => SequenceLength(span).Some? && SequenceLength(span).value <= LengthCap(nodes, JoinedUp(nodes, g))
         case _ => false
  }

  /** Such generators and sequences only, and no reference to a CTE. */
  predicate SmallLiterals(bodies: Bodies, nodes: Subtree) {
    && PlainShape(nodes)
    && forall i :: 0 <= i < |nodes| ==>
         match nodes[i].kind
         case Generator => SmallInputs(nodes, i)
         case Series(span) =>
           BelowGenerator(nodes, i) || (SequenceLength(span).Some? && SequenceLength(span).value <= LengthCap(nodes, true))
         case Ref(name) => name !in bodies
         case _ => true
  }

  function InputsFrom(nodes: Subtree, g: nat, j: nat): nat
    requires j <= |nodes|
    decreases |nodes| - j
  {
    if j == |nodes| then 0 else (if j > g && nodes[j].parent == g && nodes[j].role == Input then 1 else 0) + InputsFrom(nodes, g, j + 1)
  }

  /** A step for every node, and one for every input of a generator. */
  function StepsFrom(nodes: Subtree, i: nat): nat
    requires i <= |nodes|
    decreases |nodes| - i
  {
    if i == |nodes| then 0 else 1 + (if nodes[i].kind.Generator? then InputsFrom(nodes, i, i + 1) else 0) + StepsFrom(nodes, i + 1)
  }

  /** Everything its generators are counted as making, and everything its loose sequences are. */
  function GeneratorsFrom(nodes: Subtree, i: nat): Rows
    requires i <= |nodes|
    decreases |nodes| - i
  {
    if i == |nodes| then 1
    else
      var here: Rows := if nodes[i].kind.Generator? then GeneratorRows(nodes, i, i + 1) else 1;
      MulMonotone(1, here, 1, GeneratorsFrom(nodes, i + 1));
      here * GeneratorsFrom(nodes, i + 1)
  }

  function SeriesFrom(nodes: Subtree, i: nat): Rows
    requires i <= |nodes|
    decreases |nodes| - i
  {
    if i == |nodes| then 1
    else
      var here: Rows := if nodes[i].kind.Series? && !BelowGenerator(nodes, i) && SequenceLength(nodes[i].kind.span).Some?
        then SequenceLength(nodes[i].kind.span).value else 1;
      MulMonotone(1, here, 1, SeriesFrom(nodes, i + 1));
      here * SeriesFrom(nodes, i + 1)
  }

  lemma {:induction false} ChecksAreInputs(nodes: Subtree, g: nat, j: nat)
    requires g < j <= |nodes| && PlainShape(nodes) && nodes[g].kind.Generator? && SmallInputs(nodes, g)
    ensures CheckSteps(nodes, g, j) == InputsFrom(nodes, g, j) && RowSteps(nodes, g, j) == 0
    decreases |nodes| - j
  {
    if j < |nodes| {
      ChecksAreInputs(nodes, g, j + 1);
      if Descends(nodes, g, j) {
        DescendsBelow(nodes, g, j);
      }
    }
  }

  lemma {:induction false} JoinedMeets(nodes: Subtree, i: nat)
    requires i < |nodes| && JoinedUp(nodes, i)
    ensures Meets(nodes, i) && MetRelation(nodes, i)
    decreases i
  {
    if i > 0 {
      JoinedMeets(nodes, nodes[i].parent);
      FirstSelectIs(nodes, nodes[i].parent);
    }
  }

  lemma {:induction false} JoinedTableIsRead(bodies: Bodies, nodes: Subtree, j: nat, i: nat)
    requires j <= i < |nodes| && nodes[i].kind.Scan? && JoinedUp(nodes, i)
    ensures ReadsATable(bodies, nodes, j, {}, true)
    decreases i - j
  {
    if j == i {
      JoinedMeets(nodes, i);
    } else {
      JoinedTableIsRead(bodies, nodes, j + 1, i);
    }
  }

  lemma SmallIsBounded(nodes: Subtree, g: nat, priced: bool)
    requires g < |nodes| && SmallInputs(nodes, g) && (HasJoinedTable(nodes) ==> priced)
    ensures Bounded(nodes, g, priced)
  {
    if JoinedUp(nodes, g) {
      JoinedMeets(nodes, g);
    }
    var j :| g < j < |nodes| && nodes[j].parent == g && nodes[j].role == Input;
    assert IsInput(nodes, g, j);
  }

  lemma {:induction false} NodesAnswer(bodies: Bodies, nodes: Subtree, i: nat, priced: bool, pricing: bool, budget: int, product: nat)
    requires i <= |nodes| && SmallLiterals(bodies, nodes) && budget > StepsFrom(nodes, i) && (HasJoinedTable(nodes) ==> priced)
    requires product * GeneratorsFrom(nodes, i) <= MAX_COUNTED_ROWS
    ensures var walked := WalkNodes(nodes, i, priced, pricing, budget, product);
      walked.product.Some? && walked.product.value <= product * GeneratorsFrom(nodes, i) && walked.budget >= budget - StepsFrom(nodes, i)
    decreases |nodes| - i
  {
    if i < |nodes| {
      var rest := GeneratorsFrom(nodes, i + 1);
      if !nodes[i].kind.Generator? {
        NodesAnswer(bodies, nodes, i + 1, priced, pricing, budget - 1, product);
      } else {
        var rows := GeneratorRows(nodes, i, i + 1);
        ChecksAreInputs(nodes, i, i + 1);
        SmallIsBounded(nodes, i, priced);
        var checked := budget - 1 - CheckSteps(nodes, i, i + 1);
        Associate(product, rows, rest);
        MulMonotone(product, product * rows, rest, rest) by {
          MulMonotone(product, product, 1, rows);
        }
        MulMonotone(product * rows, product * rows, 1, rest);
        if pricing && !Meets(nodes, i) {
          NodesAnswer(bodies, nodes, i + 1, priced, pricing, checked, product);
        } else {
          NodesAnswer(bodies, nodes, i + 1, priced, pricing, checked, product * rows);
        }
      }
    }
  }

  lemma LooseIsNotBelow(nodes: Subtree, i: nat, pricing: bool)
    requires i < |nodes| && nodes[i].kind.Series? && i !in Wrapped(nodes, pricing) && (pricing ==> Meets(nodes, i))
    ensures !BelowGenerator(nodes, i)
  {
    if BelowGenerator(nodes, i) {
      var g := BelowSome(nodes, i);
      if pricing {
        MeetsPassesUp(nodes, g, i);
      }
      assert CountedGenerator(nodes, g, pricing);
    }
  }

  lemma {:induction false} SeriesAnswer(bodies: Bodies, nodes: Subtree, i: nat, priced: bool, pricing: bool, product: nat)
    requires i <= |nodes| && SmallLiterals(bodies, nodes) && product * SeriesFrom(nodes, i) <= MAX_COUNTED_ROWS
    requires HasJoinedTable(nodes) ==> priced
    ensures LooseSeries(nodes, i, priced, pricing, product).Some?
    ensures LooseSeries(nodes, i, priced, pricing, product).value <= product * SeriesFrom(nodes, i)
    decreases |nodes| - i
  {
    if i < |nodes| {
      var rest := SeriesFrom(nodes, i + 1);
      if !nodes[i].kind.Series? || i in Wrapped(nodes, pricing) || (pricing && !Meets(nodes, i)) {
        MulMonotone(product, product, rest, SeriesFrom(nodes, i)) by {
          if nodes[i].kind.Series? && !BelowGenerator(nodes, i) {
            MulMonotone(1, SequenceLength(nodes[i].kind.span).value, rest, rest);
          }
        }
        SeriesAnswer(bodies, nodes, i + 1, priced, pricing, product);
      } else {
        LooseIsNotBelow(nodes, i, pricing);
        var length := SequenceLength(nodes[i].kind.span).value;
        Associate(product, length, rest);
        MulMonotone(product * length, product * length, 1, rest);
        SeriesAnswer(bodies, nodes, i + 1, priced, pricing, product * length);
      }
    }
  }

  lemma {:induction false} NothingFollowed(bodies: Bodies, nodes: Subtree, i: nat, pending: set<string>)
    requires i <= |nodes| && SmallLiterals(bodies, nodes)
    ensures References(bodies, nodes, i, pending) == []
    decreases |nodes| - i
  {
    if i < |nodes| {
      NothingFollowed(bodies, nodes, i + 1, pending);
    }
  }

  lemma ProductAnswers(bodies: Bodies, nodes: Subtree, budget: int, pricing: bool)
    requires SmallLiterals(bodies, nodes) && budget > StepsFrom(nodes, 0)
    requires GeneratorsFrom(nodes, 0) * SeriesFrom(nodes, 0) <= 10_000_000
    ensures GeneratorProduct(bodies, nodes, {}, budget, pricing, false).product.Some?
  {
    var priced := ReadsATable(bodies, nodes, 0, {}, true);
    if i :| 0 <= i < |nodes| && nodes[i].kind.Scan? && JoinedUp(nodes, i) {
      JoinedTableIsRead(bodies, nodes, 0, i);
    }
    var generators, series := GeneratorsFrom(nodes, 0), SeriesFrom(nodes, 0);
    MulMonotone(generators, generators, 1, series);
    NodesAnswer(bodies, nodes, 0, priced, pricing, budget, 1);
    var walked := WalkNodes(nodes, 0, priced, pricing, budget, 1);
    MulMonotone(walked.product.value, generators, series, series);
    SeriesAnswer(bodies, nodes, 0, priced, pricing, walked.product.value);
    NothingFollowed(bodies, nodes, 0, {});
  }

  lemma OneBranchRefused(bodies: Bodies, nodes: Subtree, budget: int)
    requires GeneratorProduct(bodies, nodes, {}, budget, false, false).product.Some? && ReadsATable(bodies, nodes, 0, {}, false)
    ensures !Refuses(bodies, [nodes], budget)
  {
    assert [nodes][1..] == [];
  }

  lemma OneBranchMultiplied(bodies: Bodies, nodes: Subtree, budget: int)
    requires GeneratorProduct(bodies, nodes, {}, budget, true, false).product.Some? && ReadsATable(bodies, nodes, 0, {}, false)
    ensures Multiplier(bodies, [nodes], budget, 1) == Some(Max(1, GeneratorProduct(bodies, nodes, {}, budget, true, false).product.value))
  {
    assert [nodes][1..] == [];
  }

  lemma LiteralBranchIsRead(bodies: Bodies, nodes: Subtree)
    requires PlainBodies(bodies) && SmallLiterals(bodies, nodes) && SomeReads(bodies, nodes, |nodes|, {})
    requires StepsFrom(nodes, 0) < 10_000 && GeneratorsFrom(nodes, 0) * SeriesFrom(nodes, 0) <= 10_000_000
    ensures !GeneratesRows(bodies, [nodes])
    ensures GeneratorProduct(bodies, nodes, {}, MAX_SCAN_COUNT, true, false).product.Some?
    ensures GeneratorFanout(bodies, [nodes]) == Max(1, GeneratorProduct(bodies, nodes, {}, MAX_SCAN_COUNT, true, false).product.value)
  {
    ProductAnswers(bodies, nodes, MAX_SCAN_COUNT, false);
    ProductAnswers(bodies, nodes, MAX_SCAN_COUNT, true);
    SomeReadsIff(bodies, nodes, |nodes|, {});
    OneBranchRefused(bodies, nodes, MAX_SCAN_COUNT);
    OneBranchMultiplied(bodies, nodes, MAX_SCAN_COUNT);
  }

  /** A branch of tables and literal generators within the caps, that cross to at most 10,000,000 rows and take
    * fewer than 10,000 steps, is never refused; its multiplier times the rows its plan counts covers the rows it
    * builds, and is just that wherever everything counted points towards its end. */
  lemma LiteralBranchIsPriced(bodies: Bodies, nodes: Subtree, size: string -> nat)
    requires PlainBodies(bodies) && SmallLiterals(bodies, nodes) && SomeReads(bodies, nodes, |nodes|, {})
    requires StepsFrom(nodes, 0) < 10_000 && GeneratorsFrom(nodes, 0) * SeriesFrom(nodes, 0) <= 10_000_000
    ensures !GeneratesRows(bodies, [nodes])
    ensures BranchEmits(true, bodies, nodes, {}, size) <= GeneratorFanout(bodies, [nodes]) * BranchEmits(false, bodies, nodes, {}, size)
    ensures AllPoint(bodies, nodes, 0, {}) ==>
      BranchEmits(true, bodies, nodes, {}, size) == GeneratorFanout(bodies, [nodes]) * BranchEmits(false, bodies, nodes, {}, size)
  {
    LiteralBranchIsRead(bodies, nodes);
    BodiesArePlain(bodies);
    ShapeIsPlain(nodes);
    ProductIsCounted(bodies, nodes, {}, MAX_SCAN_COUNT, false, size);
    CountedIsPositive(bodies, nodes, 0, {}, size);
    FanoutIsExactIff(bodies, nodes, MAX_SCAN_COUNT, size);
  }
}
