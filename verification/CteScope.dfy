/** Which bare names a query binds to its own CTEs, and the table allowlist (core/allowlist.py;
  * WITH scoping as in section 7.13 of ISO/IEC 9075-2:2003). */
module CteScope {
  import opened Prelude

  datatype Part = Identifier(text: string) | Computed

  datatype Kind = Table(parts: seq<Part>) | Cte(aliasName: string) | With(recursive: bool) | Plain

  /** One node of a parsed query: its parent, its place among the parent's children, its WITH clause. */
  datatype Expr = Expr(parent: Option<nat>, index: nat, kind: Kind, withClause: Option<nat>, kids: seq<nat>)

  type Tree = seq<Expr>

  /** The tree a parser builds: parents before children, links both ways, WITH clauses holding CTEs in order. */
  ghost predicate WellFormed(t: Tree) {
    && t != [] && t[0].parent.None?
    && forall n :: 0 <= n < |t| ==> NodeWellFormed(t, n)
  }

  ghost predicate NodeWellFormed(t: Tree, n: nat)
    requires n < |t|
  {
    && (n > 0 ==> t[n].parent.Some? && t[n].parent.value < n)
    && (n > 0 ==> t[n].index < |t[t[n].parent.value].kids| && t[t[n].parent.value].kids[t[n].index] == n)
    && (forall i :: 0 <= i < |t[n].kids| ==>
          n < t[n].kids[i] < |t| && t[t[n].kids[i]].parent == Some(n) && t[t[n].kids[i]].index == i)
    && (t[n].withClause.Some? ==> t[n].kind.Plain? && t[n].withClause.value in t[n].kids && t[t[n].withClause.value].kind.With?)
    && (t[n].kind.With? ==> n > 0 && t[t[n].parent.value].withClause == Some(n))
    && (t[n].kind.With? ==> forall i :: 0 <= i < |t[n].kids| ==> t[t[n].kids[i]].kind.Cte?)
    && (t[n].kind.Cte? ==> n > 0 && t[t[n].parent.value].kind.With?)
  }

  function AliasAt(t: Tree, w: nat, i: nat): string
    requires WellFormed(t) && w < |t| && t[w].kind.With? && i < |t[w].kids|
  {
    assert NodeWellFormed(t, w);
    Lower(t[t[w].kids[i]].kind.aliasName)
  }

  /** The names the first i items of a WITH list declare. */
  function DeclaredBefore(t: Tree, w: nat, i: nat): set<string>
    requires WellFormed(t) && w < |t| && t[w].kind.With? && i <= |t[w].kids|
  {
    set j | 0 <= j < i :: AliasAt(t, w, j)
  }

  // ----- top-down: each scope hands its names to what lies inside it -----

  /** The environment a node's child is read in: an item of a WITH list sees the items before it, and
    * itself when the list is RECURSIVE; anything else under the query sees every item. */
  function ChildEnv(t: Tree, n: nat, kid: nat, env: set<string>): set<string>
    requires WellFormed(t) && n < |t| && kid < |t| && t[kid].parent == Some(n)
  {
    assert NodeWellFormed(t, n) && NodeWellFormed(t, kid);
    if t[n].kind.With? then
      env + DeclaredBefore(t, n, if t[n].kind.recursive then t[kid].index + 1 else t[kid].index)
    else if t[kid].kind.With? || t[n].withClause.None? then env
    else
      var w := t[n].withClause.value;
      env + DeclaredBefore(t, w, |t[w].kids|)
  }

  predicate IsBareTable(t: Tree, n: nat)
    requires n < |t|
  {
    t[n].kind.Table? && |t[n].kind.parts| == 1 && t[n].kind.parts[0].Identifier?
  }

  function BareName(t: Tree, n: nat): string
    requires n < |t| && IsBareTable(t, n)
  {
    Lower(t[n].kind.parts[0].text)
  }

  /** The bare references under a node that lexical scoping binds to a CTE. */
  ghost function BoundUnder(t: Tree, n: nat, env: set<string>): set<nat>
    requires WellFormed(t) && n < |t|
    decreases |t| - n, 1, 0
  {
    (if IsBareTable(t, n) && BareName(t, n) in env then {n} else {}) + BoundUnderKids(t, n, |t[n].kids|, env)
  }

  ghost function BoundUnderKids(t: Tree, n: nat, count: nat, env: set<string>): set<nat>
    requires WellFormed(t) && n < |t| && count <= |t[n].kids|
    decreases |t| - n, 0, count
  {
    if count == 0 then {}
    else
      assert NodeWellFormed(t, n);
      var kid := t[n].kids[count - 1];
      BoundUnderKids(t, n, count - 1, env) + BoundUnder(t, kid, ChildEnv(t, n, kid, env))
  }

  /** The environment of one node, inherited down from the root. */
  function Env(t: Tree, n: nat): set<string>
    requires WellFormed(t) && n < |t|
    decreases n
  {
    assert NodeWellFormed(t, n);
    if n == 0 then {} else ChildEnv(t, t[n].parent.value, n, Env(t, t[n].parent.value))
  }

  lemma {:induction false} BoundIsInEnv(t: Tree, n: nat, m: nat)
    requires WellFormed(t) && n < |t| && m in BoundUnder(t, n, Env(t, n))
    ensures m < |t| && IsBareTable(t, m) && BareName(t, m) in Env(t, m)
    decreases |t| - n, 1, 0
  {
    if !(IsBareTable(t, n) && BareName(t, n) in Env(t, n) && m == n) {
      BoundKidIsInEnv(t, n, |t[n].kids|, m);
    }
  }

  lemma {:induction false} BoundKidIsInEnv(t: Tree, n: nat, count: nat, m: nat)
    requires WellFormed(t) && n < |t| && count <= |t[n].kids| && m in BoundUnderKids(t, n, count, Env(t, n))
    ensures m < |t| && IsBareTable(t, m) && BareName(t, m) in Env(t, m)
    decreases |t| - n, 0, count
  {
    assert NodeWellFormed(t, n);
    var kid := t[n].kids[count - 1];
    assert NodeWellFormed(t, kid);
    if m in BoundUnder(t, kid, ChildEnv(t, n, kid, Env(t, n))) {
      BoundIsInEnv(t, kid, m);
    } else {
      BoundKidIsInEnv(t, n, count - 1, m);
    }
  }

  lemma {:induction false} KidIsUnder(t: Tree, n: nat, count: nat, i: nat, m: nat, env: set<string>)
    requires WellFormed(t) && n < |t| && i < count <= |t[n].kids| && NodeWellFormed(t, n)
    requires m in BoundUnder(t, t[n].kids[i], ChildEnv(t, n, t[n].kids[i], env))
    ensures m in BoundUnderKids(t, n, count, env)
    decreases count
  {
    if i < count - 1 {
      KidIsUnder(t, n, count - 1, i, m, env);
    }
  }

  /** The top-down traversal from the root binds exactly the bare references their inherited environment binds. */
  lemma TraversalBindsByEnv(t: Tree, m: nat)
    requires WellFormed(t) && m < |t|
    ensures m in BoundUnder(t, 0, {}) <==> IsBareTable(t, m) && BareName(t, m) in Env(t, m)
  {
    if m in BoundUnder(t, 0, {}) {
      BoundIsInEnv(t, 0, m);
    }
    if IsBareTable(t, m) && BareName(t, m) in Env(t, m) {
      var n: nat := m;
      while n != 0
        invariant n < |t| && m in BoundUnder(t, n, Env(t, n))
      {
        assert NodeWellFormed(t, n);
        var p := t[n].parent.value;
        assert NodeWellFormed(t, p);
        KidIsUnder(t, p, |t[p].kids|, t[n].index, m, Env(t, p));
        n := p;
      }
    }
  }

  // ----- bottom-up: the walk over parent pointers -----

  /** Every declared name with the first place it is declared at. */
  function FirstIndexes(t: Tree, w: nat, count: nat): map<string, nat>
    requires WellFormed(t) && w < |t| && t[w].kind.With? && count <= |t[w].kids|
  {
    if count == 0 then map[]
    else
      var before, name := FirstIndexes(t, w, count - 1), AliasAt(t, w, count - 1);
      if name in before then before else before[name := count - 1]
  }

  lemma {:induction false} FirstIndexIs(t: Tree, w: nat, count: nat, name: string)
    requires WellFormed(t) && w < |t| && t[w].kind.With? && count <= |t[w].kids|
    ensures name in FirstIndexes(t, w, count) <==> name in DeclaredBefore(t, w, count)
    ensures name in FirstIndexes(t, w, count) ==>
      var at := FirstIndexes(t, w, count)[name];
      at < count && AliasAt(t, w, at) == name && name !in DeclaredBefore(t, w, at)
    decreases count
  {
    if count > 0 {
      FirstIndexIs(t, w, count - 1, name);
    }
  }

  /** A name is declared before place i exactly when its first declaration is. */
  lemma DeclaredBeforeByFirst(t: Tree, w: nat, i: nat, name: string)
    requires WellFormed(t) && w < |t| && t[w].kind.With? && i <= |t[w].kids|
    ensures var first := FirstIndexes(t, w, |t[w].kids|);
      name in DeclaredBefore(t, w, i) <==> name in first && first[name] < i
  {
    FirstIndexIs(t, w, |t[w].kids|, name);
    assert DeclaredBefore(t, w, i) <= DeclaredBefore(t, w, |t[w].kids|);
    if name in FirstIndexes(t, w, |t[w].kids|) {
      var at := FirstIndexes(t, w, |t[w].kids|)[name];
      if i <= at {
        assert DeclaredBefore(t, w, i) <= DeclaredBefore(t, w, at);
      }
    }
  }

  /** Does a declaration reach a reference in this item of the list, or (None) in the query body? */
  predicate Visible(declared: map<string, nat>, name: string, item: Option<nat>, recursive: bool) {
    name in declared && (item.None? || declared[name] < item.value || (declared[name] == item.value && recursive))
  }

  /** One check's state: the declared names of each WITH clause met so far. */
  class Resolver {
    const t: Tree
    var scopes: map<nat, map<string, nat>>

    ghost predicate Valid()
      reads this
    {
      WellFormed(t) && forall w :: w in scopes ==> w < |t| && t[w].kind.With? && scopes[w] == FirstIndexes(t, w, |t[w].kids|)
    }

    constructor (t: Tree)
      requires WellFormed(t)
      ensures Valid() && this.t == t
    {
      this.t := t;
      scopes := map[];
    }

    method Declared(w: nat) returns (declared: map<string, nat>)
      requires Valid() && w < |t| && t[w].kind.With?
      modifies this
      ensures Valid() && declared == FirstIndexes(t, w, |t[w].kids|)
      ensures scopes == if w in old(scopes) then old(scopes) else old(scopes)[w := declared]
    {
      if w in scopes {
        return scopes[w];
      }
      declared := map[];
      for i := 0 to |t[w].kids|
        invariant declared == FirstIndexes(t, w, i)
      {
        var name := AliasAt(t, w, i);
        if name !in declared {
          declared := declared[name := i];
        }
      }
      scopes := scopes[w := declared];
    }

    /** Is this bare name declared by a WITH clause enclosing it, and earlier? Exactly when the
      * environment handed down to the reference binds it. */
    method CteInScope(table: nat) returns (bound: bool)
      requires Valid() && table < |t| && IsBareTable(t, table)
      modifies this
      ensures Valid() && bound == (BareName(t, table) in Env(t, table))
    {
      var name := BareName(t, table);
      var below: Option<nat>, prev: Option<nat>, node: Option<nat> := None, None, Some(table);
      while node.Some?
        invariant Valid() && Arrived(t, table, name, below, prev, node)
        decreases if node.Some? then node.value + 1 else 0
      {
        var here := node.value;
        assert NodeWellFormed(t, here);
        if t[here].withClause.Some? {
          var w := t[here].withClause.value;
          var declared := Declared(w);
          var item := if prev == Some(w) && below.Some? && t[below.value].kind.Cte? then Some(t[below.value].index) else None;
          VisibleHere(t, table, name, below, prev, here);
          if Visible(declared, name, item, t[w].kind.recursive) {
            return true;
          }
        }
        StepUp(t, table, name, below, prev, here);
        below, prev, node := prev, node, t[here].parent;
      }
      assert NodeWellFormed(t, prev.value);
      bound := false;
    }
  }

  /** What the walk has settled: everything strictly below `node` declares nothing, so the name is bound
    * exactly when the environment the walk came out of binds it. */
  ghost predicate Arrived(t: Tree, table: nat, name: string, below: Option<nat>, prev: Option<nat>, node: Option<nat>)
    requires WellFormed(t) && table < |t|
  {
    && (node.Some? ==> node.value < |t|)
    && (below.Some? ==> below.value < |t|)
    && (prev.None? ==> below.None? && node == Some(table))
    && (prev.Some? ==> prev.value < |t| && node == t[prev.value].parent)
    && (prev.Some? && t[prev.value].kind.With? ==> below.Some? && below.value < |t| && t[below.value].parent == prev)
    && (name in Env(t, table) <==> name in Env(t, CameFrom(t, table, below, prev)))
  }

  /** The node whose environment still decides: the WITH item if the walk is leaving a WITH clause, else the last node. */
  ghost function CameFrom(t: Tree, table: nat, below: Option<nat>, prev: Option<nat>): (n: nat)
    requires table < |t|
    ensures n < |t|
  {
    if prev.None? || prev.value >= |t| then table
    else if t[prev.value].kind.With? && below.Some? && below.value < |t| then below.value
    else prev.value
  }

  /** The place in the WITH list the walk came out of, if it came through the list. */
  function ItemLeft(t: Tree, w: nat, below: Option<nat>, prev: Option<nat>): Option<nat>
    requires below.Some? ==> below.value < |t|
  {
    if prev == Some(w) && below.Some? && t[below.value].kind.Cte? then Some(t[below.value].index) else None
  }

  /** What a query's own WITH clause adds to the environment the walk came out of. */
  lemma VisibleHere(t: Tree, table: nat, name: string, below: Option<nat>, prev: Option<nat>, here: nat)
    requires WellFormed(t) && table < |t| && IsBareTable(t, table) && Arrived(t, table, name, below, prev, Some(here))
    requires t[here].withClause.Some? && NodeWellFormed(t, here)
    ensures below.Some? ==> below.value < |t|
    ensures t[t[here].withClause.value].kind.With?
    ensures var w := t[here].withClause.value;
      var seen := Visible(FirstIndexes(t, w, |t[w].kids|), name, ItemLeft(t, w, below, prev), t[w].kind.recursive);
      name in Env(t, table) <==> (name in Env(t, here) || seen)
  {
    var w := t[here].withClause.value;
    assert NodeWellFormed(t, w) && NodeWellFormed(t, prev.value);
    if prev.value == w {
      assert NodeWellFormed(t, below.value);
      assert Env(t, w) == Env(t, here);
      assert Env(t, below.value) == ChildEnv(t, w, below.value, Env(t, w));
      assert t[t[w].kids[t[below.value].index]].kind.Cte?;
      DeclaredBeforeByFirst(t, w, t[below.value].index, name);
      DeclaredBeforeByFirst(t, w, t[below.value].index + 1, name);
    } else {
      DeclaredBeforeByFirst(t, w, |t[w].kids|, name);
      FirstIndexIs(t, w, |t[w].kids|, name);
    }
  }

  /** One parent up, when the node's own WITH clause did not bind the name. */
  lemma StepUp(t: Tree, table: nat, name: string, below: Option<nat>, prev: Option<nat>, here: nat)
    requires WellFormed(t) && table < |t| && IsBareTable(t, table) && Arrived(t, table, name, below, prev, Some(here))
    requires t[here].withClause.Some? ==> (name in Env(t, table) <==> name in Env(t, here))
    ensures Arrived(t, table, name, prev, Some(here), t[here].parent)
  {
    assert NodeWellFormed(t, here);
    if prev.Some? {
      assert NodeWellFormed(t, prev.value);
    }
  }

  // ----- the allowlist -----

  predicate IsAscii(s: string) { forall i :: 0 <= i < |s| ==> s[i] < 128 as char }

  predicate PlainPart(p: Part) { p.Identifier? && p.text != "" && IsAscii(p.text) }

  function Dotted(a: string, b: string, c: string): string { a + "." + b + "." + c }

  /** The comparable catalog.schema.table name, or None unless the reference is exactly three plain parts. */
  function TableFqn(parts: seq<Part>): Option<string> {
    if |parts| == 3 && PlainPart(parts[0]) && PlainPart(parts[1]) && PlainPart(parts[2])
    then Some(Dotted(Lower(parts[0].text), Lower(parts[1].text), Lower(parts[2].text)))
    else None
  }

  datatype Verdict = Allowed | Denied(table: nat)

  /** Passes exactly when every reference is bound by scope to a CTE or spells a granted name. */
  ghost predicate Permitted(t: Tree, grant: set<string>, n: nat)
    requires WellFormed(t) && n < |t|
  {
    t[n].kind.Table? ==>
      (IsBareTable(t, n) && BareName(t, n) in Env(t, n))
      || (TableFqn(t[n].kind.parts).Some? && TableFqn(t[n].kind.parts).value in grant)
  }

  method CheckTablesAllowed(t: Tree, grant: Option<set<string>>) returns (verdict: Verdict)
    requires WellFormed(t)
    ensures grant.None? ==> verdict == Allowed
    ensures grant.Some? ==> (verdict.Allowed? <==> forall n :: 0 <= n < |t| ==> Permitted(t, grant.value, n))
    ensures verdict.Denied? ==> grant.Some? && verdict.table < |t| && !Permitted(t, grant.value, verdict.table)
  {
    if grant.None? {
      return Allowed;
    }
    var resolver := new Resolver(t);
    for n := 0 to |t|
      invariant fresh(resolver) && resolver.Valid() && resolver.t == t
      invariant forall k :: 0 <= k < n ==> Permitted(t, grant.value, k)
    {
      if !t[n].kind.Table? {
        continue;
      }
      if IsBareTable(t, n) {
        var bound := resolver.CteInScope(n);
        if bound {
          continue;
        }
      }
      var fqn := TableFqn(t[n].kind.parts);
      if fqn.None? || fqn.value !in grant.value {
        assert !Permitted(t, grant.value, n);
        return Denied(n);
      }
    }
    verdict := Allowed;
  }

  predicate Dotless(s: string) { forall i :: 0 <= i < |s| ==> s[i] != '.' }

  /** A grant as it is stored: three lowercase parts, none empty and none holding a dot. */
  ghost predicate IsGrant(g: string) {
    exists a, b, c :: g == Dotted(a, b, c) && Dotless(a) && Dotless(b) && Dotless(c) && a != "" && b != "" && c != ""
  }

  function Dots(s: string): nat { if s == "" then 0 else (if s[0] == '.' then 1 else 0) + Dots(s[1..]) }

  lemma {:induction false} DotsConcat(a: string, b: string)
    ensures Dots(a + b) == Dots(a) + Dots(b)
  {
    if a == "" {
      assert a + b == b;
    } else {
      assert (a + b)[1..] == a[1..] + b;
      DotsConcat(a[1..], b);
    }
  }

  lemma {:induction false} DotlessCounts(s: string)
    ensures Dots(s) == 0 <==> Dotless(s)
  {
    if s != "" {
      DotlessCounts(s[1..]);
      assert forall i :: 1 <= i < |s| ==> s[i] == s[1..][i - 1];
    }
  }

  lemma DottedDots(a: string, b: string, c: string)
    ensures Dots(Dotted(a, b, c)) == Dots(a) + Dots(b) + Dots(c) + 2
  {
    DotsConcat(a + "." + b + ".", c);
    DotsConcat(a + "." + b, ".");
    DotsConcat(a + ".", b);
    DotsConcat(a, ".");
    assert "."[1..] == "" && Dots(".") == 1;
  }

  lemma SplitAtFirstDot(a: string, x: string, b: string, y: string)
    requires Dotless(a) && Dotless(b) && a + "." + x == b + "." + y
    ensures a == b && x == y
  {
    var s := a + "." + x;
    assert s[|a|] == '.' && s[|b|] == '.';
    assert forall i :: 0 <= i < |a| ==> s[i] == a[i] != '.';
    assert forall i :: 0 <= i < |b| ==> s[i] == b[i] != '.';
    assert |a| == |b|;
    assert a == s[..|a|] && b == s[..|b|];
    assert x == s[|a| + 1..] && y == s[|b| + 1..];
  }

  /** A name that matches a grant matches it part by part: dots inside quoted parts cannot imitate one. */
  lemma GrantMatchesPartwise(parts: seq<Part>, a: string, b: string, c: string)
    requires TableFqn(parts) == Some(Dotted(a, b, c)) && Dotless(a) && Dotless(b) && Dotless(c)
    ensures Lower(parts[0].text) == a && Lower(parts[1].text) == b && Lower(parts[2].text) == c
  {
    var p, q, r := Lower(parts[0].text), Lower(parts[1].text), Lower(parts[2].text);
    DottedDots(p, q, r);
    DottedDots(a, b, c);
    DotlessCounts(p);
    DotlessCounts(q);
    DotlessCounts(a);
    DotlessCounts(b);
    DotlessCounts(c);
    assert Dotted(p, q, r) == p + "." + (q + "." + r) && Dotted(a, b, c) == a + "." + (b + "." + c);
    SplitAtFirstDot(p, q + "." + r, a, b + "." + c);
    SplitAtFirstDot(q, r, b, c);
  }

  /** What passing the check means: every reference that lexical scoping leaves unbound spells, part by
    * part and case aside, a catalog, schema and table of the grant. */
  lemma UnboundReferencesAreGranted(t: Tree, grant: set<string>, n: nat) returns (a: string, b: string, c: string)
    requires WellFormed(t) && (forall g :: g in grant ==> IsGrant(g))
    requires forall k :: 0 <= k < |t| ==> Permitted(t, grant, k)
    requires n < |t| && t[n].kind.Table? && n !in BoundUnder(t, 0, {})
    ensures Dotted(a, b, c) in grant && |t[n].kind.parts| == 3 && forall i :: 0 <= i < 3 ==> t[n].kind.parts[i].Identifier?
    ensures Lower(t[n].kind.parts[0].text) == a && Lower(t[n].kind.parts[1].text) == b && Lower(t[n].kind.parts[2].text) == c
  {
    TraversalBindsByEnv(t, n);
    assert Permitted(t, grant, n);
    var fqn := TableFqn(t[n].kind.parts).value;
    assert IsGrant(fqn);
    a, b, c :| fqn == Dotted(a, b, c) && Dotless(a) && Dotless(b) && Dotless(c) && a != "" && b != "" && c != "";
    GrantMatchesPartwise(t[n].kind.parts, a, b, c);
  }

  // ----- scoping told by place -----

  /** Is node n this node, or somewhere under it? */
  predicate Within(t: Tree, top: nat, n: nat)
    requires WellFormed(t) && n < |t|
    decreases n
  {
    assert NodeWellFormed(t, n);
    n == top || (n > 0 && Within(t, top, t[n].parent.value))
  }

  /** Item i of a WITH list declares the name, up to case. */
  ghost predicate Declares(t: Tree, w: nat, i: nat, name: string)
    requires WellFormed(t)
  {
    w < |t| && t[w].kind.With? && i < |t[w].kids| && t[w].kids[i] < |t| && t[t[w].kids[i]].kind.Cte?
    && SameUpToCase(t[t[w].kids[i]].kind.aliasName, name)
  }

  /** The list's item i reaches node n: n is inside the query the list heads but outside the list, or inside a
    * later item, or inside that very item of a RECURSIVE list. */
  ghost predicate Reaches(t: Tree, w: nat, i: nat, n: nat)
    requires WellFormed(t) && w < |t| && t[w].kind.With? && n < |t|
  {
    assert NodeWellFormed(t, w);
    || (n != t[w].parent.value && Within(t, t[w].parent.value, n) && !Within(t, w, n))
    || exists k :: 0 <= k < |t[w].kids| && Within(t, t[w].kids[k], n) && (i < k || (i == k && t[w].kind.recursive))
  }

  ghost predicate ScopeBinds(t: Tree, n: nat, name: string)
    requires WellFormed(t) && n < |t|
  {
    exists w: nat, i: nat :: Declares(t, w, i, name) && Reaches(t, w, i, n)
  }

  lemma {:induction false} WithinIsLater(t: Tree, top: nat, n: nat)
    requires WellFormed(t) && n < |t| && Within(t, top, n)
    ensures top <= n
    decreases n
  {
    assert NodeWellFormed(t, n);
    if n != top {
      WithinIsLater(t, top, t[n].parent.value);
    }
  }

  /** The item of a list a node lies in is the one its way up passes through. */
  lemma WithinItem(t: Tree, w: nat, k: nat, n: nat)
    requires WellFormed(t) && w < |t| && k < |t[w].kids| && n < |t| && NodeWellFormed(t, w)
    requires n > 0 && t[n].parent == Some(w)
    ensures Within(t, t[w].kids[k], n) <==> n == t[w].kids[k]
  {
    assert NodeWellFormed(t, n);
    if Within(t, t[w].kids[k], n) && n != t[w].kids[k] {
      WithinIsLater(t, t[w].kids[k], w);
    }
  }

  lemma {:induction false} WithinOn(t: Tree, top: nat, mid: nat, n: nat)
    requires WellFormed(t) && n < |t| && mid < |t| && Within(t, mid, n) && Within(t, top, mid)
    ensures Within(t, top, n)
    decreases n
  {
    assert NodeWellFormed(t, n);
    if n != mid {
      WithinOn(t, top, mid, t[n].parent.value);
    }
  }

  lemma KidIsWithin(t: Tree, top: nat, kid: nat)
    requires WellFormed(t) && kid < |t| && kid > 0 && t[kid].parent == Some(top)
    ensures Within(t, top, kid)
  {
    assert NodeWellFormed(t, kid);
  }

  /** What one step down adds to the declarations that reach a node. */
  lemma ReachesStep(t: Tree, w: nat, i: nat, n: nat)
    requires WellFormed(t) && w < |t| && t[w].kind.With? && i < |t[w].kids| && 0 < n < |t|
    requires NodeWellFormed(t, n) && NodeWellFormed(t, t[n].parent.value) && NodeWellFormed(t, w)
    ensures var p := t[n].parent.value;
      Reaches(t, w, i, n) <==>
        || Reaches(t, w, i, p)
        || (p == t[w].parent.value && n != w)
        || (p == w && (i < t[n].index || (i == t[n].index && t[w].kind.recursive)))
  {
    var p, q := t[n].parent.value, t[w].parent.value;
    KidIsWithin(t, p, n);
    if p == w {
      KidIsWithin(t, q, w);
      forall k | 0 <= k < |t[w].kids| ensures Within(t, t[w].kids[k], n) <==> k == t[n].index {
        WithinItem(t, w, k, n);
        assert k != t[n].index ==> t[t[w].kids[k]].index == k;
      }
      forall k | 0 <= k < |t[w].kids| ensures !Within(t, t[w].kids[k], w) {
        if Within(t, t[w].kids[k], w) {
          WithinIsLater(t, t[w].kids[k], w);
        }
      }
      assert Within(t, w, n) && Within(t, w, w);
      assert t[w].kids[t[n].index] == n;
    } else {
      forall k | 0 <= k < |t[w].kids| ensures Within(t, t[w].kids[k], n) <==> Within(t, t[w].kids[k], p) {
        assert t[t[w].kids[k]].parent == Some(w);
      }
      assert n != w ==> (Within(t, w, n) <==> Within(t, w, p));
      if n == w {
        assert p == q;
        forall k | 0 <= k < |t[w].kids| ensures !Within(t, t[w].kids[k], p) {
          if Within(t, t[w].kids[k], p) {
            WithinIsLater(t, t[w].kids[k], p);
          }
        }
      }
      if p == q && n != w && Within(t, w, p) {
        WithinIsLater(t, w, p);
      }
      if n == q {
        WithinIsLater(t, n, n);
        if Within(t, q, p) {
          WithinIsLater(t, q, p);
        }
        forall k | 0 <= k < |t[w].kids| ensures !Within(t, t[w].kids[k], n) {
          if Within(t, t[w].kids[k], n) {
            WithinIsLater(t, t[w].kids[k], n);
          }
        }
      }
    }
  }

  lemma DeclaredIff(t: Tree, w: nat, count: nat, text: string)
    requires WellFormed(t) && w < |t| && t[w].kind.With? && count <= |t[w].kids|
    ensures Lower(text) in DeclaredBefore(t, w, count) <==> exists i: nat :: i < count && Declares(t, w, i, text)
  {
    assert NodeWellFormed(t, w);
    forall i: nat | i < count ensures Declares(t, w, i, text) <==> AliasAt(t, w, i) == Lower(text) {
      LowerIsSame(t[t[w].kids[i]].kind.aliasName, text);
    }
    if i: nat :| i < count && Declares(t, w, i, text) {
      assert AliasAt(t, w, i) in DeclaredBefore(t, w, count);
    }
  }

  lemma NothingReachesRoot(t: Tree, w: nat, i: nat)
    requires WellFormed(t) && w < |t| && t[w].kind.With? && i < |t[w].kids|
    ensures !Reaches(t, w, i, 0)
  {
    assert NodeWellFormed(t, w);
    if Within(t, t[w].parent.value, 0) {
      WithinIsLater(t, t[w].parent.value, 0);
    }
    assert forall k :: 0 <= k < |t[w].kids| ==> t[w].kids[k] > 0;
  }

  /** What a step down adds, declaration by declaration. */
  ghost predicate Adds(t: Tree, w: nat, i: nat, n: nat)
    requires WellFormed(t) && w < |t| && t[w].kind.With? && 0 < n < |t| && NodeWellFormed(t, n) && NodeWellFormed(t, w)
  {
    var p := t[n].parent.value;
    (p == t[w].parent.value && n != w) || (p == w && (i < t[n].index || (i == t[n].index && t[w].kind.recursive)))
  }

  lemma ChildEnvAdds(t: Tree, n: nat, text: string, env: set<string>)
    requires WellFormed(t) && 0 < n < |t| && NodeWellFormed(t, n)
    ensures Lower(text) in ChildEnv(t, t[n].parent.value, n, env) <==>
      Lower(text) in env || exists w: nat, i: nat :: Declares(t, w, i, text) && NodeWellFormed(t, w) && Adds(t, w, i, n)
  {
    var p := t[n].parent.value;
    assert NodeWellFormed(t, p);
    if t[p].kind.With? {
      var count := if t[p].kind.recursive then t[n].index + 1 else t[n].index;
      DeclaredIff(t, p, count, text);
      forall w: nat, i: nat | Declares(t, w, i, text) && NodeWellFormed(t, w) && Adds(t, w, i, n) ensures w == p && i < count {
      }
      if i: nat :| i < count && Declares(t, p, i, text) {
        assert Adds(t, p, i, n);
      }
    } else if t[p].withClause.Some? {
      var w := t[p].withClause.value;
      assert NodeWellFormed(t, w);
      DeclaredIff(t, w, |t[w].kids|, text);
      if i: nat :| i < |t[w].kids| && Declares(t, w, i, text) {
        assert n != w ==> Adds(t, w, i, n);
      }
      forall v: nat, i: nat | Declares(t, v, i, text) && NodeWellFormed(t, v) && Adds(t, v, i, n) ensures v == w && n != w {
      }
      assert t[n].kind.With? ==> n == w;
    } else {
      forall v: nat, i: nat | Declares(t, v, i, text) && NodeWellFormed(t, v) && Adds(t, v, i, n) ensures false {
      }
    }
  }

  /** A name is in the environment of a node exactly when some enclosing WITH list declares it where it reaches
    * the node: lexical scoping, told without the traversal. */
  lemma {:induction false} EnvIsScope(t: Tree, n: nat, text: string)
    requires WellFormed(t) && n < |t|
    ensures Lower(text) in Env(t, n) <==> ScopeBinds(t, n, text)
    decreases n
  {
    assert NodeWellFormed(t, n);
    if n == 0 {
      forall w: nat, i: nat | Declares(t, w, i, text) ensures !Reaches(t, w, i, 0) {
        NothingReachesRoot(t, w, i);
      }
    } else {
      var p := t[n].parent.value;
      assert NodeWellFormed(t, p);
      EnvIsScope(t, p, text);
      ChildEnvAdds(t, n, text, Env(t, p));
      forall w: nat, i: nat | Declares(t, w, i, text) ensures Reaches(t, w, i, n) <==> Reaches(t, w, i, p) || (NodeWellFormed(t, w) && Adds(t, w, i, n)) {
        assert NodeWellFormed(t, w);
        ReachesStep(t, w, i, n);
      }
    }
  }

  // ----- what the check lets through, told by place and by letter -----

  /** The reference is a single name that some enclosing WITH list binds. */
  ghost predicate IsBound(t: Tree, n: nat)
    requires WellFormed(t) && n < |t|
  {
    exists text :: t[n].kind == Table([Identifier(text)]) && ScopeBinds(t, n, text)
  }

  /** A non-empty ASCII part spells a lowercase one, up to case. */
  ghost predicate Spells(part: string, granted: string) {
    && part != "" && (forall i :: 0 <= i < |part| ==> part[i] as int < 128)
    && SameUpToCase(part, granted) && forall i :: 0 <= i < |granted| ==> !('A' <= granted[i] <= 'Z')
  }

  ghost predicate SpellsGrant(kind: Kind, grant: set<string>, a: string, b: string, c: string) {
    kind == Table([Identifier(a), Identifier(b), Identifier(c)])
    && exists x, y, z :: Spells(a, x) && Spells(b, y) && Spells(c, z) && x + "." + y + "." + z in grant
  }

  /** A reference is let through exactly when it is bound, or is three plain names that spell, up to case, a
    * lowercase name of the grant. */
  lemma PermittedIff(t: Tree, grant: set<string>, n: nat)
    requires WellFormed(t) && n < |t| && t[n].kind.Table?
    ensures Permitted(t, grant, n) <==> IsBound(t, n) || exists a, b, c :: SpellsGrant(t[n].kind, grant, a, b, c)
  {
    var parts := t[n].kind.parts;
    if |parts| == 1 && parts[0].Identifier? {
      EnvIsScope(t, n, parts[0].text);
      assert parts == [Identifier(parts[0].text)];
    }
    if TableFqn(parts).Some? && TableFqn(parts).value in grant {
      var a, b, c := parts[0].text, parts[1].text, parts[2].text;
      assert parts == [Identifier(a), Identifier(b), Identifier(c)];
      SpellsLowered(a);
      SpellsLowered(b);
      SpellsLowered(c);
      assert SpellsGrant(t[n].kind, grant, a, b, c);
    }
    if a, b, c :| SpellsGrant(t[n].kind, grant, a, b, c) {
      var x, y, z :| Spells(a, x) && Spells(b, y) && Spells(c, z) && x + "." + y + "." + z in grant;
      SpelledIs(a, x);
      SpelledIs(b, y);
      SpelledIs(c, z);
    }
  }

  lemma SpellsLowered(part: string)
    requires part != "" && IsAscii(part)
    ensures Spells(part, Lower(part))
  {
  }

  lemma SpelledIs(part: string, granted: string)
    requires Spells(part, granted)
    ensures granted == Lower(part)
  {
  }
}
