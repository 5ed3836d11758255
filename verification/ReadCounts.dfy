/** How often a query reads each table through its CTEs (core/scans.py, _counted_reads). */
module ReadCounts {
  import opened Prelude
  import opened CteBodies

  /** A table reference: its dotted lowercase name, and whether it has one part only. */
  datatype Ref = Ref(name: string, bare: bool)

  /** Every body each CTE name is bound to. A body is the references found in it, in walk order. */
  type Bodies = map<string, seq<seq<Ref>>>

  const MAX_COUNTED_READS: nat := 1_000_000

  predicate IsCte(ref: Ref, bodies: Bodies) { ref.bare && ref.name in bodies }

  // ----- the plain recursion -----

  /** The tables one subtree reads, a name's bodies counted at every reference to it. */
  function Reads(bodies: Bodies, refs: seq<Ref>, pending: set<string>): multiset<string>
    decreases |bodies.Keys - pending|, 1, |refs|
  {
    if refs == [] then multiset{}
    else ReadsOf(bodies, refs[0], pending) + Reads(bodies, refs[1..], pending)
  }

  function ReadsOf(bodies: Bodies, ref: Ref, pending: set<string>): multiset<string>
    decreases |bodies.Keys - pending|, 1, 0
  {
    if !IsCte(ref, bodies) then multiset{ref.name}
    else if ref.name in pending then multiset{}
    else
      Shrinks(bodies, pending, ref.name);
      ReadsOfAll(bodies, bodies[ref.name], pending + {ref.name})
  }

  function ReadsOfAll(bodies: Bodies, all: seq<seq<Ref>>, pending: set<string>): multiset<string>
    decreases |bodies.Keys - pending|, 2, |all|
  {
    if all == [] then multiset{} else Reads(bodies, all[0], pending) + ReadsOfAll(bodies, all[1..], pending)
  }

  lemma {:induction false} ReadsOneMore(bodies: Bodies, refs: seq<Ref>, ref: Ref, pending: set<string>)
    ensures Reads(bodies, refs + [ref], pending) == Reads(bodies, refs, pending) + ReadsOf(bodies, ref, pending)
  {
    if refs == [] {
      assert [ref][1..] == [];
    } else {
      assert (refs + [ref])[1..] == refs[1..] + [ref];
      ReadsOneMore(bodies, refs[1..], ref, pending);
    }
  }

  /** The steps the plain recursion takes: one a table, and one a body wherever it is read. */
  function Steps(bodies: Bodies, refs: seq<Ref>, pending: set<string>): nat
    decreases |bodies.Keys - pending|, 1, |refs|
  {
    if refs == [] then 0 else StepsOf(bodies, refs[0], pending) + Steps(bodies, refs[1..], pending)
  }

  function StepsOf(bodies: Bodies, ref: Ref, pending: set<string>): nat
    decreases |bodies.Keys - pending|, 1, 0
  {
    if !(ref.bare && ref.name in bodies) then 1
    else if ref.name in pending then 0
    else
      Shrinks(bodies, pending, ref.name);
      StepsOfAll(bodies, bodies[ref.name], pending + {ref.name})
  }

  function StepsOfAll(bodies: Bodies, all: seq<seq<Ref>>, pending: set<string>): nat
    decreases |bodies.Keys - pending|, 2, |all|
  {
    if all == [] then 0 else 1 + Steps(bodies, all[0], pending) + StepsOfAll(bodies, all[1..], pending)
  }

  lemma {:induction false} StepsOneMore(bodies: Bodies, refs: seq<Ref>, ref: Ref, pending: set<string>)
    ensures Steps(bodies, refs + [ref], pending) == Steps(bodies, refs, pending) + StepsOf(bodies, ref, pending)
  {
    if refs == [] {
      assert [ref][1..] == [];
    } else {
      assert (refs + [ref])[1..] == refs[1..] + [ref];
      StepsOneMore(bodies, refs[1..], ref, pending);
    }
  }

  // ----- the steps a walk takes that remembers what it has walked -----

  /** A name in its scope. */
  type Key = (string, set<string>)

  /** How many steps, and the names walked by then. */
  datatype Spent = Spent(steps: nat, known: set<Key>)

  function Spending(bodies: Bodies, refs: seq<Ref>, pending: set<string>, known: set<Key>): Spent
    decreases |bodies.Keys - pending|, 1, |refs|
  {
    if refs == [] then Spent(0, known)
    else
      var last := refs[|refs| - 1];
      var before := Spending(bodies, refs[..|refs| - 1], pending, known);
      var here := SpendingOf(bodies, last, pending, before.known);
      Spent(before.steps + here.steps, here.known)
  }

  /** A table is a step; a name costs its bodies the first time it is met in a scope and nothing after that. */
  function SpendingOf(bodies: Bodies, ref: Ref, pending: set<string>, known: set<Key>): Spent
    decreases |bodies.Keys - pending|, 1, 0
  {
    if !IsCte(ref, bodies) then Spent(1, known)
    else if ref.name in pending || (ref.name, pending) in known then Spent(0, known)
    else
      Shrinks(bodies, pending, ref.name);
      var walked := SpendingAll(bodies, bodies[ref.name], pending + {ref.name}, known);
      Spent(walked.steps, walked.known + {(ref.name, pending)})
  }

  function SpendingAll(bodies: Bodies, all: seq<seq<Ref>>, pending: set<string>, known: set<Key>): Spent
    decreases |bodies.Keys - pending|, 2, |all|
  {
    if all == [] then Spent(0, known)
    else
      var before := SpendingAll(bodies, all[..|all| - 1], pending, known);
      var here := Spending(bodies, all[|all| - 1], pending, before.known);
      Spent(before.steps + 1 + here.steps, here.known)
  }

  /** Remembering never takes more steps than walking every reference anew. */
  lemma {:induction false} SpendingAtMostSteps(bodies: Bodies, refs: seq<Ref>, pending: set<string>, known: set<Key>)
    ensures Spending(bodies, refs, pending, known).steps <= Steps(bodies, refs, pending)
    decreases |bodies.Keys - pending|, 1, |refs|
  {
    if refs != [] {
      var n := |refs| - 1;
      SpendingAtMostSteps(bodies, refs[..n], pending, known);
      SpendingOfAtMost(bodies, refs[n], pending, Spending(bodies, refs[..n], pending, known).known);
      StepsOneMore(bodies, refs[..n], refs[n], pending);
      assert refs == refs[..n] + [refs[n]];
    }
  }

  lemma {:induction false} SpendingOfAtMost(bodies: Bodies, ref: Ref, pending: set<string>, known: set<Key>)
    ensures SpendingOf(bodies, ref, pending, known).steps <= StepsOf(bodies, ref, pending)
    decreases |bodies.Keys - pending|, 1, 0
  {
    if IsCte(ref, bodies) && ref.name !in pending {
      Shrinks(bodies, pending, ref.name);
      SpendingAllAtMost(bodies, bodies[ref.name], pending + {ref.name}, known);
    }
  }

  lemma {:induction false} SpendingAllAtMost(bodies: Bodies, all: seq<seq<Ref>>, pending: set<string>, known: set<Key>)
    ensures SpendingAll(bodies, all, pending, known).steps <= StepsOfAll(bodies, all, pending)
    decreases |bodies.Keys - pending|, 2, |all|
  {
    if all != [] {
      var n := |all| - 1;
      SpendingAllAtMost(bodies, all[..n], pending, known);
      SpendingAtMostSteps(bodies, all[n], pending, SpendingAll(bodies, all[..n], pending, known).known);
      StepsOfAllOneMore(bodies, all[..n], all[n], pending);
      assert all == all[..n] + [all[n]];
    }
  }

  lemma {:induction false} StepsOfAllOneMore(bodies: Bodies, all: seq<seq<Ref>>, body: seq<Ref>, pending: set<string>)
    ensures StepsOfAll(bodies, all + [body], pending) == StepsOfAll(bodies, all, pending) + 1 + Steps(bodies, body, pending)
  {
    if all == [] {
      assert [body][1..] == [];
    } else {
      assert (all + [body])[1..] == all[1..] + [body];
      StepsOfAllOneMore(bodies, all[1..], body, pending);
    }
  }

  // ----- the memoised, budgeted walk -----

  /** The budget fell by these steps, or ran out because they were too many. */
  ghost predicate Spends(budget: int, known: set<Key>, before: int, spent: Spent) {
    if before > spent.steps then budget == before - spent.steps && known == spent.known else budget <= 0
  }

  lemma SpendsOn(bodies: Bodies, refs: seq<Ref>, i: nat, pending: set<string>, start: set<Key>, before: int,
                 mid: int, known: set<Key>, after: int, knownAfter: set<Key>)
    requires i < |refs| && mid > 0 && Spends(mid, known, before, Spending(bodies, refs[..i], pending, start))
    requires Spends(after, knownAfter, mid, SpendingOf(bodies, refs[i], pending, known))
    ensures Spends(after, knownAfter, before, Spending(bodies, refs[..i + 1], pending, start))
  {
    assert refs[..i + 1][..i] == refs[..i];
  }

  lemma {:induction false} SpendingGrows(bodies: Bodies, refs: seq<Ref>, i: nat, pending: set<string>, known: set<Key>)
    requires i <= |refs|
    ensures Spending(bodies, refs[..i], pending, known).steps <= Spending(bodies, refs, pending, known).steps
    decreases |refs| - i
  {
    if i < |refs| {
      SpendingGrows(bodies, refs, i + 1, pending, known);
      assert refs[..i + 1][..i] == refs[..i];
    } else {
      assert refs[..i] == refs;
    }
  }

  /** The walk's shared state: the steps left, and what one read of a name costs in each scope. */
  class ReadWalk {
    const bodies: Bodies
    var budget: int
    var perName: map<(string, set<string>), multiset<string>>

    /** While budget is left nothing was cut short, so everything remembered is exact. */
    ghost predicate Valid()
      reads this
    {
      budget > 0 ==> forall key :: key in perName ==>
        key.0 in bodies && perName[key] == ReadsOfAll(bodies, bodies[key.0], key.1 + {key.0})
    }

    constructor (bodies: Bodies)
      ensures this.bodies == bodies && budget == MAX_SCAN_COUNT && perName == map[] && Valid()
    {
      this.bodies := bodies;
      budget, perName := MAX_SCAN_COUNT, map[];
    }

    method Walk(refs: seq<Ref>, pending: set<string>) returns (found: multiset<string>)
      requires Valid()
      modifies this
      ensures Valid() && budget <= old(budget)
      ensures budget > 0 ==> found == Reads(bodies, refs, pending)
      ensures Spends(budget, perName.Keys, old(budget), Spending(bodies, refs, pending, old(perName).Keys))
      decreases |bodies.Keys - pending|, 2
    {
      found := multiset{};
      for i := 0 to |refs|
        invariant Valid() && budget <= old(budget)
        invariant budget > 0 ==> found == Reads(bodies, refs[..i], pending)
        invariant Spends(budget, perName.Keys, old(budget), Spending(bodies, refs[..i], pending, old(perName).Keys))
      {
        if budget <= 0 {
          SpendingGrows(bodies, refs, i, pending, old(perName).Keys);
          return;
        }
        ghost var left, known := budget, perName.Keys;
        var part := WalkRef(refs[i], pending);
        SpendsOn(bodies, refs, i, pending, old(perName).Keys, old(budget), left, known, budget, perName.Keys);
        ReadsOneMore(bodies, refs[..i], refs[i], pending);
        assert refs[..i + 1] == refs[..i] + [refs[i]];
        found := found + part;
      }
      assert refs[..|refs|] == refs;
    }

    method WalkRef(ref: Ref, pending: set<string>) returns (part: multiset<string>)
      requires Valid()
      modifies this
      ensures Valid() && budget <= old(budget)
      ensures budget > 0 ==> part == ReadsOf(bodies, ref, pending)
      ensures Spends(budget, perName.Keys, old(budget), SpendingOf(bodies, ref, pending, old(perName).Keys))
      decreases |bodies.Keys - pending|, 1
    {
      if !IsCte(ref, bodies) {
        budget := budget - 1;
        return multiset{ref.name};
      }
      if ref.name in pending {
        return multiset{};
      }
      part := CostOf(ref.name, pending);
    }

    /** What one read of a name costs in this scope, walked the first time only. */
    method CostOf(name: string, pending: set<string>) returns (once: multiset<string>)
      requires Valid() && name in bodies && name !in pending
      modifies this
      ensures Valid() && budget <= old(budget)
      ensures budget > 0 ==> once == ReadsOfAll(bodies, bodies[name], pending + {name})
      ensures Spends(budget, perName.Keys, old(budget), SpendingOf(bodies, Ref(name, true), pending, old(perName).Keys))
      ensures (name, pending) in perName && once == perName[(name, pending)]
      ensures (name, pending) in old(perName) ==> budget == old(budget) && perName == old(perName)
      decreases |bodies.Keys - pending|, 0
    {
      if (name, pending) !in perName {
        Shrinks(bodies, pending, name);
        once := WalkBodies(bodies[name], pending + {name});
        perName := perName[(name, pending) := once];
      }
      once := perName[(name, pending)];
    }

    method WalkBodies(all: seq<seq<Ref>>, pending: set<string>) returns (once: multiset<string>)
      requires Valid()
      modifies this
      ensures Valid() && budget <= old(budget)
      ensures budget > 0 ==> once == ReadsOfAll(bodies, all, pending)
      ensures Spends(budget, perName.Keys, old(budget), SpendingAll(bodies, all, pending, old(perName).Keys))
      decreases |bodies.Keys - pending|, 3
    {
      once := multiset{};
      for i := 0 to |all|
        invariant Valid() && budget <= old(budget)
        invariant budget > 0 ==> ReadsOfAll(bodies, all, pending) == once + ReadsOfAll(bodies, all[i..], pending)
        invariant Spends(budget, perName.Keys, old(budget), SpendingAll(bodies, all[..i], pending, old(perName).Keys))
      {
        assert all[..i + 1][..i] == all[..i];
        assert all[i..][1..] == all[i + 1..];
        budget := budget - 1;
        var part := Walk(all[i], pending);
        once := once + part;
      }
      assert all[..|all|] == all;
    }
  }

  ghost predicate ReadTooOften(counts: multiset<string>) { exists name :: counts[name] > 1_000_000 }

  /** The counts, and whether they are only a floor. Unsaturated, they are the plain recursion's; and they are
    * saturated exactly when the walk takes 10,000 steps or more or some table is read over 1,000,000 times. */
  method CountedReads(bodies: Bodies, main: seq<Ref>) returns (counts: multiset<string>, saturated: bool)
    ensures !saturated ==> counts == Reads(bodies, main, {})
    ensures saturated <==> Spending(bodies, main, {}, {}).steps >= 10_000 || ReadTooOften(Reads(bodies, main, {}))
  {
    var walk := new ReadWalk(bodies);
    assert walk.perName.Keys == {};
    counts := walk.Walk(main, {});
    saturated := walk.budget <= 0 || exists name | name in counts :: counts[name] > MAX_COUNTED_READS;
    assert ReadTooOften(counts) <==> exists name | name in counts :: counts[name] > MAX_COUNTED_READS by {
      assert forall name :: counts[name] > 1_000_000 ==> name in counts;
    }
  }

  // ----- inlining -----

  /** A WITH list: names bound once, each body reading only names bound before it. */
  datatype Cte = Cte(name: string, body: seq<Ref>)

  predicate EarlierOnly(ctes: seq<Cte>) {
    && (forall i, j :: 0 <= i < j < |ctes| ==> ctes[i].name != ctes[j].name)
    && forall i, r :: 0 <= i < |ctes| && 0 <= r < |ctes[i].body| ==> NamesEarlier(ctes, i, ctes[i].body[r])
  }

  /** The reference is to none of the names bound from here on. */
  predicate NamesEarlier(ctes: seq<Cte>, i: nat, ref: Ref) {
    ref.bare ==> forall j :: i <= j < |ctes| ==> ctes[j].name != ref.name
  }

  function BodiesOf(ctes: seq<Cte>): Bodies {
    if ctes == [] then map[] else BodiesOf(ctes[..|ctes| - 1])[ctes[|ctes| - 1].name := [ctes[|ctes| - 1].body]]
  }

  /** The query with the last CTE of the list written out wherever it is named. */
  function InlineOne(refs: seq<Ref>, cte: Cte): seq<Ref> {
    if refs == [] then []
    else (if refs[0].bare && refs[0].name == cte.name then cte.body else [refs[0]]) + InlineOne(refs[1..], cte)
  }

  /** The query with every CTE written out, last bound first. */
  function Inline(refs: seq<Ref>, ctes: seq<Cte>): seq<Ref>
    decreases |ctes|
  {
    if ctes == [] then refs
    else
      var n := |ctes| - 1;
      Inline(InlineOne(refs, ctes[n]), ctes[..n])
  }

  function Names(refs: seq<Ref>): seq<string> {
    seq(|refs|, i requires 0 <= i < |refs| => refs[i].name)
  }

  lemma {:induction false} BodyOf(ctes: seq<Cte>, i: nat)
    requires i < |ctes| && forall k, j :: 0 <= k < j < |ctes| ==> ctes[k].name != ctes[j].name
    ensures ctes[i].name in BodiesOf(ctes) && BodiesOf(ctes)[ctes[i].name] == [ctes[i].body]
    decreases |ctes|
  {
    if i < |ctes| - 1 {
      BodyOf(ctes[..|ctes| - 1], i);
    }
  }

  lemma {:induction false} OnlyBodies(ctes: seq<Cte>, name: string) returns (i: nat)
    requires name in BodiesOf(ctes)
    ensures i < |ctes| && ctes[i].name == name
    decreases |ctes|
  {
    i := |ctes| - 1;
    if name != ctes[i].name {
      i := OnlyBodies(ctes[..i], name);
    }
  }

  lemma {:induction false} InlineOneConcat(a: seq<Ref>, b: seq<Ref>, cte: Cte)
    ensures InlineOne(a + b, cte) == InlineOne(a, cte) + InlineOne(b, cte)
  {
    if a == [] {
      assert a + b == b;
    } else {
      assert (a + b)[1..] == a[1..] + b;
      InlineOneConcat(a[1..], b, cte);
    }
  }

  lemma {:induction false} InlineConcat(a: seq<Ref>, b: seq<Ref>, ctes: seq<Cte>)
    ensures Inline(a + b, ctes) == Inline(a, ctes) + Inline(b, ctes)
    decreases |ctes|
  {
    if ctes != [] {
      var n := |ctes| - 1;
      InlineOneConcat(a, b, ctes[n]);
      InlineConcat(InlineOne(a, ctes[n]), InlineOne(b, ctes[n]), ctes[..n]);
    }
  }

  lemma {:induction false} InlineNothing(ctes: seq<Cte>)
    ensures Inline([], ctes) == []
    decreases |ctes|
  {
    if ctes != [] {
      InlineNothing(ctes[..|ctes| - 1]);
    }
  }

  /** One reference inlines to its body, inlined through the names bound before it. */
  lemma {:induction false} InlineCte(ref: Ref, ctes: seq<Cte>, i: nat)
    requires i < |ctes| && ref.bare && ref.name == ctes[i].name
    requires forall k, j :: 0 <= k < j < |ctes| ==> ctes[k].name != ctes[j].name
    ensures Inline([ref], ctes) == Inline(ctes[i].body, ctes[..i])
    decreases |ctes|
  {
    var n := |ctes| - 1;
    assert [ref][1..] == [];
    if i < n {
      assert InlineOne([ref], ctes[n]) == [ref];
      InlineCte(ref, ctes[..n], i);
      assert ctes[..n][..i] == ctes[..i];
    } else {
      assert InlineOne([ref], ctes[n]) == ctes[n].body;
    }
  }

  lemma {:induction false} InlineTable(ref: Ref, ctes: seq<Cte>)
    requires ref.bare ==> forall i :: 0 <= i < |ctes| ==> ctes[i].name != ref.name
    ensures Inline([ref], ctes) == [ref]
    decreases |ctes|
  {
    if ctes != [] {
      assert [ref][1..] == [];
      assert InlineOne([ref], ctes[|ctes| - 1]) == [ref];
      InlineTable(ref, ctes[..|ctes| - 1]);
    }
  }

  /** References to names bound before m read what writing those names out spells. */
  lemma {:induction false} ReadsInlineBelow(ctes: seq<Cte>, refs: seq<Ref>, m: nat, pending: set<string>)
    requires EarlierOnly(ctes) && m <= |ctes|
    requires forall r :: 0 <= r < |refs| ==> NamesEarlier(ctes, m, refs[r])
    requires forall i :: 0 <= i < m ==> ctes[i].name !in pending
    ensures Reads(BodiesOf(ctes), refs, pending) == multiset(Names(Inline(refs, ctes[..m])))
    decreases m, |refs|
  {
    if refs == [] {
      InlineNothing(ctes[..m]);
    } else {
      forall r | 0 <= r < |refs[1..]| ensures NamesEarlier(ctes, m, refs[1..][r]) {
        assert refs[1..][r] == refs[1 + r];
      }
      ReadsInlineBelow(ctes, refs[1..], m, pending);
      ReadInlinesBelow(ctes, refs[0], m, pending);
      InlineConcat([refs[0]], refs[1..], ctes[..m]);
      assert refs == [refs[0]] + refs[1..];
      NamesConcat(Inline([refs[0]], ctes[..m]), Inline(refs[1..], ctes[..m]));
    }
  }

  lemma NamesConcat(a: seq<Ref>, b: seq<Ref>)
    ensures multiset(Names(a + b)) == multiset(Names(a)) + multiset(Names(b))
  {
    assert Names(a + b) == Names(a) + Names(b);
  }

  lemma {:induction false} ReadInlinesBelow(ctes: seq<Cte>, ref: Ref, m: nat, pending: set<string>)
    requires EarlierOnly(ctes) && m <= |ctes| && NamesEarlier(ctes, m, ref)
    requires forall i :: 0 <= i < m ==> ctes[i].name !in pending
    ensures ReadsOf(BodiesOf(ctes), ref, pending) == multiset(Names(Inline([ref], ctes[..m])))
    decreases m, 0
  {
    var bodies := BodiesOf(ctes);
    if !IsCte(ref, bodies) {
      forall i | 0 <= i < m ensures ref.bare ==> ctes[i].name != ref.name {
        BodyOf(ctes, i);
      }
      InlineTable(ref, ctes[..m]);
      assert Names([ref]) == [ref.name];
    } else {
      var i := OnlyBodies(ctes, ref.name);
      BodyOf(ctes, i);
      forall r | 0 <= r < |ctes[i].body| ensures NamesEarlier(ctes, i, ctes[i].body[r]) {
      }
      ReadsInlineBelow(ctes, ctes[i].body, i, pending + {ref.name});
      InlineCte(ref, ctes[..m], i);
      assert ctes[..m][..i] == ctes[..i];
      var all := [ctes[i].body];
      assert ReadsOfAll(bodies, all[1..], pending + {ref.name}) == multiset{};
      assert ReadsOfAll(bodies, all, pending + {ref.name}) == Reads(bodies, all[0], pending + {ref.name});
    }
  }

  /** Unsaturated, the walk counts every table as often as it occurs in the fully inlined query. */
  lemma ReadsAreInlinedOccurrences(ctes: seq<Cte>, main: seq<Ref>)
    requires EarlierOnly(ctes)
    ensures Reads(BodiesOf(ctes), main, {}) == multiset(Names(Inline(main, ctes)))
  {
    ReadsInlineBelow(ctes, main, |ctes|, {});
    assert ctes[..|ctes|] == ctes;
  }
}
