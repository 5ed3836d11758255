/** How many sealed segments a pruning EXPLAIN lets a quote charge (adapters/pinot/response.py, and
  * _surviving in adapters/pinot/engine.py). */
module Survivors {
  import opened Prelude
  import opened Quote

  /** The counters of one EXPLAIN answer; None where the broker gave nothing readable as an integer. */
  datatype Explain = Explain(
    exceptions: bool,
    docsScanned: Option<int>,
    queried: Option<int>,
    prunedByServer: Option<int>,
    prunedByValue: Option<int>,
    prunedByLimit: Option<int>,
    consumingQueried: Option<int>)

  /** The counters that are believed; a limit prune only where the execution keeps the limit. */
  function Counters(e: Explain, trustLimit: bool): seq<Option<int>> {
    if trustLimit then [e.prunedByServer, e.prunedByValue, e.prunedByLimit] else [e.prunedByValue]
  }

  predicate Planned(e: Explain) { !e.exceptions && e.docsScanned == Some(0) }

  predicate HasOracle(e: Explain) { Planned(e) && e.queried.Some? && e.queried.value > 0 }

  /** The largest believed counter: they nest, so they are not added. */
  function Pruned(counters: seq<Option<int>>): nat {
    if counters == [] then 0
    else
      var n := |counters| - 1;
      var last := counters[n];
      if last.Some? && last.value >= 0 then Max(Pruned(counters[..n]), last.value) else Pruned(counters[..n])
  }

  method SurvivingSegments(e: Explain, trustLimit: bool) returns (surviving: Option<nat>)
    ensures surviving.Some? <==> HasOracle(e)
    ensures surviving.Some? ==> surviving.value == Max(1, e.queried.value - Min(Pruned(Counters(e, trustLimit)), e.queried.value))
  {
    if !HasOracle(e) {
      return None;
    }
    var pruned, counters := 0, Counters(e, trustLimit);
    for i := 0 to |counters|
      invariant pruned == Pruned(counters[..i])
    {
      assert counters[..i + 1][..i] == counters[..i];
      if counters[i].None? || counters[i].value < 0 {
        continue;
      }
      pruned := Max(pruned, counters[i].value);
    }
    assert counters[..|counters|] == counters;
    surviving := Some(Max(1, e.queried.value - Min(pruned, e.queried.value)));
  }

  /** Unreadable is none, which charges more sealed segments. */
  function ConsumingQueried(e: Explain): nat {
    if !Planned(e) || e.consumingQueried.None? then 0 else Max(0, e.consumingQueried.value)
  }

  /** The consuming segments pruning provably left: every pruned segment is taken as consuming first. */
  function ConsumingSurviving(e: Explain, surviving: Option<nat>): nat {
    if surviving.None? || e.queried.None? || e.queried.value <= 0 then 0
    else Max(0, ConsumingQueried(e) - Max(0, e.queried.value - surviving.value))
  }

  /** Sealed segments to charge, or None for all of them. Only a single-table query is asked about. */
  method Surviving(e: Explain, tableCount: nat, trustLimit: bool) returns (k: Option<nat>)
    ensures k == SurvivingOf(e, tableCount, trustLimit)
  {
    if tableCount != 1 {
      return None;
    }
    var sealed := SurvivingSegments(e, trustLimit);
    if sealed.None? {
      return None;
    }
    k := Some(Max(0, sealed.value - ConsumingSurviving(e, sealed)));
  }

  function SealedCharge(e: Explain, trustLimit: bool): nat
    requires HasOracle(e)
  {
    var surviving: nat := Max(1, e.queried.value - Min(Pruned(Counters(e, trustLimit)), e.queried.value));
    Max(0, surviving - ConsumingSurviving(e, Some(surviving)))
  }

  function SurvivingOf(e: Explain, tableCount: nat, trustLimit: bool): Option<nat> {
    if tableCount == 1 && HasOracle(e) then Some(SealedCharge(e, trustLimit)) else None
  }

  /** What the pruning really did, which the counters do not say: how many of the queried segments were
    * consuming, and how many of each kind it removed. */
  datatype Pruning = Pruning(consuming: nat, prunedConsuming: nat, prunedSealed: nat)

  predicate AtMostPruned(counter: Option<int>, p: Pruning) {
    counter.Some? ==> counter.value <= p.prunedConsuming + p.prunedSealed
  }

  /** A pruning the EXPLAIN allows: it removed at least what every believed counter says, and no fewer
    * segments were consuming than the answer reports. */
  ghost predicate Explains(e: Explain, trustLimit: bool, p: Pruning)
    requires e.queried.Some?
  {
    && (e.consumingQueried.Some? ==> e.consumingQueried.value <= p.consuming)
    && p.prunedConsuming <= p.consuming <= e.queried.value
    && p.prunedSealed <= e.queried.value - p.consuming
    && AtMostPruned(e.prunedByValue, p)
    && (trustLimit ==> AtMostPruned(e.prunedByServer, p) && AtMostPruned(e.prunedByLimit, p))
  }

  function SealedSurvivors(e: Explain, p: Pruning): int
    requires e.queried.Some?
  {
    e.queried.value - p.consuming - p.prunedSealed
  }

  lemma {:induction false} PrunedIsLargest(counters: seq<Option<int>>, cap: nat)
    ensures Pruned(counters) <= cap <==> forall counter :: counter in counters && counter.Some? ==> counter.value <= cap
  {
    if counters != [] {
      var n := |counters| - 1;
      PrunedIsLargest(counters[..n], cap);
      assert counters == counters[..n] + [counters[n]];
    }
  }

  /** However the pruned segments split into consuming and sealed, the sealed survivors are charged. */
  lemma ChargeCoversSurvivors(e: Explain, trustLimit: bool, p: Pruning)
    requires HasOracle(e) && Explains(e, trustLimit, p)
    ensures SealedSurvivors(e, p) <= Max(1, SealedCharge(e, trustLimit))
  {
    PrunedIsLargest(Counters(e, trustLimit), p.prunedConsuming + p.prunedSealed);
    assert ConsumingQueried(e) <= p.consuming;
  }

  /** An oracle is an answer without exceptions that scanned nothing and queried something. */
  lemma OracleIff(e: Explain)
    ensures HasOracle(e) <==> !e.exceptions && e.docsScanned == Some(0) && e.queried.Some? && e.queried.value > 0
  {
  }

  ghost predicate Believes(e: Explain, trustLimit: bool, n: nat) {
    e.prunedByValue == Some(n) || (trustLimit && (e.prunedByServer == Some(n) || e.prunedByLimit == Some(n)))
  }

  /** The segments charged, from the counters themselves: what was queried net of the largest believed one, one
    * at least, and net of the consuming segments that many prunings cannot all have removed. */
  lemma ChargeIsExact(e: Explain, trustLimit: bool, pruned: nat)
    requires HasOracle(e)
    requires pruned == 0 || Believes(e, trustLimit, pruned)
    requires forall n: nat :: Believes(e, trustLimit, n) ==> n <= pruned
    ensures var left: int := if pruned < e.queried.value then e.queried.value - pruned else 1;
      var consuming: int := if e.consumingQueried.Some? && e.consumingQueried.value > 0 then e.consumingQueried.value else 0;
      var kept: int := if consuming > e.queried.value - left then consuming - (e.queried.value - left) else 0;
      SurvivingOf(e, 1, trustLimit) == Some(if left > kept then left - kept else 0)
  {
    var counters := Counters(e, trustLimit);
    forall counter | counter in counters && counter.Some? ensures counter.value <= pruned {
      if counter.value >= 0 {
        assert Believes(e, trustLimit, counter.value);
      }
    }
    PrunedIsLargest(counters, pruned);
    if pruned > 0 {
      PrunedIsLargest(counters, pruned - 1);
      assert Some(pruned as int) in counters;
    }
  }

  /** In the quote's own terms: as many sealed segments are charged as can survive among those on hand. */
  lemma QuoteChargesEverySurvivor(e: Explain, trustLimit: bool, p: Pruning, available: nat, read: nat)
    requires HasOracle(e) && Explains(e, trustLimit, p)
    requires read <= SealedSurvivors(e, p) && read <= available
    ensures read <= Charged(Some(SealedCharge(e, trustLimit)), available)
  {
    ChargeCoversSurvivors(e, trustLimit, p);
  }

  /** Short of pruning everything, some allowed split leaves exactly that many: no smaller number is safe. */
  lemma ChargeIsAttained(e: Explain, trustLimit: bool) returns (p: Pruning)
    requires HasOracle(e) && ConsumingQueried(e) <= e.queried.value
    requires Pruned(Counters(e, trustLimit)) < e.queried.value
    ensures Explains(e, trustLimit, p) && SealedSurvivors(e, p) == SealedCharge(e, trustLimit)
  {
    var pruned, consuming := Pruned(Counters(e, trustLimit)), ConsumingQueried(e);
    p := Pruning(consuming, Min(consuming, pruned), pruned - Min(consuming, pruned));
    PrunedIsLargest(Counters(e, trustLimit), pruned);
  }
}
