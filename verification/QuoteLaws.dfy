/** When a quote has a number and which number it is, in terms of the segments themselves
  * (adapters/pinot/quote.py). */
module QuoteLaws {
  import opened Prelude
  import opened Quote

  // ----- the charge for the sealed segments -----

  /** A choice of segments the surviving count allows: something is always read. */
  ghost predicate CouldSurvive(mask: seq<bool>, surviving: Option<nat>) {
    surviving.Some? ==> Count(mask) <= 1 || Count(mask) <= surviving.value
  }

  /** No choice that could survive weighs more, and some choice weighs as much. */
  ghost predicate IsWorstChoice(sizes: seq<nat>, surviving: Option<nat>, weight: nat) {
    && (forall mask :: |mask| == |sizes| && CouldSurvive(mask, surviving) ==> Weight(sizes, mask) <= weight)
    && exists mask :: |mask| == |sizes| && CouldSurvive(mask, surviving) && Weight(sizes, mask) == weight
  }

  lemma {:induction false} CountAtMost(mask: seq<bool>)
    ensures Count(mask) <= |mask|
  {
    if mask != [] {
      CountAtMost(mask[1..]);
    }
  }

  lemma ChargeIsWorstChoice(sizes: seq<nat>, surviving: Option<nat>)
    requires sizes != []
    ensures IsWorstChoice(sizes, surviving, TopSum(Descending(sizes), Charged(surviving, |sizes|)))
  {
    var k := Charged(surviving, |sizes|);
    forall mask | |mask| == |sizes| && CouldSurvive(mask, surviving) ensures Weight(sizes, mask) <= TopSum(Descending(sizes), k) {
      CountAtMost(mask);
      TopDominates(sizes, mask, k);
    }
    var mask := TopAttained(sizes, k);
    assert CouldSurvive(mask, surviving);
  }

  // ----- rows -----

  ghost predicate RowsKnown(facts: TableFacts) {
    && facts.complete
    && (facts.consuming > 0 ==> forall j :: 0 <= j < |facts.consumingRows| ==> facts.consumingRows[j] != None)
    && (forall i :: 0 <= i < |facts.segments| ==> facts.segments[i].docs != None)
    && (facts.segments == [] ==> facts.consuming != 0)
  }

  ghost predicate AreValues(values: seq<nat>, parts: seq<Option<nat>>) {
    |values| == |parts| && forall i :: 0 <= i < |parts| ==> parts[i] == Some(values[i])
  }

  ghost predicate AreDocs(docs: seq<nat>, facts: TableFacts) {
    |docs| == |facts.segments| && forall i :: 0 <= i < |docs| ==> facts.segments[i].docs == Some(docs[i])
  }

  /** The worst sealed rows that could survive, and every row a consuming segment may hold. */
  ghost predicate AreRows(facts: TableFacts, surviving: Option<nat>, rows: nat, docs: seq<nat>, held: seq<nat>, sealed: nat) {
    && AreDocs(docs, facts) && (if facts.consuming > 0 then AreValues(held, facts.consumingRows) else held == [])
    && (if docs == [] then sealed == 0 else IsWorstChoice(docs, surviving, sealed))
    && rows == sealed + Sum(held)
  }

  /** There is a row quote exactly when everything it is a sum of is known, and it is that sum. */
  lemma RowsAreExact(facts: TableFacts, surviving: Option<nat>)
    ensures SurvivingDocs(facts, surviving).Some? <==> RowsKnown(facts)
    ensures SurvivingDocs(facts, surviving).Some? ==>
      exists docs, held, sealed :: AreRows(facts, surviving, SurvivingDocs(facts, surviving).value, docs, held, sealed)
  {
    assert AllKnown(Docs(facts)) <==> forall i :: 0 <= i < |facts.segments| ==> facts.segments[i].docs != None by {
      assert forall i :: 0 <= i < |facts.segments| ==> Docs(facts)[i] == facts.segments[i].docs;
    }
    if SurvivingDocs(facts, surviving).Some? {
      var docs := Known(Docs(facts));
      var held := if facts.consuming > 0 then Known(facts.consumingRows) else [];
      var sealed := if docs == [] then 0 else TopSum(Descending(docs), Charged(surviving, |docs|));
      if docs != [] {
        ChargeIsWorstChoice(docs, surviving);
      }
      assert forall i :: 0 <= i < |docs| ==> Docs(facts)[i] == Some(docs[i]);
      assert AreRows(facts, surviving, SurvivingDocs(facts, surviving).value, docs, held, sealed);
    }
  }

  // ----- bytes -----

  /** Is a column of this folded name among the segment's listed ones? */
  ghost predicate Lists(segment: SegmentFact, name: string) {
    exists i :: 0 <= i < |segment.columnBytes| && Lower(segment.columnBytes[i].0) == name
  }

  ghost predicate PricedByColumn(segment: SegmentFact, resolved: set<string>, columns: Option<set<string>>) {
    && columns.Some? && (forall name :: name in resolved ==> Lists(segment, name))
    && exists name :: name in columns.value && Lists(segment, name)
  }

  function ListedBytes(segment: SegmentFact): (bytes: seq<nat>)
    ensures |bytes| == |segment.columnBytes|
  {
    seq(|segment.columnBytes|, i requires 0 <= i < |segment.columnBytes| => segment.columnBytes[i].1)
  }

  function AskedFor(segment: SegmentFact, columns: set<string>): (mask: seq<bool>)
    ensures |mask| == |segment.columnBytes|
  {
    seq(|segment.columnBytes|, i requires 0 <= i < |segment.columnBytes| => Lower(segment.columnBytes[i].0) in columns)
  }

  lemma {:induction false} MatchedWeighs(segment: SegmentFact, columns: set<string>)
    ensures Sum(Matched(segment.columnBytes, columns)) == Weight(ListedBytes(segment), AskedFor(segment, columns))
    decreases |segment.columnBytes|
  {
    var entries := segment.columnBytes;
    if entries != [] {
      var rest := segment.(columnBytes := entries[1..]);
      MatchedWeighs(rest, columns);
      assert ListedBytes(segment)[1..] == ListedBytes(rest) && AskedFor(segment, columns)[1..] == AskedFor(rest, columns);
      SumAppend(if Lower(entries[0].0) in columns then [entries[0].1] else [], Matched(entries[1..], columns));
    }
  }

  lemma {:induction false} MatchedIffListed(entries: seq<(string, nat)>, columns: set<string>)
    ensures Matched(entries, columns) != [] <==> exists i :: 0 <= i < |entries| && Lower(entries[i].0) in columns
  {
    if entries != [] {
      MatchedIffListed(entries[1..], columns);
      if i :| 0 <= i < |entries| && Lower(entries[i].0) in columns {
        assert i > 0 ==> entries[1..][i - 1] == entries[i];
      }
      if i :| 0 <= i < |entries[1..]| && Lower(entries[1..][i].0) in columns {
        assert entries[i + 1] == entries[1..][i];
      }
    }
  }

  /** A segment is priced by column exactly when it lists every resolved name and some referenced one, at the
    * bytes of the referenced ones, and whole otherwise. */
  lemma PriceIsExact(segment: SegmentFact, resolved: set<string>, columns: Option<set<string>>)
    ensures PricedByColumn(segment, resolved, columns) ==>
      SegmentPrice(segment, resolved, columns) == Some(Weight(ListedBytes(segment), AskedFor(segment, columns.value)))
    ensures !PricedByColumn(segment, resolved, columns) ==> SegmentPrice(segment, resolved, columns) == segment.totalBytes
  {
    if columns.Some? {
      MatchedWeighs(segment, columns.value);
      MatchedIffListed(segment.columnBytes, columns.value);
      assert resolved <= Carried(segment) <==> forall name :: name in resolved ==> Lists(segment, name) by {
        forall name ensures name in Carried(segment) <==> Lists(segment, name) {
        }
      }
      if i :| 0 <= i < |segment.columnBytes| && Lower(segment.columnBytes[i].0) in columns.value {
        assert Lists(segment, Lower(segment.columnBytes[i].0));
      }
    }
  }

  ghost predicate ArePrices(prices: seq<nat>, facts: TableFacts, columns: Option<set<string>>) {
    |prices| == |facts.segments| && forall i :: 0 <= i < |prices| ==> SegmentPrice(facts.segments[i], facts.columns, columns) == Some(prices[i])
  }

  /** Bytes of so many rows at the density of segment i, rounded up. */
  ghost predicate IsProjection(bytes: nat, rows: nat, price: nat, docs: nat) {
    rows * price <= bytes * docs < rows * price + docs
  }

  /** Segment i has documents and no segment with documents is denser. */
  ghost predicate IsDensest(facts: TableFacts, prices: seq<nat>, i: nat)
    requires |prices| == |facts.segments|
  {
    && i < |prices| && facts.segments[i].docs.Some? && facts.segments[i].docs.value > 0
    && forall k :: 0 <= k < |prices| && facts.segments[k].docs.Some? && facts.segments[k].docs.value > 0 ==>
         prices[k] * facts.segments[i].docs.value <= prices[i] * facts.segments[k].docs.value
  }

  /** Each consuming segment at its own threshold and the worst density. */
  ghost predicate AreProjections(facts: TableFacts, prices: seq<nat>, held: seq<nat>, projected: seq<nat>, i: nat)
    requires |prices| == |facts.segments|
  {
    && AreValues(held, facts.consumingRows) && |projected| == |held| && IsDensest(facts, prices, i)
    && forall j :: 0 <= j < |held| ==> IsProjection(projected[j], held[j], prices[i], facts.segments[i].docs.value)
  }

  ghost predicate BytesKnown(facts: TableFacts, columns: Option<set<string>>) {
    && facts.complete && facts.segments != []
    && (forall i :: 0 <= i < |facts.segments| ==> SegmentPrice(facts.segments[i], facts.columns, columns) != None)
    && (facts.consuming > 0 ==>
          && (forall j :: 0 <= j < |facts.consumingRows| ==> facts.consumingRows[j] != None)
          && (forall i :: 0 <= i < |facts.segments| ==> facts.segments[i].docs != None)
          && exists i :: 0 <= i < |facts.segments| && facts.segments[i].docs.Some? && facts.segments[i].docs.value > 0)
  }

  /** The worst sealed bytes that could survive, and the projection of every consuming segment. */
  ghost predicate AreBytes(facts: TableFacts, surviving: Option<nat>, columns: Option<set<string>>, bytes: nat,
                           prices: seq<nat>, sealed: nat, projected: seq<nat>) {
    && ArePrices(prices, facts, columns) && prices != [] && IsWorstChoice(prices, surviving, sealed)
    && (if facts.consuming > 0 then exists held, i :: AreProjections(facts, prices, held, projected, i) else projected == [])
    && bytes == sealed + Sum(projected)
  }

  lemma ProjectedIsProjection(rows: nat, ratio: Ratio)
    requires ratio.docs > 0
    ensures IsProjection(Projected(rows, ratio), rows, ratio.bytes, ratio.docs)
  {
    var bytes := Projected(rows, ratio);
    ProjectedIsCeiling(rows, ratio, bytes);
    if bytes > 0 {
      ProjectedIsCeiling(rows, ratio, bytes - 1);
      assert (bytes - 1) * ratio.docs == bytes * ratio.docs - ratio.docs;
    }
  }

  lemma ConsumingIsExact(facts: TableFacts, columns: Option<set<string>>, prices: seq<nat>) returns (held: seq<nat>, projected: seq<nat>, i: nat)
    requires ArePrices(prices, facts, columns) && facts.consuming > 0 && ConsumingBytes(facts, Prices(facts, columns)).Some?
    ensures AreProjections(facts, prices, held, projected, i) && ConsumingBytes(facts, Prices(facts, columns)).value == Sum(projected)
  {
    var sizes := Prices(facts, columns);
    assert forall k :: 0 <= k < |sizes| ==> sizes[k] == Some(prices[k]);
    WorstIsDensest(facts.segments, sizes, |facts.segments|);
    var worst := Worst(facts.segments, sizes, |facts.segments|).value;
    i :| i < |facts.segments| && Rated(facts.segments, sizes, i) && RatioAt(facts.segments, sizes, i) == worst;
    forall k: nat | k < |prices| && facts.segments[k].docs.Some? && facts.segments[k].docs.value > 0
      ensures prices[k] * facts.segments[i].docs.value <= prices[i] * facts.segments[k].docs.value
    {
      assert Rated(facts.segments, sizes, k) && AtMost(RatioAt(facts.segments, sizes, k), worst);
    }
    held := Known(facts.consumingRows);
    projected := ProjectedAll(held, worst);
    forall j | 0 <= j < |held| ensures IsProjection(projected[j], held[j], prices[i], facts.segments[i].docs.value) {
      ProjectedIsProjection(held[j], worst);
    }
  }

  lemma BytesKnownIff(facts: TableFacts, surviving: Option<nat>, columns: Option<set<string>>)
    ensures SurvivingBytes(facts, surviving, columns).Some? <==> BytesKnown(facts, columns)
  {
    var sizes := Prices(facts, columns);
    WorstIsDensest(facts.segments, sizes, |facts.segments|);
    assert AllKnown(sizes) <==> forall i :: 0 <= i < |facts.segments| ==> SegmentPrice(facts.segments[i], facts.columns, columns) != None by {
      assert forall i :: 0 <= i < |facts.segments| ==> sizes[i] == SegmentPrice(facts.segments[i], facts.columns, columns);
    }
    assert AllKnown(Docs(facts)) <==> forall i :: 0 <= i < |facts.segments| ==> facts.segments[i].docs != None by {
      assert forall i :: 0 <= i < |facts.segments| ==> Docs(facts)[i] == facts.segments[i].docs;
    }
    if AllKnown(sizes) {
      if i: nat :| i < |facts.segments| && facts.segments[i].docs.Some? && facts.segments[i].docs.value > 0 {
        assert Rated(facts.segments, sizes, i);
      }
    }
  }

  /** There is a byte quote exactly when everything it is a sum of is known, and it is that sum. */
  lemma BytesAreExact(facts: TableFacts, surviving: Option<nat>, columns: Option<set<string>>)
    ensures SurvivingBytes(facts, surviving, columns).Some? <==> BytesKnown(facts, columns)
    ensures SurvivingBytes(facts, surviving, columns).Some? ==>
      exists prices, sealed, projected :: AreBytes(facts, surviving, columns, SurvivingBytes(facts, surviving, columns).value, prices, sealed, projected)
  {
    BytesKnownIff(facts, surviving, columns);
    if SurvivingBytes(facts, surviving, columns).Some? {
      var sizes := Prices(facts, columns);
      var prices, projected: seq<nat> := Known(sizes), [];
      assert forall k :: 0 <= k < |sizes| ==> sizes[k] == Some(prices[k]);
      ChargeIsWorstChoice(prices, surviving);
      if facts.consuming > 0 {
        var held, i;
        held, projected, i := ConsumingIsExact(facts, columns, prices);
      }
      assert AreBytes(facts, surviving, columns, SurvivingBytes(facts, surviving, columns).value, prices,
                      TopSum(Descending(prices), Charged(surviving, |prices|)), projected);
    }
  }

  // ----- the whole quote -----

  function RowsOfTables(tables: seq<(TableFacts, Option<nat>)>): (parts: seq<Option<nat>>)
    ensures |parts| == |tables|
  {
    seq(|tables|, i requires 0 <= i < |tables| => SurvivingDocs(tables[i].0, tables[i].1))
  }

  function BytesOfTables(tables: seq<(TableFacts, Option<nat>)>, columns: Option<set<string>>): (parts: seq<Option<nat>>)
    ensures |parts| == |tables|
  {
    seq(|tables|, i requires 0 <= i < |tables| => SurvivingBytes(tables[i].0, tables[i].1, columns))
  }

  /** All of the parts are known and this is their sum, or some part is not and there is none. */
  ghost predicate IsWhole(total: Option<nat>, parts: seq<Option<nat>>) {
    (total == None && None in parts) || exists values :: AreValues(values, parts) && total == Some(Sum(values))
  }

  lemma TotalIsWhole(parts: seq<Option<nat>>)
    ensures IsWhole(Total(parts), parts)
  {
    if AllKnown(parts) {
      assert AreValues(Known(parts), parts);
    }
  }

  /** Nothing read is quoted at nothing, with low confidence; otherwise rows and bytes are each the sum over every
    * table or absent, and confidence is low exactly where bytes are absent. */
  lemma QuoteIsExact(tables: seq<(TableFacts, Option<nat>)>, columns: Option<set<string>>, widest: Option<nat>)
    ensures var quote := QuoteOf(tables, columns, widest);
      && quote.maxIntermediateRows == widest
      && (tables == [] ==> quote.scannedBytes == None && quote.rowEstimate == None && quote.low)
      && (tables != [] ==> IsWhole(quote.scannedBytes, BytesOfTables(tables, columns)) && IsWhole(quote.rowEstimate, RowsOfTables(tables)))
      && (quote.low <==> quote.scannedBytes == None)
  {
    TotalIsWhole(ByteParts(tables, columns));
    TotalIsWhole(DocParts(tables));
    assert ByteParts(tables, columns) == BytesOfTables(tables, columns) && DocParts(tables) == RowsOfTables(tables);
  }
}
