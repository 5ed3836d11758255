/** From the quote to the gate: charging each table once per read (adapters/pinot/engine.py, estimate_cost)
  * and refusing what does not fit the budget (core/budget.py). */
module Admission {
  import opened Prelude
  import opened Quote
  import opened ScanSoundness
  import opened ReadCounts

  /** Unset means that dimension is not gated. */
  datatype QueryBudget = QueryBudget(maxScanBytes: Option<nat>, maxRows: Option<nat>, maxIntermediateRows: Option<nat>)

  datatype Verdict = Admitted | OverScanBytes | OverRows | OverIntermediateRows

  /** A gated dimension fits when it was confidently measured and is not over its ceiling. */
  predicate Fits(ceiling: Option<nat>, measured: Option<nat>, low: bool) {
    ceiling.Some? ==> !low && measured.Some? && measured.value <= ceiling.value
  }

  function EnforceBudget(e: CostEstimate, budget: QueryBudget): Verdict {
    if !Fits(budget.maxScanBytes, e.scannedBytes, e.low) then OverScanBytes
    else if !Fits(budget.maxRows, e.rowEstimate, e.low) then OverRows
    else if !Fits(budget.maxIntermediateRows, e.maxIntermediateRows, e.low) then OverIntermediateRows
    else Admitted
  }

  /** One table of the query: its lowercase database.table, its facts, and the surviving count. */
  datatype Located = Located(name: string, facts: TableFacts, surviving: Option<nat>)

  /** The name as the reads spell it, catalog first. */
  function ReadKey(table: Located): string { "pinot." + table.name }

  function Repeat<T>(x: T, n: nat): seq<T> { seq(n, _ => x) }

  function TimesRead(counts: multiset<string>, key: string): nat { Max(1, counts[key]) }

  /** Each table's facts, once per read of it. */
  function ChargedReads(located: seq<Located>, counts: multiset<string>): seq<(TableFacts, Option<nat>)> {
    if located == [] then []
    else Repeat((located[0].facts, located[0].surviving), TimesRead(counts, ReadKey(located[0]))) + ChargedReads(located[1..], counts)
  }

  const NO_QUOTE := CostEstimate(None, None, None, true)

  /** What the SQL says before anything is priced: whether its shape can be priced at all, its read counts
    * and whether they saturated, and its generator multiplier. */
  datatype Shape = Shape(unpriceable: bool, counts: multiset<string>, saturated: bool, fanout: nat)

  function EstimateCost(shape: Shape, located: seq<Located>, columns: Option<set<string>>, widest: Option<nat>): CostEstimate {
    if shape.unpriceable || shape.saturated || located == [] then NO_QUOTE
    else
      var estimate := QuoteOf(ChargedReads(located, shape.counts), columns, widest);
      if estimate.maxIntermediateRows.None? then estimate
      else estimate.(maxIntermediateRows := Some(estimate.maxIntermediateRows.value * shape.fanout))
  }

  /** A shape that cannot be priced, a saturated count or no table at all is no quote; otherwise the estimate is the
    * quote of the tables, once per read, with the widest step multiplied by what the generators make. */
  lemma EstimateIsExact(shape: Shape, located: seq<Located>, columns: Option<set<string>>, widest: Option<nat>)
    ensures var estimate := EstimateCost(shape, located, columns, widest);
      if shape.unpriceable || shape.saturated || |located| == 0 then
        estimate.scannedBytes == None && estimate.rowEstimate == None && estimate.maxIntermediateRows == None && estimate.low
      else
        var quote := QuoteOf(ChargedReads(located, shape.counts), columns, widest);
        && (estimate.scannedBytes, estimate.rowEstimate, estimate.low) == (quote.scannedBytes, quote.rowEstimate, quote.low)
        && (estimate.maxIntermediateRows.Some? <==> widest.Some?)
        && (widest.Some? ==> estimate.maxIntermediateRows == Some(widest.value * shape.fanout))
  {
  }

  // ----- adding up over reads -----

  function ChargedParts(keys: seq<string>, parts: seq<Option<nat>>, counts: multiset<string>): seq<Option<nat>>
    requires |keys| == |parts|
  {
    if keys == [] then []
    else Repeat(parts[0], TimesRead(counts, keys[0])) + ChargedParts(keys[1..], parts[1..], counts)
  }

  /** Every read of every table at that table's part. */
  function Weighted(keys: seq<string>, parts: seq<nat>, counts: multiset<string>): nat
    requires |keys| == |parts|
  {
    if keys == [] then 0 else counts[keys[0]] * parts[0] + Weighted(keys[1..], parts[1..], counts)
  }

  /** Every table's part, once per read and once at least. */
  function Owed(keys: seq<string>, parts: seq<nat>, counts: multiset<string>): nat
    requires |keys| == |parts|
  {
    if keys == [] then 0 else TimesRead(counts, keys[0]) * parts[0] + Owed(keys[1..], parts[1..], counts)
  }

  /** What is owed, table by table: its part as often as it is read, and once where it was not counted. */
  lemma OwedByTable(keys: seq<string>, parts: seq<nat>, counts: multiset<string>)
    requires |keys| == |parts|
    ensures keys == [] ==> Owed(keys, parts, counts) == 0
    ensures keys != [] ==>
      Owed(keys, parts, counts) == (if keys[0] in counts then counts[keys[0]] * parts[0] else parts[0]) + Owed(keys[1..], parts[1..], counts)
  {
  }

  lemma {:induction false} RepeatedTotal(x: Option<nat>, n: nat)
    requires n > 0
    ensures AllKnown(Repeat(x, n)) <==> x.Some?
    ensures x.Some? ==> Sum(Known(Repeat(x, n))) == n * x.value
  {
    assert Repeat(x, n)[0] == x;
    if x.Some? {
      if n == 1 {
        assert Known(Repeat(x, n)) == [x.value];
      } else {
        RepeatedTotal(x, n - 1);
        assert Known(Repeat(x, n))[1..] == Known(Repeat(x, n - 1));
      }
    }
  }

  lemma KnownConcat(a: seq<Option<nat>>, b: seq<Option<nat>>)
    ensures AllKnown(a + b) <==> AllKnown(a) && AllKnown(b)
    ensures AllKnown(a + b) ==> Sum(Known(a + b)) == Sum(Known(a)) + Sum(Known(b))
  {
    assert forall i :: 0 <= i < |a| ==> (a + b)[i] == a[i];
    assert forall i :: 0 <= i < |b| ==> (a + b)[|a| + i] == b[i];
    if AllKnown(a + b) {
      assert Known(a + b) == Known(a) + Known(b);
      SumAppend(Known(a), Known(b));
    }
  }

  /** The total of the charges is known exactly when every part is, and is then the parts owed: at least
    * the parts weighted by their reads. */
  lemma {:induction false} ChargeIsOwed(keys: seq<string>, parts: seq<Option<nat>>, counts: multiset<string>)
    requires |keys| == |parts|
    ensures AllKnown(ChargedParts(keys, parts, counts)) <==> AllKnown(parts)
    ensures AllKnown(parts) ==> Sum(Known(ChargedParts(keys, parts, counts))) == Owed(keys, Known(parts), counts)
    ensures AllKnown(parts) ==> Weighted(keys, Known(parts), counts) <= Owed(keys, Known(parts), counts)
  {
    if keys != [] {
      var n := TimesRead(counts, keys[0]);
      RepeatedTotal(parts[0], n);
      KnownConcat(Repeat(parts[0], n), ChargedParts(keys[1..], parts[1..], counts));
      ChargeIsOwed(keys[1..], parts[1..], counts);
      assert parts == [parts[0]] + parts[1..];
      KnownConcat([parts[0]], parts[1..]);
      if AllKnown(parts) {
        assert Known(parts)[1..] == Known(parts[1..]);
        MulMonotone(counts[keys[0]], n, parts[0].value, parts[0].value);
      }
    }
  }

  lemma {:induction false} WeightedOneMore(keys: seq<string>, parts: seq<nat>, counts: multiset<string>, at: nat)
    requires |keys| == |parts| && Distinct(keys) && at < |keys|
    ensures Weighted(keys, parts, counts + multiset{keys[at]}) == Weighted(keys, parts, counts) + parts[at]
  {
    if at == 0 {
      WeightedSame(keys[1..], parts[1..], counts, keys[0]);
      assert (counts[keys[0]] + 1) * parts[0] == counts[keys[0]] * parts[0] + parts[0];
    } else {
      WeightedOneMore(keys[1..], parts[1..], counts, at - 1);
    }
  }

  lemma {:induction false} WeightedSame(keys: seq<string>, parts: seq<nat>, counts: multiset<string>, other: string)
    requires |keys| == |parts| && other !in keys
    ensures Weighted(keys, parts, counts + multiset{other}) == Weighted(keys, parts, counts)
  {
    if keys != [] {
      WeightedSame(keys[1..], parts[1..], counts, other);
    }
  }

  lemma {:induction false} WeightedNothing(keys: seq<string>, parts: seq<nat>)
    requires |keys| == |parts|
    ensures Weighted(keys, parts, multiset{}) == 0
  {
    if keys != [] {
      WeightedNothing(keys[1..], parts[1..]);
    }
  }

  /** The values of the reads, each within its table's part, sum to no more than the weighted parts. */
  lemma {:induction false} ReadsWithinWeights(keys: seq<string>, parts: seq<nat>, names: seq<string>, tables: seq<nat>, values: seq<nat>)
    requires |keys| == |parts| && Distinct(keys) && |names| == |values| == |tables|
    requires forall i :: 0 <= i < |names| ==> tables[i] < |keys| && names[i] == keys[tables[i]] && values[i] <= parts[tables[i]]
    ensures Sum(values) <= Weighted(keys, parts, multiset(names))
  {
    if names == [] {
      WeightedNothing(keys, parts);
    } else {
      forall i | 0 <= i < |names[1..]|
        ensures tables[1..][i] < |keys| && names[1..][i] == keys[tables[1..][i]] && values[1..][i] <= parts[tables[1..][i]]
      {
        assert names[1..][i] == names[1 + i];
      }
      ReadsWithinWeights(keys, parts, names[1..], tables[1..], values[1..]);
      assert names == [names[0]] + names[1..];
      assert multiset(names) == multiset(names[1..]) + multiset{names[0]};
      WeightedOneMore(keys, parts, multiset(names[1..]), tables[0]);
    }
  }

  // ----- the gate -----

  function Keys(located: seq<Located>): (keys: seq<string>)
    ensures |keys| == |located|
  {
    seq(|located|, i requires 0 <= i < |located| => ReadKey(located[i]))
  }

  function TableDocs(located: seq<Located>): (parts: seq<Option<nat>>)
    ensures |parts| == |located|
  {
    seq(|located|, i requires 0 <= i < |located| => SurvivingDocs(located[i].facts, located[i].surviving))
  }

  function TableBytes(located: seq<Located>, columns: Option<set<string>>): (parts: seq<Option<nat>>)
    ensures |parts| == |located|
  {
    seq(|located|, i requires 0 <= i < |located| => SurvivingBytes(located[i].facts, located[i].surviving, columns))
  }

  lemma {:induction false} ChargedDocs(located: seq<Located>, counts: multiset<string>)
    ensures DocParts(ChargedReads(located, counts)) == ChargedParts(Keys(located), TableDocs(located), counts)
  {
    if located != [] {
      ChargedDocs(located[1..], counts);
      assert Keys(located)[1..] == Keys(located[1..]);
      assert TableDocs(located)[1..] == TableDocs(located[1..]);
      var n := TimesRead(counts, ReadKey(located[0]));
      var head, rest := Repeat((located[0].facts, located[0].surviving), n), ChargedReads(located[1..], counts);
      assert DocParts(head + rest) == DocParts(head) + DocParts(rest);
      assert DocParts(head) == Repeat(TableDocs(located)[0], n);
    }
  }

  lemma {:induction false} ChargedBytes(located: seq<Located>, columns: Option<set<string>>, counts: multiset<string>)
    ensures ByteParts(ChargedReads(located, counts), columns) == ChargedParts(Keys(located), TableBytes(located, columns), counts)
  {
    if located != [] {
      ChargedBytes(located[1..], columns, counts);
      assert Keys(located)[1..] == Keys(located[1..]);
      assert TableBytes(located, columns)[1..] == TableBytes(located[1..], columns);
      var n := TimesRead(counts, ReadKey(located[0]));
      var head, rest := Repeat((located[0].facts, located[0].surviving), n), ChargedReads(located[1..], counts);
      BytePartsConcat(head, rest, columns);
      assert ByteParts(head, columns) == Repeat(TableBytes(located, columns)[0], n);
    }
  }

  lemma BytePartsConcat(a: seq<(TableFacts, Option<nat>)>, b: seq<(TableFacts, Option<nat>)>, columns: Option<set<string>>)
    ensures ByteParts(a + b, columns) == ByteParts(a, columns) + ByteParts(b, columns)
  {
  }

  /** One execution of the query: for every read of the inlined text, the table it reads and its scan. */
  datatype ReadOf = ReadOf(table: nat, scan: Scan)

  /** Each read scans the table it names, as the table's facts and surviving count allow. */
  ghost predicate IsExecution(names: seq<string>, located: seq<Located>, stored: seq<seq<StoredSegment>>, execution: seq<ReadOf>) {
    && |execution| == |names| && |stored| == |located|
    && (forall t :: 0 <= t < |located| ==> CountsRows(located[t].facts, stored[t]))
    && forall i :: 0 <= i < |names| ==>
         execution[i].table < |located| && names[i] == ReadKey(located[execution[i].table])
         && Allowed(located[execution[i].table].facts, located[execution[i].table].surviving, execution[i].scan)
  }

  /** And its bytes are described, and such as the projection is built for. */
  ghost predicate BytesDescribed(located: seq<Located>, stored: seq<seq<StoredSegment>>, columns: Option<set<string>>, execution: seq<ReadOf>) {
    && |stored| == |located|
    && (forall t :: 0 <= t < |located| ==> DescribesBytes(located[t].facts, stored[t], columns))
    && forall i :: 0 <= i < |execution| && execution[i].table < |located| ==>
         ReadsBytesOf(located[execution[i].table].facts, columns, execution[i].scan)
  }

  function RowsOfReads(located: seq<Located>, stored: seq<seq<StoredSegment>>, execution: seq<ReadOf>): (rows: seq<nat>)
    ensures |rows| == |execution|
  {
    seq(|execution|, i requires 0 <= i < |execution| =>
      var r := execution[i];
      if r.table < |stored| && |r.scan.sealed| == |stored[r.table]| then RowsRead(stored[r.table], r.scan) else 0)
  }

  function BytesOfReads(located: seq<Located>, stored: seq<seq<StoredSegment>>, execution: seq<ReadOf>): (bytes: seq<nat>)
    ensures |bytes| == |execution|
  {
    seq(|execution|, i requires 0 <= i < |execution| =>
      var r := execution[i];
      if r.table < |stored| && |r.scan.sealed| == |stored[r.table]| then BytesRead(stored[r.table], r.scan) else 0)
  }

  function TablesOf(execution: seq<ReadOf>): (tables: seq<nat>)
    ensures |tables| == |execution|
  {
    seq(|execution|, i requires 0 <= i < |execution| => execution[i].table)
  }

  /** The quoted rows cover every execution of the inlined query, all its reads together. */
  lemma QuoteCoversRows(names: seq<string>, located: seq<Located>, stored: seq<seq<StoredSegment>>, execution: seq<ReadOf>)
    requires Distinct(Keys(located)) && IsExecution(names, located, stored, execution)
    ensures var rows := Total(DocParts(ChargedReads(located, multiset(names))));
      rows.Some? ==> Sum(RowsOfReads(located, stored, execution)) <= rows.value
  {
    var keys, tables, counts, docs := Keys(located), TablesOf(execution), multiset(names), TableDocs(located);
    ChargedDocs(located, counts);
    if AllKnown(ChargedParts(keys, docs, counts)) {
      ChargeIsOwed(keys, docs, counts);
      forall i | 0 <= i < |names| ensures RowsOfReads(located, stored, execution)[i] <= Known(docs)[tables[i]] {
        assert docs[tables[i]].Some?;
        var r := execution[i];
        RowsCovered(located[r.table].facts, stored[r.table], located[r.table].surviving, r.scan);
      }
      ReadsWithinWeights(keys, Known(docs), names, tables, RowsOfReads(located, stored, execution));
    }
  }

  /** The quoted bytes cover every execution whose bytes the facts describe. */
  lemma QuoteCoversBytes(names: seq<string>, located: seq<Located>, stored: seq<seq<StoredSegment>>,
                         columns: Option<set<string>>, execution: seq<ReadOf>)
    requires Distinct(Keys(located)) && IsExecution(names, located, stored, execution) && BytesDescribed(located, stored, columns, execution)
    ensures var bytes := Total(ByteParts(ChargedReads(located, multiset(names)), columns));
      bytes.Some? ==> Sum(BytesOfReads(located, stored, execution)) <= bytes.value
  {
    var keys, tables, counts, bytes := Keys(located), TablesOf(execution), multiset(names), TableBytes(located, columns);
    ChargedBytes(located, columns, counts);
    if AllKnown(ChargedParts(keys, bytes, counts)) {
      ChargeIsOwed(keys, bytes, counts);
      forall i | 0 <= i < |names| ensures BytesOfReads(located, stored, execution)[i] <= Known(bytes)[tables[i]] {
        assert bytes[tables[i]].Some?;
        var r := execution[i];
        BytesCovered(located[r.table].facts, stored[r.table], located[r.table].surviving, columns, r.scan);
      }
      ReadsWithinWeights(keys, Known(bytes), names, tables, BytesOfReads(located, stored, execution));
    }
  }

  /** Every table's part known, and all of them together, once per read, within the ceiling. */
  ghost predicate Within(ceiling: Option<nat>, keys: seq<string>, parts: seq<Option<nat>>, counts: multiset<string>)
    requires |keys| == |parts|
  {
    ceiling.Some? ==> AllKnown(parts) && Owed(keys, Known(parts), counts) <= ceiling.value
  }

  function TotalOwed(keys: seq<string>, parts: seq<Option<nat>>, counts: multiset<string>): Option<nat>
    requires |keys| == |parts|
  {
    if AllKnown(parts) then Some(Owed(keys, Known(parts), counts)) else None
  }

  lemma QuoteIsOwed(located: seq<Located>, columns: Option<set<string>>, widest: Option<nat>, counts: multiset<string>)
    requires located != []
    ensures var bytes := TotalOwed(Keys(located), TableBytes(located, columns), counts);
      QuoteOf(ChargedReads(located, counts), columns, widest)
      == CostEstimate(bytes, TotalOwed(Keys(located), TableDocs(located), counts), widest, bytes.None?)
  {
    ChargedDocs(located, counts);
    ChargedBytes(located, columns, counts);
    ChargeIsOwed(Keys(located), TableBytes(located, columns), counts);
    ChargeIsOwed(Keys(located), TableDocs(located), counts);
    assert ChargedReads(located, counts) != [];
  }

  /** The gate opens exactly when nothing is gated, or the shape can be priced, every table's bytes are
    * known, and each gated dimension is wholly known and within its ceiling. One unknown part of one table
    * is a denial, never a discount. */
  lemma AdmittedIffKnownAndWithin(shape: Shape, located: seq<Located>, columns: Option<set<string>>, widest: Option<nat>,
                                  budget: QueryBudget)
    ensures EnforceBudget(EstimateCost(shape, located, columns, widest), budget) == Admitted <==>
      || budget == QueryBudget(None, None, None)
      || (&& !shape.unpriceable && !shape.saturated && located != []
          && AllKnown(TableBytes(located, columns))
          && Within(budget.maxScanBytes, Keys(located), TableBytes(located, columns), shape.counts)
          && Within(budget.maxRows, Keys(located), TableDocs(located), shape.counts)
          && (budget.maxIntermediateRows.Some? ==> widest.Some? && widest.value * shape.fanout <= budget.maxIntermediateRows.value))
  {
    if located != [] {
      QuoteIsOwed(located, columns, widest, shape.counts);
    }
  }

  /** With one table's metadata incomplete, every budget that gates any dimension is a denial. */
  lemma IncompleteIsDenied(shape: Shape, located: seq<Located>, columns: Option<set<string>>, widest: Option<nat>, budget: QueryBudget)
    requires exists t :: 0 <= t < |located| && !located[t].facts.complete
    ensures EnforceBudget(EstimateCost(shape, located, columns, widest), budget) == Admitted <==> budget == QueryBudget(None, None, None)
  {
    var t :| 0 <= t < |located| && !located[t].facts.complete;
    assert TableBytes(located, columns)[t] == None;
    AdmittedIffKnownAndWithin(shape, located, columns, widest, budget);
  }
}
