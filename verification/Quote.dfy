/** Table facts to a scan quote (adapters/pinot/quote.py): the k largest sealed segments, plus what the
  * consuming ones may hold. */
module Quote {
  import opened Prelude

  /** One sealed segment as the controller reports it; column bytes in report order. */
  datatype SegmentFact = SegmentFact(docs: Option<nat>, totalBytes: Option<nat>, columnBytes: seq<(string, nat)>)

  /** Everything about one table a quote is built from. */
  datatype TableFacts = TableFacts(
    segments: seq<SegmentFact>,
    columns: set<string>,
    consuming: int,
    consumingRows: seq<Option<nat>>,
    complete: bool)

  predicate AllKnown(parts: seq<Option<nat>>) { forall i :: 0 <= i < |parts| ==> parts[i].Some? }

  function Known(parts: seq<Option<nat>>): (known: seq<nat>)
    requires AllKnown(parts)
    ensures |known| == |parts|
  {
    seq(|parts|, i requires 0 <= i < |parts| => parts[i].value)
  }

  /** The sum, unless any part is unknown. */
  function Total(parts: seq<Option<nat>>): Option<nat> {
    if AllKnown(parts) then Some(Sum(Known(parts))) else None
  }

  method SumParts(parts: seq<Option<nat>>) returns (total: Option<nat>)
    ensures total == Total(parts)
  {
    var sum := 0;
    for i := 0 to |parts|
      invariant AllKnown(parts[..i]) && sum == Sum(Known(parts[..i]))
    {
      if parts[i].None? {
        return None;
      }
      assert Known(parts[..i + 1]) == Known(parts[..i]) + [parts[i].value];
      SumAppend(Known(parts[..i]), [parts[i].value]);
      sum := sum + parts[i].value;
    }
    assert parts[..|parts|] == parts;
    total := Some(sum);
  }

  // ----- sorting and the k largest -----

  function Insert(x: nat, s: seq<nat>): seq<nat> {
    if s == [] || x >= s[0] then [x] + s else [s[0]] + Insert(x, s[1..])
  }

  /** The sizes, largest first. */
  function Descending(s: seq<nat>): seq<nat> {
    if s == [] then [] else Insert(s[0], Descending(s[1..]))
  }

  ghost predicate IsDescending(s: seq<nat>) { forall i, j :: 0 <= i < j < |s| ==> s[i] >= s[j] }

  lemma {:induction false} InsertKeepsMembers(x: nat, s: seq<nat>)
    ensures multiset(Insert(x, s)) == multiset(s) + multiset{x}
  {
    if s != [] && x < s[0] {
      InsertKeepsMembers(x, s[1..]);
      assert s == [s[0]] + s[1..];
    }
  }

  lemma {:induction false} InsertKeepsOrder(x: nat, s: seq<nat>)
    requires IsDescending(s)
    ensures IsDescending(Insert(x, s)) && forall i :: 0 <= i < |Insert(x, s)| ==> Insert(x, s)[i] <= if s == [] then x else Max(x, s[0])
  {
    if s != [] && x < s[0] {
      InsertKeepsOrder(x, s[1..]);
    }
  }

  /** Sorting keeps every size and puts no smaller one before a larger. */
  lemma {:induction false} DescendingSorts(s: seq<nat>)
    ensures IsDescending(Descending(s)) && multiset(Descending(s)) == multiset(s) && |Descending(s)| == |s|
  {
    if s != [] {
      DescendingSorts(s[1..]);
      InsertKeepsMembers(s[0], Descending(s[1..]));
      InsertKeepsOrder(s[0], Descending(s[1..]));
      assert s == [s[0]] + s[1..];
      assert |multiset(Descending(s))| == |multiset(s)|;
    }
  }

  function TopSum(s: seq<nat>, k: nat): nat { Sum(s[..Min(k, |s|)]) }

  /** Which of the segments are read. */
  function Count(mask: seq<bool>): nat {
    if mask == [] then 0 else (if mask[0] then 1 else 0) + Count(mask[1..])
  }

  function Weight(s: seq<nat>, mask: seq<bool>): nat
    requires |mask| == |s|
  {
    if s == [] then 0 else (if mask[0] then s[0] else 0) + Weight(s[1..], mask[1..])
  }

  lemma TopSumStep(s: seq<nat>, k: nat)
    requires s != []
    ensures k > 0 ==> TopSum(s, k) == s[0] + TopSum(s[1..], k - 1)
    ensures TopSum(s, 0) == 0
  {
    if k > 0 {
      assert s[..Min(k, |s|)][1..] == s[1..][..Min(k - 1, |s| - 1)];
    }
  }

  lemma {:induction false} TopSumOneMore(s: seq<nat>, k: nat, x: nat)
    requires k > 0 && forall i :: 0 <= i < |s| ==> s[i] <= x
    ensures TopSum(s, k - 1) <= TopSum(s, k) <= TopSum(s, k - 1) + x
    decreases k
  {
    if s != [] {
      TopSumStep(s, k);
      TopSumStep(s, k - 1);
      if k > 1 {
        TopSumOneMore(s[1..], k - 1, x);
      } else {
        assert TopSum(s[1..], 0) == 0;
      }
    }
  }

  /** Inserting a size changes the k largest to the better of keeping it and leaving it out. */
  lemma {:induction false} InsertTop(x: nat, s: seq<nat>, k: nat)
    requires IsDescending(s) && k > 0
    ensures TopSum(Insert(x, s), k) >= TopSum(s, k) && TopSum(Insert(x, s), k) >= x + TopSum(s, k - 1)
    ensures TopSum(Insert(x, s), k) == x + TopSum(s, k - 1) || (k <= |s| && TopSum(Insert(x, s), k) == TopSum(s, k))
    decreases k
  {
    TopSumStep(Insert(x, s), k);
    if s == [] || x >= s[0] {
      assert ([x] + s)[1..] == s;
      TopSumOneMore(s, k, x);
    } else {
      assert ([s[0]] + Insert(x, s[1..]))[1..] == Insert(x, s[1..]);
      TopSumStep(s, k);
      TopSumStep(s, k - 1);
      if k > 1 {
        InsertTop(x, s[1..], k - 1);
      }
    }
  }

  /** No choice of at most k sizes weighs more than the k largest. */
  lemma {:induction false} TopDominates(s: seq<nat>, mask: seq<bool>, k: nat)
    requires |mask| == |s| && Count(mask) <= k
    ensures Weight(s, mask) <= TopSum(Descending(s), k)
  {
    if s != [] {
      DescendingSorts(s[1..]);
      var taken := if mask[0] then 1 else 0;
      if k == 0 {
        TopDominates(s[1..], mask[1..], 0);
      } else {
        InsertTop(s[0], Descending(s[1..]), k);
        TopDominates(s[1..], mask[1..], k - taken);
      }
    }
  }

  lemma ChoiceOneMore(s: seq<nat>, take: bool, rest: seq<bool>)
    requires |s| == |rest| + 1
    ensures Count([take] + rest) == (if take then 1 else 0) + Count(rest)
    ensures Weight(s, [take] + rest) == (if take then s[0] else 0) + Weight(s[1..], rest)
  {
    assert ([take] + rest)[1..] == rest;
  }

  /** Some choice of exactly k sizes weighs as much as the k largest: the charge is the least upper bound. */
  lemma {:induction false} TopAttained(s: seq<nat>, k: nat) returns (mask: seq<bool>)
    requires k <= |s|
    ensures |mask| == |s| && Count(mask) == k && Weight(s, mask) == TopSum(Descending(s), k)
  {
    mask := [];
    if s != [] {
      DescendingSorts(s[1..]);
      if k > 0 {
        InsertTop(s[0], Descending(s[1..]), k);
      }
      if k > 0 && TopSum(Descending(s), k) == s[0] + TopSum(Descending(s[1..]), k - 1) {
        var rest := TopAttained(s[1..], k - 1);
        ChoiceOneMore(s, true, rest);
        mask := [true] + rest;
      } else {
        var rest := TopAttained(s[1..], k);
        ChoiceOneMore(s, false, rest);
        mask := [false] + rest;
      }
    }
  }

  // ----- documents -----

  /** How many segments to charge: all of them unless the oracle said fewer, and never none. */
  function Charged(surviving: Option<nat>, available: nat): nat {
    if surviving.None? || surviving.value >= available then available else Max(1, surviving.value)
  }

  function Docs(facts: TableFacts): seq<Option<nat>> {
    seq(|facts.segments|, i requires 0 <= i < |facts.segments| => facts.segments[i].docs)
  }

  function ConsumingDocs(facts: TableFacts): Option<nat> {
    if facts.consuming <= 0 then Some(0) else Total(facts.consumingRows)
  }

  function SurvivingDocs(facts: TableFacts, surviving: Option<nat>): Option<nat> {
    if !facts.complete || ConsumingDocs(facts).None? || !AllKnown(Docs(facts)) then None
    else
      var consuming, known := ConsumingDocs(facts).value, Known(Docs(facts));
      if known == [] then if facts.consuming != 0 then Some(consuming) else None
      else Some(TopSum(Descending(known), Charged(surviving, |known|)) + consuming)
  }

  // ----- bytes -----

  function Matched(columnBytes: seq<(string, nat)>, columns: set<string>): (bytes: seq<nat>)
    ensures |bytes| <= |columnBytes|
  {
    if columnBytes == [] then []
    else (if Lower(columnBytes[0].0) in columns then [columnBytes[0].1] else []) + Matched(columnBytes[1..], columns)
  }

  function Carried(segment: SegmentFact): set<string> {
    set i | 0 <= i < |segment.columnBytes| :: Lower(segment.columnBytes[i].0)
  }

  /** What one segment is charged for the referenced columns: those columns where it carries every one
    * the table resolved and matches any, its whole size otherwise. */
  function SegmentPrice(segment: SegmentFact, resolved: set<string>, columns: Option<set<string>>): Option<nat> {
    if columns.None? || (resolved != {} && !(resolved <= Carried(segment))) || Matched(segment.columnBytes, columns.value) == []
    then segment.totalBytes
    else Some(Sum(Matched(segment.columnBytes, columns.value)))
  }

  function Prices(facts: TableFacts, columns: Option<set<string>>): (prices: seq<Option<nat>>)
    ensures |prices| == |facts.segments|
  {
    seq(|facts.segments|, i requires 0 <= i < |facts.segments| => SegmentPrice(facts.segments[i], facts.columns, columns))
  }

  method PriceSegment(segment: SegmentFact, resolved: set<string>, columns: set<string>) returns (price: Option<nat>)
    ensures price == SegmentPrice(segment, resolved, Some(columns))
  {
    var entries := segment.columnBytes;
    if resolved != {} && !(resolved <= Carried(segment)) {
      return segment.totalBytes;
    }
    var total, matched := 0, false;
    for i := 0 to |entries|
      invariant Sum(Matched(entries, columns)) == total + Sum(Matched(entries[i..], columns))
      invariant matched ==> Matched(entries, columns) != []
      invariant !matched ==> Matched(entries, columns) == Matched(entries[i..], columns)
    {
      assert entries[i..][1..] == entries[i + 1..];
      if Lower(entries[i].0) in columns {
        assert Matched(entries[i..], columns) == [entries[i].1] + Matched(entries[i + 1..], columns);
        assert Matched(entries[i..], columns)[1..] == Matched(entries[i + 1..], columns);
        total, matched := total + entries[i].1, true;
      } else {
        assert Matched(entries[i..], columns) == Matched(entries[i + 1..], columns);
      }
    }
    price := if matched then Some(total) else segment.totalBytes;
  }

  method ColumnSizes(facts: TableFacts, columns: Option<set<string>>) returns (sizes: seq<Option<nat>>)
    ensures sizes == Prices(facts, columns)
  {
    if columns.None? {
      return seq(|facts.segments|, i requires 0 <= i < |facts.segments| => facts.segments[i].totalBytes);
    }
    sizes := [];
    for i := 0 to |facts.segments|
      invariant |sizes| == i && forall k :: 0 <= k < i ==> sizes[k] == SegmentPrice(facts.segments[k], facts.columns, columns)
    {
      var price := PriceSegment(facts.segments[i], facts.columns, columns.value);
      sizes := sizes + [price];
    }
  }

  /** A sealed segment's density: its bytes over its documents. */
  datatype Ratio = Ratio(bytes: nat, docs: nat)

  predicate Rated(segments: seq<SegmentFact>, sizes: seq<Option<nat>>, i: nat)
    requires |sizes| == |segments|
  {
    i < |segments| && segments[i].docs.Some? && segments[i].docs.value > 0 && sizes[i].Some?
  }

  predicate AtMost(a: Ratio, b: Ratio) { a.bytes * b.docs <= b.bytes * a.docs }

  function RatioAt(segments: seq<SegmentFact>, sizes: seq<Option<nat>>, i: nat): Ratio
    requires |sizes| == |segments| && Rated(segments, sizes, i)
  {
    Ratio(sizes[i].value, segments[i].docs.value)
  }

  /** The densest of the first n sealed segments that have documents. */
  function Worst(segments: seq<SegmentFact>, sizes: seq<Option<nat>>, n: nat): (worst: Option<Ratio>)
    requires |sizes| == |segments| && n <= |segments|
    ensures worst.Some? ==> worst.value.docs > 0
  {
    if n == 0 then None
    else
      var before := Worst(segments, sizes, n - 1);
      if !Rated(segments, sizes, n - 1) then before
      else
        var here := RatioAt(segments, sizes, n - 1);
        if before.None? || !AtMost(here, before.value) then Some(here) else before
  }

  method WorstRatio(segments: seq<SegmentFact>, sizes: seq<Option<nat>>) returns (worst: Option<Ratio>)
    requires |sizes| == |segments|
    ensures worst == Worst(segments, sizes, |segments|)
  {
    worst := None;
    for i := 0 to |segments|
      invariant worst == Worst(segments, sizes, i)
    {
      if !Rated(segments, sizes, i) {
        continue;
      }
      var here := RatioAt(segments, sizes, i);
      if worst.None? || here.bytes * worst.value.docs > worst.value.bytes * here.docs {
        worst := Some(here);
      }
    }
  }

  lemma Cancel(a: nat, b: nat, d: nat)
    requires d > 0 && a * d <= b * d
    ensures a <= b
  {
    if a > b {
      assert a * d >= b * d + d by {
        MulMonotone(b + 1, a, d, d);
      }
    }
  }

  lemma AtMostTransitive(a: Ratio, b: Ratio, c: Ratio)
    requires AtMost(a, b) && AtMost(b, c) && b.docs > 0
    ensures AtMost(a, c)
  {
    MulMonotone(a.bytes * b.docs, b.bytes * a.docs, c.docs, c.docs);
    MulMonotone(b.bytes * c.docs, c.bytes * b.docs, a.docs, a.docs);
    calc {
      (a.bytes * c.docs) * b.docs;
      (a.bytes * b.docs) * c.docs;
    <=
      (b.bytes * a.docs) * c.docs;
      (b.bytes * c.docs) * a.docs;
    <=
      (c.bytes * b.docs) * a.docs;
      (c.bytes * a.docs) * b.docs;
    }
    Cancel(a.bytes * c.docs, c.bytes * a.docs, b.docs);
  }

  /** The cross-multiplied comparison finds a true maximum: one of the densities, and none denser. */
  lemma {:induction false} WorstIsDensest(segments: seq<SegmentFact>, sizes: seq<Option<nat>>, n: nat)
    requires |sizes| == |segments| && n <= |segments|
    ensures Worst(segments, sizes, n).None? <==> forall i: nat :: i < n ==> !Rated(segments, sizes, i)
    ensures Worst(segments, sizes, n).Some? ==>
      exists i: nat :: i < n && Rated(segments, sizes, i) && RatioAt(segments, sizes, i) == Worst(segments, sizes, n).value
    ensures Worst(segments, sizes, n).Some? ==>
      forall i: nat :: i < n && Rated(segments, sizes, i) ==> AtMost(RatioAt(segments, sizes, i), Worst(segments, sizes, n).value)
  {
    if n > 0 {
      WorstIsDensest(segments, sizes, n - 1);
      var before, after := Worst(segments, sizes, n - 1), Worst(segments, sizes, n);
      if before.Some? && after != before {
        forall i: nat | i < n - 1 && Rated(segments, sizes, i) ensures AtMost(RatioAt(segments, sizes, i), after.value) {
          AtMostTransitive(RatioAt(segments, sizes, i), before.value, after.value);
        }
      }
    }
  }

  /** The ceiling of rows times a density. */
  function Projected(rows: nat, ratio: Ratio): nat
    requires ratio.docs > 0
  {
    (rows * ratio.bytes + ratio.docs - 1) / ratio.docs
  }

  lemma ProjectedIsCeiling(rows: nat, ratio: Ratio, bytes: nat)
    requires ratio.docs > 0
    ensures Projected(rows, ratio) <= bytes <==> rows * ratio.bytes <= bytes * ratio.docs
  {
    var n, d := rows * ratio.bytes, ratio.docs;
    var q := (n + d - 1) / d;
    assert q * d <= n + d - 1 < q * d + d;
    if q <= bytes {
      MulMonotone(q, bytes, d, d);
    } else {
      MulMonotone(bytes + 1, q, d, d);
      assert (bytes + 1) * d == bytes * d + d;
    }
  }

  /** A denser ratio projects at least as many bytes. */
  lemma ProjectedMonotone(rows: nat, low: Ratio, high: Ratio)
    requires low.docs > 0 && high.docs > 0 && AtMost(low, high)
    ensures Projected(rows, low) <= Projected(rows, high)
  {
    var bytes := Projected(rows, high);
    ProjectedIsCeiling(rows, high, bytes);
    ProjectedIsCeiling(rows, low, bytes);
    AtMostTransitive(Ratio(rows * low.bytes, low.docs), Ratio(rows * high.bytes, high.docs), Ratio(bytes, 1)) by {
      MulMonotone(low.bytes * high.docs, high.bytes * low.docs, rows, rows);
    }
  }

  function ProjectedAll(rows: seq<nat>, ratio: Ratio): (bytes: seq<nat>)
    requires ratio.docs > 0
    ensures |bytes| == |rows|
  {
    seq(|rows|, i requires 0 <= i < |rows| => Projected(rows[i], ratio))
  }

  /** Unknown thresholds, an uncounted sealed segment or no density at all leave nothing to project from;
    * otherwise every consuming segment is charged its own rows at the worst density. */
  function ConsumingBytes(facts: TableFacts, sizes: seq<Option<nat>>): Option<nat>
    requires |sizes| == |facts.segments|
  {
    if facts.consuming <= 0 then Some(0)
    else if !AllKnown(facts.consumingRows) || !AllKnown(Docs(facts)) then None
    else
      match Worst(facts.segments, sizes, |facts.segments|)
      case None => None
      case Some(worst) => Some(Sum(ProjectedAll(Known(facts.consumingRows), worst)))
  }

  /** What is charged for the consuming segments is no less than projecting all of them at any one sealed
    * segment's density. */
  lemma ProjectionCoversEveryRatio(facts: TableFacts, sizes: seq<Option<nat>>, i: nat)
    requires |sizes| == |facts.segments| && Rated(facts.segments, sizes, i)
    requires facts.consuming > 0 && ConsumingBytes(facts, sizes).Some?
    ensures Sum(ProjectedAll(Known(facts.consumingRows), RatioAt(facts.segments, sizes, i))) <= ConsumingBytes(facts, sizes).value
  {
    WorstIsDensest(facts.segments, sizes, |facts.segments|);
    var rows, ratio, worst := Known(facts.consumingRows), RatioAt(facts.segments, sizes, i), Worst(facts.segments, sizes, |facts.segments|).value;
    forall j | 0 <= j < |rows| ensures ProjectedAll(rows, ratio)[j] <= ProjectedAll(rows, worst)[j] {
      ProjectedMonotone(rows[j], ratio, worst);
    }
    SumMonotone(ProjectedAll(rows, ratio), ProjectedAll(rows, worst));
  }

  method ProjectConsumingBytes(facts: TableFacts, sizes: seq<Option<nat>>) returns (bytes: Option<nat>)
    requires |sizes| == |facts.segments|
    ensures bytes == ConsumingBytes(facts, sizes)
  {
    if facts.consuming <= 0 {
      return Some(0);
    }
    if !AllKnown(facts.consumingRows) || !AllKnown(Docs(facts)) {
      return None;
    }
    var worst := WorstRatio(facts.segments, sizes);
    if worst.None? {
      return None;
    }
    bytes := Some(Sum(ProjectedAll(Known(facts.consumingRows), worst.value)));
  }

  function SurvivingBytes(facts: TableFacts, surviving: Option<nat>, columns: Option<set<string>>): Option<nat> {
    var sizes := Prices(facts, columns);
    if !facts.complete || !AllKnown(sizes) || ConsumingBytes(facts, sizes).None? || sizes == [] then None
    else Some(TopSum(Descending(Known(sizes)), Charged(surviving, |sizes|)) + ConsumingBytes(facts, sizes).value)
  }

  method ChargeBytes(facts: TableFacts, surviving: Option<nat>, columns: Option<set<string>>) returns (bytes: Option<nat>)
    ensures bytes == SurvivingBytes(facts, surviving, columns)
  {
    if !facts.complete {
      return None;
    }
    var sizes := ColumnSizes(facts, columns);
    if !AllKnown(sizes) {
      return None;
    }
    var consuming := ProjectConsumingBytes(facts, sizes);
    if consuming.None? || sizes == [] {
      return None;
    }
    bytes := Some(TopSum(Descending(Known(sizes)), Charged(surviving, |sizes|)) + consuming.value);
  }

  // ----- the quote -----

  datatype CostEstimate = CostEstimate(scannedBytes: Option<nat>, rowEstimate: Option<nat>, maxIntermediateRows: Option<nat>, low: bool)

  function DocParts(tables: seq<(TableFacts, Option<nat>)>): (parts: seq<Option<nat>>)
    ensures |parts| == |tables|
  {
    seq(|tables|, i requires 0 <= i < |tables| => SurvivingDocs(tables[i].0, tables[i].1))
  }

  function ByteParts(tables: seq<(TableFacts, Option<nat>)>, columns: Option<set<string>>): (parts: seq<Option<nat>>)
    ensures |parts| == |tables|
  {
    seq(|tables|, i requires 0 <= i < |tables| => SurvivingBytes(tables[i].0, tables[i].1, columns))
  }

  /** One estimate over every table read: each dimension whole, or not at all. */
  function QuoteOf(tables: seq<(TableFacts, Option<nat>)>, columns: Option<set<string>>, widest: Option<nat>): CostEstimate {
    if tables == [] then CostEstimate(None, None, widest, true)
    else
      var bytes := Total(ByteParts(tables, columns));
      CostEstimate(bytes, Total(DocParts(tables)), widest, bytes.None?)
  }

  method MakeQuote(tables: seq<(TableFacts, Option<nat>)>, columns: Option<set<string>>, widest: Option<nat>)
    returns (estimate: CostEstimate)
    ensures estimate == QuoteOf(tables, columns, widest)
  {
    if tables == [] {
      return CostEstimate(None, None, widest, true);
    }
    var rows := SumParts(DocParts(tables));
    var byteParts: seq<Option<nat>> := [];
    for i := 0 to |tables|
      invariant |byteParts| == i && forall k :: 0 <= k < i ==> byteParts[k] == SurvivingBytes(tables[k].0, tables[k].1, columns)
    {
      var part := ChargeBytes(tables[i].0, tables[i].1, columns);
      byteParts := byteParts + [part];
    }
    assert byteParts == ByteParts(tables, columns);
    var bytes := SumParts(byteParts);
    estimate := CostEstimate(bytes, rows, widest, bytes.None?);
  }
}
