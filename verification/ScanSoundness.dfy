/** The quote of one table is never below what a scan of it reads. */
module ScanSoundness {
  import opened Prelude
  import opened Quote

  /** One sealed segment as it really is: its rows, and every column with its bytes. */
  datatype StoredSegment = StoredSegment(docs: nat, columns: seq<(string, nat)>)

  /** One read of a table: which sealed segments survived the predicate, which columns were read, and what
    * each consuming segment held at that moment. */
  datatype Scan = Scan(sealed: seq<bool>, touched: set<string>, held: seq<nat>, heldBytes: seq<nat>)

  function Bytes(columns: seq<(string, nat)>): nat {
    if columns == [] then 0 else columns[0].1 + Bytes(columns[1..])
  }

  /** The bytes of the columns a scan touches. */
  function TouchedBytes(columns: seq<(string, nat)>, touched: set<string>): nat {
    if columns == [] then 0
    else (if columns[0].0 in touched then columns[0].1 else 0) + TouchedBytes(columns[1..], touched)
  }

  /** The columns a metadata answer filtered to `listed` carries. */
  function ListedColumns(columns: seq<(string, nat)>, listed: set<string>): seq<(string, nat)> {
    if columns == [] then []
    else (if columns[0].0 in listed then [columns[0]] else []) + ListedColumns(columns[1..], listed)
  }

  /** The report describes the segment's bytes: it lists some of the columns at their real sizes, its whole
    * size bounds them all, and where the schema resolved any referenced column it resolved all the table has. */
  ghost predicate Describes(fact: SegmentFact, stored: StoredSegment, listed: set<string>, resolved: set<string>,
                            columns: Option<set<string>>) {
    && fact.columnBytes == ListedColumns(stored.columns, listed)
    && (fact.totalBytes.Some? ==> Bytes(stored.columns) <= fact.totalBytes.value)
    && OneSpelling(stored.columns)
    && (columns.Some? && resolved != {} ==> forall i :: 0 <= i < |stored.columns| && Lower(stored.columns[i].0) in columns.value ==>
          Lower(stored.columns[i].0) in resolved)
  }

  /** The bytes of the referenced columns the report leaves out. */
  function HiddenBytes(columns: seq<(string, nat)>, listed: set<string>, names: set<string>): nat {
    if columns == [] then 0
    else (if Lower(columns[0].0) in names && columns[0].0 !in listed then columns[0].1 else 0) + HiddenBytes(columns[1..], listed, names)
  }

  /** Where no column was resolved, the report lists none of the referenced columns or leaves no bytes of
    * theirs out. Otherwise it is for the schema to say what is missing. */
  ghost predicate NothingHidden(stored: StoredSegment, listed: set<string>, resolved: set<string>, columns: Option<set<string>>) {
    columns.Some? && resolved == {} ==>
      Matched(ListedColumns(stored.columns, listed), columns.value) == [] || HiddenBytes(stored.columns, listed, columns.value) == 0
  }

  /** No two columns differ only in case. */
  ghost predicate OneSpelling(columns: seq<(string, nat)>) {
    forall i, j :: 0 <= i < |columns| && 0 <= j < |columns| && Lower(columns[i].0) == Lower(columns[j].0)
      ==> columns[i].0 == columns[j].0
  }

  /** A scan reads referenced columns only. */
  ghost predicate TouchesReferenced(touched: set<string>, columns: Option<set<string>>) {
    columns.Some? ==> forall name :: name in touched ==> Lower(name) in columns.value
  }

  lemma {:induction false} TouchedAtMostAll(columns: seq<(string, nat)>, touched: set<string>)
    ensures TouchedBytes(columns, touched) <= Bytes(columns)
  {
    if columns != [] {
      TouchedAtMostAll(columns[1..], touched);
    }
  }

  /** Touched columns are listed ones or hidden ones. */
  lemma {:induction false} TouchedAtMostListed(columns: seq<(string, nat)>, touched: set<string>, listed: set<string>, names: set<string>)
    requires forall name :: name in touched ==> Lower(name) in names
    ensures TouchedBytes(columns, touched) <= Sum(Matched(ListedColumns(columns, listed), names)) + HiddenBytes(columns, listed, names)
  {
    if columns != [] {
      TouchedAtMostListed(columns[1..], touched, listed, names);
      MatchedStep(columns, listed, names);
    }
  }

  /** Touching every referenced column touches exactly those. */
  lemma {:induction false} AllTouched(columns: seq<(string, nat)>, touched: set<string>, listed: set<string>, names: set<string>)
    requires forall i :: 0 <= i < |columns| ==> (columns[i].0 in touched <==> Lower(columns[i].0) in names)
    ensures TouchedBytes(columns, touched) == Sum(Matched(ListedColumns(columns, listed), names)) + HiddenBytes(columns, listed, names)
  {
    if columns != [] {
      forall i | 0 <= i < |columns[1..]| ensures columns[1..][i].0 in touched <==> Lower(columns[1..][i].0) in names {
        assert columns[1..][i] == columns[1 + i];
      }
      AllTouched(columns[1..], touched, listed, names);
      MatchedStep(columns, listed, names);
    }
  }

  lemma MatchedStep(columns: seq<(string, nat)>, listed: set<string>, names: set<string>)
    requires columns != []
    ensures Sum(Matched(ListedColumns(columns, listed), names))
         == (if columns[0].0 in listed && Lower(columns[0].0) in names then columns[0].1 else 0)
            + Sum(Matched(ListedColumns(columns[1..], listed), names))
  {
    var rest := ListedColumns(columns[1..], listed);
    if columns[0].0 in listed {
      assert ListedColumns(columns, listed) == [columns[0]] + rest && ([columns[0]] + rest)[1..] == rest;
      SumAppend(if Lower(columns[0].0) in names then [columns[0].1] else [], Matched(rest, names));
    } else {
      assert ListedColumns(columns, listed) == rest;
    }
  }

  lemma {:induction false} NoneHidden(columns: seq<(string, nat)>, listed: set<string>, names: set<string>)
    requires forall i :: 0 <= i < |columns| && Lower(columns[i].0) in names ==> columns[i].0 in listed
    ensures HiddenBytes(columns, listed, names) == 0
  {
    if columns != [] {
      forall i | 0 <= i < |columns[1..]| && Lower(columns[1..][i].0) in names ensures columns[1..][i].0 in listed {
        assert columns[1..][i] == columns[1 + i];
      }
      NoneHidden(columns[1..], listed, names);
    }
  }

  lemma {:induction false} ListedOrigin(columns: seq<(string, nat)>, listed: set<string>, k: nat) returns (i: nat)
    requires k < |ListedColumns(columns, listed)|
    ensures i < |columns| && columns[i] == ListedColumns(columns, listed)[k] && columns[i].0 in listed
  {
    if columns[0].0 in listed && k == 0 {
      i := 0;
    } else {
      i := ListedOrigin(columns[1..], listed, if columns[0].0 in listed then k - 1 else k);
      i := i + 1;
    }
  }

  /** Is the segment charged by its listed columns rather than whole? */
  predicate ByColumn(fact: SegmentFact, resolved: set<string>, columns: Option<set<string>>) {
    columns.Some? && (resolved == {} || resolved <= Carried(fact)) && Matched(fact.columnBytes, columns.value) != []
  }

  /** A segment whose resolved columns are all listed hides none of the referenced ones. */
  lemma ResolvedHidesNothing(fact: SegmentFact, stored: StoredSegment, listed: set<string>, resolved: set<string>, columns: Option<set<string>>)
    requires Describes(fact, stored, listed, resolved, columns) && ByColumn(fact, resolved, columns) && resolved != {}
    ensures HiddenBytes(stored.columns, listed, columns.value) == 0
  {
    forall i | 0 <= i < |stored.columns| && Lower(stored.columns[i].0) in columns.value ensures stored.columns[i].0 in listed {
      var k :| 0 <= k < |fact.columnBytes| && Lower(fact.columnBytes[k].0) == Lower(stored.columns[i].0);
      var j := ListedOrigin(stored.columns, listed, k);
    }
    NoneHidden(stored.columns, listed, columns.value);
  }

  /** The names of the referenced columns the segment stores. */
  function Referenced(columns: seq<(string, nat)>, names: set<string>): set<string> {
    set i | 0 <= i < |columns| && Lower(columns[i].0) in names :: columns[i].0
  }

  /** A segment's price covers the bytes of every scan of the referenced columns exactly when nothing is
    * hidden: the schema resolved some column, or the report lists none of the referenced ones, or it leaves
    * none of their bytes out. */
  lemma PriceCoversTouchedIff(fact: SegmentFact, stored: StoredSegment, listed: set<string>, resolved: set<string>, columns: Option<set<string>>)
    requires Describes(fact, stored, listed, resolved, columns) && SegmentPrice(fact, resolved, columns).Some?
    ensures (forall touched :: TouchesReferenced(touched, columns) ==>
               TouchedBytes(stored.columns, touched) <= SegmentPrice(fact, resolved, columns).value)
        <==> NothingHidden(stored, listed, resolved, columns)
  {
    if ByColumn(fact, resolved, columns) {
      var all := Referenced(stored.columns, columns.value);
      AllTouched(stored.columns, all, listed, columns.value);
      assert TouchesReferenced(all, columns);
      if resolved != {} {
        ResolvedHidesNothing(fact, stored, listed, resolved, columns);
      }
    }
    if NothingHidden(stored, listed, resolved, columns) {
      forall touched | TouchesReferenced(touched, columns)
        ensures TouchedBytes(stored.columns, touched) <= SegmentPrice(fact, resolved, columns).value
      {
        TouchedAtMostAll(stored.columns, touched);
        if ByColumn(fact, resolved, columns) {
          TouchedAtMostListed(stored.columns, touched, listed, columns.value);
        }
      }
    }
  }

  function TwoColumns(a: nat, b: nat): seq<(string, nat)> { [("a", a), ("b", b)] }

  lemma OneListed(a: nat, b: nat)
    ensures ListedColumns(TwoColumns(a, b), {"a"}) == [("a", a)] && HiddenBytes(TwoColumns(a, b), {"a"}, {"a", "b"}) == b
  {
    var columns := TwoColumns(a, b);
    var rest := columns[1..];
    assert rest == [("b", b)] && rest[1..] == [];
    assert Lower("a") == "a" && Lower("b") == "b";
    assert "a"[0] != "b"[0];
    assert ListedColumns(rest, {"a"}) == [] && HiddenBytes(rest, {"a"}, {"a", "b"}) == b;
  }

  lemma OneMatched(a: nat)
    ensures Matched([("a", a)], {"a", "b"}) == [a] && Sum([a]) == a
  {
    var listed: seq<(string, nat)> := [("a", a)];
    assert listed[1..] == [] && Lower("a") == "a";
    SumAppend([a], []);
  }

  /** With no schema to resolve against and one of two referenced columns listed, that one alone is charged
    * where both are read: 10 bytes for 1010, say. */
  lemma UnlistedColumnIsNotCharged(a: nat, b: nat)
    ensures var stored, fact := StoredSegment(1, TwoColumns(a, b)), SegmentFact(Some(1), Some(Bytes(TwoColumns(a, b))), [("a", a)]);
      && Describes(fact, stored, {"a"}, {}, Some({"a", "b"})) && TouchesReferenced({"a", "b"}, Some({"a", "b"}))
      && SegmentPrice(fact, {}, Some({"a", "b"})) == Some(a) && TouchedBytes(stored.columns, {"a", "b"}) == a + b
  {
    OneListed(a, b);
    OneMatched(a);
    assert Lower("a") == "a" && Lower("b") == "b";
    assert OneSpelling(TwoColumns(a, b));
    AllTouched(TwoColumns(a, b), {"a", "b"}, {"a"}, {"a", "b"});
  }

  /** A request without a column list gets no column sizes back, so where nothing was resolved nothing is listed. */
  predicate ListsRequested(listed: set<string>, resolved: set<string>) { resolved == {} ==> listed == {} }

  /** Reports asked for that way hide nothing: the input that is undercharged arises only for facts built
    * some other way. */
  lemma RequestedHidesNothing(stored: StoredSegment, listed: set<string>, resolved: set<string>, columns: Option<set<string>>)
    requires ListsRequested(listed, resolved)
    ensures NothingHidden(stored, listed, resolved, columns)
  {
    if resolved == {} {
      NoneListed(stored.columns);
    }
  }

  lemma {:induction false} NoneListed(columns: seq<(string, nat)>)
    ensures ListedColumns(columns, {}) == []
  {
    if columns != [] {
      NoneListed(columns[1..]);
    }
  }

  // ----- the rows of one table -----

  /** The facts count the stored rows: no segment holds more documents than reported, and every consuming
    * segment has a threshold, known or not. */
  ghost predicate CountsRows(facts: TableFacts, stored: seq<StoredSegment>) {
    && |stored| == |facts.segments|
    && |facts.consumingRows| == Max(0, facts.consuming)
    && forall i :: 0 <= i < |stored| && facts.segments[i].docs.Some? ==> stored[i].docs <= facts.segments[i].docs.value
  }

  /** A scan of this table, whatever its predicate prunes: every consuming segment is within its threshold. */
  ghost predicate IsScanOf(facts: TableFacts, scan: Scan) {
    && |scan.sealed| == |facts.segments| && |scan.held| == |facts.consumingRows|
    && forall j :: 0 <= j < |scan.held| && facts.consumingRows[j].Some? ==> scan.held[j] <= facts.consumingRows[j].value
  }

  /** A scan the facts and the pruning oracle allow. */
  ghost predicate Allowed(facts: TableFacts, surviving: Option<nat>, scan: Scan) {
    IsScanOf(facts, scan) && Count(scan.sealed) <= Charged(surviving, |facts.segments|)
  }

  // ----- the bytes of one table -----

  /** The facts describe the stored bytes, segment by segment; where nothing is stored there is nothing to describe. */
  ghost predicate DescribesBytes(facts: TableFacts, stored: seq<StoredSegment>, columns: Option<set<string>>) {
    |stored| == |facts.segments| && forall i :: 0 <= i < |stored| ==> stored[i].columns == [] || DescribedAt(facts, stored, columns, i)
  }

  ghost predicate DescribedAt(facts: TableFacts, stored: seq<StoredSegment>, columns: Option<set<string>>, i: nat)
    requires i < |stored| == |facts.segments|
  {
    exists listed ::
      Describes(facts.segments[i], stored[i], listed, facts.columns, columns) && NothingHidden(stored[i], listed, facts.columns, columns)
  }

  /** The facts describe the stored bytes as the reports to the adapter's own requests do. */
  ghost predicate ReportsBytes(facts: TableFacts, stored: seq<StoredSegment>, columns: Option<set<string>>) {
    |stored| == |facts.segments| && forall i :: 0 <= i < |stored| ==> stored[i].columns == [] || ReportedAt(facts, stored, columns, i)
  }

  ghost predicate ReportedAt(facts: TableFacts, stored: seq<StoredSegment>, columns: Option<set<string>>, i: nat)
    requires i < |stored| == |facts.segments|
  {
    exists listed ::
      Describes(facts.segments[i], stored[i], listed, facts.columns, columns) && ListsRequested(listed, facts.columns)
  }

  lemma ReportedIsDescribed(facts: TableFacts, stored: seq<StoredSegment>, columns: Option<set<string>>)
    requires ReportsBytes(facts, stored, columns)
    ensures DescribesBytes(facts, stored, columns)
  {
    forall i | 0 <= i < |stored| && stored[i].columns != [] ensures DescribedAt(facts, stored, columns, i) {
      assert ReportedAt(facts, stored, columns, i);
      var listed :| Describes(facts.segments[i], stored[i], listed, facts.columns, columns) && ListsRequested(listed, facts.columns);
      RequestedHidesNothing(stored[i], listed, facts.columns, columns);
    }
  }

  /** A consuming segment is no denser than some sealed segment of the same table. */
  ghost predicate NoDenser(facts: TableFacts, sizes: seq<Option<nat>>, bytes: nat, rows: nat)
    requires |sizes| == |facts.segments|
  {
    exists i: nat :: Rated(facts.segments, sizes, i) && bytes * facts.segments[i].docs.value <= sizes[i].value * rows
  }

  /** The scan's bytes are such as the projection is built for: referenced columns only, and every consuming
    * segment no denser than some sealed one. */
  ghost predicate ReadsBytesOf(facts: TableFacts, columns: Option<set<string>>, scan: Scan) {
    && TouchesReferenced(scan.touched, columns)
    && |scan.heldBytes| == |scan.held|
    && forall j :: 0 <= j < |scan.held| ==> NoDenser(facts, Prices(facts, columns), scan.heldBytes[j], scan.held[j])
  }

  function StoredDocs(stored: seq<StoredSegment>): (docs: seq<nat>)
    ensures |docs| == |stored|
  {
    seq(|stored|, i requires 0 <= i < |stored| => stored[i].docs)
  }

  function StoredBytes(stored: seq<StoredSegment>, touched: set<string>): (bytes: seq<nat>)
    ensures |bytes| == |stored|
  {
    seq(|stored|, i requires 0 <= i < |stored| => TouchedBytes(stored[i].columns, touched))
  }

  function RowsRead(stored: seq<StoredSegment>, scan: Scan): nat
    requires |scan.sealed| == |stored|
  {
    Weight(StoredDocs(stored), scan.sealed) + Sum(scan.held)
  }

  function BytesRead(stored: seq<StoredSegment>, scan: Scan): nat
    requires |scan.sealed| == |stored|
  {
    Weight(StoredBytes(stored, scan.touched), scan.sealed) + Sum(scan.heldBytes)
  }

  lemma {:induction false} WeightMonotone(a: seq<nat>, b: seq<nat>, mask: seq<bool>)
    requires |a| == |b| == |mask| && forall i :: 0 <= i < |a| ==> a[i] <= b[i]
    ensures Weight(a, mask) <= Weight(b, mask)
  {
    if a != [] {
      forall i | 0 <= i < |a[1..]| ensures a[1..][i] <= b[1..][i] {
        assert a[1 + i] <= b[1 + i];
      }
      WeightMonotone(a[1..], b[1..], mask[1..]);
    }
  }

  /** The quoted rows cover every allowed scan, whatever its bytes. */
  lemma RowsCovered(facts: TableFacts, stored: seq<StoredSegment>, surviving: Option<nat>, scan: Scan)
    requires CountsRows(facts, stored) && Allowed(facts, surviving, scan)
    requires SurvivingDocs(facts, surviving).Some?
    ensures RowsRead(stored, scan) <= SurvivingDocs(facts, surviving).value
  {
    var known := Known(Docs(facts));
    forall i | 0 <= i < |stored| ensures StoredDocs(stored)[i] <= known[i] {
      assert Docs(facts)[i].Some?;
    }
    WeightMonotone(StoredDocs(stored), known, scan.sealed);
    TopDominates(known, scan.sealed, Charged(surviving, |known|));
    if facts.consuming > 0 {
      SumMonotone(scan.held, Known(facts.consumingRows));
    }
  }

  /** A consuming segment within its row threshold and some sealed density fits its projection. */
  lemma ProjectionCovers(facts: TableFacts, sizes: seq<Option<nat>>, bytes: nat, rows: nat, threshold: nat)
    requires |sizes| == |facts.segments| && NoDenser(facts, sizes, bytes, rows) && rows <= threshold
    ensures Worst(facts.segments, sizes, |facts.segments|).Some?
    ensures bytes <= Projected(threshold, Worst(facts.segments, sizes, |facts.segments|).value)
  {
    WorstIsDensest(facts.segments, sizes, |facts.segments|);
    var i: nat :| Rated(facts.segments, sizes, i) && bytes * facts.segments[i].docs.value <= sizes[i].value * rows;
    var ratio, worst := RatioAt(facts.segments, sizes, i), Worst(facts.segments, sizes, |facts.segments|).value;
    ProjectedMonotone(threshold, ratio, worst);
    var projected := Projected(threshold, ratio);
    ProjectedIsCeiling(threshold, ratio, projected);
    MulMonotone(sizes[i].value, sizes[i].value, rows, threshold);
    Cancel(bytes, projected, ratio.docs);
  }

  /** The quoted bytes cover every allowed scan, the consuming projection included. */
  lemma BytesCovered(facts: TableFacts, stored: seq<StoredSegment>, surviving: Option<nat>, columns: Option<set<string>>, scan: Scan)
    requires CountsRows(facts, stored) && Allowed(facts, surviving, scan)
    requires DescribesBytes(facts, stored, columns) && ReadsBytesOf(facts, columns, scan)
    requires SurvivingBytes(facts, surviving, columns).Some?
    ensures BytesRead(stored, scan) <= SurvivingBytes(facts, surviving, columns).value
  {
    var prices := Prices(facts, columns);
    forall i | 0 <= i < |stored| ensures StoredBytes(stored, scan.touched)[i] <= Known(prices)[i] {
      assert prices[i].Some?;
      if stored[i].columns != [] {
        assert DescribedAt(facts, stored, columns, i);
        var listed :| Describes(facts.segments[i], stored[i], listed, facts.columns, columns)
          && NothingHidden(stored[i], listed, facts.columns, columns);
        PriceCoversTouchedIff(facts.segments[i], stored[i], listed, facts.columns, columns);
      }
    }
    WeightMonotone(StoredBytes(stored, scan.touched), Known(prices), scan.sealed);
    TopDominates(Known(prices), scan.sealed, Charged(surviving, |prices|));
    if facts.consuming > 0 {
      var worst := Worst(facts.segments, prices, |facts.segments|).value;
      var projected := ProjectedAll(Known(facts.consumingRows), worst);
      forall j | 0 <= j < |scan.heldBytes| ensures scan.heldBytes[j] <= projected[j] {
        ProjectionCovers(facts, prices, scan.heldBytes[j], scan.held[j], facts.consumingRows[j].value);
      }
      SumMonotone(scan.heldBytes, projected);
    }
  }
}
