/** From a table's documents to its facts (table_facts in adapters/pinot/metadata.py), and what the facts then say
  * of the table itself. */
module TableReports {
  import opened Prelude
  import opened MetadataFetch
  import opened Quote
  import opened ScanSoundness
  import CatalogKeys

  // ----- one fact per body -----

  const CONSUMING_CRC: int := -9223372036854775808

  function NonNegative(value: Option<int>): Option<nat> {
    if value.Some? && value.value >= 0 then Some(value.value) else None
  }

  function ReportedSize(sizes: map<string, int>, name: string): Option<int> { if name in sizes then Some(sizes[name]) else None }

  /** All four markers of a consuming segment together. */
  predicate IsConsuming(body: Entry, reported: Option<int>)
    requires body.Body?
  {
    body.totalDocs == Some(0) && body.columns.None? && body.crc == Some(CONSUMING_CRC) && reported == Some(-1)
  }

  /** Bodies that make a fact: named, and not consuming. */
  predicate Priced(doc: Document, sizes: map<string, int>, key: string) {
    && key in doc && doc[key].Body?
    && var name := CatalogKeys.EntryName(key, doc[key]);
    name != "" && !IsConsuming(doc[key], ReportedSize(sizes, name))
  }

  /** The place a column already has in the totals, or one past their end. */
  function PlaceOf(totals: seq<(string, nat)>, name: string): (at: nat)
    ensures at <= |totals|
    ensures at < |totals| ==> totals[at].0 == name
  {
    if totals == [] || totals[0].0 == name then 0 else 1 + PlaceOf(totals[1..], name)
  }

  /** A column's bytes under its name; a later entry of the same name replaces an earlier one in its place. */
  function Totalled(totals: seq<(string, nat)>, name: string, bytes: nat): seq<(string, nat)> {
    var at := PlaceOf(totals, name);
    if at < |totals| then totals[at := (name, bytes)] else totals + [(name, bytes)]
  }

  function ColumnBytes(columns: seq<ColumnMeta>): seq<(string, nat)> {
    if columns == [] then []
    else
      var before, last := ColumnBytes(columns[..|columns| - 1]), columns[|columns| - 1];
      if last.name.None? || last.name.value == "" || last.indexBytes.None? then before
      else Totalled(before, last.name.value, last.indexBytes.value)
  }

  function FactOf(key: string, body: Entry, sizes: map<string, int>): SegmentFact
    requires body.Body?
  {
    SegmentFact(NonNegative(body.totalDocs), NonNegative(ReportedSize(sizes, CatalogKeys.EntryName(key, body))),
                if body.columns.Some? then ColumnBytes(body.columns.value) else [])
  }

  /** The keys of the bodies that make a fact, each once, in the order of the facts. */
  ghost predicate ListsPriced(doc: Document, sizes: map<string, int>, keys: seq<string>) {
    Distinct(keys) && forall key :: key in keys <==> Priced(doc, sizes, key)
  }

  ghost predicate FactsOfKeys(doc: Document, sizes: map<string, int>, keys: seq<string>, facts: seq<SegmentFact>) {
    |facts| == |keys| && forall i :: 0 <= i < |keys| ==>
      keys[i] in doc && doc[keys[i]].Body? && facts[i] == FactOf(keys[i], doc[keys[i]], sizes)
  }

  ghost predicate AreFacts(doc: Document, sizes: map<string, int>, keys: seq<string>, facts: seq<SegmentFact>) {
    ListsPriced(doc, sizes, keys) && FactsOfKeys(doc, sizes, keys, facts)
  }

  function DocumentOf(doc: Option<Document>): Document { if doc.Some? then doc.value else map[] }

  method ReadColumnBytes(columns: seq<ColumnMeta>) returns (totals: seq<(string, nat)>)
    ensures totals == ColumnBytes(columns)
  {
    totals := [];
    for i := 0 to |columns|
      invariant totals == ColumnBytes(columns[..i])
    {
      assert columns[..i + 1][..i] == columns[..i];
      if columns[i].name.None? || columns[i].name.value == "" || columns[i].indexBytes.None? {
        continue;
      }
      totals := Totalled(totals, columns[i].name.value, columns[i].indexBytes.value);
    }
    assert columns[..|columns|] == columns;
  }

  /** One fact for every body that makes one. */
  method SegmentFacts(doc: Document, sizes: map<string, int>) returns (facts: seq<SegmentFact>, ghost keys: seq<string>)
    ensures AreFacts(doc, sizes, keys, facts)
  {
    facts, keys := [], [];
    var left := doc.Keys;
    while left != {}
      invariant left <= doc.Keys && Distinct(keys) && FactsOfKeys(doc, sizes, keys, facts)
      invariant forall key :: key in keys <==> key !in left && Priced(doc, sizes, key)
      decreases |left|
    {
      var key :| key in left;
      left := left - {key};
      if Priced(doc, sizes, key) {
        facts, keys := facts + [FactOf(key, doc[key], sizes)], keys + [key];
      }
    }
  }

  /** What the facts of a table are, from its metadata document and its size report; the consuming half is read
    * from other documents. */
  ghost predicate AreTableFacts(doc: Option<Document>, sizes: map<string, int>, keys: seq<string>, facts: TableFacts) {
    AreFacts(DocumentOf(doc), sizes, keys, facts.segments) && facts.complete == IsComplete(sizes, doc)
  }

  method BuildFacts(doc: Option<Document>, sizes: map<string, int>, columns: set<string>, consuming: int, consumingRows: seq<Option<nat>>)
    returns (facts: TableFacts, ghost keys: seq<string>)
    ensures AreTableFacts(doc, sizes, keys, facts)
    ensures facts.columns == columns && facts.consuming == consuming && facts.consumingRows == consumingRows
  {
    var segments;
    segments, keys := SegmentFacts(DocumentOf(doc), sizes);
    facts := TableFacts(segments, columns, consuming, consumingRows, MissingSealed(sizes, doc) == {});
  }

  // ----- the table itself -----

  /** A sealed segment as it really is. */
  datatype Sealed = Sealed(name: string, segment: StoredSegment)

  /** The body speaks for this segment: it states its name, or states none and is listed under it. */
  ghost predicate GoesBy(key: string, body: Entry, name: string) {
    && name != "" && body != NullBody
    && (body.segmentName == Some(name) || (key == name && (body.segmentName == None || body.segmentName == Some(""))))
  }

  ghost predicate SpokenFor(doc: Option<Document>, name: string) {
    exists key :: doc.Some? && key in doc.value && GoesBy(key, doc.value[key], name)
  }

  // ----- what a fact is, read off the documents -----

  /** The body reports no documents, no columns, the consuming CRC, and a size of -1. */
  ghost predicate LooksConsuming(body: Entry, sizes: map<string, int>, name: string) {
    body != NullBody && body.totalDocs == Some(0) && body.columns == None && body.crc == Some(-9223372036854775808)
    && name in sizes && sizes[name] == -1
  }

  /** A body makes a fact exactly when it speaks for some segment and does not look consuming. */
  lemma PricedIff(doc: Document, sizes: map<string, int>, key: string)
    ensures Priced(doc, sizes, key) <==>
      key in doc && exists name :: GoesBy(key, doc[key], name) && !LooksConsuming(doc[key], sizes, name)
  {
    if Priced(doc, sizes, key) {
      assert GoesBy(key, doc[key], CatalogKeys.EntryName(key, doc[key]));
    }
  }

  /** Entry i names the column and carries its index bytes. */
  ghost predicate CarriesAt(columns: seq<ColumnMeta>, i: nat, name: string, bytes: nat)
    requires i < |columns|
  {
    name != "" && columns[i].name == Some(name) && columns[i].indexBytes == Some(bytes)
  }

  /** The last entry of the column that carries bytes carries these. */
  ghost predicate Carries(columns: seq<ColumnMeta>, name: string, bytes: nat) {
    exists i :: 0 <= i < |columns| && CarriesAt(columns, i, name, bytes) && NoneAfter(columns, i, name)
  }

  ghost predicate NoneAfter(columns: seq<ColumnMeta>, i: nat, name: string) {
    forall j :: i < j < |columns| ==> columns[j].name != Some(name) || columns[j].indexBytes == None
  }

  ghost predicate NamesOnce(totals: seq<(string, nat)>) {
    forall i, j :: 0 <= i < j < |totals| ==> totals[i].0 != totals[j].0
  }

  lemma {:induction false} PlaceOfIs(totals: seq<(string, nat)>, name: string)
    ensures PlaceOf(totals, name) == |totals| ==> forall i :: 0 <= i < |totals| ==> totals[i].0 != name
  {
    if totals != [] && totals[0].0 != name {
      PlaceOfIs(totals[1..], name);
      if PlaceOf(totals, name) == |totals| {
        forall i | 0 <= i < |totals| ensures totals[i].0 != name {
          assert i > 0 ==> totals[1..][i - 1] == totals[i];
        }
      }
    }
  }

  lemma TotalledIs(totals: seq<(string, nat)>, name: string, bytes: nat, other: string, entry: nat)
    requires NamesOnce(totals)
    ensures NamesOnce(Totalled(totals, name, bytes))
    ensures (other, entry) in Totalled(totals, name, bytes) <==> if other == name then entry == bytes else (other, entry) in totals
  {
    PlaceOfIs(totals, name);
    var at, after := PlaceOf(totals, name), Totalled(totals, name, bytes);
    assert after[at] == (name, bytes);
    if (other, entry) in totals && other != name {
      var i :| 0 <= i < |totals| && totals[i] == (other, entry);
      assert after[i] == (other, entry);
    }
  }

  /** The listed bytes of a segment: for each column named, those of its last entry that carries any. */
  lemma {:induction false} ColumnBytesAre(columns: seq<ColumnMeta>, name: string, bytes: nat)
    ensures NamesOnce(ColumnBytes(columns))
    ensures (name, bytes) in ColumnBytes(columns) <==> Carries(columns, name, bytes)
    decreases |columns|
  {
    if columns != [] {
      var n := |columns| - 1;
      var before, last := columns[..n], columns[n];
      ColumnBytesAre(before, name, bytes);
      CarriesOneMore(columns, name, bytes);
      if !(last.name.None? || last.name.value == "" || last.indexBytes.None?) {
        TotalledIs(ColumnBytes(before), last.name.value, last.indexBytes.value, name, bytes);
      }
    }
  }

  lemma CarriesOneMore(columns: seq<ColumnMeta>, name: string, bytes: nat)
    requires columns != []
    ensures var n := |columns| - 1;
      Carries(columns, name, bytes) <==>
      if name != "" && columns[n].name == Some(name) && columns[n].indexBytes != None then columns[n].indexBytes == Some(bytes)
      else Carries(columns[..n], name, bytes)
  {
    var n := |columns| - 1;
    if Carries(columns, name, bytes) {
      var i :| 0 <= i < |columns| && CarriesAt(columns, i, name, bytes) && NoneAfter(columns, i, name);
      if i < n {
        assert CarriesAt(columns[..n], i, name, bytes) && NoneAfter(columns[..n], i, name);
      }
    }
    if Carries(columns[..n], name, bytes) && !(name != "" && columns[n].name == Some(name) && columns[n].indexBytes != None) {
      var i :| 0 <= i < n && CarriesAt(columns[..n], i, name, bytes) && NoneAfter(columns[..n], i, name);
      forall j | i < j < |columns| ensures columns[j].name != Some(name) || columns[j].indexBytes == None {
        assert j < n ==> columns[..n][j] == columns[j];
      }
      assert CarriesAt(columns, i, name, bytes) && NoneAfter(columns, i, name);
    }
    if name != "" && columns[n].name == Some(name) && columns[n].indexBytes == Some(bytes) {
      assert CarriesAt(columns, n, name, bytes) && NoneAfter(columns, n, name);
    }
  }

  /** The fact of a body that speaks for a segment: its docs and its reported size wherever they are not negative, and
    * the bytes of each column of its list. */
  lemma FactIsExact(key: string, body: Entry, sizes: map<string, int>, name: string, n: nat, column: string)
    requires GoesBy(key, body, name)
    ensures var fact := FactOf(key, body, sizes);
      && (fact.docs == Some(n) <==> body.totalDocs == Some(n))
      && (fact.totalBytes == Some(n) <==> name in sizes && sizes[name] == n)
      && ((column, n) in fact.columnBytes <==> body.columns != None && Carries(body.columns.value, column, n))
      && NamesOnce(fact.columnBytes)
  {
    if body.columns.Some? {
      ColumnBytesAre(body.columns.value, column, n);
    }
  }

  /** Every sealed segment of the size report is spoken for. */
  ghost predicate AllSpokenFor(doc: Option<Document>, sizes: map<string, int>) {
    forall name :: name in sizes && sizes[name] >= 0 ==> SpokenFor(doc, name)
  }

  /** The size report names every sealed segment of the table, and a body that speaks for one holds no fewer rows. */
  ghost predicate Tells(doc: Option<Document>, sizes: map<string, int>, table: seq<Sealed>) {
    && (forall i, j :: 0 <= i < j < |table| ==> table[i].name != table[j].name)
    && forall j :: 0 <= j < |table| ==>
         table[j].name in sizes && sizes[table[j].name] >= 0 && TellsRows(doc, table[j])
  }

  ghost predicate TellsRows(doc: Option<Document>, sealed: Sealed) {
    forall key :: doc.Some? && key in doc.value && GoesBy(key, doc.value[key], sealed.name) ==>
      (doc.value[key].totalDocs.Some? && doc.value[key].totalDocs.value >= 0 ==> sealed.segment.docs <= doc.value[key].totalDocs.value)
  }

  /** And its bytes are reported as the adapter asked for them. */
  ghost predicate TellsBytes(doc: Option<Document>, sizes: map<string, int>, resolved: set<string>, columns: Option<set<string>>, table: seq<Sealed>) {
    forall j, key :: 0 <= j < |table| && doc.Some? && key in doc.value && GoesBy(key, doc.value[key], table[j].name) ==>
      exists listed :: Describes(FactOf(key, doc.value[key], sizes), table[j].segment, listed, resolved, columns) && ListsRequested(listed, resolved)
  }

  /** Every body is listed under the name it states, if it states one, and no sealed segment is nameless. */
  ghost predicate ListedByName(doc: Option<Document>, sizes: map<string, int>) {
    && (forall key :: doc.Some? && key in doc.value && doc.value[key] != NullBody ==>
          doc.value[key].segmentName == None || doc.value[key].segmentName == Some("") || doc.value[key].segmentName == Some(key))
    && ("" in sizes ==> sizes[""] < 0)
  }

  /** Completeness is then that every sealed segment is spoken for. */
  lemma CompleteIffSpokenFor(doc: Option<Document>, sizes: map<string, int>)
    ensures AllSpokenFor(doc, sizes) ==> IsComplete(sizes, doc)
    ensures IsComplete(sizes, doc) && ListedByName(doc, sizes) ==> AllSpokenFor(doc, sizes)
  {
    CompleteIffAllBodies(sizes, doc);
    if AllSpokenFor(doc, sizes) {
      forall name | name in sizes && sizes[name] >= 0 ensures HasBody(doc, name) {
        assert SpokenFor(doc, name);
      }
    }
    if IsComplete(sizes, doc) && ListedByName(doc, sizes) {
      forall name | name in sizes && sizes[name] >= 0 ensures SpokenFor(doc, name) {
        var key :| key in doc.value && doc.value[key] != NullBody && (key == name || doc.value[key].segmentName == Some(name));
        assert GoesBy(key, doc.value[key], name);
      }
    }
  }

  const CROSSED: Document := map["a" := Body(Some("b"), Some(1), Some([]), None)]

  /** A body listed under one sealed name and stating another counts for both in the completeness test, and is
    * priced for the second alone: nothing speaks for the first. */
  lemma CrossedNamesCountTwice()
    ensures var sizes := map["a" := 1, "b" := 1]; IsComplete(sizes, Some(CROSSED)) && !SpokenFor(Some(CROSSED), "a")
  {
    var sizes := map["a" := 1, "b" := 1];
    assert "a"[0] != "b"[0];
    CompleteIffAllBodies(sizes, Some(CROSSED));
    assert "a" in CROSSED && CROSSED["a"].segmentName == Some("b");
  }

  // ----- placing the table among the facts -----

  /** The facts' places of the table's segments. */
  ghost predicate Places(doc: Option<Document>, keys: seq<string>, table: seq<Sealed>, at: seq<nat>) {
    && |at| == |table| && Picks(at, |keys|)
    && forall j :: 0 <= j < |table| ==>
         doc.Some? && keys[at[j]] in doc.value && GoesBy(keys[at[j]], doc.value[keys[at[j]]], table[j].name)
  }

  lemma SpokenForIsPriced(doc: Option<Document>, sizes: map<string, int>, keys: seq<string>, name: string) returns (at: nat)
    requires ListsPriced(DocumentOf(doc), sizes, keys) && name in sizes && sizes[name] >= 0 && SpokenFor(doc, name)
    ensures at < |keys| && doc.Some? && keys[at] in doc.value && GoesBy(keys[at], doc.value[keys[at]], name)
  {
    var key :| key in doc.value && GoesBy(key, doc.value[key], name);
    assert CatalogKeys.EntryName(key, doc.value[key]) == name;
    assert Priced(doc.value, sizes, key);
    at :| 0 <= at < |keys| && keys[at] == key;
  }

  lemma {:induction false} TablePlaces(doc: Option<Document>, sizes: map<string, int>, keys: seq<string>, table: seq<Sealed>) returns (at: seq<nat>)
    requires ListsPriced(DocumentOf(doc), sizes, keys) && Tells(doc, sizes, table) && AllSpokenFor(doc, sizes)
    ensures Places(doc, keys, table, at)
    decreases |table|
  {
    at := [];
    if table != [] {
      var n := |table| - 1;
      var before := TablePlaces(doc, sizes, keys, table[..n]);
      var last := SpokenForIsPriced(doc, sizes, keys, table[n].name);
      forall j | 0 <= j < n ensures before[j] != last {
        assert table[..n][j] == table[j];
      }
      at := before + [last];
      forall j | 0 <= j < |table| ensures keys[at[j]] in doc.value && GoesBy(keys[at[j]], doc.value[keys[at[j]]], table[j].name) {
        assert j < n ==> table[..n][j] == table[j];
      }
    }
  }

  /** Values put at their places, with nothing anywhere else. */
  ghost function Spread<T>(values: seq<T>, at: seq<nat>, n: nat, empty: T): (spread: seq<T>)
    requires |at| == |values| && Picks(at, n)
    ensures |spread| == n
  {
    if values == [] then seq(n, _ => empty)
    else
      var k := |values| - 1;
      Spread(values[..k], at[..k], n, empty)[at[k] := values[k]]
  }

  lemma {:induction false} SpreadAt<T>(values: seq<T>, at: seq<nat>, n: nat, empty: T, i: nat)
    requires |at| == |values| && Picks(at, n) && i < n
    ensures Spread(values, at, n, empty)[i] == empty || exists j :: 0 <= j < |at| && at[j] == i && Spread(values, at, n, empty)[i] == values[j]
    ensures i !in at ==> Spread(values, at, n, empty)[i] == empty
    decreases |values|
  {
    if values != [] {
      var k := |values| - 1;
      SpreadAt(values[..k], at[..k], n, empty, i);
      if at[k] != i && Spread(values[..k], at[..k], n, empty)[i] != empty {
        var j :| 0 <= j < k && at[..k][j] == i && Spread(values[..k], at[..k], n, empty)[i] == values[..k][j];
        assert at[j] == i && values[..k][j] == values[j];
      }
    }
  }

  lemma {:induction false} WeightSet(s: seq<nat>, mask: seq<bool>, i: nat, value: nat, taken: bool)
    requires |s| == |mask| && i < |s| && !mask[i]
    ensures Weight(s[i := value], mask[i := taken]) == Weight(s, mask) + (if taken then value else 0)
    ensures Count(mask[i := taken]) == Count(mask) + (if taken then 1 else 0)
  {
    if i > 0 {
      WeightSet(s[1..], mask[1..], i - 1, value, taken);
      assert s[i := value][1..] == s[1..][i - 1 := value] && mask[i := taken][1..] == mask[1..][i - 1 := taken];
    } else {
      assert s[i := value][1..] == s[1..] && mask[i := taken][1..] == mask[1..];
    }
  }

  lemma {:induction false} WeightLast(s: seq<nat>, mask: seq<bool>)
    requires |s| == |mask| > 0
    ensures var k := |s| - 1;
      && Weight(s, mask) == Weight(s[..k], mask[..k]) + (if mask[k] then s[k] else 0)
      && Count(mask) == Count(mask[..k]) + (if mask[k] then 1 else 0)
    decreases |s|
  {
    var k := |s| - 1;
    if k > 0 {
      WeightLast(s[1..], mask[1..]);
      assert s[1..][..k - 1] == s[..k][1..] && mask[1..][..k - 1] == mask[..k][1..];
    }
  }

  lemma {:induction false} NothingWeighs(n: nat)
    ensures Weight(seq(n, _ => 0), seq(n, _ => false)) == 0 && Count(seq(n, _ => false)) == 0
  {
    if n > 0 {
      NothingWeighs(n - 1);
      assert seq<nat>(n, _ => 0)[1..] == seq<nat>(n - 1, _ => 0) && seq<bool>(n, _ => false)[1..] == seq<bool>(n - 1, _ => false);
    }
  }

  /** A choice weighs the same spread out. */
  lemma {:induction false} WeightSpread(values: seq<nat>, mask: seq<bool>, at: seq<nat>, n: nat)
    requires |values| == |mask| == |at| && Picks(at, n)
    ensures Weight(Spread(values, at, n, 0), Spread(mask, at, n, false)) == Weight(values, mask)
    ensures Count(Spread(mask, at, n, false)) == Count(mask)
    decreases |values|
  {
    if values == [] {
      NothingWeighs(n);
      assert Spread(values, at, n, 0) == seq(n, _ => 0) && Spread(mask, at, n, false) == seq(n, _ => false);
    } else {
      var k := |values| - 1;
      WeightSpread(values[..k], mask[..k], at[..k], n);
      SpreadAt(mask[..k], at[..k], n, false, at[k]);
      WeightSet(Spread(values[..k], at[..k], n, 0), Spread(mask[..k], at[..k], n, false), at[k], values[k], mask[k]);
      WeightLast(values, mask);
    }
  }

  // ----- what a quote built from the documents says of the table -----

  const NOTHING := StoredSegment(0, [])

  ghost function SegmentsOf(table: seq<Sealed>): (segments: seq<StoredSegment>)
    ensures |segments| == |table|
  {
    seq(|table|, j requires 0 <= j < |table| => table[j].segment)
  }

  /** A read of the table: which of its sealed segments, which columns, and what the consuming ones held. */
  ghost predicate ReadOfTable(facts: TableFacts, surviving: Option<nat>, table: seq<Sealed>, scan: Scan) {
    && |scan.sealed| == |table| && |scan.held| == |facts.consumingRows| == Max(0, facts.consuming)
    && (surviving.Some? ==> Count(scan.sealed) <= Max(1, surviving.value))
    && forall j :: 0 <= j < |scan.held| && facts.consumingRows[j].Some? ==> scan.held[j] <= facts.consumingRows[j].value
  }

  ghost function Aligned(table: seq<Sealed>, at: seq<nat>, n: nat): (stored: seq<StoredSegment>)
    requires |at| == |table| && Picks(at, n)
    ensures |stored| == n
  {
    Spread(SegmentsOf(table), at, n, NOTHING)
  }

  ghost function AlignedScan(scan: Scan, at: seq<nat>, n: nat): Scan
    requires |at| == |scan.sealed| && Picks(at, n)
  {
    scan.(sealed := Spread(scan.sealed, at, n, false))
  }

  lemma AlignedCounts(doc: Option<Document>, sizes: map<string, int>, keys: seq<string>, facts: TableFacts, table: seq<Sealed>, at: seq<nat>)
    requires AreTableFacts(doc, sizes, keys, facts) && Tells(doc, sizes, table) && Places(doc, keys, table, at)
    requires |facts.consumingRows| == Max(0, facts.consuming)
    ensures CountsRows(facts, Aligned(table, at, |keys|))
  {
    var stored := Aligned(table, at, |keys|);
    forall i | 0 <= i < |stored| && facts.segments[i].docs.Some? ensures stored[i].docs <= facts.segments[i].docs.value {
      SpreadAt(SegmentsOf(table), at, |keys|, NOTHING, i);
      if j :| 0 <= j < |at| && at[j] == i && stored[i] == SegmentsOf(table)[j] {
        assert TellsRows(doc, table[j]);
      }
    }
  }

  lemma CountAtMostAll(mask: seq<bool>)
    ensures Count(mask) <= |mask|
  {
    if mask != [] {
      CountAtMostAll(mask[1..]);
    }
  }

  lemma AlignedIsAllowed(facts: TableFacts, surviving: Option<nat>, table: seq<Sealed>, scan: Scan, at: seq<nat>)
    requires ReadOfTable(facts, surviving, table, scan) && |at| == |table| && Picks(at, |facts.segments|)
    ensures Allowed(facts, surviving, AlignedScan(scan, at, |facts.segments|))
  {
    var zeros := seq(|table|, _ => 0);
    WeightSpread(zeros, scan.sealed, at, |facts.segments|);
    CountAtMostAll(Spread(scan.sealed, at, |facts.segments|, false));
  }

  lemma {:induction false} SpreadDocs(segments: seq<StoredSegment>, at: seq<nat>, n: nat)
    requires |at| == |segments| && Picks(at, n)
    ensures StoredDocs(Spread(segments, at, n, NOTHING)) == Spread(StoredDocs(segments), at, n, 0)
    decreases |segments|
  {
    if segments != [] {
      var k := |segments| - 1;
      SpreadDocs(segments[..k], at[..k], n);
      assert StoredDocs(segments)[..k] == StoredDocs(segments[..k]);
    }
  }

  lemma {:induction false} SpreadBytes(segments: seq<StoredSegment>, at: seq<nat>, n: nat, touched: set<string>)
    requires |at| == |segments| && Picks(at, n)
    ensures StoredBytes(Spread(segments, at, n, NOTHING), touched) == Spread(StoredBytes(segments, touched), at, n, 0)
    decreases |segments|
  {
    if segments != [] {
      var k := |segments| - 1;
      SpreadBytes(segments[..k], at[..k], n, touched);
      assert StoredBytes(segments, touched)[..k] == StoredBytes(segments[..k], touched);
    }
  }

  lemma AlignedReads(table: seq<Sealed>, scan: Scan, at: seq<nat>, n: nat)
    requires |scan.sealed| == |at| == |table| && Picks(at, n)
    ensures RowsRead(Aligned(table, at, n), AlignedScan(scan, at, n)) == RowsRead(SegmentsOf(table), scan)
    ensures BytesRead(Aligned(table, at, n), AlignedScan(scan, at, n)) == BytesRead(SegmentsOf(table), scan)
  {
    SpreadDocs(SegmentsOf(table), at, n);
    WeightSpread(StoredDocs(SegmentsOf(table)), scan.sealed, at, n);
    SpreadBytes(SegmentsOf(table), at, n, scan.touched);
    WeightSpread(StoredBytes(SegmentsOf(table), scan.touched), scan.sealed, at, n);
  }

  lemma KnownIsSpokenFor(doc: Option<Document>, sizes: map<string, int>, keys: seq<string>, facts: TableFacts, known: Option<nat>)
    requires AreTableFacts(doc, sizes, keys, facts) && ListedByName(doc, sizes) && (known.Some? ==> facts.complete) && known.Some?
    ensures AllSpokenFor(doc, sizes)
  {
    CompleteIffSpokenFor(doc, sizes);
  }

  /** A row quote built from the documents covers every read of the table they are about, whatever part of it the
    * metadata answer happened to hold: where it left a sealed segment out there is no quote. */
  lemma TableRowsCovered(doc: Option<Document>, sizes: map<string, int>, keys: seq<string>, facts: TableFacts, table: seq<Sealed>,
                         surviving: Option<nat>, scan: Scan)
    requires AreTableFacts(doc, sizes, keys, facts) && ListedByName(doc, sizes)
    requires Tells(doc, sizes, table) && ReadOfTable(facts, surviving, table, scan)
    ensures SurvivingDocs(facts, surviving).Some? ==> RowsRead(SegmentsOf(table), scan) <= SurvivingDocs(facts, surviving).value
  {
    if SurvivingDocs(facts, surviving).Some? {
      KnownIsSpokenFor(doc, sizes, keys, facts, SurvivingDocs(facts, surviving));
      var at := TablePlaces(doc, sizes, keys, table);
      AlignedCounts(doc, sizes, keys, facts, table, at);
      AlignedIsAllowed(facts, surviving, table, scan, at);
      AlignedReads(table, scan, at, |keys|);
      RowsCovered(facts, Aligned(table, at, |keys|), surviving, AlignedScan(scan, at, |keys|));
    }
  }

  lemma AlignedIsReported(doc: Option<Document>, sizes: map<string, int>, keys: seq<string>, facts: TableFacts, columns: Option<set<string>>,
                          table: seq<Sealed>, at: seq<nat>)
    requires AreTableFacts(doc, sizes, keys, facts) && TellsBytes(doc, sizes, facts.columns, columns, table) && Places(doc, keys, table, at)
    ensures ReportsBytes(facts, Aligned(table, at, |keys|), columns)
  {
    var stored := Aligned(table, at, |keys|);
    forall i | 0 <= i < |stored| && stored[i].columns != [] ensures ReportedAt(facts, stored, columns, i) {
      SpreadAt(SegmentsOf(table), at, |keys|, NOTHING, i);
      var j :| 0 <= j < |at| && at[j] == i && stored[i] == SegmentsOf(table)[j];
      var listed :| Describes(FactOf(keys[i], doc.value[keys[i]], sizes), table[j].segment, listed, facts.columns, columns)
        && ListsRequested(listed, facts.columns);
      assert Describes(facts.segments[i], stored[i], listed, facts.columns, columns);
    }
  }

  /** And so does the byte quote, where the documents report the table's bytes as they were asked to. */
  lemma TableBytesCovered(doc: Option<Document>, sizes: map<string, int>, keys: seq<string>, facts: TableFacts, table: seq<Sealed>,
                          surviving: Option<nat>, columns: Option<set<string>>, scan: Scan)
    requires AreTableFacts(doc, sizes, keys, facts) && ListedByName(doc, sizes)
    requires Tells(doc, sizes, table) && TellsBytes(doc, sizes, facts.columns, columns, table) && ReadOfTable(facts, surviving, table, scan)
    requires ReadsBytesOf(facts, columns, scan)
    ensures SurvivingBytes(facts, surviving, columns).Some? ==> BytesRead(SegmentsOf(table), scan) <= SurvivingBytes(facts, surviving, columns).value
  {
    if SurvivingBytes(facts, surviving, columns).Some? {
      KnownIsSpokenFor(doc, sizes, keys, facts, SurvivingBytes(facts, surviving, columns));
      var at := TablePlaces(doc, sizes, keys, table);
      var stored := Aligned(table, at, |keys|);
      AlignedCounts(doc, sizes, keys, facts, table, at);
      AlignedIsAllowed(facts, surviving, table, scan, at);
      AlignedReads(table, scan, at, |keys|);
      AlignedIsReported(doc, sizes, keys, facts, columns, table, at);
      ReportedIsDescribed(facts, stored, columns);
      BytesCovered(facts, stored, surviving, columns, AlignedScan(scan, at, |keys|));
    }
  }

  // ----- exactly when the facts hold the table -----

  ghost function AllRead(table: seq<Sealed>, facts: TableFacts): Scan
  {
    Scan(seq(|table|, _ => true), {}, seq(|facts.consumingRows|, _ => 0), [])
  }

  lemma {:induction false} AllWeighs(s: seq<nat>)
    ensures Weight(s, seq(|s|, _ => true)) == Sum(s)
  {
    if s != [] {
      AllWeighs(s[1..]);
      assert seq<bool>(|s|, _ => true)[1..] == seq<bool>(|s| - 1, _ => true);
    }
  }

  /** A row quote covers every table the documents could be about exactly when some body speaks for every sealed
    * segment of the size report. */
  lemma FactsHoldTableIff(doc: Option<Document>, sizes: map<string, int>, keys: seq<string>, facts: TableFacts)
    requires AreTableFacts(doc, sizes, keys, facts) && |facts.consumingRows| == Max(0, facts.consuming) && SurvivingDocs(facts, None).Some?
    ensures (forall table :: Tells(doc, sizes, table) ==> Sum(StoredDocs(SegmentsOf(table))) <= SurvivingDocs(facts, None).value)
        <==> AllSpokenFor(doc, sizes)
  {
    var quoted := SurvivingDocs(facts, None).value;
    if AllSpokenFor(doc, sizes) {
      forall table | Tells(doc, sizes, table) ensures Sum(StoredDocs(SegmentsOf(table))) <= quoted {
        var scan := AllRead(table, facts);
        var at := TablePlaces(doc, sizes, keys, table);
        AlignedCounts(doc, sizes, keys, facts, table, at);
        AlignedIsAllowed(facts, None, table, scan, at);
        AlignedReads(table, scan, at, |keys|);
        RowsCovered(facts, Aligned(table, at, |keys|), None, AlignedScan(scan, at, |keys|));
        AllWeighs(StoredDocs(SegmentsOf(table)));
      }
    } else {
      var name :| name in sizes && sizes[name] >= 0 && !SpokenFor(doc, name);
      var table := [Sealed(name, StoredSegment(quoted + 1, []))];
      assert Tells(doc, sizes, table);
      assert StoredDocs(SegmentsOf(table)) == [quoted + 1];
      PartAtMostSum([quoted + 1], 0);
    }
  }
}
