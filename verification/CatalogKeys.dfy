/** Columns proved unique by a one-segment table's own metadata
  * (adapters/pinot/keys.py, single_segment_unique_columns). */
module CatalogKeys {
  import opened Prelude
  import opened MetadataFetch

  function PositiveInt(value: Option<int>): Option<nat> {
    if value.Some? && value.value > 0 then Some(value.value) else None
  }

  /** A column whose values per row are not knowably exactly one. */
  predicate MultiValued(column: ColumnMeta, docs: nat) {
    || column.singleValue == Some(false)
    || (column.entries.Some? && column.entries.value != docs)
    || (column.maxMultiValues.Some? && column.maxMultiValues.value > 0)
  }

  /** A dictionary column counting as many distinct values as the segment has documents. */
  predicate Proves(column: ColumnMeta, docs: nat) {
    && column.name.Some? && column.name.value != ""
    && PositiveInt(column.cardinality) == Some(docs)
    && !MultiValued(column, docs)
    && column.hasDictionary == Some(true)
  }

  function SealedNames(sizes: map<string, int>): set<string> { set name | name in sizes && sizes[name] >= 0 }

  function SealedKeys(doc: Document): set<string> { set key | key in doc && doc[key].Body? && doc[key].columns.Some? }

  function EntryName(key: string, entry: Entry): string
    requires entry.Body?
  {
    if entry.segmentName.Some? && entry.segmentName.value != "" then entry.segmentName.value else key
  }

  /** The document and the size report agree that the table is one sealed segment, under this key. */
  ghost predicate OneSealedSegment(doc: Document, sizes: map<string, int>, key: string) {
    && (forall name :: name in sizes ==> sizes[name] >= 0)
    && IsComplete(sizes, Some(doc))
    && SealedKeys(doc) == {key}
    && (forall k :: k in doc && doc[k].Body? ==> doc[k].columns.Some?)
    && SealedNames(sizes) == {EntryName(key, doc[key])}
    && PositiveInt(doc[key].totalDocs).Some?
  }

  /** The lowercase names of the columns a list proves unique, each alone. */
  function ProvedKeys(columns: seq<ColumnMeta>, docs: nat): set<set<string>> {
    if columns == [] then {}
    else
      var n := |columns| - 1;
      ProvedKeys(columns[..n], docs) + (if Proves(columns[n], docs) then {{Lower(columns[n].name.value)}} else {})
  }

  /** The proved keys of the one sealed segment, or none where the documents do not agree on one. */
  ghost predicate AreUniqueColumns(doc: Document, sizes: map<string, int>, keys: set<set<string>>) {
    && (forall sole :: OneSealedSegment(doc, sizes, sole) ==>
          keys == ProvedKeys(doc[sole].columns.value, PositiveInt(doc[sole].totalDocs).value))
    && ((forall sole :: !OneSealedSegment(doc, sizes, sole)) ==> keys == {})
  }

  method UniqueColumns(doc: Document, sizes: map<string, int>) returns (keys: set<set<string>>)
    ensures AreUniqueColumns(doc, sizes, keys)
  {
    keys := {};
    if exists name :: name in sizes && sizes[name] < 0 {
      return;
    }
    var sealedNames := SealedNames(sizes);
    var sealedKeys := SealedKeys(doc);
    if |sealedNames| != 1 || !IsComplete(sizes, Some(doc)) || |sealedKeys| != 1
      || exists k :: k in doc && doc[k].Body? && doc[k].columns.None? {
      return;
    }
    var key :| key in sealedKeys;
    SingletonIs(sealedKeys, key);
    var name :| name in sealedNames;
    SingletonIs(sealedNames, name);
    var docs := PositiveInt(doc[key].totalDocs);
    if EntryName(key, doc[key]) != name || docs.None? {
      return;
    }
    var columns := doc[key].columns.value;
    for i := 0 to |columns|
      invariant keys == ProvedKeys(columns[..i], docs.value)
    {
      assert columns[..i + 1][..i] == columns[..i];
      if Proves(columns[i], docs.value) {
        keys := keys + {{Lower(columns[i].name.value)}};
      }
    }
    assert columns[..|columns|] == columns;
    assert OneSealedSegment(doc, sizes, key);
  }

  lemma SingletonIs(s: set<string>, x: string)
    requires |s| == 1 && x in s
    ensures s == {x}
  {
    assert |s - {x}| == 0;
  }

  // ----- the table the documents describe -----

  /** A stored row: each column's values, one for a single-valued column. */
  type HeldRow = map<string, seq<int>>

  datatype HeldSegment = HeldSegment(consuming: bool, rows: seq<HeldRow>)

  /** A whole table: every segment it has, sealed or still consuming. */
  type Table = map<string, HeldSegment>

  function Values(rows: seq<HeldRow>, column: string): set<int> {
    set r, v | 0 <= r < |rows| && column in rows[r] && v in rows[r][column] :: v
  }

  /** The metadata of one sealed segment tells the truth about it: its documents, and for a dictionary
    * column the number of distinct stored values; a column with no sign of several values per row has one. */
  ghost predicate DescribesSegment(entry: Entry, segment: HeldSegment)
    requires entry.Body? && entry.columns.Some?
  {
    && (PositiveInt(entry.totalDocs).Some? ==> |segment.rows| == entry.totalDocs.value)
    && forall i :: 0 <= i < |entry.columns.value| ==> DescribesColumn(entry.columns.value[i], segment.rows)
  }

  ghost predicate DescribesColumn(column: ColumnMeta, rows: seq<HeldRow>) {
    column.name.Some? && column.hasDictionary == Some(true) ==>
      && (PositiveInt(column.cardinality).Some? ==> |Values(rows, column.name.value)| == column.cardinality.value)
      && (!MultiValued(column, |rows|) ==>
           forall r :: 0 <= r < |rows| ==> column.name.value in rows[r] && |rows[r][column.name.value]| == 1)
  }

  /** The size report names every segment, giving consuming ones a negative size, and each sealed entry of
    * the document describes the segment it is about. */
  ghost predicate DocumentsDescribe(doc: Document, sizes: map<string, int>, table: Table) {
    && (forall name :: name in table ==> name in sizes && (table[name].consuming <==> sizes[name] < 0))
    && forall key :: key in doc && doc[key].Body? && doc[key].columns.Some? && EntryName(key, doc[key]) in table ==>
         DescribesSegment(doc[key], table[EntryName(key, doc[key])])
  }

  /** A row of the table, wherever it is stored. */
  datatype At = At(segment: string, row: nat)

  ghost predicate IsRow(table: Table, at: At) { at.segment in table && at.row < |table[at.segment].rows| }

  function Cell(table: Table, at: At, column: string): seq<int> {
    if at.segment in table && at.row < |table[at.segment].rows| && column in table[at.segment].rows[at.row]
    then table[at.segment].rows[at.row][column] else []
  }

  /** No two rows of the whole table share a value in the column. */
  ghost predicate UniqueIn(table: Table, column: string) {
    forall a, b :: IsRow(table, a) && IsRow(table, b) && a != b ==> Cell(table, a, column) != Cell(table, b, column)
  }

  /** Every row has exactly one value in this column. */
  ghost predicate SingleIn(table: Table, column: string) {
    forall at :: IsRow(table, at) ==> |Cell(table, at, column)| == 1
  }

  function Firsts(rows: seq<HeldRow>, column: string): (firsts: seq<int>)
    ensures |firsts| == |rows|
  {
    seq(|rows|, r requires 0 <= r < |rows| =>
      if column in rows[r] && rows[r][column] != [] then rows[r][column][0] else 0)
  }

  function Members(s: seq<int>): set<int> { set v | v in s }

  lemma {:induction false} MembersAtMost(s: seq<int>)
    ensures |Members(s)| <= |s|
    ensures |Members(s)| == |s| <==> Distinct(s)
    decreases |s|
  {
    if s != [] {
      var n := |s| - 1;
      MembersAtMost(s[..n]);
      assert s == s[..n] + [s[n]];
      assert Members(s) == Members(s[..n]) + {s[n]};
      if s[n] in s[..n] {
        assert Members(s) == Members(s[..n]);
        var i :| 0 <= i < n && s[i] == s[n];
      } else {
        assert |Members(s)| == |Members(s[..n])| + 1;
      }
    }
  }

  lemma SingleValuesAreFirsts(rows: seq<HeldRow>, column: string)
    requires forall r :: 0 <= r < |rows| ==> column in rows[r] && |rows[r][column]| == 1
    ensures Values(rows, column) == Members(Firsts(rows, column))
  {
    forall v ensures v in Values(rows, column) <==> v in Members(Firsts(rows, column)) {
      if v in Values(rows, column) {
        var r :| 0 <= r < |rows| && v in rows[r][column];
        assert Firsts(rows, column)[r] == v;
      }
      if v in Members(Firsts(rows, column)) {
        var r :| 0 <= r < |rows| && Firsts(rows, column)[r] == v;
        assert v in rows[r][column];
      }
    }
  }

  /** A dictionary column proves its key exactly when no two rows of its segment share a value. */
  lemma ProvesIffDistinct(column: ColumnMeta, rows: seq<HeldRow>)
    requires DescribesColumn(column, rows) && rows != []
    requires column.name.Some? && column.name.value != "" && column.hasDictionary == Some(true)
    requires !MultiValued(column, |rows|) && PositiveInt(column.cardinality).Some?
    ensures Proves(column, |rows|) <==> Distinct(Firsts(rows, column.name.value))
  {
    SingleValuesAreFirsts(rows, column.name.value);
    MembersAtMost(Firsts(rows, column.name.value));
  }

  lemma {:induction false} ProvedKeyColumn(columns: seq<ColumnMeta>, docs: nat, key: set<string>) returns (i: nat)
    requires key in ProvedKeys(columns, docs)
    ensures i < |columns| && Proves(columns[i], docs) && key == {Lower(columns[i].name.value)}
    decreases |columns|
  {
    i := |columns| - 1;
    if !(Proves(columns[i], docs) && key == {Lower(columns[i].name.value)}) {
      i := ProvedKeyColumn(columns[..i], docs, key);
    }
  }

  /** The one sealed segment is the whole table. */
  lemma SoleSegmentIsTable(doc: Document, sizes: map<string, int>, table: Table, sole: string)
    requires OneSealedSegment(doc, sizes, sole) && DocumentsDescribe(doc, sizes, table)
    ensures forall name :: name in table ==> name == EntryName(sole, doc[sole]) && !table[name].consuming
  {
    forall name | name in table ensures name in SealedNames(sizes) {
    }
  }

  /** Every key the metadata proves belongs to a column with one value a row, unique over every row the table has. */
  lemma ProvedKeysAreUnique(doc: Document, sizes: map<string, int>, table: Table, sole: string, key: set<string>)
    returns (i: nat, column: string)
    requires OneSealedSegment(doc, sizes, sole) && DocumentsDescribe(doc, sizes, table)
    requires key in ProvedKeys(doc[sole].columns.value, PositiveInt(doc[sole].totalDocs).value)
    ensures i < |doc[sole].columns.value| && doc[sole].columns.value[i].name == Some(column)
    ensures key == {Lower(column)} && UniqueIn(table, column) && SingleIn(table, column)
  {
    var columns, docs := doc[sole].columns.value, PositiveInt(doc[sole].totalDocs).value;
    i := ProvedKeyColumn(columns, docs, key);
    column := columns[i].name.value;
    SoleSegmentIsTable(doc, sizes, table, sole);
    forall at | IsRow(table, at) ensures |Cell(table, at, column)| == 1 {
      assert DescribesSegment(doc[sole], table[EntryName(sole, doc[sole])]);
      assert DescribesColumn(columns[i], table[at.segment].rows);
    }
    forall a, b | IsRow(table, a) && IsRow(table, b) && a != b ensures Cell(table, a, column) != Cell(table, b, column) {
      var rows := table[a.segment].rows;
      assert DescribesSegment(doc[sole], table[EntryName(sole, doc[sole])]);
      assert DescribesColumn(columns[i], rows);
      ProvesIffDistinct(columns[i], rows);
      var firsts := Firsts(rows, column);
      assert firsts[a.row] != firsts[b.row];
    }
  }

  // ----- exactly which columns are proved -----

  /** One sealed segment is all the size report names, and this key's body is the only one, about that segment,
    * with a column list and so many documents. */
  ghost predicate SoleBody(doc: Document, sizes: map<string, int>, key: string, docs: nat) {
    && docs > 0 && key in doc && doc[key].Body? && doc[key].totalDocs == Some(docs) && doc[key].columns != None
    && (forall other :: other in doc && doc[other] != NullBody ==> other == key)
    && exists name :: name in sizes && sizes[name] >= 0 && (forall other :: other in sizes ==> other == name)
         && ((doc[key].segmentName == Some(name) && name != "") || (doc[key].segmentName in {None, Some("")} && key == name))
  }

  /** A single-valued dictionary column with a name and as many distinct values as documents. */
  ghost predicate IsEvidence(column: ColumnMeta, docs: nat, name: string) {
    && column.name == Some(name) && name != "" && column.cardinality == Some(docs) && column.hasDictionary == Some(true)
    && column.singleValue != Some(false) && column.entries in {None, Some(docs)}
    && (column.maxMultiValues.Some? ==> column.maxMultiValues.value <= 0)
  }

  lemma SoleIsOneSealed(doc: Document, sizes: map<string, int>, key: string)
    ensures OneSealedSegment(doc, sizes, key) <==> exists docs: nat :: SoleBody(doc, sizes, key, docs)
  {
    if OneSealedSegment(doc, sizes, key) {
      assert key in SealedKeys(doc);
      var name := EntryName(key, doc[key]);
      assert name in SealedNames(sizes);
      forall other | other in sizes ensures other == name {
        assert other in SealedNames(sizes);
      }
      forall other | other in doc && doc[other] != NullBody ensures other == key {
        assert other in SealedKeys(doc);
      }
      assert SoleBody(doc, sizes, key, doc[key].totalDocs.value);
    }
    if docs: nat :| SoleBody(doc, sizes, key, docs) {
      var name :| name in sizes && sizes[name] >= 0 && (forall other :: other in sizes ==> other == name)
        && ((doc[key].segmentName == Some(name) && name != "") || (doc[key].segmentName in {None, Some("")} && key == name));
      CompleteIffAllBodies(sizes, Some(doc));
      assert HasBody(Some(doc), name);
      assert SealedNames(sizes) == {name} && SealedKeys(doc) == {key};
    }
  }

  lemma {:induction false} ProvedKeysAre(columns: seq<ColumnMeta>, docs: nat, key: set<string>)
    requires docs > 0
    ensures key in ProvedKeys(columns, docs) <==>
      exists i, name :: 0 <= i < |columns| && IsEvidence(columns[i], docs, name) && key == {Lower(name)}
    decreases |columns|
  {
    if columns != [] {
      var n := |columns| - 1;
      ProvedKeysAre(columns[..n], docs, key);
      assert Proves(columns[n], docs) ==> IsEvidence(columns[n], docs, columns[n].name.value);
      if i, name :| 0 <= i < |columns| && IsEvidence(columns[i], docs, name) && key == {Lower(name)} {
        assert i < n ==> columns[..n][i] == columns[i];
      }
      if i, name :| 0 <= i < n && IsEvidence(columns[..n][i], docs, name) && key == {Lower(name)} {
        assert columns[i] == columns[..n][i];
      }
    }
  }

  ghost predicate ProvedBy(doc: Document, sizes: map<string, int>, key: set<string>, sole: string, docs: nat, i: nat, name: string) {
    && SoleBody(doc, sizes, sole, docs)
    && i < |doc[sole].columns.value| && IsEvidence(doc[sole].columns.value[i], docs, name) && key == {Lower(name)}
  }

  /** A key is returned exactly when it is one column of the table's sole segment that is evidence. */
  lemma UniqueColumnsAre(doc: Document, sizes: map<string, int>, keys: set<set<string>>, key: set<string>)
    requires AreUniqueColumns(doc, sizes, keys)
    ensures key in keys <==> exists sole, docs, i, name :: ProvedBy(doc, sizes, key, sole, docs, i, name)
  {
    if sole: string, docs: nat, i: nat, name: string :| ProvedBy(doc, sizes, key, sole, docs, i, name) {
      SoleIsOneSealed(doc, sizes, sole);
      ProvedKeysAre(doc[sole].columns.value, docs, key);
    }
    if key in keys {
      var sole :| OneSealedSegment(doc, sizes, sole);
      SoleIsOneSealed(doc, sizes, sole);
      var docs: nat :| SoleBody(doc, sizes, sole, docs);
      ProvedKeysAre(doc[sole].columns.value, docs, key);
      var i, name :| 0 <= i < |doc[sole].columns.value| && IsEvidence(doc[sole].columns.value[i], docs, name) && key == {Lower(name)};
      assert ProvedBy(doc, sizes, key, sole, docs, i, name);
    }
  }
}
