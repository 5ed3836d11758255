/** Where the plan bound's evidence comes from: the keys one table's metadata proves and the ordinals one EXPLAIN
  * of its key columns teaches, together, hold of the rows its scans read. */
module PlanEvidence {
  import opened Prelude
  import opened Rels
  import opened JoinKeys
  import opened MetadataFetch
  import opened CatalogKeys
  import opened Execution
  import opened Provenance
  import opened KeyOrdinals

  /** One table as the catalog tells of it (its documents, and the plan of its key columns' EXPLAIN), and as it
    * is: its rows by column, and its columns in scan order. */
  datatype Catalogued = Catalogued(doc: Document, sizes: map<string, int>, plan: Graph, table: Table, schema: seq<string>)

  /** A scanned row is a row of the table, with each column that has one value at its scan position. */
  ghost predicate ScannedFrom(table: Table, schema: seq<string>, row: Row, at: At) {
    && IsRow(table, at) && |row| == |schema|
    && forall c :: 0 <= c < |schema| && |Cell(table, at, schema[c])| == 1 ==> row[c] == Datum(Cell(table, at, schema[c])[0])
  }

  ghost predicate StoredAs(table: Table, schema: seq<string>, rows: seq<Row>, origins: seq<At>) {
    && |origins| == |rows| && Distinct(origins)
    && forall r :: 0 <= r < |rows| ==> ScannedFrom(table, schema, rows[r], origins[r])
  }

  /** The plan is that of a SELECT of bare column names: each field holds the column it is named for. */
  ghost predicate SelectsByName(plan: Graph, schema: seq<string>)
    requires Learnable(plan)
  {
    forall i :: 0 <= i < |Top(plan).fields.value| ==> SelectsAt(plan, schema, i)
  }

  ghost predicate SelectsAt(plan: Graph, schema: seq<string>, i: nat)
    requires Learnable(plan) && i < |Top(plan).fields.value|
  {
    var column := ColumnOf(plan, Subject(plan).value.chain, i);
    column.Some? && column.value < |schema| && Lower(schema[column.value]) == Lower(Top(plan).fields.value[i].value)
  }

  /** The schema spells every column once, case aside, and knows every column the metadata names. */
  ghost predicate KnowsColumns(c: Catalogued) {
    && (forall a, b :: 0 <= a < |c.schema| && 0 <= b < |c.schema| && Lower(c.schema[a]) == Lower(c.schema[b]) ==> a == b)
    && forall key :: key in c.doc && c.doc[key].Body? && c.doc[key].columns.Some? ==> NamesKnown(c.doc[key].columns.value, c.schema)
  }

  ghost predicate NamesKnown(columns: seq<ColumnMeta>, schema: seq<string>) {
    forall i :: 0 <= i < |columns| && columns[i].name.Some? ==> columns[i].name.value in schema
  }

  /** The documents and the EXPLAIN tell the truth about the rows the table's scans read. */
  ghost predicate TrueOf(c: Catalogued, rows: seq<Row>) {
    && DocumentsDescribe(c.doc, c.sizes, c.table) && KnowsColumns(c)
    && (exists origins :: StoredAs(c.table, c.schema, rows, origins))
    && Learnable(c.plan) && PositionsStay(c.plan) && SelectsByName(c.plan, c.schema)
  }

  /** The evidence is what the adapter reads off the documents and the EXPLAIN. */
  ghost predicate ReadOff(c: Catalogued, keys: set<set<string>>, ordinals: map<string, nat>)
    requires Learnable(c.plan)
  {
    && AreUniqueColumns(c.doc, c.sizes, keys)
    && ordinals == NamedPositions(Top(c.plan).fields.value, ProjectReads(Top(c.plan)).value)
  }

  /** A learned ordinal is the scan position of the column it is named for. */
  lemma LearnedIsPosition(c: Catalogued, column: string)
    requires Learnable(c.plan) && PositionsStay(c.plan) && SelectsByName(c.plan, c.schema)
    requires column in NamedPositions(Top(c.plan).fields.value, ProjectReads(Top(c.plan)).value)
    ensures var ordinal := NamedPositions(Top(c.plan).fields.value, ProjectReads(Top(c.plan)).value)[column];
      ordinal < |c.schema| && Lower(c.schema[ordinal]) == column
  {
    var i := LearnedOrdinalsAreTrue(c.plan, column);
    assert SelectsAt(c.plan, c.schema, i);
  }

  /** A unique column, stored at its learned ordinal, is a key of the scanned rows. */
  lemma UniqueColumnIsKey(table: Table, schema: seq<string>, rows: seq<Row>, origins: seq<At>, ordinals: map<string, nat>, column: string)
    requires StoredAs(table, schema, rows, origins) && UniqueIn(table, column) && SingleIn(table, column)
    requires Lower(column) in ordinals && ordinals[Lower(column)] < |schema| && schema[ordinals[Lower(column)]] == column
    ensures UniqueOn(rows, ordinals, {Lower(column)})
  {
    var ordinal := ordinals[Lower(column)];
    forall i, j | 0 <= i < j < |rows| ensures DifferOn(rows[i], rows[j], ordinals, {Lower(column)}) {
      assert ScannedFrom(table, schema, rows[i], origins[i]) && ScannedFrom(table, schema, rows[j], origins[j]);
      var a, b := Cell(table, origins[i], column), Cell(table, origins[j], column);
      assert a != b && a == [a[0]] && b == [b[0]];
      assert rows[i][ordinal] == Datum(a[0]) && rows[j][ordinal] == Datum(b[0]);
    }
  }

  lemma ProvedKeyHolds(c: Catalogued, rows: seq<Row>, keys: set<set<string>>, ordinals: map<string, nat>, key: set<string>)
    requires TrueOf(c, rows) && ReadOff(c, keys, ordinals) && key in keys && key <= ordinals.Keys
    ensures UniqueOn(rows, ordinals, key)
  {
    var sole :| OneSealedSegment(c.doc, c.sizes, sole);
    var i, column := ProvedKeysAreUnique(c.doc, c.sizes, c.table, sole, key);
    assert sole in SealedKeys(c.doc) && column in c.schema;
    var at :| 0 <= at < |c.schema| && c.schema[at] == column;
    assert Lower(column) in key;
    LearnedIsPosition(c, Lower(column));
    var origins :| StoredAs(c.table, c.schema, rows, origins);
    UniqueColumnIsKey(c.table, c.schema, rows, origins, ordinals, column);
  }

  /** Evidence read off the catalog holds of the database the catalog tells the truth about. */
  lemma CatalogEvidenceHolds(db: Database, evidence: Evidence, catalog: map<string, Catalogued>)
    requires forall name :: name in db.tables && name in evidence.uniqueKeys && name in evidence.keyOrdinals ==>
      name in catalog && TrueOf(catalog[name], db.tables[name])
      && ReadOff(catalog[name], evidence.uniqueKeys[name], evidence.keyOrdinals[name])
    ensures Respects(db, evidence)
  {
    forall name, key | name in db.tables && name in evidence.uniqueKeys && name in evidence.keyOrdinals
      && key in evidence.uniqueKeys[name] && key != {} && key <= evidence.keyOrdinals[name].Keys
      ensures UniqueOn(db.tables[name], evidence.keyOrdinals[name], key)
    {
      ProvedKeyHolds(catalog[name], db.tables[name], evidence.uniqueKeys[name], evidence.keyOrdinals[name], key);
    }
  }
}
