// Derived indexes: each active index stores one record per visible row, the row's indexed values followed by its id.
module Index {
  import opened Bytes
  import opened Values
  import opened Wrappers
  import opened Catalog
  import RowTable

  // What a transaction sees: the catalog, the documents of each table's visible rows, the columns of theirs that two
  // sides have set at once, the ids of each table's deleted rows, and the stored index records.
  datatype Database = Database(
    tables: map<Name, TableDef>, indices: map<Name, IndexDef>,
    docs: map<Name, map<Uuid, Doc>>, disputed: map<Name, map<Uuid, set<Name>>>, dead: map<Name, set<Uuid>>,
    records: map<Name, set<Row>>)
  {
    function Def(table: Name): TableDef {
      if table in tables then tables[table] else TableDef(false, map[])
    }

    function Docs(table: Name): map<Uuid, Doc> {
      if table in docs then docs[table] else map[]
    }

    function Disputed(table: Name, id: Uuid): set<Name> {
      if table in disputed && id in disputed[table] then disputed[table][id] else {}
    }

    function Dead(table: Name): set<Uuid> {
      if table in dead then dead[table] else {}
    }

    function DocAt(table: Name, id: Uuid): Option<Doc> {
      if id in Docs(table) then Some(Docs(table)[id]) else None
    }

    /** An index of the table that is not dropped. */
    predicate Indexed(name: Name, table: Name) {
      name in indices && !indices[name].deleted && indices[name].table == table
    }

    function Records(name: Name): set<Row> {
      if name in records then records[name] else {}
    }
  }

  // ---------------------------------------------------------------------------------------------
  // What the records should be
  // ---------------------------------------------------------------------------------------------

  ghost function KeyOf(db: Database, name: Name, id: Uuid, doc: Doc): Row
    requires name in db.indices
  {
    IndexedValues(db.Def(db.indices[name].table), db.indices[name], doc) + [Uuid(id)]
  }

  /** The record keys of the table's visible rows. */
  ghost function Keys(db: Database, name: Name): set<Row>
    requires name in db.indices
  {
    var docs := db.Docs(db.indices[name].table);
    set id | id in docs :: KeyOf(db, name, id, docs[id])
  }

  ghost predicate Singular(def: TableDef) {
    exists n :: PrimaryNames(def) == {n}
  }

  /** A row of a table that has a primary key, with its id as the value of it. */
  ghost predicate GoodDoc(def: TableDef, id: Uuid, doc: Doc) {
    PrimaryNames(def) != {} && forall n :: PrimaryNames(def) == {n} ==> ValueOf(def, doc, n) == Uuid(id)
  }

  ghost predicate Identified(db: Database) {
    forall t, id :: id in db.Docs(t) ==> GoodDoc(db.Def(t), id, db.Docs(t)[id])
  }

  ghost predicate IndexAgrees(db: Database, name: Name)
    requires name in db.indices
  {
    var table := db.indices[name].table;
    && name in db.records
    && Resolves(db.Def(table), db.indices[name])
    && (db.Docs(table) != map[] ==> Singular(db.Def(table)))
    && db.records[name] == Keys(db, name)
  }

  /** Every index that is not dropped, on a table that is not dropped, has exactly the records of the visible rows. */
  ghost predicate Agreement(db: Database) {
    forall name :: name in db.indices && !db.indices[name].deleted && !db.Def(db.indices[name].table).deleted ==>
                     IndexAgrees(db, name)
  }

  /** A deleted row is not visible. */
  ghost predicate Buried(db: Database) {
    forall t, id :: id in db.Dead(t) ==> id !in db.Docs(t)
  }

  ghost predicate Good(db: Database) {
    Agreement(db) && Identified(db) && Buried(db)
  }

  predicate NoNull(values: Row) {
    Null !in values
  }

  /** The first row's values on the index, unless one is null, are not the second's. */
  ghost predicate DifferentValues(db: Database, name: Name, a: Uuid, b: Uuid)
    requires name in db.indices && a in db.Docs(db.indices[name].table) && b in db.Docs(db.indices[name].table)
  {
    var table := db.indices[name].table;
    var x := IndexedValues(db.Def(table), db.indices[name], db.Docs(table)[a]);
    var y := IndexedValues(db.Def(table), db.indices[name], db.Docs(table)[b]);
    NoNull(x) ==> x != y
  }

  /** No two visible rows share the same values, none of them null, on a unique index. */
  ghost predicate UniqueOn(db: Database, name: Name)
    requires name in db.indices
  {
    var docs := db.Docs(db.indices[name].table);
    db.indices[name].unique ==> forall a, b :: a in docs && b in docs && a != b ==> DifferentValues(db, name, a, b)
  }

  ghost predicate Unique(db: Database) {
    forall name :: name in db.indices && !db.indices[name].deleted && !db.Def(db.indices[name].table).deleted ==>
                     UniqueOn(db, name)
  }

  // ---------------------------------------------------------------------------------------------
  // The effect of one row update on the records
  // ---------------------------------------------------------------------------------------------

  ghost function KeySet(db: Database, name: Name, id: Uuid, doc: Option<Doc>): set<Row>
    requires name in db.indices
  {
    if doc.Some? then {KeyOf(db, name, id, doc.value)} else {}
  }

  ghost predicate IndexUpdated(db: Database, name: Name, records: set<Row>, id: Uuid, before: Option<Doc>,
                               after: Option<Doc>)
    requires name in db.indices
  {
    && (before.Some? || after.Some? ==> Singular(db.Def(db.indices[name].table)))
    && records == db.Records(name) - KeySet(db, name, id, before) + KeySet(db, name, id, after)
  }

  ghost predicate Updated(db: Database, records: map<Name, set<Row>>, table: Name, id: Uuid, before: Option<Doc>,
                          after: Option<Doc>)
  {
    && (forall name :: db.Indexed(name, table) ==>
          && name in records && Resolves(db.Def(table), db.indices[name])
          && IndexUpdated(db, name, records[name], id, before, after))
    && (forall name :: !db.Indexed(name, table) ==>
          (name in records <==> name in db.records) && (name in records ==> records[name] == db.records[name]))
  }

  predicate HasPrefix(key: Row, values: Row) {
    values <= key
  }

  /** Another record of the unique index has the same values, none of them null. */
  ghost predicate Conflict(db: Database, name: Name, id: Uuid, before: Option<Doc>, after: Doc)
    requires name in db.indices
  {
    var values := IndexedValues(db.Def(db.indices[name].table), db.indices[name], after);
    && db.indices[name].unique && NoNull(values)
    && exists key :: key in db.Records(name) - KeySet(db, name, id, before) && HasPrefix(key, values)
  }

  /** Every index of the table names live columns of it. */
  ghost predicate AllResolve(db: Database, table: Name) {
    forall name :: db.Indexed(name, table) ==> !db.Def(table).deleted && Resolves(db.Def(table), db.indices[name])
  }

  /** When one index takes a row update. */
  ghost predicate IndexAccepts(db: Database, name: Name, id: Uuid, before: Option<Doc>, after: Option<Doc>,
                               enforced: bool)
    requires name in db.indices
  {
    && (before.Some? || after.Some? ==> Singular(db.Def(db.indices[name].table)))
    && (enforced && after.Some? ==> !Conflict(db, name, id, before, after.value))
  }

  /** When all indexes of a table take a row update. */
  ghost predicate UpdateAccepted(db: Database, table: Name, id: Uuid, before: Option<Doc>, after: Option<Doc>,
                                 enforced: bool)
  {
    && !db.Def(table).deleted && AllResolve(db, table)
    && forall name :: db.Indexed(name, table) ==> IndexAccepts(db, name, id, before, after, enforced)
  }

  /** The slice starts past the end for a row longer than the column list. */
  function MaterializeDefaults(cols: seq<Column>, row: Row): (full: Row)
    requires |row| <= |cols|
    ensures |full| == |cols| && row <= full
  {
    row + seq(|cols| - |row|, i requires 0 <= i < |cols| - |row| => cols[|row| + i].default)
  }

  ghost predicate Decodes(def: TableDef, row: Option<Row>, id: Uuid, doc: Option<Doc>) {
    && row == (if doc.Some? then Some(Decode(ColumnsOf(def), doc.value)) else None)
    && (doc.Some? ==> GoodDoc(def, id, doc.value))
  }

  class Transaction {
    var db: Database

    constructor (db: Database)
      ensures this.db == db
    {
      this.db := db;
    }

    method IndexesForTable(table: Name) returns (r: Result<map<Name, IndexSchema>, EngineError>)
      ensures r.Ok? <==> AllResolve(db, table)
      ensures r != Err(UniqueViolation)
      ensures r.Ok? ==> forall name :: name in r.value <==> db.Indexed(name, table)
      ensures r.Ok? ==> forall name :: name in r.value ==>
                name in db.indices && Fits(r.value[name], db.Def(table), db.indices[name])
    {
      var schemas := map[];
      var names := db.indices.Keys;
      while names != {}
        invariant names <= db.indices.Keys
        invariant forall name :: name in schemas <==> name !in names && db.Indexed(name, table)
        invariant forall name :: name in schemas ==>
                    !db.Def(table).deleted && Resolves(db.Def(table), db.indices[name])
                    && Fits(schemas[name], db.Def(table), db.indices[name])
        decreases names
      {
        var name :| name in names;
        if db.indices[name].table == table && !db.indices[name].deleted {
          var schema := ResolveIndex(db.indices[name], db.Def(table));
          if schema.Err? {
            assert db.Indexed(name, table);
            return Err(schema.error);
          }
          schemas := schemas[name := schema.value];
        }
        names := names - {name};
      }
      r := Ok(schemas);
    }

    method UniqueKeyExists(stored: set<Row>, values: Row) returns (found: bool)
      ensures found <==> exists key :: key in stored && HasPrefix(key, values)
    {
      var left := stored;
      while left != {}
        invariant left <= stored
        invariant forall key :: key in stored && key !in left ==> !HasPrefix(key, values)
        decreases left
      {
        var candidate :| candidate in left;
        if HasPrefix(candidate, values) {
          return true;
        }
        left := left - {candidate};
      }
      found := false;
    }

    /** The record of one index for a row. */
    method RowKey(cols: seq<Column>, schema: IndexSchema, row: Row, ghost name: Name, ghost table: Name, ghost id: Uuid,
                  ghost doc: Doc) returns (r: Result<Row, EngineError>)
      requires db.Indexed(name, table) && cols == ColumnsOf(db.Def(table))
               && Decodes(db.Def(table), Some(row), id, Some(doc))
      requires Fits(schema, db.Def(table), db.indices[name])
      ensures r.Ok? <==> Singular(db.Def(table))
      ensures r.Ok? ==> r.value == KeyOf(db, name, id, doc)
      ensures r.Err? ==> r.error == BadPrimaryKey
    {
      var full := MaterializeDefaults(cols, row);
      assert full == row;
      var rowId := RowId(cols, full, db.Def(table), doc);
      if rowId.Err? {
        return Err(rowId.error);
      }
      var key := RecordKey(schema, rowId.value, full, db.Def(table), db.indices[name], doc);
      r := Ok(key);
    }

    /** One index: the old row's record goes, and the new row's comes unless it would repeat the values of another on
        a unique index. */
    method UpdateIndex(table: Name, name: Name, cols: seq<Column>, schema: IndexSchema, oldRow: Option<Row>,
                       newRow: Option<Row>, enforceUnique: bool, ghost id: Uuid, ghost before: Option<Doc>,
                       ghost after: Option<Doc>)
      returns (r: Result<set<Row>, EngineError>)
      requires db.Indexed(name, table) && cols == ColumnsOf(db.Def(table))
      requires Fits(schema, db.Def(table), db.indices[name])
      requires Decodes(db.Def(table), oldRow, id, before) && Decodes(db.Def(table), newRow, id, after)
      ensures r.Ok? <==> IndexAccepts(db, name, id, before, after, enforceUnique)
      ensures r.Ok? ==> IndexUpdated(db, name, r.value, id, before, after)
      ensures r == Err(UniqueViolation) ==>
                enforceUnique && after.Some? && Conflict(db, name, id, before, after.value)
      ensures r.Err? && Singular(db.Def(table)) ==> r == Err(UniqueViolation)
    {
      var stored := db.Records(name);
      if oldRow.Some? {
        var key := RowKey(cols, schema, oldRow.value, name, table, id, before.value);
        if key.Err? {
          return Err(key.error);
        }
        stored := stored - {key.value};
      }
      assert stored == db.Records(name) - KeySet(db, name, id, before);
      if newRow.Some? {
        var key := RowKey(cols, schema, newRow.value, name, table, id, after.value);
        if key.Err? {
          return Err(key.error);
        }
        var values := key.value[..|key.value| - 1];
        ghost var indexed := IndexedValues(db.Def(table), db.indices[name], after.value);
        assert key.value == indexed + [Uuid(id)];
        assert values == indexed;
        assert NoNull(values) <==> NoNull(key.value);
        var taken := UniqueKeyExists(stored, values);
        if enforceUnique && schema.unique && NoNull(key.value) && taken {
          return Err(UniqueViolation);
        }
        stored := stored + {key.value};
      }
      r := Ok(stored);
    }

    /** The next index of a table, after those in `done`. */
    method UpdateNext(table: Name, name: Name, cols: seq<Column>, schema: IndexSchema, oldRow: Option<Row>,
                      newRow: Option<Row>, enforceUnique: bool, ghost id: Uuid, ghost before: Option<Doc>,
                      ghost after: Option<Doc>, ghost start: Database, ghost done: set<Name>)
      returns (r: Result<bool, EngineError>)
      requires db == start.(records := db.records) && start.Indexed(name, table) && name !in done
      requires cols == ColumnsOf(start.Def(table)) && Fits(schema, start.Def(table), start.indices[name])
      requires Decodes(start.Def(table), oldRow, id, before) && Decodes(start.Def(table), newRow, id, after)
      requires PartUpdated(start, db.records, done, id, before, after, enforceUnique)
      modifies this
      ensures db == start.(records := db.records)
      ensures r.Ok? <==> IndexAccepts(start, name, id, before, after, enforceUnique)
      ensures r.Ok? ==> PartUpdated(start, db.records, done + {name}, id, before, after, enforceUnique)
      ensures r == Err(UniqueViolation) ==>
                enforceUnique && after.Some? && Conflict(start, name, id, before, after.value)
      ensures r.Err? && Singular(start.Def(table)) ==> r == Err(UniqueViolation)
    {
      SameUpdate(start, db, name, id, before, after, enforceUnique);
      var updated := UpdateIndex(table, name, cols, schema, oldRow, newRow, enforceUnique, id, before, after);
      if updated.Err? {
        return Err(updated.error);
      }
      PartUpdatedMore(start, db.records, done, name, updated.value, id, before, after, enforceUnique);
      db := db.(records := db.records[name := updated.value]);
      r := Ok(true);
    }

    /** The indexes of a table, one after another. */
    method UpdateIndexes(table: Name, cols: seq<Column>, schemas: map<Name, IndexSchema>, oldRow: Option<Row>,
                         newRow: Option<Row>, enforceUnique: bool, ghost id: Uuid, ghost before: Option<Doc>,
                         ghost after: Option<Doc>) returns (r: Result<bool, EngineError>)
      requires cols == ColumnsOf(db.Def(table))
      requires forall name :: name in schemas ==>
                 db.Indexed(name, table) && Fits(schemas[name], db.Def(table), db.indices[name])
      requires Decodes(db.Def(table), oldRow, id, before) && Decodes(db.Def(table), newRow, id, after)
      modifies this
      ensures db == old(db).(records := db.records)
      ensures r.Ok? ==> PartUpdated(old(db), db.records, schemas.Keys, id, before, after, enforceUnique)
      ensures r.Err? ==>
                exists name :: name in schemas && name in old(db).indices
                               && !IndexAccepts(old(db), name, id, before, after, enforceUnique)
      ensures r == Err(UniqueViolation) ==>
                enforceUnique && after.Some?
                && exists name :: name in schemas && name in old(db).indices
                                  && Conflict(old(db), name, id, before, after.value)
      ensures r.Err? && Singular(old(db).Def(table)) ==> r == Err(UniqueViolation)
    {
      ghost var start := db;
      var left := schemas.Keys;
      ghost var done: set<Name> := {};
      while left != {}
        invariant done !! left && done + left == schemas.Keys && db == start.(records := db.records)
        invariant PartUpdated(start, db.records, done, id, before, after, enforceUnique)
        decreases left
      {
        var name :| name in left;
        r := UpdateNext(table, name, cols, schemas[name], oldRow, newRow, enforceUnique,
                        id, before, after, start, done);
        if r.Err? {
          assert name in schemas && name in start.indices;
          return;
        }
        done, left := done + {name}, left - {name};
      }
      assert done == schemas.Keys;
      r := Ok(true);
    }

    /** `update_row`: in every index of the table, the old row's record goes and the new row's comes. */
    method UpdateRow(table: Name, oldRow: Option<Row>, newRow: Option<Row>, enforceUnique: bool,
                     ghost id: Uuid, ghost before: Option<Doc>, ghost after: Option<Doc>)
      returns (r: Result<bool, EngineError>)
      requires Decodes(db.Def(table), oldRow, id, before) && Decodes(db.Def(table), newRow, id, after)
      modifies this
      ensures db == old(db).(records := db.records)
      ensures r.Ok? <==> UpdateAccepted(old(db), table, id, before, after, enforceUnique)
      ensures r.Ok? ==> Updated(old(db), db.records, table, id, before, after)
      ensures r == Err(UniqueViolation) ==>
                enforceUnique && after.Some?
                && exists name :: old(db).Indexed(name, table) && Conflict(old(db), name, id, before, after.value)
      ensures r.Err? && !old(db).Def(table).deleted && AllResolve(old(db), table) && Singular(old(db).Def(table)) ==>
                r == Err(UniqueViolation)
    {
      var columns := Columns(db.Def(table));
      if columns.Err? {
        return Err(TableNotFound);
      }
      var schemas := IndexesForTable(table);
      if schemas.Err? {
        return Err(schemas.error);
      }
      ghost var start := db;
      r := UpdateIndexes(table, columns.value, schemas.value, oldRow, newRow, enforceUnique, id, before, after);
      if r.Ok? {
        AllUpdated(start, db.records, schemas.value.Keys, table, id, before, after, enforceUnique);
      }
    }

    /** `get_row`: the row the codec decodes, in its own column list. */
    method GetRow(table: Name, id: Uuid) returns (row: Option<Row>)
      requires Identified(db)
      ensures Decodes(db.Def(table), row, id, db.DocAt(table, id))
    {
      if id !in db.Docs(table) {
        return None;
      }
      var doc := db.Docs(table)[id];
      var cols := CodecColumns(db.Def(table), |doc|);
      HasColumns(db.Def(table), id, doc);
      row := Some(Decode(cols, doc));
    }

    /** One row entered into every index of its table. */
    method EnterRow(table: Name, cols: seq<Column>, id: Uuid, enforceUnique: bool, ghost seen: set<Uuid>)
      returns (r: Result<bool, EngineError>)
      requires Identified(db) && cols == ColumnsOf(db.Def(table)) && id in db.Docs(table) && id !in seen
      requires AllEntered(db, table, seen, enforceUnique) && AllResolve(db, table) && !db.Def(table).deleted
      modifies this
      ensures db == old(db).(records := db.records) && Identified(db)
      ensures r.Err? ==> !Rebuildable(old(db), table, enforceUnique)
      ensures r.Ok? ==> AllEntered(db, table, seen + {id}, enforceUnique) && SameElsewhere(old(db), db, table)
    {
      ghost var doc, before := db.Docs(table)[id], db;
      assert db.DocAt(table, id) == Some(doc);
      var row := GetRow(table, id);
      var full := MaterializeDefaults(cols, row.value);
      assert full == row.value;
      r := UpdateRow(table, None, Some(full), enforceUnique, id, None, Some(doc));
      SameIdentified(before, db);
      if r.Ok? {
        forall name | db.Indexed(name, table)
          ensures Entered(db, name, seen + {id}, enforceUnique)
        {
          EnterOne(before, db, name, table, seen, id, enforceUnique);
        }
      } else {
        RefusedEntry(before, table, seen, id, enforceUnique);
      }
    }

    /** The table's indexes, emptied. */
    method ClearIndexes(table: Name, schemas: map<Name, IndexSchema>)
      requires Identified(db) && forall name :: name in schemas <==> db.Indexed(name, table)
      modifies this
      ensures db == old(db).(records := db.records) && Identified(db)
      ensures AllEntered(db, table, {}, true) && SameElsewhere(old(db), db, table)
    {
      ghost var before := db;
      db := db.(records := map name | name in db.records.Keys + schemas.Keys ::
                              if name in schemas then {} else db.records[name]);
      SameIdentified(before, db);
    }

    /** Every visible row of the table, entered one after another. */
    method EnterRows(table: Name, cols: seq<Column>, enforceUnique: bool) returns (r: Result<bool, EngineError>)
      requires Identified(db) && cols == ColumnsOf(db.Def(table))
      requires AllEntered(db, table, {}, enforceUnique) && AllResolve(db, table) && !db.Def(table).deleted
      modifies this
      ensures db == old(db).(records := db.records) && Identified(db)
      ensures r.Err? ==> !Rebuildable(old(db), table, enforceUnique)
      ensures r.Ok? ==> AllEntered(db, table, db.Docs(table).Keys, enforceUnique) && SameElsewhere(old(db), db, table)
    {
      ghost var start := db;
      var ids := db.Docs(table).Keys;
      ghost var seen: set<Uuid> := {};
      while ids != {}
        invariant ids !! seen && ids + seen == start.Docs(table).Keys
        invariant db == start.(records := db.records) && Identified(db)
        invariant AllEntered(db, table, seen, enforceUnique) && SameElsewhere(start, db, table)
        decreases ids
      {
        var id :| id in ids;
        RecordsApart(start, db, table, enforceUnique);
        r := EnterRow(table, cols, id, enforceUnique, seen);
        if r.Err? {
          return;
        }
        ids, seen := ids - {id}, seen + {id};
      }
      assert seen == db.Docs(table).Keys;
      r := Ok(true);
    }

    /** `rebuild_table`: empties the table's indexes and enters every visible row afresh. */
    method RebuildTable(table: Name, enforceUnique: bool) returns (r: Result<bool, EngineError>)
      requires Identified(db)
      modifies this
      ensures db == old(db).(records := db.records) && Identified(db)
      ensures r.Ok? <==> Rebuildable(old(db), table, enforceUnique)
      ensures r.Ok? ==> forall name :: db.Indexed(name, table) ==> IndexAgrees(db, name)
      ensures r.Ok? ==> SameElsewhere(old(db), db, table)
    {
      ghost var start := db;
      var schemas := IndexesForTable(table);
      if schemas.Err? {
        return Err(schemas.error);
      }
      ClearIndexes(table, schemas.value);
      RecordsApart(start, db, table, enforceUnique);
      var columns := Columns(db.Def(table));
      if columns.Err? {
        return Err(columns.error);
      }
      r := EnterRows(table, columns.value, enforceUnique);
      if r.Ok? {
        TableEntered(start, db, table, enforceUnique);
      }
    }

    /** The index table's keys as a scan of the byte-keyed table yields them. */
    method ScanKeys(name: Name, serialize: Row -> seq<Byte>) returns (entries: seq<Row>)
      requires name in db.records
      ensures forall key :: key in entries <==> key in db.records[name]
      ensures InByteOrder(entries, serialize)
    {
      entries := [];
      var left := db.records[name];
      while left != {}
        invariant left <= db.records[name]
        invariant forall key :: key in entries <==> key in db.records[name] && key !in left
        invariant InByteOrder(entries, serialize)
        invariant forall e, l :: e in entries && l in left ==>
                    Less(RowTable.EncodeKey(e, serialize), RowTable.EncodeKey(l, serialize))
        decreases left
      {
        var least := Least(left, serialize);
        left := left - {least};
        entries := entries + [least];
      }
    }

    /** `lookup`: scans the index for the first key that begins with the values, and reads that row. */
    method Lookup(name: Name, values: Row, serialize: Row -> seq<Byte>) returns (r: Result<Option<Row>, EngineError>)
      requires Good(db)
      ensures name !in db.indices || db.indices[name].deleted ==> r == Err(IndexNotFound)
      ensures name in db.indices && !db.indices[name].deleted && db.Def(db.indices[name].table).deleted ==>
              r == Err(TableNotFound)
      ensures Searchable(db, name) && |values| != |LiveNames(db.indices[name].fields)| ==> r == Err(WrongColumnCount)
      ensures Searchable(db, name) && |values| == |LiveNames(db.indices[name].fields)| ==> r.Ok?
      ensures r.Ok? ==> Searchable(db, name) && IsLookup(db, name, values, r.value)
    {
      if name !in db.indices || db.indices[name].deleted {
        return Err(IndexNotFound);
      }
      var table := db.indices[name].table;
      var schema := ResolveIndex(db.indices[name], db.Def(table));
      assert !db.Def(table).deleted ==> IndexAgrees(db, name);
      if schema.Err? {
        return Err(schema.error);
      }
      if |values| != |schema.value.positions| {
        return Err(WrongColumnCount);
      }
      var entries := ScanKeys(name, serialize);
      for i := 0 to |entries|
        invariant forall j :: 0 <= j < i ==> !HasPrefix(entries[j], values)
      {
        if HasPrefix(entries[i], values) {
          var row := ReadWinner(name, values, entries, i, serialize);
          return Ok(row);
        }
      }
      NoneMatches(db, name, values, entries);
      r := Ok(None);
    }

    /** The row the first key with the values belongs to. */
    method ReadWinner(name: Name, values: Row, entries: seq<Row>, i: nat, ghost serialize: Row -> seq<Byte>)
      returns (row: Option<Row>)
      requires Good(db) && Searchable(db, name) && |values| == |LiveNames(db.indices[name].fields)|
      requires name in db.records && (forall key :: key in entries <==> key in db.records[name])
      requires InByteOrder(entries, serialize)
      requires i < |entries| && HasPrefix(entries[i], values)
      requires forall j :: 0 <= j < i ==> !HasPrefix(entries[j], values)
      ensures IsLookup(db, name, values, row)
    {
      assert IndexAgrees(db, name) && entries[i] in entries;
      var table := db.indices[name].table;
      var winner := WinnerOf(entries[i]);
      assert winner in db.Docs(table) && KeyOf(db, name, winner, db.Docs(table)[winner]) == entries[i];
      FirstIsLeast(db, name, values, entries, i, winner, serialize);
      row := GetRow(table, winner);
    }
  }

  predicate InByteOrder(entries: seq<Row>, serialize: Row -> seq<Byte>) {
    forall i, j :: 0 <= i < j < |entries| ==>
                     Less(RowTable.EncodeKey(entries[i], serialize), RowTable.EncodeKey(entries[j], serialize))
  }

  method Least(keys: set<Row>, serialize: Row -> seq<Byte>) returns (least: Row)
    requires keys != {}
    ensures least in keys
    ensures forall key :: key in keys && key != least ==>
              Less(RowTable.EncodeKey(least, serialize), RowTable.EncodeKey(key, serialize))
  {
    least :| least in keys;
    var left := keys - {least};
    while left != {}
      invariant left <= keys && least in keys && least !in left
      invariant forall key :: key in keys && key !in left && key != least ==>
                  Less(RowTable.EncodeKey(least, serialize), RowTable.EncodeKey(key, serialize))
      decreases left
    {
      var candidate :| candidate in left;
      ghost var before := least;
      RowTable.KeyOrderReflected(candidate, least, serialize);
      LessTotal(RowTable.EncodeKey(candidate, serialize), RowTable.EncodeKey(least, serialize));
      left := left - {candidate};
      if Less(RowTable.EncodeKey(candidate, serialize), RowTable.EncodeKey(least, serialize)) {
        forall key | key in keys && key !in left && key != candidate
          ensures Less(RowTable.EncodeKey(candidate, serialize), RowTable.EncodeKey(key, serialize))
        {
          if key != before {
            LessTransitive(RowTable.EncodeKey(candidate, serialize), RowTable.EncodeKey(before, serialize),
                           RowTable.EncodeKey(key, serialize));
          }
        }
        least := candidate;
      }
    }
  }

  /** The row id at the end of a record key. */
  function WinnerOf(key: Row): Uuid
    requires key != [] && key[|key| - 1].Uuid?
  {
    key[|key| - 1].id
  }

  ghost predicate Searchable(db: Database, name: Name) {
    name in db.indices && !db.indices[name].deleted && !db.Def(db.indices[name].table).deleted
  }

  /** The visible row has these values under the indexed columns. */
  ghost predicate Matches(db: Database, name: Name, values: Row, id: Uuid)
    requires name in db.indices
  {
    var table := db.indices[name].table;
    id in db.Docs(table) && IndexedValues(db.Def(table), db.indices[name], db.Docs(table)[id]) == values
  }

  /** The answer of a lookup: of the matching visible rows the one with the smallest id, None exactly without one. */
  ghost predicate IsLookup(db: Database, name: Name, values: Row, answer: Option<Row>)
    requires name in db.indices
  {
    var table := db.indices[name].table;
    match answer
    case None => forall id: Uuid :: !Matches(db, name, values, id)
    case Some(row) =>
      exists id: Uuid :: Matches(db, name, values, id) && row == Decode(ColumnsOf(db.Def(table)), db.Docs(table)[id])
                   && forall other: Uuid :: Matches(db, name, values, other) && other != id ==> Less(id, other)
  }

  lemma {:induction false} MatchIsPrefix(db: Database, name: Name, values: Row, id: Uuid)
    requires name in db.indices && |values| == |LiveNames(db.indices[name].fields)|
             && id in db.Docs(db.indices[name].table)
    ensures Matches(db, name, values, id) <==>
            HasPrefix(KeyOf(db, name, id, db.Docs(db.indices[name].table)[id]), values)
  {
    var table := db.indices[name].table;
    var x := IndexedValues(db.Def(table), db.indices[name], db.Docs(table)[id]);
    assert (x + [Uuid(id)])[..|values|] == x;
  }

  lemma {:induction false} NoneMatches(db: Database, name: Name, values: Row, entries: seq<Row>)
    requires Searchable(db, name) && IndexAgrees(db, name) && |values| == |LiveNames(db.indices[name].fields)|
    requires forall key :: key in entries <==> key in db.records[name]
    requires forall j :: 0 <= j < |entries| ==> !HasPrefix(entries[j], values)
    ensures IsLookup(db, name, values, None)
  {
    var docs := db.Docs(db.indices[name].table);
    forall id | id in docs
      ensures !Matches(db, name, values, id)
    {
      MatchIsPrefix(db, name, values, id);
      assert KeyOf(db, name, id, docs[id]) in entries;
    }
  }

  /** In byte order the keys with the same values stand in the order of the row ids they end with. */
  lemma {:induction false} SameValuesById(values: Row, a: Uuid, b: Uuid, serialize: Row -> seq<Byte>)
    requires Less(RowTable.EncodeKey(values + [Uuid(a)], serialize), RowTable.EncodeKey(values + [Uuid(b)], serialize))
    ensures Less(a, b)
  {
    var x, y := values + [Uuid(a)], values + [Uuid(b)];
    LessTotal(a, b);
    if a == b {
      LessIrreflexive(RowTable.EncodeKey(x, serialize));
    } else if Less(b, a) {
      assert y[..|values|] == x[..|values|];
      assert RowBelowAt(y, x, |values|);
      RowTable.KeyOrderPreserved(y, x, serialize);
      LessAsymmetric(RowTable.EncodeKey(y, serialize), RowTable.EncodeKey(x, serialize));
    }
  }

  lemma {:induction false} FirstIsLeast(db: Database, name: Name, values: Row, entries: seq<Row>, i: nat, winner: Uuid,
                     serialize: Row -> seq<Byte>)
    requires Searchable(db, name) && IndexAgrees(db, name) && |values| == |LiveNames(db.indices[name].fields)|
    requires forall key :: key in entries <==> key in db.records[name]
    requires InByteOrder(entries, serialize)
    requires i < |entries| && HasPrefix(entries[i], values) && forall j :: 0 <= j < i ==> !HasPrefix(entries[j], values)
    requires var docs := db.Docs(db.indices[name].table);
             winner in docs && KeyOf(db, name, winner, docs[winner]) == entries[i]
    ensures Matches(db, name, values, winner)
    ensures forall other: Uuid :: Matches(db, name, values, other) && other != winner ==> Less(winner, other)
  {
    var docs := db.Docs(db.indices[name].table);
    MatchIsPrefix(db, name, values, winner);
    forall other: Uuid | Matches(db, name, values, other) && other != winner
      ensures Less(winner, other)
    {
      MatchIsPrefix(db, name, values, other);
      var key := KeyOf(db, name, other, docs[other]);
      assert key in entries;
      var j :| 0 <= j < |entries| && entries[j] == key;
      assert entries[i] == values + [Uuid(winner)] && key == values + [Uuid(other)];
      assert entries[i][|values|] == Uuid(winner) && key[|values|] == Uuid(other);
      assert i < j;
      SameValuesById(values, winner, other, serialize);
    }
  }

  /** When the indexes of a table can be built from its visible rows. */
  ghost predicate Rebuildable(db: Database, table: Name, enforced: bool) {
    && !db.Def(table).deleted && AllResolve(db, table)
    && forall name :: db.Indexed(name, table) ==>
                        && (db.Docs(table) != map[] ==> Singular(db.Def(table)))
                        && (enforced ==> UniqueOn(db, name))
  }

  lemma {:induction false} SameUnique(a: Database, b: Database, name: Name)
    requires b == a.(records := b.records) && name in a.indices
    ensures UniqueOn(a, name) == UniqueOn(b, name)
  {
    assert a.Docs(a.indices[name].table) == b.Docs(a.indices[name].table);
    assert a.Def(a.indices[name].table) == b.Def(a.indices[name].table);
  }

  lemma {:induction false} RecordsApart(a: Database, b: Database, table: Name, enforced: bool)
    requires b == a.(records := b.records)
    ensures Rebuildable(a, table, enforced) == Rebuildable(b, table, enforced)
  {
    forall name | name in a.indices
      ensures UniqueOn(a, name) == UniqueOn(b, name)
    {
      SameUnique(a, b, name);
    }
  }

  lemma {:induction false} TableEntered(start: Database, db: Database, table: Name, enforced: bool)
    requires db == start.(records := db.records) && AllResolve(db, table) && !db.Def(table).deleted
    requires AllEntered(db, table, db.Docs(table).Keys, enforced)
    ensures Rebuildable(start, table, enforced) && forall name :: db.Indexed(name, table) ==> IndexAgrees(db, name)
  {
    RecordsApart(start, db, table, enforced);
    forall name | db.Indexed(name, table)
      ensures IndexAgrees(db, name) && (enforced ==> UniqueOn(db, name))
    {
      EnteredAgrees(db, name, enforced);
    }
  }

  /** A row that cannot be entered shows that the indexes cannot be built. */
  lemma {:induction false} RefusedEntry(db: Database, table: Name, seen: set<Uuid>, id: Uuid, enforced: bool)
    requires AllEntered(db, table, seen, enforced) && AllResolve(db, table) && !db.Def(table).deleted
    requires id in db.Docs(table) && id !in seen
    requires !UpdateAccepted(db, table, id, None, Some(db.Docs(table)[id]), enforced)
    ensures !Rebuildable(db, table, enforced)
  {
    var doc := db.Docs(table)[id];
    var name :| db.Indexed(name, table) && !IndexAccepts(db, name, id, None, Some(doc), enforced);
    if Singular(db.Def(table)) {
      var values := IndexedValues(db.Def(table), db.indices[name], doc);
      var key :| key in db.Records(name) && HasPrefix(key, values);
      assert key in KeysIn(db, name, seen);
      var other :| other in seen && other in db.Docs(table) && key == KeyOf(db, name, other, db.Docs(table)[other]);
      assert IndexedValues(db.Def(table), db.indices[name], db.Docs(table)[other]) == key[..|values|] == values;
      assert !DifferentValues(db, name, id, other);
    }
  }

  ghost predicate AllEntered(db: Database, table: Name, ids: set<Uuid>, enforced: bool) {
    forall name :: db.Indexed(name, table) ==> Entered(db, name, ids, enforced)
  }

  /** The records of what is no index of the table are the same. */
  ghost predicate SameElsewhere(a: Database, b: Database, table: Name) {
    forall name :: !a.Indexed(name, table) ==>
                     (name in b.records <==> name in a.records)
                       && (name in b.records ==> b.records[name] == a.records[name])
  }

  lemma {:induction false} SameIdentified(a: Database, b: Database)
    requires Identified(a) && b == a.(records := b.records)
    ensures Identified(b)
  {
    forall t, id | id in b.Docs(t)
      ensures GoodDoc(b.Def(t), id, b.Docs(t)[id])
    {
      assert id in a.Docs(t);
    }
  }

  /** A document with a primary key belongs to a table that has a column. */
  lemma {:induction false} HasColumns(def: TableDef, id: Uuid, doc: Doc)
    requires GoodDoc(def, id, doc)
    ensures ColumnsOf(def) != []
  {
    var n :| n in PrimaryNames(def);
    assert ColumnOf(def, n) in ColumnsOf(def);
  }

  ghost function KeysIn(db: Database, name: Name, ids: set<Uuid>): set<Row>
    requires name in db.indices
  {
    var docs := db.Docs(db.indices[name].table);
    set id | id in ids && id in docs :: KeyOf(db, name, id, docs[id])
  }

  ghost predicate UniqueAmong(db: Database, name: Name, ids: set<Uuid>)
    requires name in db.indices
  {
    var docs := db.Docs(db.indices[name].table);
    db.indices[name].unique ==>
      forall a, b :: a in ids && b in ids && a in docs && b in docs && a != b ==> DifferentValues(db, name, a, b)
  }

  /** The index holds exactly the records of these rows. */
  ghost predicate Entered(db: Database, name: Name, ids: set<Uuid>, enforced: bool)
    requires name in db.indices
  {
    && name in db.records && db.records[name] == KeysIn(db, name, ids)
    && (ids != {} ==> Singular(db.Def(db.indices[name].table)))
    && (enforced ==> UniqueAmong(db, name, ids))
  }

  lemma {:induction false} EnterOne(a: Database, b: Database, name: Name, table: Name, ids: set<Uuid>, id: Uuid,
                                    enforced: bool)
    requires b == a.(records := b.records) && a.Indexed(name, table) && id in a.Docs(table) && id !in ids
    requires Entered(a, name, ids, enforced)
    requires Updated(a, b.records, table, id, None, Some(a.Docs(table)[id]))
    requires enforced ==> !Conflict(a, name, id, None, a.Docs(table)[id])
    ensures Entered(b, name, ids + {id}, enforced)
  {
    var doc := a.Docs(table)[id];
    assert IndexUpdated(a, name, b.records[name], id, None, Some(doc));
    assert KeysIn(b, name, ids + {id}) == KeysIn(a, name, ids) + {KeyOf(a, name, id, doc)};
    if enforced && a.indices[name].unique {
      forall x, y | x in ids + {id} && y in ids + {id} && x in a.Docs(table) && y in a.Docs(table) && x != y
        ensures DifferentValues(b, name, x, y)
      {
        if x == id || y == id { NoConflictNoRepeat(a, name, id, if x == id then y else x); }
        SameDifference(a, b, name, x, y);
      }
    }
  }

  lemma {:induction false} SameDifference(a: Database, b: Database, name: Name, x: Uuid, y: Uuid)
    requires b == a.(records := b.records) && name in a.indices
    requires x in a.Docs(a.indices[name].table) && y in a.Docs(a.indices[name].table)
    ensures DifferentValues(a, name, x, y) == DifferentValues(b, name, x, y)
  {
  }

  lemma {:induction false} NoConflictNoRepeat(db: Database, name: Name, id: Uuid, other: Uuid)
    requires name in db.indices && db.indices[name].unique
    requires var docs := db.Docs(db.indices[name].table);
             && id in docs && other in docs
             && KeyOf(db, name, other, docs[other]) in db.Records(name)
             && !Conflict(db, name, id, None, docs[id])
    ensures DifferentValues(db, name, id, other) && DifferentValues(db, name, other, id)
  {
    var table := db.indices[name].table;
    var x := IndexedValues(db.Def(table), db.indices[name], db.Docs(table)[id]);
    var y := IndexedValues(db.Def(table), db.indices[name], db.Docs(table)[other]);
    if x == y && NoNull(x) {
      assert HasPrefix(y + [Uuid(other)], x);
    }
  }

  lemma {:induction false} EnteredAgrees(db: Database, name: Name, enforced: bool)
    requires name in db.indices && Entered(db, name, db.Docs(db.indices[name].table).Keys, enforced)
    requires Resolves(db.Def(db.indices[name].table), db.indices[name])
    ensures IndexAgrees(db, name) && (enforced ==> UniqueOn(db, name))
  {
    assert KeysIn(db, name, db.Docs(db.indices[name].table).Keys) == Keys(db, name);
  }

  /** What an update of an index needs of a state are the catalog and the records of that index. */
  lemma {:induction false} SameUpdate(a: Database, b: Database, name: Name, id: Uuid, before: Option<Doc>,
                                      after: Option<Doc>, enforced: bool)
    requires b == a.(records := b.records) && name in a.indices && a.Records(name) == b.Records(name)
    ensures forall records ::
              IndexUpdated(a, name, records, id, before, after) == IndexUpdated(b, name, records, id, before, after)
    ensures after.Some? ==> Conflict(a, name, id, before, after.value) == Conflict(b, name, id, before, after.value)
    ensures IndexAccepts(a, name, id, before, after, enforced) == IndexAccepts(b, name, id, before, after, enforced)
  {
  }

  /** These indexes have been updated, and no other. */
  ghost predicate PartUpdated(start: Database, records: map<Name, set<Row>>, done: set<Name>, id: Uuid,
                              before: Option<Doc>, after: Option<Doc>, enforced: bool)
  {
    && (forall name :: name in done ==>
          && name in start.indices && name in records
          && IndexUpdated(start, name, records[name], id, before, after)
          && IndexAccepts(start, name, id, before, after, enforced))
    && (forall name :: name !in done ==>
          && (name in records <==> name in start.records)
          && (name in records ==> records[name] == start.records[name]))
  }

  lemma {:induction false} PartUpdatedMore(start: Database, records: map<Name, set<Row>>, done: set<Name>, name: Name,
                                           updated: set<Row>, id: Uuid, before: Option<Doc>, after: Option<Doc>,
                                           enforced: bool)
    requires PartUpdated(start, records, done, id, before, after, enforced) && name in start.indices
    requires IndexUpdated(start, name, updated, id, before, after)
    requires IndexAccepts(start, name, id, before, after, enforced)
    ensures PartUpdated(start, records[name := updated], done + {name}, id, before, after, enforced)
  {
    var next := records[name := updated];
    forall n | n in done + {name}
      ensures n in start.indices && n in next && IndexUpdated(start, n, next[n], id, before, after)
      ensures IndexAccepts(start, n, id, before, after, enforced)
    {
      assert n != name ==> n in done && next[n] == records[n];
    }
  }

  lemma {:induction false} AllUpdated(start: Database, records: map<Name, set<Row>>, done: set<Name>, table: Name,
                                      id: Uuid, before: Option<Doc>, after: Option<Doc>, enforced: bool)
    requires PartUpdated(start, records, done, id, before, after, enforced)
    requires AllResolve(start, table) && !start.Def(table).deleted
    requires forall name :: name in done <==> start.Indexed(name, table)
    ensures Updated(start, records, table, id, before, after)
            && UpdateAccepted(start, table, id, before, after, enforced)
  {
  }

  ghost predicate Fits(schema: IndexSchema, def: TableDef, index: IndexDef) {
    schema.unique == index.unique && Positions(ColumnsOf(def), LiveNames(index.fields)) == Some(schema.positions)
  }
}
