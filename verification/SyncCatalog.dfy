// The catalog as replicas exchange it, entry by entry, and when the indexes it defines take a received row.
module SyncCatalog {
  import opened Values
  import opened Wrappers
  import Catalog
  import Changes
  import Index

  datatype CatalogKey =
    | TableEntry(name: Catalog.Name)
    | TableField(table: Catalog.Name, column: Catalog.Name)
    | IndexEntry(name: Catalog.Name)
    | IndexField(index: Catalog.Name, position: nat)

  // `deleted` is the entry's deletion flag, `body` the rest of its values: nothing for a table; type, default, position
  // and key flag of a column; table and uniqueness of an index; and the column of an index field.
  datatype CatalogValue = CatalogValue(deleted: bool, body: Row)

  type Entries = map<CatalogKey, CatalogValue>

  function At(body: Row, i: nat): Value {
    if i < |body| then body[i] else Null
  }

  function FieldOf(v: CatalogValue): Catalog.Field {
    Catalog.Field(At(v.body, 1), if At(v.body, 2).Integer? then At(v.body, 2).number else 0,
                  At(v.body, 3) == Bool(true), v.deleted)
  }

  /** A table that has no entry is not dropped. */
  function DefOf(catalog: Entries, table: Catalog.Name): Catalog.TableDef {
    Catalog.TableDef(
      TableEntry(table) in catalog && catalog[TableEntry(table)].deleted,
      map e | e in catalog && e.TableField? && e.table == table :: e.column := FieldOf(catalog[e]))
  }

  /** An index of the table that is not dropped. */
  predicate IndexOn(catalog: Entries, name: Catalog.Name, table: Catalog.Name) {
    && IndexEntry(name) in catalog && !catalog[IndexEntry(name)].deleted
    && At(catalog[IndexEntry(name)].body, 0) == Text(table)
  }

  /** A field of the index that is not dropped. */
  predicate FieldOn(catalog: Entries, e: CatalogKey, name: Catalog.Name) {
    e.IndexField? && e.index == name && e in catalog && !catalog[e].deleted
  }

  predicate NamesLive(def: Catalog.TableDef, v: CatalogValue) {
    At(v.body, 0).Text? && Catalog.Live(def, At(v.body, 0).utf8)
  }

  /** An index takes a row of its table: its fields are live columns, and if the row is visible before or after, the
      table has exactly one key. */
  predicate IndexTakes(catalog: Entries, name: Catalog.Name, table: Catalog.Name, touched: bool) {
    && (forall e :: e in catalog && FieldOn(catalog, e, name) ==> NamesLive(DefOf(catalog, table), catalog[e]))
    && (touched ==> |Catalog.PrimaryNames(DefOf(catalog, table))| == 1)
  }

  /** When `update_row` takes a row: its table is not dropped, and all its indexes take it. */
  predicate TakesRow(catalog: Entries, table: Catalog.Name, touched: bool) {
    && !DefOf(catalog, table).deleted
    && forall e :: e in catalog && e.IndexEntry? && IndexOn(catalog, e.name, table) ==>
                     IndexTakes(catalog, e.name, table, touched)
  }

  /** The fields of one index, looked up one by one. */
  method ResolveFields(catalog: Entries, name: Catalog.Name, def: Catalog.TableDef) returns (resolved: bool)
    ensures resolved <==> forall e :: e in catalog && FieldOn(catalog, e, name) ==> NamesLive(def, catalog[e])
  {
    var left := set e | e in catalog && FieldOn(catalog, e, name);
    while left != {}
      invariant forall e :: e in left ==> e in catalog && FieldOn(catalog, e, name)
      invariant forall e :: e in catalog && FieldOn(catalog, e, name) && e !in left ==> NamesLive(def, catalog[e])
      decreases left
    {
      var e :| e in left;
      if !NamesLive(def, catalog[e]) {
        return false;
      }
      left := left - {e};
    }
    resolved := true;
  }

  /** What `update_row` checks before it enters a received row into the indexes of its table. */
  method UpdateIndexes(catalog: Entries, table: Catalog.Name, touched: bool) returns (taken: bool)
    ensures taken == TakesRow(catalog, table, touched)
  {
    var def := DefOf(catalog, table);
    if def.deleted {
      return false;
    }
    var left := set e | e in catalog && e.IndexEntry? && IndexOn(catalog, e.name, table);
    while left != {}
      invariant forall e :: e in left ==> e in catalog && e.IndexEntry? && IndexOn(catalog, e.name, table)
      invariant forall e :: e in catalog && e.IndexEntry? && IndexOn(catalog, e.name, table) && e !in left ==>
                  IndexTakes(catalog, e.name, table, touched)
      decreases left
    {
      var e :| e in left;
      var resolved := ResolveFields(catalog, e.name, def);
      if !resolved || (touched && |Catalog.PrimaryNames(def)| != 1) {
        assert !IndexTakes(catalog, e.name, table, touched);
        return false;
      }
      left := left - {e};
    }
    taken := true;
  }

  lemma {:induction false} TakesUntouched(catalog: Entries, table: Catalog.Name)
    requires TakesRow(catalog, table, true)
    ensures TakesRow(catalog, table, false)
  {
  }

  /** A table without an index takes every row. */
  lemma {:induction false} NoIndexTakes(catalog: Entries, table: Catalog.Name)
    requires forall name :: !IndexOn(catalog, name, table)
    requires TableEntry(table) in catalog ==> !catalog[TableEntry(table)].deleted
    ensures TakesRow(catalog, table, true)
  {
  }

  // ---------------------------------------------------------------------------------------------
  // The decoded catalog
  // ---------------------------------------------------------------------------------------------

  /** The database's catalog is the one the entries spell out. */
  ghost predicate Describes(catalog: Entries, db: Index.Database) {
    && (forall t :: db.Def(t) == DefOf(catalog, t))
    && (forall n, t :: db.Indexed(n, t) <==> IndexOn(catalog, n, t))
    && forall n, t :: db.Indexed(n, t) ==> SameFields(catalog, n, db.indices[n])
  }

  ghost predicate SameFields(catalog: Entries, name: Catalog.Name, index: Catalog.IndexDef) {
    && (forall e :: FieldOn(catalog, e, name) ==>
          At(catalog[e].body, 0).Text? && At(catalog[e].body, 0).utf8 in Catalog.LiveNames(index.fields))
    && forall c :: c in Catalog.LiveNames(index.fields) ==>
                     exists e :: FieldOn(catalog, e, name) && At(catalog[e].body, 0) == Text(c)
  }

  // ---------------------------------------------------------------------------------------------
  // The entries an engine writes
  // ---------------------------------------------------------------------------------------------

  function TableKeys(db: Index.Database): set<CatalogKey> {
    set t | t in db.tables :: TableEntry(t)
  }

  function FieldKeys(db: Index.Database): set<CatalogKey> {
    set t, c | t in db.tables && c in db.tables[t].fields :: TableField(t, c)
  }

  function IndexKeys(db: Index.Database): set<CatalogKey> {
    set n | n in db.indices :: IndexEntry(n)
  }

  function IndexFieldKeys(db: Index.Database): set<CatalogKey> {
    set n, i: nat | n in db.indices && i < |db.indices[n].fields| :: IndexField(n, i)
  }

  function KeysOf(db: Index.Database): set<CatalogKey> {
    TableKeys(db) + FieldKeys(db) + IndexKeys(db) + IndexFieldKeys(db)
  }

  /** The values `materialize` stores under an entry's key; the types of columns are given. */
  function ValueFor(db: Index.Database, e: CatalogKey, typeOf: (Catalog.Name, Catalog.Name) -> ValueType): CatalogValue
    requires e in KeysOf(db) && Representable(db)
  {
    match e
    case TableEntry(t) => CatalogValue(db.tables[t].deleted, [])
    case TableField(t, c) =>
      var field := db.tables[t].fields[c];
      CatalogValue(field.deleted, [Type(typeOf(t, c)), field.default, Integer(field.position), Bool(field.primaryKey)])
    case IndexEntry(n) => CatalogValue(db.indices[n].deleted, [Text(db.indices[n].table), Bool(db.indices[n].unique)])
    case IndexField(n, i) => CatalogValue(db.indices[n].fields[i].deleted, [Text(db.indices[n].fields[i].column)])
  }

  /** The positions of columns fit the integers they are stored as. */
  predicate Representable(db: Index.Database) {
    forall t, c :: t in db.tables && c in db.tables[t].fields ==>
                     -TWO_63 <= db.tables[t].fields[c].position < TWO_63
  }

  function EntriesOf(db: Index.Database, typeOf: (Catalog.Name, Catalog.Name) -> ValueType): Entries
    requires Representable(db)
  {
    map e | e in KeysOf(db) :: ValueFor(db, e, typeOf)
  }

  /** Read back, the entries an engine writes are its catalog. */
  lemma {:induction false} EntriesDescribe(db: Index.Database, typeOf: (Catalog.Name, Catalog.Name) -> ValueType)
    requires Representable(db)
    ensures Describes(EntriesOf(db, typeOf), db)
  {
    var entries := EntriesOf(db, typeOf);
    forall t
      ensures db.Def(t) == DefOf(entries, t)
    {
      DefReadBack(db, typeOf, t);
    }
    forall n, t
      ensures db.Indexed(n, t) <==> IndexOn(entries, n, t)
    {
      assert IndexEntry(n) in entries <==> n in db.indices;
    }
    forall n, t | db.Indexed(n, t)
      ensures SameFields(entries, n, db.indices[n])
    {
      FieldsReadBack(db, typeOf, n);
    }
  }

  lemma {:induction false} DefReadBack(db: Index.Database, typeOf: (Catalog.Name, Catalog.Name) -> ValueType,
                                       t: Catalog.Name)
    requires Representable(db)
    ensures DefOf(EntriesOf(db, typeOf), t) == db.Def(t)
  {
    var entries, read := EntriesOf(db, typeOf), DefOf(EntriesOf(db, typeOf), t);
    assert TableEntry(t) in entries <==> t in db.tables;
    forall c
      ensures c in read.fields <==> c in db.Def(t).fields
      ensures c in read.fields ==> read.fields[c] == db.Def(t).fields[c]
    {
      FieldReadBack(db, typeOf, t, c);
      assert c in read.fields <==> TableField(t, c) in entries;
    }
    assert read.fields == db.Def(t).fields;
  }

  lemma {:induction false} FieldReadBack(db: Index.Database, typeOf: (Catalog.Name, Catalog.Name) -> ValueType,
                                         t: Catalog.Name, c: Catalog.Name)
    requires Representable(db)
    ensures var entries := EntriesOf(db, typeOf);
            && (TableField(t, c) in entries <==> c in db.Def(t).fields)
            && (TableField(t, c) in entries ==> FieldOf(entries[TableField(t, c)]) == db.Def(t).fields[c])
  {
    if TableField(t, c) in EntriesOf(db, typeOf) {
      var v := ValueFor(db, TableField(t, c), typeOf);
      assert v.body[3] == Bool(db.tables[t].fields[c].primaryKey);
    }
  }

  lemma {:induction false} LiveNamesAre(fields: seq<Catalog.IndexField>)
    ensures forall c :: c in Catalog.LiveNames(fields) <==>
              exists i :: 0 <= i < |fields| && !fields[i].deleted && fields[i].column == c
  {
    if fields != [] {
      LiveNamesAre(fields[1..]);
      assert forall i :: 0 < i < |fields| ==> fields[i] == fields[1..][i - 1];
      assert forall i :: 0 <= i < |fields| - 1 ==> fields[1..][i] == fields[i + 1];
    }
  }

  lemma {:induction false} FieldsReadBack(db: Index.Database, typeOf: (Catalog.Name, Catalog.Name) -> ValueType,
                                          n: Catalog.Name)
    requires Representable(db) && n in db.indices
    ensures SameFields(EntriesOf(db, typeOf), n, db.indices[n])
  {
    var entries, fields := EntriesOf(db, typeOf), db.indices[n].fields;
    LiveNamesAre(fields);
    forall c | c in Catalog.LiveNames(fields)
      ensures exists e :: FieldOn(entries, e, n) && At(entries[e].body, 0) == Text(c)
    {
      var i :| 0 <= i < |fields| && !fields[i].deleted && fields[i].column == c;
      assert FieldOn(entries, IndexField(n, i), n);
    }
  }

  lemma {:induction false} OneKey(def: Catalog.TableDef)
    ensures |Catalog.PrimaryNames(def)| == 1 <==> Index.Singular(def)
  {
    var names := Catalog.PrimaryNames(def);
    if |names| == 1 {
      var n :| n in names;
      assert |names - {n}| == 0;
      assert names == {n};
    }
  }

  lemma {:induction false} IndexTakesExactly(catalog: Entries, db: Index.Database, name: Catalog.Name,
                                             table: Catalog.Name, touched: bool)
    requires Describes(catalog, db) && db.Indexed(name, table)
    ensures IndexTakes(catalog, name, table, touched) <==>
            Catalog.Resolves(db.Def(table), db.indices[name]) && (touched ==> Index.Singular(db.Def(table)))
  {
    OneKey(db.Def(table));
    assert SameFields(catalog, name, db.indices[name]);
    if forall e :: e in catalog && FieldOn(catalog, e, name) ==> NamesLive(DefOf(catalog, table), catalog[e]) {
      forall c | c in Catalog.LiveNames(db.indices[name].fields)
        ensures Catalog.Live(db.Def(table), c)
      {
        var e :| FieldOn(catalog, e, name) && At(catalog[e].body, 0) == Text(c);
        assert NamesLive(DefOf(catalog, table), catalog[e]);
      }
    }
  }

  /** The indexes of a table take a row exactly when `update_row` on the decoded catalog does. */
  lemma {:induction false} TakesExactly(catalog: Entries, db: Index.Database, table: Catalog.Name, id: Uuid,
                                        before: Option<Catalog.Doc>, after: Option<Catalog.Doc>)
    requires Describes(catalog, db)
    ensures TakesRow(catalog, table, before.Some? || after.Some?) <==>
            Index.UpdateAccepted(db, table, id, before, after, false)
  {
    var touched := before.Some? || after.Some?;
    forall name | db.Indexed(name, table)
      ensures IndexOn(catalog, name, table)
      ensures IndexTakes(catalog, name, table, touched) <==>
              && Catalog.Resolves(db.Def(table), db.indices[name])
              && Index.IndexAccepts(db, name, id, before, after, false)
    {
      IndexTakesExactly(catalog, db, name, table, touched);
    }
    forall e | e in catalog && e.IndexEntry? && IndexOn(catalog, e.name, table)
      ensures db.Indexed(e.name, table)
    {
    }
    assert forall name :: db.Indexed(name, table) ==> IndexEntry(name) in catalog;
  }

  /** So where the indexes agree, it is the condition under which a received row is accepted. */
  lemma {:induction false} TakesReceipt(catalog: Entries, db: Index.Database, table: Catalog.Name, id: Uuid,
                                        after: Option<Catalog.Doc>)
    requires Describes(catalog, db) && Index.Good(db)
    ensures TakesRow(catalog, table, db.DocAt(table, id).Some? || after.Some?) <==>
            Changes.ReceiptAccepted(db, table, after.Some?)
  {
    TakesExactly(catalog, db, table, id, db.DocAt(table, id), after);
    Changes.ReceiptRefused(db, db, table, id, after);
  }
}
