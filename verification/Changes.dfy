// The one step that applies schema and row changes and keeps the indexes in line, and the two ways received rows come
// in.
module Changes {
  import opened Bytes
  import opened Values
  import opened Wrappers
  import opened Catalog
  import opened Index

  datatype Change =
    | CreateTable(table: Name)
    | AddColumn(table: Name, column: Name, default: Value, position: int, primaryKey: bool)
    | CreateIndex(index: Name, table: Name, unique: bool, columns: seq<Name>)
    | TombstoneTable(table: Name)
    | TombstoneIndex(index: Name)
    // merged: the document the codec's merge leaves visible.
    | WriteRow(table: Name, id: Uuid, merged: Doc)
    | DeleteRow(table: Name, id: Uuid)

  // ---------------------------------------------------------------------------------------------
  // What a change does to the catalog and the rows
  // ---------------------------------------------------------------------------------------------

  function SetDef(db: Database, table: Name, def: TableDef): Database {
    db.(tables := db.tables[table := def])
  }

  function SetDoc(db: Database, table: Name, id: Uuid, doc: Option<Doc>): Database {
    db.(docs := db.docs[table := if doc.Some? then db.Docs(table)[id := doc.value] else db.Docs(table) - {id}])
  }

  function Bury(db: Database, table: Name, id: Uuid): Database {
    db.(dead := db.dead[table := db.Dead(table) + {id}])
  }

  function NewFields(columns: seq<Name>): seq<IndexField> {
    seq(|columns|, i requires 0 <= i < |columns| => IndexField(columns[i], false))
  }

  /** The fields of an earlier index of that name at later positions stay as they are. */
  function OverwriteFields(columns: seq<Name>, earlier: seq<IndexField>): seq<IndexField> {
    NewFields(columns) + if |columns| < |earlier| then earlier[|columns|..] else []
  }

  function DropFields(fields: seq<IndexField>): seq<IndexField> {
    seq(|fields|, i requires 0 <= i < |fields| => fields[i].(deleted := true))
  }

  function EarlierFields(db: Database, index: Name): seq<IndexField> {
    if index in db.indices then db.indices[index].fields else []
  }

  /** The catalog and the rows after a change that succeeds. */
  function Effect(db: Database, ch: Change): Database {
    match ch
    case CreateTable(table) => SetDef(db, table, db.Def(table).(deleted := false))
    case AddColumn(table, column, default, position, primaryKey) =>
      if column in db.Def(table).fields then db
      else
        var def := db.Def(table);
        SetDef(db, table, def.(fields := def.fields[column := Field(default, position, primaryKey, false)]))
    case CreateIndex(index, table, unique, columns) =>
      var fields := OverwriteFields(columns, EarlierFields(db, index));
      db.(indices := db.indices[index := IndexDef(table, unique, false, fields)])
    case TombstoneTable(table) => SetDef(db, table, db.Def(table).(deleted := true))
    case TombstoneIndex(index) =>
      if index in db.indices then
        var def := db.indices[index];
        db.(indices := db.indices[index := def.(deleted := true, fields := DropFields(def.fields))])
      else db
    case WriteRow(table, id, merged) =>
      if db.Def(table).deleted || id in db.Dead(table) then db else SetDoc(db, table, id, Some(merged))
    case DeleteRow(table, id) =>
      if db.Def(table).deleted then db else Bury(SetDoc(db, table, id, None), table, id)
  }

  /** What the executor and the row codec see to. */
  ghost predicate Admissible(db: Database, ch: Change) {
    match ch
    case WriteRow(table, id, merged) =>
      !db.Def(table).deleted && id !in db.Dead(table) ==> GoodDoc(db.Def(table), id, merged)
    case _ => true
  }

  /** Another visible row has the values the document has on a unique index, none of them null. */
  ghost predicate RowsClash(db: Database, name: Name, id: Uuid, doc: Doc)
    requires name in db.indices
  {
    var table := db.indices[name].table;
    var values := IndexedValues(db.Def(table), db.indices[name], doc);
    && db.indices[name].unique && NoNull(values)
    && exists other :: other in db.Docs(table) && other != id
                       && IndexedValues(db.Def(table), db.indices[name], db.Docs(table)[other]) == values
  }

  /** The row is there and shows just this already: the local change adds nothing to it. */
  predicate Idle(db: Database, table: Name, id: Uuid, merged: Doc) {
    !db.Def(table).deleted && id !in db.Dead(table) && db.DocAt(table, id) == Some(merged)
  }

  ghost predicate WriteAccepted(db: Database, table: Name, id: Uuid, doc: Doc, enforced: bool) {
    forall name :: db.Indexed(name, table) ==> Singular(db.Def(table)) && (enforced ==> !RowsClash(db, name, id, doc))
  }

  /** When a change succeeds, in terms of the catalog and the rows alone. */
  ghost predicate ChangeAccepted(db: Database, ch: Change, enforced: bool) {
    match ch
    case CreateTable(table) => Rebuildable(Effect(db, ch), table, enforced)
    case AddColumn(table, _, _, _, _) => Rebuildable(Effect(db, ch), table, enforced)
    case CreateIndex(_, table, _, _) => Rebuildable(Effect(db, ch), table, enforced)
    case TombstoneTable(table) => table in db.tables
    case TombstoneIndex(index) => index in db.indices
    case WriteRow(table, id, merged) =>
      || db.Def(table).deleted || id in db.Dead(table)
      || (!Idle(db, table, id, merged) && WriteAccepted(db, table, id, merged, enforced))
    case DeleteRow(_, _) => true
  }

  // ---------------------------------------------------------------------------------------------
  // An index created under a name that was in use
  // ---------------------------------------------------------------------------------------------

  lemma {:induction false} LiveNamesConcat(a: seq<IndexField>, b: seq<IndexField>)
    ensures LiveNames(a + b) == LiveNames(a) + LiveNames(b)
  {
    if a == [] {
      assert a + b == b;
    } else {
      LiveNamesConcat(a[1..], b);
      assert (a + b)[0] == a[0] && (a + b)[1..] == a[1..] + b;
      ConcatAssociative(if a[0].deleted then [] else [a[0].column], LiveNames(a[1..]), LiveNames(b));
    }
  }

  lemma {:induction false} NoLiveNames(fields: seq<IndexField>)
    ensures LiveNames(fields) == [] <==> forall field :: field in fields ==> field.deleted
  {
    if fields != [] {
      NoLiveNames(fields[1..]);
      assert fields == [fields[0]] + fields[1..];
      assert fields[0] in fields;
    }
  }

  lemma {:induction false} LiveNamesOfNew(columns: seq<Name>)
    ensures LiveNames(NewFields(columns)) == columns
  {
    if columns != [] {
      assert NewFields(columns)[1..] == NewFields(columns[1..]);
      LiveNamesOfNew(columns[1..]);
    }
  }

  /** CREATE INDEX IF NOT EXISTS over an index that exists redefines it. The result indexes the columns asked for
      exactly when the earlier definition has no live field at a later position, as it has none once it was dropped. */
  lemma {:induction false} RedefinitionKeepsLaterFields(columns: seq<Name>, earlier: seq<IndexField>)
    ensures LiveNames(OverwriteFields(columns, earlier)) == columns <==>
            forall i :: |columns| <= i < |earlier| ==> earlier[i].deleted
    ensures LiveNames(OverwriteFields(columns, DropFields(earlier))) == columns
  {
    OverwrittenNames(columns, earlier);
    LaterFieldsDeleted(columns, earlier);
    OverwrittenNames(columns, DropFields(earlier));
    LaterFieldsDeleted(columns, DropFields(earlier));
  }

  /** An index on columns a and b, redefined on c alone, comes out on c and b. */
  lemma {:induction false} RedefinedOnOne(db: Database, index: Name, table: Name, unique: bool)
    requires EarlierFields(db, index) == NewFields([[97], [98]])
    ensures LiveNames(Effect(db, CreateIndex(index, table, unique, [[99]])).indices[index].fields) == [[99], [98]]
  {
    assert OverwriteFields([[99]], NewFields([[97], [98]])) == NewFields([[99], [98]]);
    LiveNamesOfNew([[99], [98]]);
  }

  function LaterFields(columns: seq<Name>, earlier: seq<IndexField>): seq<IndexField> {
    if |columns| < |earlier| then earlier[|columns|..] else []
  }

  lemma {:induction false} OverwrittenNames(columns: seq<Name>, earlier: seq<IndexField>)
    ensures LiveNames(OverwriteFields(columns, earlier)) == columns <==> LiveNames(LaterFields(columns, earlier)) == []
  {
    var rest := LaterFields(columns, earlier);
    LiveNamesOfNew(columns);
    LiveNamesConcat(NewFields(columns), rest);
    assert |columns + LiveNames(rest)| == |columns| + |LiveNames(rest)|;
  }

  lemma {:induction false} LaterFieldsDeleted(columns: seq<Name>, earlier: seq<IndexField>)
    ensures LiveNames(LaterFields(columns, earlier)) == [] <==>
            forall i :: |columns| <= i < |earlier| ==> earlier[i].deleted
  {
    var rest := LaterFields(columns, earlier);
    NoLiveNames(rest);
    assert forall i :: |columns| <= i < |earlier| ==> earlier[i] == rest[i - |columns|];
    assert forall j :: 0 <= j < |rest| ==> rest[j] == earlier[j + |columns|];
  }

  // ---------------------------------------------------------------------------------------------
  // Rows under a changed catalog
  // ---------------------------------------------------------------------------------------------

  lemma {:induction false} AddColumnKeepsDoc(def: TableDef, column: Name, field: Field, id: Uuid, doc: Doc)
    requires GoodDoc(def, id, doc) && column !in def.fields
    ensures GoodDoc(def.(fields := def.fields[column := field]), id, doc)
  {
    var wider := def.(fields := def.fields[column := field]);
    var p :| p in PrimaryNames(def);
    assert p in PrimaryNames(wider);
    forall n | PrimaryNames(wider) == {n}
      ensures ValueOf(wider, doc, n) == Uuid(id)
    {
      assert forall m :: m in PrimaryNames(def) ==> m in PrimaryNames(wider);
      assert n == p && PrimaryNames(def) == {n};
    }
  }

  lemma {:induction false} SchemaKeepsIdentified(db: Database, ch: Change)
    requires Identified(db) && (ch.CreateTable? || ch.AddColumn? || ch.CreateIndex? || ch.TombstoneTable?
                                || ch.TombstoneIndex?)
    ensures Identified(Effect(db, ch))
  {
    var next := Effect(db, ch);
    forall t, id | id in next.Docs(t)
      ensures GoodDoc(next.Def(t), id, next.Docs(t)[id])
    {
      var doc := db.Docs(t)[id];
      assert GoodDoc(db.Def(t), id, doc);
      if next.Def(t) != db.Def(t) {
        if ch.AddColumn? {
          AddColumnKeepsDoc(db.Def(t), ch.column, Field(ch.default, ch.position, ch.primaryKey, false), id, doc);
        } else {
          assert PrimaryNames(next.Def(t)) == PrimaryNames(db.Def(t));
        }
      }
    }
  }

  /** No schema change alters what a row shows under a column there was. */
  lemma {:induction false} SchemaKeepsValues(db: Database, ch: Change, t: Name, id: Uuid, n: Name)
    requires ch.CreateTable? || ch.AddColumn? || ch.CreateIndex? || ch.TombstoneTable? || ch.TombstoneIndex?
    requires id in db.Docs(t) && n in db.Def(t).fields
    ensures Effect(db, ch).docs == db.docs && n in Effect(db, ch).Def(t).fields
    ensures ValueOf(Effect(db, ch).Def(t), db.Docs(t)[id], n) == ValueOf(db.Def(t), db.Docs(t)[id], n)
  {
    match ch {
      case AddColumn(table, column, _, _, _) => assert column in db.Def(table).fields || column != n || t != table;
      case _ =>
    }
  }

  // ---------------------------------------------------------------------------------------------
  // Indexes a step does not touch
  // ---------------------------------------------------------------------------------------------

  lemma {:induction false} IndexFrame(a: Database, b: Database, name: Name)
    requires name in a.indices && name in b.indices && a.indices[name] == b.indices[name]
    requires var table := a.indices[name].table;
             a.Def(table) == b.Def(table) && a.Docs(table) == b.Docs(table)
    ensures UniqueOn(a, name) == UniqueOn(b, name)
    ensures name in a.records && name in b.records && a.records[name] == b.records[name] ==>
              IndexAgrees(a, name) == IndexAgrees(b, name)
  {
    assert Keys(a, name) == Keys(b, name);
  }

  /** Nothing becomes visible that is deleted. */
  lemma {:induction false} BuriedFrame(a: Database, b: Database)
    requires Buried(a)
    requires forall t, id :: id in b.Dead(t) && id in b.Docs(t) ==> id in a.Dead(t) && id in a.Docs(t)
    ensures Buried(b)
  {
    forall t, id | id in b.Dead(t)
      ensures id !in b.Docs(t)
    {
      assert id in a.Dead(t) ==> id !in a.Docs(t);
    }
  }

  /** After a rebuild of the one table a step has touched, all indexes agree. */
  lemma {:induction false} RebuiltIsGood(a: Database, b: Database, table: Name)
    requires Good(a) && Identified(b) && a.docs == b.docs && a.dead == b.dead
    requires forall name :: b.Indexed(name, table) ==> IndexAgrees(b, name)
    requires forall name :: name in b.indices && b.indices[name].table != table ==>
               && name in a.indices && a.indices[name] == b.indices[name]
               && (name in b.records <==> name in a.records)
                  && (name in b.records ==> b.records[name] == a.records[name])
    requires forall t :: t != table ==> a.Def(t) == b.Def(t)
    ensures Good(b)
  {
    BuriedFrame(a, b);
    forall name | name in b.indices && !b.indices[name].deleted && !b.Def(b.indices[name].table).deleted
      ensures IndexAgrees(b, name)
    {
      if b.indices[name].table == table {
        assert b.Indexed(name, table);
      } else {
        assert IndexAgrees(a, name);
        IndexFrame(a, b, name);
      }
    }
  }

  /** A step that only takes indexes out of use. */
  lemma {:induction false} NarrowedIsGood(a: Database, b: Database)
    requires Good(a) && Identified(b) && a.docs == b.docs && a.dead == b.dead
    requires forall name :: name in b.indices && !b.indices[name].deleted && !b.Def(b.indices[name].table).deleted ==>
               && name in a.indices && a.indices[name] == b.indices[name]
               && a.Def(a.indices[name].table) == b.Def(a.indices[name].table)
               && (name in b.records <==> name in a.records)
                  && (name in b.records ==> b.records[name] == a.records[name])
    ensures Good(b)
  {
    BuriedFrame(a, b);
    forall name | name in b.indices && !b.indices[name].deleted && !b.Def(b.indices[name].table).deleted
      ensures IndexAgrees(b, name)
    {
      assert IndexAgrees(a, name);
      IndexFrame(a, b, name);
    }
  }

  // ---------------------------------------------------------------------------------------------
  // Schema changes
  // ---------------------------------------------------------------------------------------------

  method MaterializeCreateTable(tx: Transaction, table: Name, enforceUnique: bool)
    returns (r: Result<bool, EngineError>)
    requires Good(tx.db)
    modifies tx
    ensures r.Ok? <==> ChangeAccepted(old(tx.db), CreateTable(table), enforceUnique)
    ensures r.Ok? ==> tx.db == Effect(old(tx.db), CreateTable(table)).(records := tx.db.records)
    ensures r.Ok? ==> Good(tx.db)
  {
    ghost var before := tx.db;
    SchemaKeepsIdentified(tx.db, CreateTable(table));
    tx.db := SetDef(tx.db, table, tx.db.Def(table).(deleted := false));
    r := tx.RebuildTable(table, enforceUnique);
    if r.Ok? {
      RebuiltIsGood(before, tx.db, table);
    }
  }

  /** A column that exists is left alone, whatever it is declared as now. */
  method MaterializeAddColumn(tx: Transaction, table: Name, column: Name, default: Value, position: int,
                              primaryKey: bool, enforceUnique: bool) returns (r: Result<bool, EngineError>)
    requires Good(tx.db)
    modifies tx
    ensures r.Ok? <==> ChangeAccepted(old(tx.db), AddColumn(table, column, default, position, primaryKey),
                                      enforceUnique)
    ensures r.Ok? ==>
              tx.db == Effect(old(tx.db), AddColumn(table, column, default, position, primaryKey))
                         .(records := tx.db.records)
    ensures r.Ok? ==> Good(tx.db)
  {
    ghost var before := tx.db;
    SchemaKeepsIdentified(tx.db, AddColumn(table, column, default, position, primaryKey));
    var def := tx.db.Def(table);
    if column !in def.fields {
      tx.db := SetDef(tx.db, table, def.(fields := def.fields[column := Field(default, position, primaryKey, false)]));
    }
    r := tx.RebuildTable(table, enforceUnique);
    if r.Ok? {
      RebuiltIsGood(before, tx.db, table);
    }
  }

  /** The fields are written at positions 0, 1 and so on, over those there are. */
  method OverwriteEach(columns: seq<Name>, earlier: seq<IndexField>) returns (fields: seq<IndexField>)
    ensures fields == OverwriteFields(columns, earlier)
  {
    fields := earlier;
    for i := 0 to |columns|
      invariant fields == OverwriteFields(columns[..i], earlier)
    {
      var field := IndexField(columns[i], false);
      var next := if i < |fields| then fields[i := field] else fields + [field];
      assert next == OverwriteFields(columns[..i + 1], earlier);
      fields := next;
    }
    assert columns[..|columns|] == columns;
  }

  /** An index of that name that exists already is redefined, even for another table. */
  method MaterializeCreateIndex(tx: Transaction, index: Name, table: Name, unique: bool, columns: seq<Name>,
                                enforceUnique: bool) returns (r: Result<bool, EngineError>)
    requires Good(tx.db)
    modifies tx
    ensures r.Ok? <==> ChangeAccepted(old(tx.db), CreateIndex(index, table, unique, columns), enforceUnique)
    ensures r.Ok? ==>
              tx.db == Effect(old(tx.db), CreateIndex(index, table, unique, columns)).(records := tx.db.records)
    ensures r.Ok? ==> Good(tx.db)
  {
    ghost var before := tx.db;
    SchemaKeepsIdentified(tx.db, CreateIndex(index, table, unique, columns));
    var fields := OverwriteEach(columns, EarlierFields(tx.db, index));
    var stored := tx.db.Records(index);
    tx.db := tx.db.(indices := tx.db.indices[index := IndexDef(table, unique, false, fields)],
                    records := tx.db.records[index := stored]);
    SameIdentified(Effect(before, CreateIndex(index, table, unique, columns)), tx.db);
    ghost var changed := Effect(before, CreateIndex(index, table, unique, columns));
    RecordsApart(changed, tx.db, table, enforceUnique);
    r := tx.RebuildTable(table, enforceUnique);
    if r.Ok? {
      RebuiltIsGood(before, tx.db, table);
    }
  }

  /** The table's rows, columns and indexes stay where they are. */
  method MaterializeTombstoneTable(tx: Transaction, table: Name) returns (r: Result<bool, EngineError>)
    requires Good(tx.db)
    modifies tx
    ensures r.Ok? <==> table in old(tx.db).tables
    ensures r.Ok? ==> tx.db == Effect(old(tx.db), TombstoneTable(table))
    ensures r.Ok? ==> Good(tx.db)
  {
    if table !in tx.db.tables {
      return Err(SchemaNameNotFound);
    }
    ghost var before := tx.db;
    SchemaKeepsIdentified(tx.db, TombstoneTable(table));
    tx.db := SetDef(tx.db, table, tx.db.Def(table).(deleted := true));
    NarrowedIsGood(before, tx.db);
    r := Ok(true);
  }

  /** The index's fields are dropped with it, and its records deleted. */
  method MaterializeTombstoneIndex(tx: Transaction, index: Name) returns (r: Result<bool, EngineError>)
    requires Good(tx.db)
    modifies tx
    ensures r.Ok? <==> index in old(tx.db).indices
    ensures r.Ok? ==> tx.db == Effect(old(tx.db), TombstoneIndex(index)).(records := old(tx.db).records - {index})
    ensures r.Ok? ==> Good(tx.db)
  {
    if index !in tx.db.indices {
      return Err(SchemaNameNotFound);
    }
    ghost var before := tx.db;
    SchemaKeepsIdentified(tx.db, TombstoneIndex(index));
    var def := tx.db.indices[index];
    tx.db := tx.db.(indices := tx.db.indices[index := def.(deleted := true, fields := DropFields(def.fields))],
                    records := tx.db.records - {index});
    SameIdentified(Effect(before, TombstoneIndex(index)), tx.db);
    NarrowedIsGood(before, tx.db);
    r := Ok(true);
  }

  // ---------------------------------------------------------------------------------------------
  // Row changes
  // ---------------------------------------------------------------------------------------------

  lemma {:induction false} SetDocIdentified(db: Database, table: Name, id: Uuid, doc: Option<Doc>)
    requires Identified(db) && (doc.Some? ==> GoodDoc(db.Def(table), id, doc.value))
    ensures Identified(SetDoc(db, table, id, doc))
  {
    var next := SetDoc(db, table, id, doc);
    forall t, i | i in next.Docs(t)
      ensures GoodDoc(next.Def(t), i, next.Docs(t)[i])
    {
      if t != table || i != id {
        assert i in db.Docs(t);
      }
    }
  }

  /** The records of one index after a row update are those of the rows after it: a record belongs to one row only, by
      the id at its end. */
  lemma {:induction false} UpdatedIndexAgrees(a: Database, b: Database, name: Name, table: Name, id: Uuid,
                                              after: Option<Doc>)
    requires a.Indexed(name, table) && IndexAgrees(a, name)
    requires b == SetDoc(a, table, id, after).(records := b.records) && name in b.records
    requires IndexUpdated(a, name, b.records[name], id, a.DocAt(table, id), after)
    ensures IndexAgrees(b, name)
  {
    var before := a.DocAt(table, id);
    forall key
      ensures key in b.records[name] <==> key in Keys(b, name)
    {
      if key in b.records[name] && key !in KeySet(a, name, id, after) {
        var other :| other in a.Docs(table) && key == KeyOf(a, name, other, a.Docs(table)[other]);
        assert other != id;
        assert KeyOf(b, name, other, b.Docs(table)[other]) == key;
      }
      if key in KeySet(a, name, id, after) {
        assert KeyOf(b, name, id, b.Docs(table)[id]) == key;
      }
      if key in Keys(b, name) {
        var other :| other in b.Docs(table) && key == KeyOf(b, name, other, b.Docs(table)[other]);
        if other != id {
          assert KeyOf(a, name, other, a.Docs(table)[other]) == key;
          if before.Some? { KeysEndInIds(a, name, other, a.Docs(table)[other], id, before.value); }
        }
      }
    }
    assert b.Docs(table) != map[] ==> a.Docs(table) != map[] || after.Some?;
  }

  lemma {:induction false} KeysEndInIds(db: Database, name: Name, x: Uuid, docX: Doc, y: Uuid, docY: Doc)
    requires name in db.indices && x != y
    ensures KeyOf(db, name, x, docX) != KeyOf(db, name, y, docY)
  {
    var n := |LiveNames(db.indices[name].fields)|;
    assert KeyOf(db, name, x, docX)[n] == Uuid(x) && KeyOf(db, name, y, docY)[n] == Uuid(y);
  }

  /** A row update together with the update of its records. */
  lemma {:induction false} UpdatedIsGood(a: Database, b: Database, table: Name, id: Uuid, after: Option<Doc>)
    requires Good(a) && !a.Def(table).deleted
    requires after.Some? ==> GoodDoc(a.Def(table), id, after.value) && id !in a.Dead(table)
    requires b == SetDoc(a, table, id, after).(records := b.records)
    requires Updated(a, b.records, table, id, a.DocAt(table, id), after)
    ensures Good(b)
  {
    SetDocBuried(a, b, table, id, after);
    SetDocIdentified(a, table, id, after);
    SameIdentified(SetDoc(a, table, id, after), b);
    UpdatedAgreement(a, b, table, id, after);
  }

  lemma {:induction false} SetDocBuried(a: Database, b: Database, table: Name, id: Uuid, after: Option<Doc>)
    requires Buried(a) && b == SetDoc(a, table, id, after).(records := b.records)
    requires after.Some? ==> id !in a.Dead(table)
    ensures Buried(b)
  {
    BuriedFrame(a, b);
  }

  lemma {:induction false} UpdatedAgreement(a: Database, b: Database, table: Name, id: Uuid, after: Option<Doc>)
    requires Agreement(a) && !a.Def(table).deleted && b == SetDoc(a, table, id, after).(records := b.records)
    requires Updated(a, b.records, table, id, a.DocAt(table, id), after)
    ensures Agreement(b)
  {
    forall name | name in b.indices && !b.indices[name].deleted && !b.Def(b.indices[name].table).deleted
      ensures IndexAgrees(b, name)
    {
      assert IndexAgrees(a, name);
      if a.Indexed(name, table) {
        UpdatedIndexAgrees(a, b, name, table, id, after);
      } else {
        IndexFrame(a, b, name);
      }
    }
  }

  /** Which rows are deleted plays no part in the indexes. */
  lemma {:induction false} BuriedIsGood(b: Database, table: Name, id: Uuid)
    requires Good(b) && id !in b.Docs(table)
    ensures Good(Bury(b, table, id))
  {
    var c := Bury(b, table, id);
    forall t, i | i in c.Dead(t)
      ensures i !in c.Docs(t)
    {
      assert (t == table && i == id) || i in b.Dead(t);
    }
    forall name | name in c.indices && !c.indices[name].deleted && !c.Def(c.indices[name].table).deleted
      ensures IndexAgrees(c, name)
    {
      assert IndexAgrees(b, name);
      IndexFrame(b, c, name);
    }
    forall t, i | i in c.Docs(t)
      ensures GoodDoc(c.Def(t), i, c.Docs(t)[i])
    {
      assert i in b.Docs(t);
    }
  }

  lemma {:induction false} IndexUpdatedBeforehand(a: Database, b: Database, name: Name, id: Uuid, before: Option<Doc>,
                                                  after: Option<Doc>)
    requires b == a.(docs := b.docs) && name in a.indices
    ensures forall records ::
              IndexUpdated(a, name, records, id, before, after) == IndexUpdated(b, name, records, id, before, after)
    ensures after.Some? ==> Conflict(a, name, id, before, after.value) == Conflict(b, name, id, before, after.value)
  {
    assert a.Def(a.indices[name].table) == b.Def(b.indices[name].table);
    assert KeySet(a, name, id, before) == KeySet(b, name, id, before);
    assert KeySet(a, name, id, after) == KeySet(b, name, id, after);
  }

  /** What `UpdateRow` needs of a state are the catalog and the records: it may run before or after the rows change. */
  lemma {:induction false} UpdatedBeforehand(a: Database, b: Database, records: map<Name, set<Row>>, table: Name,
                                             id: Uuid, before: Option<Doc>, after: Option<Doc>)
    requires b == a.(docs := b.docs) && Updated(b, records, table, id, before, after)
    ensures Updated(a, records, table, id, before, after)
  {
    forall name | a.Indexed(name, table)
      ensures name in records && Resolves(a.Def(table), a.indices[name])
              && IndexUpdated(a, name, records[name], id, before, after)
    {
      assert b.Indexed(name, table);
      IndexUpdatedBeforehand(a, b, name, id, before, after);
    }
  }

  /** Where the records are those of the rows, a conflict among the records is one among the rows. */
  lemma {:induction false} ConflictIsClash(db: Database, name: Name, table: Name, id: Uuid, doc: Doc)
    requires db.Indexed(name, table) && IndexAgrees(db, name)
    ensures Conflict(db, name, id, db.DocAt(table, id), doc) <==> RowsClash(db, name, id, doc)
  {
    var values := IndexedValues(db.Def(table), db.indices[name], doc);
    var before := db.DocAt(table, id);
    if key :| key in db.Records(name) - KeySet(db, name, id, before) && HasPrefix(key, values) {
      var other :| other in db.Docs(table) && key == KeyOf(db, name, other, db.Docs(table)[other]);
      assert IndexedValues(db.Def(table), db.indices[name], db.Docs(table)[other]) == key[..|values|] == values;
    }
    if other :| other in db.Docs(table) && other != id
                && IndexedValues(db.Def(table), db.indices[name], db.Docs(table)[other]) == values {
      var key := KeyOf(db, name, other, db.Docs(table)[other]);
      assert key == values + [Uuid(other)] && key in Keys(db, name);
      if before.Some? { KeysEndInIds(db, name, other, db.Docs(table)[other], id, before.value); }
      assert HasPrefix(key, values);
    }
  }

  lemma {:induction false} AgreementResolves(db: Database, table: Name)
    requires Agreement(db) && !db.Def(table).deleted
    ensures AllResolve(db, table)
  {
    forall name | db.Indexed(name, table)
      ensures Resolves(db.Def(table), db.indices[name])
    {
      assert IndexAgrees(db, name);
    }
  }

  /** Where the indexes agree, a row write is refused only for its table's primary key or a clash among the rows. */
  lemma {:induction false} WriteRefused(a: Database, b: Database, table: Name, id: Uuid, doc: Doc, enforced: bool)
    requires Good(a) && !a.Def(table).deleted && b == a.(docs := b.docs)
    ensures UpdateAccepted(b, table, id, a.DocAt(table, id), Some(doc), enforced) <==>
            WriteAccepted(a, table, id, doc, enforced)
  {
    AgreementResolves(a, table);
    assert AllResolve(b, table);
    forall name | a.Indexed(name, table)
      ensures IndexAccepts(b, name, id, a.DocAt(table, id), Some(doc), enforced) <==>
              Singular(a.Def(table)) && (enforced ==> !RowsClash(a, name, id, doc))
    {
      IndexUpdatedBeforehand(a, b, name, id, a.DocAt(table, id), Some(doc));
      assert IndexAgrees(a, name);
      ConflictIsClash(a, name, table, id, doc);
    }
    assert forall name :: a.Indexed(name, table) <==> b.Indexed(name, table);
  }

  /** A row that leaves is never refused. */
  lemma {:induction false} RemovalAccepted(a: Database, b: Database, table: Name, id: Uuid, enforced: bool)
    requires Good(a) && !a.Def(table).deleted && b == a.(docs := b.docs)
    ensures UpdateAccepted(b, table, id, a.DocAt(table, id), None, enforced)
  {
    AgreementResolves(a, table);
    forall name | b.Indexed(name, table)
      ensures Resolves(b.Def(table), b.indices[name]) && IndexAccepts(b, name, id, a.DocAt(table, id), None, enforced)
    {
      assert a.Indexed(name, table) && IndexAgrees(a, name);
    }
  }

  /** The row the codec's merge returns for a document. */
  method MergedRow(tx: Transaction, table: Name, id: Uuid, doc: Doc) returns (row: Row)
    requires GoodDoc(tx.db.Def(table), id, doc)
    ensures Decodes(tx.db.Def(table), Some(row), id, Some(doc))
  {
    var cols := CodecColumns(tx.db.Def(table), |doc|);
    HasColumns(tx.db.Def(table), id, doc);
    row := Decode(cols, doc);
  }

  method MaterializeWriteRow(tx: Transaction, table: Name, id: Uuid, merged: Doc, enforceUnique: bool)
    returns (r: Result<bool, EngineError>)
    requires Good(tx.db) && Admissible(tx.db, WriteRow(table, id, merged))
    modifies tx
    ensures r.Ok? <==> ChangeAccepted(old(tx.db), WriteRow(table, id, merged), enforceUnique)
    ensures r.Ok? ==> tx.db == Effect(old(tx.db), WriteRow(table, id, merged)).(records := tx.db.records)
    ensures r.Ok? ==> Good(tx.db)
    ensures r == Err(UniqueViolation) ==>
              enforceUnique && exists name :: old(tx.db).Indexed(name, table) && RowsClash(old(tx.db), name, id, merged)
    ensures Idle(old(tx.db), table, id, merged) ==> r == Err(NoChange)
    ensures r.Err? && Singular(old(tx.db).Def(table)) && !Idle(old(tx.db), table, id, merged) ==>
              r == Err(UniqueViolation)
  {
    ghost var start := tx.db;
    var columns := Columns(tx.db.Def(table));
    if columns.Err? {
      return Ok(true);
    }
    var oldRow := tx.GetRow(table, id);
    if id in tx.db.Dead(table) {
      return Ok(true);
    }
    if Idle(tx.db, table, id, merged) {
      return Err(NoChange);
    }
    var newRow := MergedRow(tx, table, id, merged);
    tx.db := SetDoc(tx.db, table, id, Some(merged));
    ghost var changed := tx.db;
    ghost var before := start.DocAt(table, id);
    r := tx.UpdateRow(table, oldRow, Some(newRow), enforceUnique, id, before, Some(merged));
    WriteRefused(start, changed, table, id, merged, enforceUnique);
    forall name | start.Indexed(name, table)
      ensures Conflict(changed, name, id, before, merged) == Conflict(start, name, id, before, merged)
      ensures Conflict(start, name, id, before, merged) == RowsClash(start, name, id, merged)
    {
      IndexUpdatedBeforehand(start, changed, name, id, before, Some(merged));
      assert IndexAgrees(start, name);
      ConflictIsClash(start, name, table, id, merged);
    }
    if r.Ok? {
      UpdatedBeforehand(start, changed, tx.db.records, table, id, before, Some(merged));
      UpdatedIsGood(start, tx.db, table, id, Some(merged));
    }
  }

  method MaterializeDeleteRow(tx: Transaction, table: Name, id: Uuid, enforceUnique: bool)
    returns (r: Result<bool, EngineError>)
    requires Good(tx.db)
    modifies tx
    ensures r.Ok?
    ensures tx.db == Effect(old(tx.db), DeleteRow(table, id)).(records := tx.db.records)
    ensures Good(tx.db)
  {
    ghost var start := tx.db;
    var columns := Columns(tx.db.Def(table));
    if columns.Err? {
      return Ok(true);
    }
    var oldRow := tx.GetRow(table, id);
    tx.db := SetDoc(tx.db, table, id, None);
    ghost var changed := tx.db;
    ghost var before := start.DocAt(table, id);
    RemovalAccepted(start, changed, table, id, enforceUnique);
    r := tx.UpdateRow(table, oldRow, None, enforceUnique, id, before, None);
    UpdatedBeforehand(start, changed, tx.db.records, table, id, before, None);
    UpdatedIsGood(start, tx.db, table, id, None);
    BuriedIsGood(tx.db, table, id);
    tx.db := Bury(tx.db, table, id);
  }

  /** `materialize_change`. */
  method MaterializeChange(tx: Transaction, ch: Change, enforceUnique: bool) returns (r: Result<bool, EngineError>)
    requires Good(tx.db) && Admissible(tx.db, ch)
    modifies tx
    ensures r.Ok? <==> ChangeAccepted(old(tx.db), ch, enforceUnique)
    ensures r.Ok? ==> tx.db == Effect(old(tx.db), ch).(records := tx.db.records)
    ensures r.Ok? ==> Good(tx.db)
  {
    match ch {
      case CreateTable(table) =>
        r := MaterializeCreateTable(tx, table, enforceUnique);
      case AddColumn(table, column, default, position, primaryKey) =>
        r := MaterializeAddColumn(tx, table, column, default, position, primaryKey, enforceUnique);
      case CreateIndex(index, table, unique, columns) =>
        r := MaterializeCreateIndex(tx, index, table, unique, columns, enforceUnique);
      case TombstoneTable(table) =>
        r := MaterializeTombstoneTable(tx, table);
      case TombstoneIndex(index) =>
        r := MaterializeTombstoneIndex(tx, index);
      case WriteRow(table, id, merged) =>
        r := MaterializeWriteRow(tx, table, id, merged, enforceUnique);
      case DeleteRow(table, id) =>
        r := MaterializeDeleteRow(tx, table, id, enforceUnique);
    }
  }

  // ---------------------------------------------------------------------------------------------
  // Unique indexes
  // ---------------------------------------------------------------------------------------------

  /** Where the rows of one table change, and none of those that changed clashes with another. */
  lemma {:induction false} RowsStayUnique(a: Database, b: Database, table: Name, changed: set<Uuid>)
    requires Unique(a) && b == a.(docs := b.docs, dead := b.dead)
    requires forall t :: t != table ==> b.Docs(t) == a.Docs(t)
    requires forall id :: id in b.Docs(table) && id !in changed ==>
               id in a.Docs(table) && a.Docs(table)[id] == b.Docs(table)[id]
    requires forall name, id :: b.Indexed(name, table) && id in changed && id in b.Docs(table) ==>
               !RowsClash(b, name, id, b.Docs(table)[id])
    ensures Unique(b)
  {
    forall name | name in b.indices && !b.indices[name].deleted && !b.Def(b.indices[name].table).deleted
      ensures UniqueOn(b, name)
    {
      assert UniqueOn(a, name);
      if b.indices[name].table != table {
        IndexFrame(a, b, name);
      } else {
        forall x, y | x in b.Docs(table) && y in b.Docs(table) && x != y
          ensures b.indices[name].unique ==> DifferentValues(b, name, x, y)
        {
          assert b.Indexed(name, table);
        }
      }
    }
  }

  /** A schema change that was accepted, seen from the one table it touches. */
  lemma {:induction false} SchemaStaysUnique(a: Database, b: Database, table: Name)
    requires Unique(a) && a.docs == b.docs && (forall t :: t != table ==> a.Def(t) == b.Def(t))
    requires forall name :: b.Indexed(name, table) && !b.Def(table).deleted ==> UniqueOn(b, name)
    requires forall name :: name in b.indices && b.indices[name].table != table && !b.indices[name].deleted ==>
               name in a.indices && a.indices[name] == b.indices[name]
    ensures Unique(b)
  {
    forall name | name in b.indices && !b.indices[name].deleted && !b.Def(b.indices[name].table).deleted
      ensures UniqueOn(b, name)
    {
      if b.indices[name].table != table {
        assert UniqueOn(a, name);
        IndexFrame(a, b, name);
      }
    }
  }

  lemma {:induction false} WriteKeepsUnique(db: Database, table: Name, id: Uuid, doc: Doc)
    requires Unique(db) && WriteAccepted(db, table, id, doc, true)
    ensures Unique(SetDoc(db, table, id, Some(doc)))
  {
    var next := SetDoc(db, table, id, Some(doc));
    forall name | next.Indexed(name, table)
      ensures !RowsClash(next, name, id, doc)
    {
      assert db.Indexed(name, table) && !RowsClash(db, name, id, doc);
    }
    RowsStayUnique(db, next, table, {id});
  }

  /** Every change that is accepted with uniqueness enforced leaves unique indexes unique. */
  lemma {:induction false} ChangeKeepsUnique(db: Database, ch: Change)
    requires Unique(db) && ChangeAccepted(db, ch, true)
    ensures Unique(Effect(db, ch))
  {
    match ch {
      case WriteRow(table, id, merged) =>
        if !db.Def(table).deleted && id !in db.Dead(table) { WriteKeepsUnique(db, table, id, merged); }
      case DeleteRow(table, id) =>
        if Effect(db, ch) != db { RowsStayUnique(db, Effect(db, ch), table, {}); }
      case TombstoneIndex(index) =>
        IndexDropped(db, index);
      case TombstoneTable(table) => SchemaStaysUnique(db, Effect(db, ch), table);
      case CreateTable(table) => SchemaStaysUnique(db, Effect(db, ch), table);
      case AddColumn(table, _, _, _, _) => SchemaStaysUnique(db, Effect(db, ch), table);
      case CreateIndex(_, table, _, _) => SchemaStaysUnique(db, Effect(db, ch), table);
    }
  }

  lemma {:induction false} IndexDropped(db: Database, index: Name)
    requires Unique(db) && index in db.indices
    ensures Unique(Effect(db, TombstoneIndex(index)))
  {
    var next := Effect(db, TombstoneIndex(index));
    forall name | name in next.indices && !next.indices[name].deleted && !next.Def(next.indices[name].table).deleted
      ensures UniqueOn(next, name)
    {
      IndexFrame(db, next, name);
    }
  }

  // ---------------------------------------------------------------------------------------------
  // Transactions
  // ---------------------------------------------------------------------------------------------

  /** When a received document or tombstone gets through to the indexes of its table. */
  ghost predicate ReceiptAccepted(db: Database, table: Name, visible: bool) {
    !db.Def(table).deleted && forall name :: db.Indexed(name, table) && visible ==> Singular(db.Def(table))
  }

  lemma {:induction false} ReceiptRefused(a: Database, b: Database, table: Name, id: Uuid, after: Option<Doc>)
    requires Good(a) && b == a.(docs := b.docs)
    ensures UpdateAccepted(b, table, id, a.DocAt(table, id), after, false) <==> ReceiptAccepted(a, table, after.Some?)
  {
    if !a.Def(table).deleted {
      if after.Some? {
        WriteRefused(a, b, table, id, after.value, false);
      } else {
        RemovalAccepted(a, b, table, id, false);
      }
    }
  }

  /** The same for a row that was visible in one state and goes into the indexes of another. */
  lemma {:induction false} PairRefused(a: Database, b: Database, table: Name, id: Uuid, after: Option<Doc>)
    requires Good(a) && b == a.(docs := b.docs, records := b.records)
    ensures UpdateAccepted(b, table, id, a.DocAt(table, id), after, false) <==> ReceiptAccepted(a, table, after.Some?)
  {
    if !a.Def(table).deleted {
      AgreementResolves(a, table);
      assert forall name :: a.Indexed(name, table) <==> b.Indexed(name, table);
      assert AllResolve(b, table);
      assert forall name :: a.Indexed(name, table) ==> IndexAgrees(a, name);
    }
  }

  /** A row after a merge has these columns in conflict. */
  function Dispute(db: Database, table: Name, id: Uuid, columns: set<Name>): Database {
    var rows: map<Uuid, set<Name>> := if table in db.disputed then db.disputed[table] else map[];
    db.(disputed := db.disputed[table := rows[id := columns]])
  }

  /** The row after a received unit. */
  function Merged(db: Database, table: Name, id: Uuid, after: Option<Doc>, conflicts: set<Name>): Database {
    Dispute(if after.Some? then SetDoc(db, table, id, after) else Bury(SetDoc(db, table, id, None), table, id),
            table, id, conflicts)
  }

  // A received change to a row, with the document it leaves visible (none where it repeats a change to a deleted row)
  // and the columns in conflict in it.
  datatype Mutation = Mutation(table: Name, id: Uuid, after: Option<Doc>, conflicts: set<Name>)

  function DisputeAll(db: Database, mutations: seq<Mutation>): Database {
    if mutations == [] then db
    else
      var last := mutations[|mutations| - 1];
      Dispute(DisputeAll(db, mutations[..|mutations| - 1]), last.table, last.id, last.conflicts)
  }

  /** The rows after a received batch. */
  function AllMerged(db: Database, mutations: seq<Mutation>): Database {
    DisputeAll(SetDocs(db, mutations), mutations)
  }

  lemma {:induction false} DisputesOnly(db: Database, mutations: seq<Mutation>)
    ensures DisputeAll(db, mutations) == db.(disputed := DisputeAll(db, mutations).disputed)
  {
    if mutations != [] {
      DisputesOnly(db, mutations[..|mutations| - 1]);
    }
  }

  /** Conflicts are those of the documents: index records have no part in them. */
  lemma {:induction false} DisputesApart(a: Database, b: Database, mutations: seq<Mutation>)
    requires b == a.(records := b.records)
    ensures DisputeAll(b, mutations) == DisputeAll(a, mutations).(records := b.records)
  {
    if mutations != [] {
      DisputesApart(a, b, mutations[..|mutations| - 1]);
    }
  }

  /** Which columns are in conflict plays no part in the indexes. */
  lemma {:induction false} DisputedIsGood(a: Database, b: Database)
    requires Good(a) && b == a.(disputed := b.disputed)
    ensures Good(b)
  {
    forall name | name in b.indices && !b.indices[name].deleted && !b.Def(b.indices[name].table).deleted
      ensures IndexAgrees(b, name)
    {
      assert IndexAgrees(a, name);
      IndexFrame(a, b, name);
    }
    forall t, i | i in b.Docs(t)
      ensures GoodDoc(b.Def(t), i, b.Docs(t)[i])
    {
      assert i in a.Docs(t);
    }
    forall t, i | i in b.Dead(t)
      ensures i !in b.Docs(t)
    {
      assert i in a.Dead(t);
    }
  }

  function SetDocs(db: Database, mutations: seq<Mutation>): Database {
    if mutations == [] then db
    else
      var last := mutations[|mutations| - 1];
      SetDoc(SetDocs(db, mutations[..|mutations| - 1]), last.table, last.id, last.after)
  }

  ghost predicate ReceiptsAccepted(db: Database, mutations: seq<Mutation>) {
    forall m :: m in mutations ==> ReceiptAccepted(db, m.table, m.after.Some?)
  }

  ghost predicate GoodMutations(db: Database, mutations: seq<Mutation>) {
    forall m :: m in mutations && m.after.Some? ==>
                  GoodDoc(db.Def(m.table), m.id, m.after.value) && m.id !in db.Dead(m.table)
  }

  lemma {:induction false} SetDocsKeepsCatalog(db: Database, mutations: seq<Mutation>)
    ensures SetDocs(db, mutations) == db.(docs := SetDocs(db, mutations).docs)
  {
    if mutations != [] {
      SetDocsKeepsCatalog(db, mutations[..|mutations| - 1]);
    }
  }

  lemma {:induction false} SetDocsIdentified(db: Database, mutations: seq<Mutation>)
    requires Identified(db) && GoodMutations(db, mutations)
    ensures Identified(SetDocs(db, mutations))
    decreases mutations
  {
    if mutations != [] {
      var init, last := mutations[..|mutations| - 1], mutations[|mutations| - 1];
      SetDocsKeepsCatalog(db, init);
      SetDocsIdentified(db, init);
      assert last in mutations;
      SetDocIdentified(SetDocs(db, init), last.table, last.id, last.after);
    }
  }

  class Engine {
    var db: Database

    constructor (db: Database)
      ensures this.db == db
    {
      this.db := db;
    }

    /** `mutate_transaction`: a received unit merged into one row, which leaves a document visible, with some columns in
        conflict, or the row deleted. */
    method ReceiveRow(table: Name, id: Uuid, after: Option<Doc>, conflicts: set<Name>)
      returns (r: Result<bool, EngineError>)
      requires Good(db)
      requires after.Some? ==> GoodDoc(db.Def(table), id, after.value) && id !in db.Dead(table)
      modifies this
      ensures Good(db)
      ensures r.Ok? <==> ReceiptAccepted(old(db), table, after.Some?)
      ensures r.Ok? ==> db == Merged(old(db), table, id, after, conflicts).(records := db.records)
      ensures r.Err? ==> db == old(db)
    {
      var tx := new Transaction(db);
      var oldRow := tx.GetRow(table, id);
      var newRow: Option<Row> := None;
      if after.Some? {
        var row := MergedRow(tx, table, id, after.value);
        newRow := Some(row);
      }
      tx.db := SetDoc(tx.db, table, id, after);
      ghost var changed := tx.db;
      ghost var before := db.DocAt(table, id);
      ReceiptRefused(db, changed, table, id, after);
      r := tx.UpdateRow(table, oldRow, newRow, false, id, before, after);
      if r.Ok? {
        UpdatedBeforehand(db, changed, tx.db.records, table, id, before, after);
        UpdatedIsGood(db, tx.db, table, id, after);
        if after.None? {
          BuriedIsGood(tx.db, table, id);
          tx.db := Bury(tx.db, table, id);
        }
        DisputedIsGood(tx.db, Dispute(tx.db, table, id, conflicts));
        db := Dispute(tx.db, table, id, conflicts);
      }
    }

    /** `mutate_rows`: first all changes go into their rows, and then, one after another, into the indexes. */
    method ReceiveBatch(mutations: seq<Mutation>) returns (r: Result<bool, EngineError>)
      requires Good(db) && GoodMutations(db, mutations)
      modifies this
      ensures Good(db)
      ensures r.Ok? <==> ReceiptsAccepted(old(db), mutations)
      ensures r.Ok? ==> db == AllMerged(old(db), mutations).(records := db.records)
      ensures r.Err? ==> db == old(db)
    {
      var tx := new Transaction(db);
      var olds, news := WriteRows(tx, mutations);
      r := IndexRows(tx, mutations, olds, news, db);
      if r.Ok? {
        DisputesOnly(tx.db, mutations);
        DisputesApart(SetDocs(db, mutations), tx.db, mutations);
        DisputedIsGood(tx.db, DisputeAll(tx.db, mutations));
        db := DisputeAll(tx.db, mutations);
      }
    }
  }

  /** One change goes into its row; the rows before and after it are returned. */
  method WriteMutation(tx: Transaction, m: Mutation) returns (oldRow: Option<Row>, newRow: Option<Row>)
    requires Identified(tx.db) && (m.after.Some? ==> GoodDoc(tx.db.Def(m.table), m.id, m.after.value))
    modifies tx
    ensures tx.db == SetDoc(old(tx.db), m.table, m.id, m.after) && Identified(tx.db)
    ensures Decodes(tx.db.Def(m.table), oldRow, m.id, old(tx.db).DocAt(m.table, m.id))
    ensures Decodes(tx.db.Def(m.table), newRow, m.id, m.after)
  {
    oldRow := tx.GetRow(m.table, m.id);
    newRow := None;
    if m.after.Some? {
      var row := MergedRow(tx, m.table, m.id, m.after.value);
      newRow := Some(row);
    }
    SetDocIdentified(tx.db, m.table, m.id, m.after);
    tx.db := SetDoc(tx.db, m.table, m.id, m.after);
  }

  /** The first `i` changes are in their rows, and their rows before and after recorded. */
  ghost predicate RowsWritten(start: Database, mutations: seq<Mutation>, i: nat, db: Database, olds: seq<Option<Row>>,
                              news: seq<Option<Row>>)
  {
    && i == |olds| == |news| && i <= |mutations|
    && db == SetDocs(start, mutations[..i]) == start.(docs := db.docs) && Identified(db)
    && forall j :: 0 <= j < i ==> PairDecodes(start, mutations, j, olds[j], news[j])
  }

  lemma {:induction false} OneMoreWritten(start: Database, mutations: seq<Mutation>, i: nat, db: Database,
                                          next: Database, olds: seq<Option<Row>>, news: seq<Option<Row>>,
                                          oldRow: Option<Row>, newRow: Option<Row>)
    requires RowsWritten(start, mutations, i, db, olds, news) && i < |mutations|
    requires next == SetDoc(db, mutations[i].table, mutations[i].id, mutations[i].after) && Identified(next)
    requires PairDecodes(start, mutations, i, oldRow, newRow)
    ensures RowsWritten(start, mutations, i + 1, next, olds + [oldRow], news + [newRow])
  {
    assert mutations[..i + 1][..i] == mutations[..i];
  }

  /** The first half of a batch: each change goes into its row, and the rows before and after it are recorded. */
  method WriteRows(tx: Transaction, mutations: seq<Mutation>) returns (olds: seq<Option<Row>>, news: seq<Option<Row>>)
    requires Identified(tx.db) && GoodMutations(tx.db, mutations)
    modifies tx
    ensures tx.db == SetDocs(old(tx.db), mutations) == old(tx.db).(docs := tx.db.docs)
    ensures |olds| == |news| == |mutations|
    ensures forall j :: 0 <= j < |mutations| ==> PairDecodes(old(tx.db), mutations, j, olds[j], news[j])
  {
    olds, news := [], [];
    ghost var start := tx.db;
    for i := 0 to |mutations|
      invariant RowsWritten(start, mutations, i, tx.db, olds, news)
    {
      ghost var now := tx.db;
      assert mutations[i] in mutations;
      var oldRow, newRow := WriteMutation(tx, mutations[i]);
      OneMoreWritten(start, mutations, i, now, tx.db, olds, news, oldRow, newRow);
      olds, news := olds + [oldRow], news + [newRow];
    }
    assert mutations[..|mutations|] == mutations;
  }

  /** The state in which the first `i` changes are in their rows and their indexes. */
  ghost function Halfway(start: Database, mutations: seq<Mutation>, i: nat, records: map<Name, set<Row>>): Database
    requires i <= |mutations|
  {
    SetDocs(start, mutations[..i]).(records := records)
  }

  lemma {:induction false} HalfwayNext(start: Database, mutations: seq<Mutation>, i: nat, before: map<Name, set<Row>>,
                                       records: map<Name, set<Row>>)
    requires i < |mutations|
    ensures var m, done := mutations[i], Halfway(start, mutations, i, before);
            Halfway(start, mutations, i + 1, records) == SetDoc(done, m.table, m.id, m.after).(records := records)
  {
    assert mutations[..i + 1][..i] == mutations[..i];
  }

  lemma {:induction false} HalfwayStep(start: Database, mutations: seq<Mutation>, i: nat, now: Database,
                                       records: map<Name, set<Row>>)
    requires i < |mutations| && GoodMutations(start, mutations) && Identified(start)
    requires now == SetDocs(start, mutations).(records := now.records)
    requires Good(Halfway(start, mutations, i, now.records))
    requires !start.Def(mutations[i].table).deleted
    requires var m := mutations[i];
             Updated(now, records, m.table, m.id, SetDocs(start, mutations[..i]).DocAt(m.table, m.id), m.after)
    ensures Good(Halfway(start, mutations, i + 1, records))
  {
    assert mutations[i] in mutations;
    SetDocsKeepsCatalog(start, mutations);
    SetDocsKeepsCatalog(start, mutations[..i]);
    HalfwayNext(start, mutations, i, now.records, records);
    MutationIndexed(Halfway(start, mutations, i, now.records), now, records, mutations[i]);
  }

  lemma {:induction false} MutationIndexed(done: Database, now: Database, records: map<Name, set<Row>>, m: Mutation)
    requires Good(done) && now == done.(docs := now.docs) && !done.Def(m.table).deleted
    requires m.after.Some? ==> GoodDoc(done.Def(m.table), m.id, m.after.value) && m.id !in done.Dead(m.table)
    requires Updated(now, records, m.table, m.id, done.DocAt(m.table, m.id), m.after)
    ensures Good(SetDoc(done, m.table, m.id, m.after).(records := records))
  {
    UpdatedBeforehand(done, now, records, m.table, m.id, done.DocAt(m.table, m.id), m.after);
    UpdatedIsGood(done, SetDoc(done, m.table, m.id, m.after).(records := records), m.table, m.id, m.after);
  }

  lemma {:induction false} PairAccepted(start: Database, mutations: seq<Mutation>, i: nat, now: Database)
    requires i < |mutations| && MidBatch(start, mutations, i, now)
    ensures var m := mutations[i];
            UpdateAccepted(now, m.table, m.id, SetDocs(start, mutations[..i]).DocAt(m.table, m.id), m.after, false)
            <==> ReceiptAccepted(start, m.table, m.after.Some?)
  {
    var m, done := mutations[i], Halfway(start, mutations, i, now.records);
    SetDocsKeepsCatalog(start, mutations[..i]);
    PairRefused(done, now, m.table, m.id, m.after);
    assert forall name :: done.Indexed(name, m.table) <==> start.Indexed(name, m.table);
  }

  /** All changes are in their rows, and the first `i` of them, which were accepted, in their indexes. */
  ghost predicate MidBatch(start: Database, mutations: seq<Mutation>, i: nat, db: Database)
    requires i <= |mutations|
  {
    && db == SetDocs(start, mutations).(records := db.records)
    && db == start.(docs := db.docs, records := db.records)
    && Good(Halfway(start, mutations, i, db.records))
    && ReceiptsAccepted(start, mutations[..i])
  }

  lemma {:induction false} ReceiptsOneMore(start: Database, mutations: seq<Mutation>, i: nat)
    requires i < |mutations| && ReceiptsAccepted(start, mutations[..i])
    requires ReceiptAccepted(start, mutations[i].table, mutations[i].after.Some?)
    ensures ReceiptsAccepted(start, mutations[..i + 1])
  {
    assert mutations[..i + 1] == mutations[..i] + [mutations[i]];
  }

  /** One recorded pair of rows, into the indexes. */
  method IndexRow(tx: Transaction, mutations: seq<Mutation>, i: nat, oldRow: Option<Row>, newRow: Option<Row>,
                  ghost start: Database) returns (r: Result<bool, EngineError>)
    requires i < |mutations| && Good(start) && GoodMutations(start, mutations)
    requires MidBatch(start, mutations, i, tx.db) && PairDecodes(start, mutations, i, oldRow, newRow)
    modifies tx
    ensures r.Ok? ==> MidBatch(start, mutations, i + 1, tx.db)
    ensures r.Err? ==> !ReceiptsAccepted(start, mutations)
  {
    var m := mutations[i];
    ghost var now, before := tx.db, SetDocs(start, mutations[..i]).DocAt(m.table, m.id);
    assert m in mutations;
    PairAccepted(start, mutations, i, now);
    r := tx.UpdateRow(m.table, oldRow, newRow, false, m.id, before, m.after);
    if r.Ok? {
      HalfwayStep(start, mutations, i, now, tx.db.records);
      ReceiptsOneMore(start, mutations, i);
    }
  }

  lemma {:induction false} BatchBegins(start: Database, mutations: seq<Mutation>, db: Database)
    requires Good(start) && db == SetDocs(start, mutations) == start.(docs := db.docs)
    ensures MidBatch(start, mutations, 0, db)
  {
    assert mutations[..0] == [];
  }

  lemma {:induction false} BatchEnds(start: Database, mutations: seq<Mutation>, db: Database)
    requires MidBatch(start, mutations, |mutations|, db)
    ensures Good(db) && ReceiptsAccepted(start, mutations)
  {
    assert mutations[..|mutations|] == mutations;
  }

  /** The second half of a batch: the recorded rows go into the indexes one after another. */
  method IndexRows(tx: Transaction, mutations: seq<Mutation>, olds: seq<Option<Row>>, news: seq<Option<Row>>,
                   ghost start: Database) returns (r: Result<bool, EngineError>)
    requires Good(start) && GoodMutations(start, mutations)
    requires tx.db == SetDocs(start, mutations) == start.(docs := tx.db.docs)
    requires |olds| == |news| == |mutations|
    requires forall j :: 0 <= j < |mutations| ==> PairDecodes(start, mutations, j, olds[j], news[j])
    modifies tx
    ensures r.Ok? <==> ReceiptsAccepted(start, mutations)
    ensures r.Ok? ==> Good(tx.db) && tx.db == SetDocs(start, mutations).(records := tx.db.records)
  {
    BatchBegins(start, mutations, tx.db);
    for i := 0 to |mutations|
      invariant MidBatch(start, mutations, i, tx.db)
    {
      r := IndexRow(tx, mutations, i, olds[i], news[i], start);
      if r.Err? {
        return;
      }
    }
    BatchEnds(start, mutations, tx.db);
    r := Ok(true);
  }

  /** The pair of rows recorded for a mutation: the row before it, after all earlier ones, and the row after it. */
  ghost predicate PairDecodes(db: Database, mutations: seq<Mutation>, i: nat, oldRow: Option<Row>, newRow: Option<Row>)
    requires i < |mutations|
  {
    var m := mutations[i];
    && Decodes(db.Def(m.table), oldRow, m.id, SetDocs(db, mutations[..i]).DocAt(m.table, m.id))
    && Decodes(db.Def(m.table), newRow, m.id, m.after)
  }

  const EMPTY := Database(map[], map[], map[], map[], map[], map[])

  /** A database without tables is where every run starts. */
  lemma {:induction false} EmptyIsGood()
    ensures Good(EMPTY) && Unique(EMPTY)
  {
  }
}
