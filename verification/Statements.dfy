// What local statements and received changes mean, on the catalog and the rows alone: when a statement succeeds and
// what it leaves, whole runs of them, and that unique indexes stay unique. Index records play no part in any of this.
module Statements {
  import opened Values
  import opened Wrappers
  import opened Catalog
  import opened Index
  import opened Changes

  datatype ColumnDecl = ColumnDecl(name: Name, valueType: ValueType, default: Value, primaryKey: bool)

  datatype Statement =
    // generated: the UUID the engine would generate for a row given without its first column.
    | Insert(table: Name, row: Row, generated: Uuid)
    | Update(table: Name, assignments: seq<(Name, Value)>, column: Name, value: Value)
    | Delete(table: Name, column: Name, value: Value)
    | DeclareTable(table: Name, columns: seq<ColumnDecl>, ifNotExists: bool)
    | AlterTable(table: Name, columns: seq<ColumnDecl>, ifExists: bool)
    | DropTable(table: Name, ifExists: bool)
    | DeclareIndex(index: Name, table: Name, unique: bool, positions: seq<nat>, ifNotExists: bool)
    | DeclareIndexByNames(index: Name, table: Name, unique: bool, names: seq<Name>, ifNotExists: bool)
    | DropIndex(index: Name, ifExists: bool)

  /** `lookup_table_name` succeeds. */
  predicate Exists(db: Database, table: Name) {
    table in db.tables && !db.tables[table].deleted
  }

  // ---------------------------------------------------------------------------------------------
  // Rows and documents
  // ---------------------------------------------------------------------------------------------

  /** The document in which every column has been put. */
  function DocOf(cols: seq<Column>, row: Row): Doc
    requires |row| == |cols|
  {
    if cols == [] then map[]
    else DocOf(cols[..|cols| - 1], row[..|row| - 1])[cols[|cols| - 1].name := row[|row| - 1]]
  }

  lemma {:induction false} DocOfAt(cols: seq<Column>, row: Row, i: nat)
    requires |row| == |cols| && Sorted(cols) && i < |cols|
    requires forall a, b :: 0 <= a < b < |cols| ==> cols[a].name != cols[b].name
    ensures cols[i].name in DocOf(cols, row) && DocOf(cols, row)[cols[i].name] == row[i]
  {
    if i < |cols| - 1 {
      DocOfAt(cols[..|cols| - 1], row[..|row| - 1], i);
    }
  }

  lemma {:induction false} DistinctNames(def: TableDef)
    ensures var cols := ColumnsOf(def);
            forall a, b :: 0 <= a < b < |cols| ==> cols[a].name != cols[b].name
  {
    var cols := ColumnsOf(def);
    forall a, b | 0 <= a < b < |cols|
      ensures cols[a].name != cols[b].name
    {
      assert cols[a] in cols && cols[b] in cols;
      BeforeAsymmetric(cols[a], cols[b]);
    }
  }

  /** Decoding inverts putting: the row read back is the row inserted. */
  lemma {:induction false} DocReadsBack(def: TableDef, row: Row)
    requires |row| == |ColumnsOf(def)|
    ensures Decode(ColumnsOf(def), DocOf(ColumnsOf(def), row)) == row
  {
    var cols := ColumnsOf(def);
    DistinctNames(def);
    forall i | 0 <= i < |cols|
      ensures Decode(cols, DocOf(cols, row))[i] == row[i]
    {
      DocOfAt(cols, row, i);
    }
  }

  function PrimaryPosition(cols: seq<Column>): Option<nat> {
    if cols == [] then None
    else if cols[0].primaryKey then Some(0)
    else match PrimaryPosition(cols[1..]) case None => None case Some(i) => Some(i + 1)
  }

  /** `materialize_insert`: a generated UUID goes in front of a short row whose table begins with its primary key, and
      defaults fill up what is missing. */
  function MaterializeInsert(cols: seq<Column>, row: Row, generated: Uuid): (r: Result<Row, EngineError>)
    ensures r.Ok? ==> |r.value| == |cols| && (row <= r.value || [Uuid(generated)] + row <= r.value)
    ensures r.Ok? && |row| == |cols| ==> r.value == row
  {
    if |row| > |cols| then Err(WrongColumnCount)
    else if PrimaryPosition(cols).None? then Err(BadPrimaryKey)
    else if |row| < |cols| && PrimaryPosition(cols) == Some(0) then
      Ok(MaterializeDefaults(cols, [Uuid(generated)] + row))
    else Ok(MaterializeDefaults(cols, row))
  }

  function Assign(doc: Doc, assignments: seq<(Name, Value)>): Doc {
    if assignments == [] then doc
    else
      var last := assignments[|assignments| - 1];
      Assign(doc, assignments[..|assignments| - 1])[last.0 := last.1]
  }

  /** The value a column is assigned last. */
  function Assigned(assignments: seq<(Name, Value)>, name: Name): Option<Value> {
    if assignments == [] then None
    else if assignments[|assignments| - 1].0 == name then Some(assignments[|assignments| - 1].1)
    else Assigned(assignments[..|assignments| - 1], name)
  }

  lemma {:induction false} AssignedValue(def: TableDef, doc: Doc, assignments: seq<(Name, Value)>, name: Name)
    ensures ValueOf(def, Assign(doc, assignments), name)
            == match Assigned(assignments, name) case Some(value) => value case None => ValueOf(def, doc, name)
  {
    if assignments != [] {
      AssignedValue(def, doc, assignments[..|assignments| - 1], name);
    }
  }

  // ---------------------------------------------------------------------------------------------
  // INSERT
  // ---------------------------------------------------------------------------------------------

  ghost function InsertedDoc(db: Database, table: Name, row: Row, generated: Uuid): Doc
    requires MaterializeInsert(ColumnsOf(db.Def(table)), row, generated).Ok?
  {
    var cols := ColumnsOf(db.Def(table));
    DocOf(cols, MaterializeInsert(cols, row, generated).value)
  }

  /** The error an INSERT meets, in the order of the checks: None if it succeeds. */
  ghost function InsertRefusal(db: Database, table: Name, row: Row, generated: Uuid): Option<EngineError> {
    if !Exists(db, table) then Some(TableNotFound)
    else
      var def := db.Def(table);
      var full := MaterializeInsert(ColumnsOf(def), row, generated);
      if full.Err? then Some(full.error)
      else
        var doc := InsertedDoc(db, table, row, generated);
        match IdOf(def, doc)
        case None => Some(BadPrimaryKey)
        case Some(id) =>
          if id in db.Dead(table) then Some(PrimaryKeyDeleted)
          else if id in db.Docs(table) then Some(PrimaryKeyExists)
          else if forall name :: db.Indexed(name, table) ==> !RowsClash(db, name, id, doc) then None
          else Some(UniqueViolation)
  }

  ghost function Inserted(db: Database, table: Name, row: Row, generated: Uuid): Database
    requires InsertRefusal(db, table, row, generated).None?
  {
    var doc := InsertedDoc(db, table, row, generated);
    SetDoc(db, table, IdOf(db.Def(table), doc).value, Some(doc))
  }

  lemma {:induction false} IdIsGood(def: TableDef, id: Uuid, doc: Doc)
    requires IdOf(def, doc) == Some(id)
    ensures GoodDoc(def, id, doc) && Singular(def)
  {
    var n :| PrimaryNames(def) == {n};
    assert n in PrimaryNames(def);
    IdOfKey(def, doc, n);
    forall m | PrimaryNames(def) == {m}
      ensures ValueOf(def, doc, m) == Uuid(id)
    {
      assert m in PrimaryNames(def);
    }
  }

  // ---------------------------------------------------------------------------------------------
  // UPDATE
  // ---------------------------------------------------------------------------------------------

  /** The visible rows with this value in this column. */
  ghost function Matching(db: Database, table: Name, column: Name, value: Value): set<Uuid> {
    set id | id in db.Docs(table) && ValueOf(db.Def(table), db.Docs(table)[id], column) == value
  }

  /** These rows with the assignments made, and the others as they are. */
  ghost function AssignAll(docs: map<Uuid, Doc>, ids: set<Uuid>, assignments: seq<(Name, Value)>): map<Uuid, Doc> {
    map id | id in docs :: if id in ids then Assign(docs[id], assignments) else docs[id]
  }

  ghost function RowsAssigned(db: Database, table: Name, ids: set<Uuid>, assignments: seq<(Name, Value)>): Database {
    if ids == {} then db else db.(docs := db.docs[table := AssignAll(db.Docs(table), ids, assignments)])
  }

  /** The error the first assignment that has one meets: a primary key cannot be assigned. */
  ghost function AssignmentRefusal(def: TableDef, assignments: seq<(Name, Value)>): Option<EngineError> {
    if assignments == [] then None
    else if AssignmentRefusal(def, assignments[..|assignments| - 1]).Some? then
      AssignmentRefusal(def, assignments[..|assignments| - 1])
    else
      var name := assignments[|assignments| - 1].0;
      if !Live(def, name) then Some(ColumnNotFound)
      else if def.fields[name].primaryKey then Some(PrimaryKeyFixed)
      else None
  }

  /** One of these rows clashes with another on a unique index. */
  ghost predicate Clashes(db: Database, table: Name, ids: set<Uuid>) {
    exists name, id :: db.Indexed(name, table) && id in ids && id in db.Docs(table)
                       && RowsClash(db, name, id, db.Docs(table)[id])
  }

  /** One of these rows shows the assigned values already. */
  ghost predicate Unmoved(db: Database, table: Name, ids: set<Uuid>, assignments: seq<(Name, Value)>) {
    exists id :: id in ids && id in db.Docs(table) && Assign(db.Docs(table)[id], assignments) == db.Docs(table)[id]
  }

  /** The errors an UPDATE may meet: it fails with one of them, and succeeds if there is none. Whether an index is
      violated is seen from the rows as they come out, whatever the order in which they are updated; that order decides
      only which error comes first when there are two. */
  ghost function UpdateRefusals(db: Database, table: Name, assignments: seq<(Name, Value)>, column: Name, value: Value)
    : set<EngineError>
  {
    if !Exists(db, table) then {TableNotFound}
    else if assignments == [] then {EmptyStatement}
    else if AssignmentRefusal(db.Def(table), assignments).Some? then
      {AssignmentRefusal(db.Def(table), assignments).value}
    else if !Live(db.Def(table), column) then {ColumnNotFound}
    else
      var ids := Matching(db, table, column, value);
      if ids == {} then {}
      else if !Singular(db.Def(table)) then {BadPrimaryKey}
      else RowRefusals(db, table, ids, assignments)
  }

  /** One of these rows has a column in conflict that is assigned to. */
  ghost predicate Contested(db: Database, table: Name, ids: set<Uuid>, assignments: seq<(Name, Value)>) {
    exists id, i :: id in ids && 0 <= i < |assignments| && assignments[i].0 in db.Disputed(table, id)
  }

  /** The errors met row by row: a column in conflict cannot be assigned to, a row the assignments leave as it is has no
      change to record, and one may come to clash with another. */
  ghost function RowRefusals(db: Database, table: Name, ids: set<Uuid>, assignments: seq<(Name, Value)>)
    : set<EngineError>
  {
    (if Contested(db, table, ids, assignments) then {ColumnConflicted} else {})
    + (if Unmoved(db, table, ids, assignments) then {NoChange} else {})
    + (if Clashes(RowsAssigned(db, table, ids, assignments), table, ids) then {UniqueViolation} else {})
  }

  /** No assignment is to a primary key, so every row keeps its id. */
  lemma {:induction false} AssignmentsAreValid(def: TableDef, assignments: seq<(Name, Value)>, name: Name)
    requires AssignmentRefusal(def, assignments).None? && Assigned(assignments, name).Some?
    ensures Live(def, name) && name !in PrimaryNames(def)
  {
    if assignments[|assignments| - 1].0 != name {
      AssignmentsAreValid(def, assignments[..|assignments| - 1], name);
    }
  }

  lemma {:induction false} AssignedKeepsId(def: TableDef, id: Uuid, doc: Doc, assignments: seq<(Name, Value)>)
    requires AssignmentRefusal(def, assignments).None? && GoodDoc(def, id, doc)
    ensures IdOf(def, Assign(doc, assignments)) == if Singular(def) then Some(id) else None
  {
    if n :| PrimaryNames(def) == {n} {
      assert n in PrimaryNames(def);
      if Assigned(assignments, n).Some? {
        AssignmentsAreValid(def, assignments, n);
        assert false;
      }
      AssignedValue(def, doc, assignments, n);
      IdOfKey(def, Assign(doc, assignments), n);
    }
  }

  /** Two rows with the same indexed values, one of them assigned, still have the same once both are. */
  lemma {:induction false} AssignedAlike(def: TableDef, index: IndexDef, x: Doc, y: Doc,
                                         assignments: seq<(Name, Value)>)
    requires IndexedValues(def, index, Assign(x, assignments)) == IndexedValues(def, index, y)
    ensures IndexedValues(def, index, Assign(x, assignments)) == IndexedValues(def, index, Assign(y, assignments))
  {
    var names := LiveNames(index.fields);
    forall i | 0 <= i < |names|
      ensures IndexedValues(def, index, Assign(x, assignments))[i]
              == IndexedValues(def, index, Assign(y, assignments))[i]
    {
      assert IndexedValues(def, index, Assign(x, assignments))[i] == IndexedValues(def, index, y)[i];
      AssignedValue(def, x, assignments, names[i]);
      AssignedValue(def, y, assignments, names[i]);
    }
  }

  lemma {:induction false} PutTwice<K, V>(m: map<K, V>, key: K, first: V, second: V)
    ensures m[key := first][key := second] == m[key := second]
  {
  }

  lemma {:induction false} RowsAssignedDocs(db: Database, table: Name, ids: set<Uuid>, assignments: seq<(Name, Value)>)
    ensures RowsAssigned(db, table, ids, assignments).Docs(table) == AssignAll(db.Docs(table), ids, assignments)
    ensures RowsAssigned(db, table, ids, assignments).Def(table) == db.Def(table)
    ensures forall name :: RowsAssigned(db, table, ids, assignments).Indexed(name, table) <==> db.Indexed(name, table)
  {
  }

  lemma {:induction false} AssignOneMore(db: Database, table: Name, ids: set<Uuid>, id: Uuid,
                                         assignments: seq<(Name, Value)>)
    requires id in db.Docs(table) && id !in ids
    ensures var now := RowsAssigned(db, table, ids, assignments);
            && id in now.Docs(table) && now.Docs(table)[id] == db.Docs(table)[id]
            && SetDoc(now, table, id, Some(Assign(db.Docs(table)[id], assignments)))
               == RowsAssigned(db, table, ids + {id}, assignments)
  {
    var next := AssignAll(db.Docs(table), ids + {id}, assignments);
    RowsAssignedDocs(db, table, ids, assignments);
    assert AssignAll(db.Docs(table), ids, assignments)[id := Assign(db.Docs(table)[id], assignments)] == next;
    PutTwice(db.docs, table, AssignAll(db.Docs(table), ids, assignments), next);
  }

  /** A clash met part way is one that the rows as they come out still have. */
  lemma {:induction false} ClashRemains(db: Database, table: Name, some: set<Uuid>, ids: set<Uuid>, name: Name,
                                        id: Uuid, assignments: seq<(Name, Value)>)
    requires some <= ids && id in ids && ids <= db.Docs(table).Keys && db.Indexed(name, table)
    requires RowsClash(RowsAssigned(db, table, some, assignments), name, id, Assign(db.Docs(table)[id], assignments))
    ensures Clashes(RowsAssigned(db, table, ids, assignments), table, ids)
  {
    var now, end, doc := RowsAssigned(db, table, some, assignments), RowsAssigned(db, table, ids, assignments),
                         Assign(db.Docs(table)[id], assignments);
    var def, index := db.Def(table), db.indices[name];
    RowsAssignedDocs(db, table, some, assignments);
    RowsAssignedDocs(db, table, ids, assignments);
    var other := ClashWith(now, name, table, id, doc);
    assert now.indices[name] == index == end.indices[name];
    SameValuesRemain(def, index, db.Docs(table), some, ids, id, other, assignments);
    assert end.Docs(table)[id] == doc;
    assert RowsClash(end, name, id, doc);
  }

  /** The other row of a clash. */
  lemma {:induction false} ClashWith(db: Database, name: Name, table: Name, id: Uuid, doc: Doc) returns (other: Uuid)
    requires db.Indexed(name, table) && RowsClash(db, name, id, doc)
    ensures db.indices[name].unique && NoNull(IndexedValues(db.Def(table), db.indices[name], doc))
    ensures other in db.Docs(table) && other != id
    ensures IndexedValues(db.Def(table), db.indices[name], db.Docs(table)[other])
            == IndexedValues(db.Def(table), db.indices[name], doc)
  {
    other :| other in db.Docs(table) && other != id
             && IndexedValues(db.Def(table), db.indices[name], db.Docs(table)[other])
                == IndexedValues(db.Def(table), db.indices[name], doc);
  }

  lemma {:induction false} SameValuesRemain(def: TableDef, index: IndexDef, docs: map<Uuid, Doc>, some: set<Uuid>,
                                            ids: set<Uuid>, id: Uuid, other: Uuid, assignments: seq<(Name, Value)>)
    requires some <= ids && id in docs && other in docs
    requires IndexedValues(def, index, AssignAll(docs, some, assignments)[other])
             == IndexedValues(def, index, Assign(docs[id], assignments))
    ensures IndexedValues(def, index, AssignAll(docs, ids, assignments)[other])
            == IndexedValues(def, index, Assign(docs[id], assignments))
  {
    if other in ids && other !in some {
      AssignedAlike(def, index, docs[id], docs[other], assignments);
    }
  }

  /** A row written without a clash leaves none among the rows written so far. */
  lemma {:induction false} NoClashSoFar(db: Database, table: Name, some: set<Uuid>, id: Uuid, doc: Doc)
    requires id !in some && !Clashes(db, table, some)
    requires forall name :: db.Indexed(name, table) ==> !RowsClash(db, name, id, doc)
    ensures !Clashes(SetDoc(db, table, id, Some(doc)), table, some + {id})
  {
    var next := SetDoc(db, table, id, Some(doc));
    assert next.Docs(table) == db.Docs(table)[id := doc];
    forall name, i | next.Indexed(name, table) && i in some + {id} && i in next.Docs(table)
      ensures !RowsClash(next, name, i, next.Docs(table)[i])
    {
      assert db.Indexed(name, table);
      if i != id {
        assert !RowsClash(db, name, i, db.Docs(table)[i]);
      }
    }
  }

  /** UPDATE t SET c = v WHERE c = v is refused exactly when some row has v put under c. (A row that shows v only as
      the column's default is changed by it.) */
  lemma {:induction false} SettingWhatIsThere(db: Database, table: Name, column: Name, value: Value)
    requires Exists(db, table) && Live(db.Def(table), column) && column !in PrimaryNames(db.Def(table))
    requires Singular(db.Def(table))
    ensures NoChange in UpdateRefusals(db, table, [(column, value)], column, value) <==>
            exists id :: id in db.Docs(table) && column in db.Docs(table)[id] && db.Docs(table)[id][column] == value
  {
    var assignments := [(column, value)];
    var ids := Matching(db, table, column, value);
    assert assignments[..0] == [];
    forall doc: Doc
      ensures Assign(doc, assignments) == doc[column := value]
      ensures Assign(doc, assignments) == doc <==> column in doc && doc[column] == value
    {
      assert doc[column := value][column] == value;
    }
    assert assignments[|assignments| - 1] == (column, value) && assignments[..|assignments| - 1] == [];
    assert AssignmentRefusal(db.Def(table), []).None?;
    if id :| id in db.Docs(table) && column in db.Docs(table)[id] && db.Docs(table)[id][column] == value {
      assert id in ids && Unmoved(db, table, ids, assignments);
    }
  }

  const NAME: Name := [110]
  const ADA := Text([65, 100, 97])

  /** A table of users with a UUID key and a name, and one user called Ada. */
  function Users(id: Uuid): Database {
    var def := TableDef(false, map[[105] := Field(Null, 0, true, false), NAME := Field(Null, 1, false, false)]);
    Database(map[[117] := def], map[], map[[117] := map[id := map[[105] := Uuid(id), NAME := ADA]]], map[], map[],
             map[])
  }

  /** UPDATE users SET name = 'Ada' WHERE name = 'Ada' fails, and with it the batch it is in. */
  lemma {:induction false} RenamingAdaToAdaFails(id: Uuid)
    ensures Good(Users(id)) && Unique(Users(id))
    ensures UpdateRefusals(Users(id), [117], [(NAME, ADA)], NAME, ADA) == {NoChange}
    ensures !BatchSucceeds(Users(id), [Update([117], [(NAME, ADA)], NAME, ADA)])
  {
    var db, def := Users(id), Users(id).Def([117]);
    assert PrimaryNames(def) == {[105]};
    IdOfKey(def, db.Docs([117])[id], [105]);
    IdIsGood(def, id, db.Docs([117])[id]);
    assert id in db.Docs([117]) && NAME in db.Docs([117])[id] && db.Docs([117])[id][NAME] == ADA;
    SettingWhatIsThere(db, [117], NAME, ADA);
    assert AfterBatch(db, [Update([117], [(NAME, ADA)], NAME, ADA)][..0]) == db;
  }

  // ---------------------------------------------------------------------------------------------
  // DELETE
  // ---------------------------------------------------------------------------------------------

  ghost function RowsDeleted(db: Database, table: Name, ids: set<Uuid>): Database {
    if ids == {} then db
    else db.(docs := db.docs[table := db.Docs(table) - ids], dead := db.dead[table := db.Dead(table) + ids])
  }

  ghost function DeleteRefusal(db: Database, table: Name, column: Name): Option<EngineError> {
    if !Exists(db, table) then Some(TableNotFound)
    else if !Live(db.Def(table), column) then Some(ColumnNotFound)
    else None
  }

  lemma {:induction false} DeleteOneMore(db: Database, table: Name, ids: set<Uuid>, id: Uuid)
    requires !db.Def(table).deleted
    ensures Effect(RowsDeleted(db, table, ids), DeleteRow(table, id)) == RowsDeleted(db, table, ids + {id})
  {
    var docs, dead, now := db.Docs(table) - ids, db.Dead(table) + ids, RowsDeleted(db, table, ids);
    assert docs - {id} == db.Docs(table) - (ids + {id});
    assert dead + {id} == db.Dead(table) + (ids + {id});
    assert now.Docs(table) == docs && now.Dead(table) == dead && now.Def(table) == db.Def(table);
    DeleteEffect(now, table, id);
    if ids != {} {
      PutTwice(db.docs, table, docs, docs - {id});
      PutTwice(db.dead, table, dead, dead + {id});
    }
  }

  lemma {:induction false} DeleteEffect(db: Database, table: Name, id: Uuid)
    requires !db.Def(table).deleted
    ensures Effect(db, DeleteRow(table, id))
            == db.(docs := db.docs[table := db.Docs(table) - {id}], dead := db.dead[table := db.Dead(table) + {id}])
  {
  }

  // ---------------------------------------------------------------------------------------------
  // Schema statements
  // ---------------------------------------------------------------------------------------------

  /** The effect of several changes, one after another. */
  function EffectAll(db: Database, changes: seq<Change>): Database {
    if changes == [] then db else Effect(EffectAll(db, changes[..|changes| - 1]), changes[|changes| - 1])
  }

  ghost predicate AllAccepted(db: Database, changes: seq<Change>) {
    forall i :: 0 <= i < |changes| ==> ChangeAccepted(EffectAll(db, changes[..i]), changes[i], true)
  }

  /** New columns at the positions that follow. */
  function Additions(table: Name, first: nat, columns: seq<ColumnDecl>): seq<Change> {
    seq(|columns|, i requires 0 <= i < |columns| =>
      Change.AddColumn(table, columns[i].name, columns[i].default, first + i, columns[i].primaryKey))
  }

  /** `validate_uuid_primary_key`: exactly one primary key, of UUID type. */
  ghost predicate ValidKey(columns: seq<ColumnDecl>) {
    exists i :: 0 <= i < |columns| && columns[i].primaryKey && columns[i].valueType.UuidType?
                && forall j :: 0 <= j < |columns| && columns[j].primaryKey ==> j == i
  }

  /** A column that may be added: its name is new to the table and among those added before it, and it is no primary
      key. */
  ghost predicate NewColumn(def: TableDef, columns: seq<ColumnDecl>, i: nat)
    requires i < |columns|
  {
    && !Live(def, columns[i].name) && !columns[i].primaryKey
    && forall j :: 0 <= j < i ==> columns[j].name != columns[i].name
  }

  ghost predicate NewColumns(def: TableDef, columns: seq<ColumnDecl>, count: nat)
    requires count <= |columns|
  {
    forall i :: 0 <= i < count ==> NewColumn(def, columns, i)
  }

  /** Columns that may be added to a table, at the positions after its live columns. */
  ghost predicate MayAdd(db: Database, table: Name, columns: seq<ColumnDecl>) {
    && NewColumns(db.Def(table), columns, |columns|)
    && AllAccepted(db, Additions(table, |ColumnsOf(db.Def(table))|, columns))
  }

  predicate InUse(db: Database, index: Name) {
    index in db.indices && !db.indices[index].deleted
  }

  /** `index_schema` raises no error. */
  ghost predicate Readable(db: Database, index: Name) {
    InUse(db, index) ==>
      && !db.Def(db.indices[index].table).deleted
      && Resolves(db.Def(db.indices[index].table), db.indices[index])
  }

  function NamesAt(cols: seq<Column>, positions: seq<nat>): seq<Name>
    requires forall i :: 0 <= i < |positions| ==> positions[i] < |cols|
  {
    seq(|positions|, i requires 0 <= i < |positions| => cols[positions[i]].name)
  }

  /** `create_index` on these columns of the table. */
  ghost predicate MayCreate(db: Database, index: Name, table: Name, unique: bool, names: seq<Name>) {
    Exists(db, table) && index != [] && names != []
      && ChangeAccepted(db, CreateIndex(index, table, unique, names), true)
  }

  ghost predicate InRange(db: Database, table: Name, positions: seq<nat>) {
    forall i :: 0 <= i < |positions| ==> positions[i] < |ColumnsOf(db.Def(table))|
  }

  // ---------------------------------------------------------------------------------------------
  // Statements
  // ---------------------------------------------------------------------------------------------

  /** When a statement succeeds. */
  ghost predicate Succeeds(db: Database, s: Statement) {
    match s
    case Insert(table, row, generated) => InsertRefusal(db, table, row, generated).None?
    case Update(table, assignments, column, value) => UpdateRefusals(db, table, assignments, column, value) == {}
    case Delete(table, column, _) => DeleteRefusal(db, table, column).None?
    case DeclareTable(table, columns, ifNotExists) =>
      if Exists(db, table) then ifNotExists
      else ValidKey(columns) && AllAccepted(db, [Change.CreateTable(table)] + Additions(table, 0, columns))
    case AlterTable(table, columns, ifExists) =>
      if !Exists(db, table) then ifExists
      else MayAdd(db, table, columns)
    case DropTable(table, ifExists) => ifExists || Exists(db, table)
    case DeclareIndex(index, table, unique, positions, ifNotExists) =>
      && Readable(db, index) && (InUse(db, index) ==> ifNotExists)
      && InRange(db, table, positions)
      && MayCreate(db, index, table, unique, NamesAt(ColumnsOf(db.Def(table)), positions))
    case DeclareIndexByNames(index, table, unique, names, ifNotExists) =>
      && Readable(db, index)
      && if InUse(db, index) then ifNotExists
         else (forall n :: n in names ==> Live(db.Def(table), n)) && MayCreate(db, index, table, unique, names)
    case DropIndex(index, ifExists) => Readable(db, index) && (ifExists || InUse(db, index))
  }

  /** What a statement that succeeds leaves: the catalog and the rows. */
  ghost function After(db: Database, s: Statement): Database
    requires Succeeds(db, s)
  {
    match s
    case Insert(table, row, generated) => Inserted(db, table, row, generated)
    case Update(table, assignments, column, value) =>
      RowsAssigned(db, table, Matching(db, table, column, value), assignments)
    case Delete(table, column, value) => RowsDeleted(db, table, Matching(db, table, column, value))
    case DeclareTable(table, columns, _) =>
      if Exists(db, table) then db else EffectAll(db, [Change.CreateTable(table)] + Additions(table, 0, columns))
    case AlterTable(table, columns, _) =>
      if Exists(db, table) then EffectAll(db, Additions(table, |ColumnsOf(db.Def(table))|, columns)) else db
    case DropTable(table, _) => if Exists(db, table) then Effect(db, TombstoneTable(table)) else db
    case DeclareIndex(index, table, unique, positions, _) =>
      Effect(db, CreateIndex(index, table, unique, NamesAt(ColumnsOf(db.Def(table)), positions)))
    case DeclareIndexByNames(index, table, unique, names, _) =>
      if InUse(db, index) then db else Effect(db, CreateIndex(index, table, unique, names))
    case DropIndex(index, _) => if InUse(db, index) then Effect(db, TombstoneIndex(index)) else db
  }

  // ---------------------------------------------------------------------------------------------
  // A table created over one that was dropped
  // ---------------------------------------------------------------------------------------------

  ghost predicate DistinctDecls(columns: seq<ColumnDecl>) {
    forall i, j :: 0 <= i < j < |columns| ==> columns[i].name != columns[j].name
  }

  /** Columns a table has had stay as they are, and new ones come as they are declared. */
  ghost predicate Joined(before: TableDef, after: TableDef, first: nat, columns: seq<ColumnDecl>) {
    && after.deleted == before.deleted
    && (forall n :: n in before.fields ==> n in after.fields && after.fields[n] == before.fields[n])
    && forall i :: 0 <= i < |columns| && columns[i].name !in before.fields ==>
         columns[i].name in after.fields
         && after.fields[columns[i].name] == Field(columns[i].default, first + i, columns[i].primaryKey, false)
  }

  lemma {:induction false} AdditionsJoin(db: Database, table: Name, first: nat, columns: seq<ColumnDecl>)
    requires DistinctDecls(columns)
    ensures Joined(db.Def(table), EffectAll(db, Additions(table, first, columns)).Def(table), first, columns)
  {
    if columns != [] {
      var init, last := columns[..|columns| - 1], columns[|columns| - 1];
      AdditionsJoin(db, table, first, init);
      AdditionsSnoc(table, first, columns);
      OnlyDeclared(db, table, first, init);
      var now := EffectAll(db, Additions(table, first, init));
      assert last.name in now.Def(table).fields ==> last.name in db.Def(table).fields;
      JoinOneMore(db.Def(table), now, table, first, columns);
    }
  }

  lemma {:induction false} JoinOneMore(before: TableDef, db: Database, table: Name, first: nat,
                                       columns: seq<ColumnDecl>)
    requires columns != [] && DistinctDecls(columns) && Joined(before, db.Def(table), first, columns[..|columns| - 1])
    requires columns[|columns| - 1].name in db.Def(table).fields ==> columns[|columns| - 1].name in before.fields
    ensures var c := columns[|columns| - 1];
            var ch := Change.AddColumn(table, c.name, c.default, first + |columns| - 1, c.primaryKey);
            Joined(before, Effect(db, ch).Def(table), first, columns)
  {
    assert forall i :: 0 <= i < |columns| - 1 ==> columns[..|columns| - 1][i] == columns[i];
  }

  lemma {:induction false} AdditionsSnoc(table: Name, first: nat, columns: seq<ColumnDecl>)
    requires columns != []
    ensures var changes, last := Additions(table, first, columns), columns[|columns| - 1];
            && changes[..|columns| - 1] == Additions(table, first, columns[..|columns| - 1])
            && changes[|columns| - 1]
               == Change.AddColumn(table, last.name, last.default, first + |columns| - 1, last.primaryKey)
  {
  }

  lemma {:induction false} OnlyDeclared(db: Database, table: Name, first: nat, columns: seq<ColumnDecl>)
    ensures forall n :: n in EffectAll(db, Additions(table, first, columns)).Def(table).fields ==>
              n in db.Def(table).fields || exists i :: 0 <= i < |columns| && columns[i].name == n
  {
    if columns != [] {
      OnlyDeclared(db, table, first, columns[..|columns| - 1]);
      AdditionsSnoc(table, first, columns);
      assert forall i :: 0 <= i < |columns| - 1 ==> columns[..|columns| - 1][i] == columns[i];
    }
  }

  lemma {:induction false} EffectAllCons(db: Database, ch: Change, changes: seq<Change>)
    ensures EffectAll(db, [ch] + changes) == EffectAll(Effect(db, ch), changes)
  {
    var all := [ch] + changes;
    if changes == [] {
      assert all[..0] == [] && all[0] == ch;
    } else {
      EffectAllCons(db, ch, changes[..|changes| - 1]);
      assert all[..|all| - 1] == [ch] + changes[..|changes| - 1];
    }
  }

  /** A table that was dropped and is created again with a key column it did not have before comes out with two keys:
      no row of it has an id, and no index of it takes a row. */
  lemma {:induction false} RecreatedHasTwoKeys(db: Database, table: Name, columns: seq<ColumnDecl>, ifNotExists: bool,
                                               key: Name, i: nat)
    requires !Exists(db, table) && Succeeds(db, DeclareTable(table, columns, ifNotExists)) && DistinctDecls(columns)
    requires key in PrimaryNames(db.Def(table))
    requires i < |columns| && columns[i].primaryKey && columns[i].name !in db.Def(table).fields
    ensures var after := After(db, DeclareTable(table, columns, ifNotExists));
            && {key, columns[i].name} <= PrimaryNames(after.Def(table)) && !Singular(after.Def(table))
            && Exists(after, table)
  {
    var created := Effect(db, Change.CreateTable(table));
    var after := EffectAll(created, Additions(table, 0, columns));
    EffectAllCons(db, Change.CreateTable(table), Additions(table, 0, columns));
    AdditionsJoin(created, table, 0, columns);
    TwoKeys(created.Def(table), after.Def(table), columns, key, i);
    StillNamed(created, table, 0, columns);
  }

  lemma {:induction false} TwoKeys(before: TableDef, after: TableDef, columns: seq<ColumnDecl>, key: Name, i: nat)
    requires Joined(before, after, 0, columns) && key in PrimaryNames(before)
    requires i < |columns| && columns[i].primaryKey && columns[i].name !in before.fields
    ensures {key, columns[i].name} <= PrimaryNames(after) && !Singular(after)
  {
    var names := PrimaryNames(after);
    assert key in names && columns[i].name in names && key != columns[i].name;
  }

  lemma {:induction false} StillNamed(db: Database, table: Name, first: nat, columns: seq<ColumnDecl>)
    requires table in db.tables
    ensures table in EffectAll(db, Additions(table, first, columns)).tables
  {
    if columns != [] {
      StillNamed(db, table, first, columns[..|columns| - 1]);
      AdditionsSnoc(table, first, columns);
    }
  }

  // ---------------------------------------------------------------------------------------------
  // Unique indexes
  // ---------------------------------------------------------------------------------------------

  lemma {:induction false} AllKeepUnique(db: Database, changes: seq<Change>)
    requires Unique(db) && AllAccepted(db, changes)
    ensures Unique(EffectAll(db, changes))
  {
    if changes != [] {
      var init := changes[..|changes| - 1];
      assert forall i :: 0 <= i < |init| ==> init[..i] == changes[..i];
      AllKeepUnique(db, init);
      ChangeKeepsUnique(EffectAll(db, init), changes[|changes| - 1]);
    }
  }

  lemma {:induction false} UpdateKeepsUnique(db: Database, table: Name, ids: set<Uuid>, assignments: seq<(Name, Value)>)
    requires Unique(db) && ids <= db.Docs(table).Keys
    requires ids == {} || !Clashes(RowsAssigned(db, table, ids, assignments), table, ids)
    ensures Unique(RowsAssigned(db, table, ids, assignments))
  {
    if ids != {} {
      RowsAssignedDocs(db, table, ids, assignments);
      RowsStayUnique(db, RowsAssigned(db, table, ids, assignments), table, ids);
    }
  }

  lemma {:induction false} InsertKeepsUnique(db: Database, table: Name, row: Row, generated: Uuid)
    requires Unique(db) && InsertRefusal(db, table, row, generated).None?
    ensures Unique(Inserted(db, table, row, generated))
  {
    var doc := InsertedDoc(db, table, row, generated);
    var id := IdOf(db.Def(table), doc).value;
    IdIsGood(db.Def(table), id, doc);
    WriteKeepsUnique(db, table, id, doc);
  }

  lemma {:induction false} SchemaKeepsUnique(db: Database, s: Statement)
    requires Unique(db) && Succeeds(db, s) && !s.Insert? && !s.Update? && !s.Delete?
    ensures Unique(After(db, s))
  {
    match s {
      case DeclareTable(table, columns, _) =>
        if After(db, s) != db { AllKeepUnique(db, [Change.CreateTable(table)] + Additions(table, 0, columns)); }
      case AlterTable(table, columns, _) =>
        if After(db, s) != db { AllKeepUnique(db, Additions(table, |ColumnsOf(db.Def(table))|, columns)); }
      case DropTable(table, _) =>
        if After(db, s) != db { ChangeKeepsUnique(db, TombstoneTable(table)); }
      case DeclareIndex(index, table, unique, positions, _) =>
        ChangeKeepsUnique(db, CreateIndex(index, table, unique, NamesAt(ColumnsOf(db.Def(table)), positions)));
      case DeclareIndexByNames(index, table, unique, names, _) =>
        if !InUse(db, index) { ChangeKeepsUnique(db, CreateIndex(index, table, unique, names)); }
      case DropIndex(index, _) =>
        if After(db, s) != db { ChangeKeepsUnique(db, TombstoneIndex(index)); }
    }
  }

  /** Whatever a statement that succeeds does to the catalog and the rows, unique indexes stay unique. */
  lemma {:induction false} StatementKeepsUnique(db: Database, s: Statement)
    requires Unique(db) && Succeeds(db, s)
    ensures Unique(After(db, s))
  {
    match s {
      case Insert(table, row, generated) => InsertKeepsUnique(db, table, row, generated);
      case Update(table, assignments, column, value) =>
        UpdateKeepsUnique(db, table, Matching(db, table, column, value), assignments);
      case Delete(table, column, value) => DeletionKeepsUnique(db, table, Matching(db, table, column, value));
      case _ => SchemaKeepsUnique(db, s);
    }
  }

  lemma {:induction false} DeletionKeepsUnique(db: Database, table: Name, ids: set<Uuid>)
    requires Unique(db)
    ensures Unique(RowsDeleted(db, table, ids))
  {
    if ids != {} { RowsStayUnique(db, RowsDeleted(db, table, ids), table, {}); }
  }

  // ---------------------------------------------------------------------------------------------
  // Index records play no part
  // ---------------------------------------------------------------------------------------------

  lemma {:induction false} ClashApart(a: Database, b: Database, table: Name, name: Name, id: Uuid, doc: Doc)
    requires a.Docs(table) == b.Docs(table) && a.Def(table) == b.Def(table) && a.indices == b.indices
    requires a.Indexed(name, table)
    ensures RowsClash(a, name, id, doc) == RowsClash(b, name, id, doc)
  {
  }

  lemma {:induction false} WriteApart(a: Database, b: Database, table: Name, id: Uuid, doc: Doc)
    requires b == a.(records := b.records)
    ensures WriteAccepted(a, table, id, doc, true) == WriteAccepted(b, table, id, doc, true)
  {
    forall name | a.Indexed(name, table)
      ensures RowsClash(a, name, id, doc) == RowsClash(b, name, id, doc)
    {
      ClashApart(a, b, table, name, id, doc);
    }
    assert forall name :: a.Indexed(name, table) <==> b.Indexed(name, table);
  }

  lemma {:induction false} EffectApart(a: Database, b: Database, ch: Change)
    requires b == a.(records := b.records)
    ensures Effect(b, ch) == Effect(a, ch).(records := b.records)
  {
    match ch {
      case CreateTable(table) => assert a.Def(table) == b.Def(table);
      case AddColumn(table, _, _, _, _) => assert a.Def(table) == b.Def(table);
      case CreateIndex(_, _, _, _) =>
      case TombstoneTable(table) => assert a.Def(table) == b.Def(table);
      case TombstoneIndex(_) =>
      case _ => RowEffectApart(a, b, ch);
    }
  }

  lemma {:induction false} RowEffectApart(a: Database, b: Database, ch: Change)
    requires b == a.(records := b.records) && (ch.WriteRow? || ch.DeleteRow?)
    ensures Effect(b, ch) == Effect(a, ch).(records := b.records)
  {
    assert a.Def(ch.table) == b.Def(ch.table) && a.Docs(ch.table) == b.Docs(ch.table);
    assert a.Dead(ch.table) == b.Dead(ch.table);
  }

  lemma {:induction false} ChangeApart(a: Database, b: Database, ch: Change)
    requires b == a.(records := b.records)
    ensures ChangeAccepted(a, ch, true) == ChangeAccepted(b, ch, true)
    ensures Effect(b, ch) == Effect(a, ch).(records := b.records)
  {
    EffectApart(a, b, ch);
    match ch {
      case CreateTable(table) => RecordsApart(Effect(a, ch), Effect(b, ch), table, true);
      case AddColumn(table, _, _, _, _) => RecordsApart(Effect(a, ch), Effect(b, ch), table, true);
      case CreateIndex(_, table, _, _) => RecordsApart(Effect(a, ch), Effect(b, ch), table, true);
      case WriteRow(table, id, merged) => WriteApart(a, b, table, id, merged);
      case _ =>
    }
  }

  lemma {:induction false} EffectsApart(a: Database, b: Database, changes: seq<Change>)
    requires b == a.(records := b.records)
    ensures EffectAll(b, changes) == EffectAll(a, changes).(records := b.records)
  {
    if changes != [] {
      EffectsApart(a, b, changes[..|changes| - 1]);
      ChangeApart(EffectAll(a, changes[..|changes| - 1]), EffectAll(b, changes[..|changes| - 1]),
                  changes[|changes| - 1]);
    }
  }

  lemma {:induction false} AllApart(a: Database, b: Database, changes: seq<Change>)
    requires b == a.(records := b.records)
    ensures AllAccepted(a, changes) == AllAccepted(b, changes)
    ensures EffectAll(b, changes) == EffectAll(a, changes).(records := b.records)
  {
    EffectsApart(a, b, changes);
    forall i | 0 <= i < |changes|
      ensures ChangeAccepted(EffectAll(a, changes[..i]), changes[i], true)
              == ChangeAccepted(EffectAll(b, changes[..i]), changes[i], true)
    {
      EffectsApart(a, b, changes[..i]);
      ChangeApart(EffectAll(a, changes[..i]), EffectAll(b, changes[..i]), changes[i]);
    }
  }

  lemma {:induction false} ClashesApart(a: Database, b: Database, table: Name, ids: set<Uuid>)
    requires b == a.(records := b.records)
    ensures Clashes(a, table, ids) == Clashes(b, table, ids)
  {
    assert a.Docs(table) == b.Docs(table);
    forall name, id | a.Indexed(name, table) && id in a.Docs(table)
      ensures b.Indexed(name, table)
      ensures RowsClash(a, name, id, a.Docs(table)[id]) == RowsClash(b, name, id, b.Docs(table)[id])
    {
      ClashApart(a, b, table, name, id, a.Docs(table)[id]);
    }
    assert forall name :: b.Indexed(name, table) ==> a.Indexed(name, table);
  }

  lemma {:induction false} UpdateApart(a: Database, b: Database, table: Name, assignments: seq<(Name, Value)>,
                                       column: Name, value: Value)
    requires b == a.(records := b.records)
    ensures UpdateRefusals(a, table, assignments, column, value) == UpdateRefusals(b, table, assignments, column, value)
    ensures Matching(a, table, column, value) == Matching(b, table, column, value)
  {
    assert a.Def(table) == b.Def(table) && a.Docs(table) == b.Docs(table);
    RowsApart(a, b, table, Matching(a, table, column, value), assignments);
  }

  lemma {:induction false} RowsApart(a: Database, b: Database, table: Name, ids: set<Uuid>,
                                     assignments: seq<(Name, Value)>)
    requires b == a.(records := b.records)
    ensures RowRefusals(a, table, ids, assignments) == RowRefusals(b, table, ids, assignments)
  {
    assert a.Docs(table) == b.Docs(table) && forall id :: a.Disputed(table, id) == b.Disputed(table, id);
    ClashesApart(RowsAssigned(a, table, ids, assignments), RowsAssigned(b, table, ids, assignments), table, ids);
  }

  lemma {:induction false} InsertApart(a: Database, b: Database, table: Name, row: Row, generated: Uuid)
    requires b == a.(records := b.records)
    ensures InsertRefusal(a, table, row, generated) == InsertRefusal(b, table, row, generated)
  {
    assert a.Def(table) == b.Def(table);
    forall name, id, doc | a.Indexed(name, table)
      ensures RowsClash(a, name, id, doc) == RowsClash(b, name, id, doc)
    {
      ClashApart(a, b, table, name, id, doc);
    }
    assert forall name :: a.Indexed(name, table) <==> b.Indexed(name, table);
  }

  lemma {:induction false} CreationApart(a: Database, b: Database, index: Name, table: Name, unique: bool,
                                         names: seq<Name>)
    requires b == a.(records := b.records)
    ensures Readable(a, index) == Readable(b, index)
    ensures MayCreate(a, index, table, unique, names) == MayCreate(b, index, table, unique, names)
    ensures Effect(b, CreateIndex(index, table, unique, names))
            == Effect(a, CreateIndex(index, table, unique, names)).(records := b.records)
  {
    ChangeApart(a, b, CreateIndex(index, table, unique, names));
  }

  lemma {:induction false} IndexApart(a: Database, b: Database, s: Statement)
    requires b == a.(records := b.records) && s.DeclareIndex?
    ensures Succeeds(a, s) == Succeeds(b, s)
    ensures Succeeds(a, s) ==> After(b, s) == After(a, s).(records := b.records)
  {
    assert a.Def(s.table) == b.Def(s.table);
    if InRange(a, s.table, s.positions) {
      CreationApart(a, b, s.index, s.table, s.unique, NamesAt(ColumnsOf(a.Def(s.table)), s.positions));
    }
  }

  lemma {:induction false} IndexByNamesApart(a: Database, b: Database, s: Statement)
    requires b == a.(records := b.records) && s.DeclareIndexByNames?
    ensures Succeeds(a, s) == Succeeds(b, s)
    ensures Succeeds(a, s) ==> After(b, s) == After(a, s).(records := b.records)
  {
    assert a.Def(s.table) == b.Def(s.table);
    CreationApart(a, b, s.index, s.table, s.unique, s.names);
  }

  lemma {:induction false} TableApart(a: Database, b: Database, s: Statement)
    requires b == a.(records := b.records) && (s.DeclareTable? || s.AlterTable?)
    ensures Succeeds(a, s) == Succeeds(b, s)
    ensures Succeeds(a, s) ==> After(b, s) == After(a, s).(records := b.records)
  {
    assert a.Def(s.table) == b.Def(s.table);
    if s.DeclareTable? {
      AllApart(a, b, [Change.CreateTable(s.table)] + Additions(s.table, 0, s.columns));
    } else {
      AllApart(a, b, Additions(s.table, |ColumnsOf(a.Def(s.table))|, s.columns));
    }
  }

  lemma {:induction false} RemovalApart(a: Database, b: Database, s: Statement)
    requires b == a.(records := b.records) && (s.Delete? || s.DropTable? || s.DropIndex?)
    ensures Succeeds(a, s) == Succeeds(b, s)
    ensures Succeeds(a, s) ==> After(b, s) == After(a, s).(records := b.records)
  {
    match s {
      case Delete(table, column, value) => DeletedApart(a, b, table, Matching(a, table, column, value));
      case DropTable(table, _) => EffectApart(a, b, TombstoneTable(table));
      case DropIndex(index, _) => EffectApart(a, b, TombstoneIndex(index));
    }
  }

  lemma {:induction false} DeletedApart(a: Database, b: Database, table: Name, ids: set<Uuid>)
    requires b == a.(records := b.records)
    ensures a.Def(table) == b.Def(table) && a.Docs(table) == b.Docs(table)
    ensures RowsDeleted(b, table, ids) == RowsDeleted(a, table, ids).(records := b.records)
  {
    assert a.Dead(table) == b.Dead(table);
  }

  /** What a statement does depends on the catalog and the rows alone. */
  lemma {:induction false} StatementApart(a: Database, b: Database, s: Statement)
    requires b == a.(records := b.records)
    ensures Succeeds(a, s) == Succeeds(b, s)
    ensures Succeeds(a, s) ==> After(b, s) == After(a, s).(records := b.records)
  {
    match s {
      case Insert(table, row, generated) => InsertApart(a, b, table, row, generated);
      case Update(table, assignments, column, value) => UpdateApart(a, b, table, assignments, column, value);
      case DeclareTable(_, _, _) => TableApart(a, b, s);
      case AlterTable(_, _, _) => TableApart(a, b, s);
      case DeclareIndex(_, _, _, _, _) => IndexApart(a, b, s);
      case DeclareIndexByNames(_, _, _, _, _) => IndexByNamesApart(a, b, s);
      case _ => RemovalApart(a, b, s);
    }
  }

  // ---------------------------------------------------------------------------------------------
  // Whole runs
  // ---------------------------------------------------------------------------------------------

  /** The statements of a batch one after another, up to one that fails. */
  ghost function AfterBatch(db: Database, statements: seq<Statement>): Database {
    if statements == [] then db
    else
      var now, last := AfterBatch(db, statements[..|statements| - 1]), statements[|statements| - 1];
      if Succeeds(now, last) then After(now, last) else now
  }

  ghost predicate BatchSucceeds(db: Database, statements: seq<Statement>) {
    forall i :: 0 <= i < |statements| ==> Succeeds(AfterBatch(db, statements[..i]), statements[i])
  }

  // What happens to a replica: a batch of local statements in one transaction, a received unit of one row, a received
  // batch of changes.
  datatype Event =
    | Batch(statements: seq<Statement>)
    | Receipt(table: Name, id: Uuid, after: Option<Doc>, conflicts: set<Name>)
    | Receipts(mutations: seq<Mutation>)

  /** What the row codec sees to of what is received. */
  ghost predicate Receivable(db: Database, e: Event) {
    match e
    case Batch(_) => true
    case Receipt(table, id, after, _) =>
      after.Some? ==> GoodDoc(db.Def(table), id, after.value) && id !in db.Dead(table)
    case Receipts(mutations) => GoodMutations(db, mutations)
  }

  /** An event that fails changes nothing. */
  ghost function AfterEvent(db: Database, e: Event): Database {
    match e
    case Batch(statements) => if BatchSucceeds(db, statements) then AfterBatch(db, statements) else db
    case Receipt(table, id, after, conflicts) =>
      if ReceiptAccepted(db, table, after.Some?) then Merged(db, table, id, after, conflicts) else db
    case Receipts(mutations) =>
      if ReceiptsAccepted(db, mutations) then AllMerged(db, mutations) else db
  }

  /** The catalog and the rows after a run from an empty database. */
  ghost function RunOf(events: seq<Event>): Database {
    if events == [] then EMPTY else AfterEvent(RunOf(events[..|events| - 1]), events[|events| - 1])
  }

  ghost predicate ReceivableRun(events: seq<Event>) {
    forall i :: 0 <= i < |events| ==> Receivable(RunOf(events[..i]), events[i])
  }

  lemma {:induction false} BatchKeepsUnique(db: Database, statements: seq<Statement>)
    requires Unique(db)
    ensures Unique(AfterBatch(db, statements))
  {
    if statements != [] {
      var init, last := statements[..|statements| - 1], statements[|statements| - 1];
      BatchKeepsUnique(db, init);
      if Succeeds(AfterBatch(db, init), last) { StatementKeepsUnique(AfterBatch(db, init), last); }
    }
  }

  /** In every state of every run of local batches, whatever their statements and whichever of them fail, no two rows
      share their values on a unique index. (Received rows are taken in without that check.) */
  lemma {:induction false} LocalRunsAreUnique(events: seq<Event>)
    requires forall e :: e in events ==> e.Batch?
    ensures Unique(RunOf(events))
  {
    if events == [] {
      EmptyIsGood();
    } else {
      var init, last := events[..|events| - 1], events[|events| - 1];
      assert last in events;
      LocalRunsAreUnique(init);
      BatchKeepsUnique(RunOf(init), last.statements);
    }
  }

  lemma {:induction false} ChangesKeepDisputes(db: Database, changes: seq<Change>)
    ensures EffectAll(db, changes).disputed == db.disputed
  {
    if changes != [] {
      ChangesKeepDisputes(db, changes[..|changes| - 1]);
      EffectKeepsDisputes(EffectAll(db, changes[..|changes| - 1]), changes[|changes| - 1]);
    }
  }

  lemma {:induction false} EffectKeepsDisputes(db: Database, ch: Change)
    ensures Effect(db, ch).disputed == db.disputed
  {
    match ch {
      case WriteRow(_, _, _) =>
      case DeleteRow(_, _) =>
      case _ =>
    }
  }

  lemma {:induction false} StatementKeepsDisputes(db: Database, s: Statement)
    requires Succeeds(db, s)
    ensures After(db, s).disputed == db.disputed
  {
    match s {
      case DeclareTable(table, columns, _) =>
        ChangesKeepDisputes(db, [Change.CreateTable(table)] + Additions(table, 0, columns));
      case AlterTable(table, columns, _) =>
        ChangesKeepDisputes(db, Additions(table, |ColumnsOf(db.Def(table))|, columns));
      case _ =>
    }
  }

  lemma {:induction false} BatchKeepsDisputes(db: Database, statements: seq<Statement>)
    ensures AfterBatch(db, statements).disputed == db.disputed
  {
    if statements != [] {
      var init, last := statements[..|statements| - 1], statements[|statements| - 1];
      BatchKeepsDisputes(db, init);
      if Succeeds(AfterBatch(db, init), last) { StatementKeepsDisputes(AfterBatch(db, init), last); }
    }
  }

  /** No column ever comes into conflict without a receipt, so in a local run no assignment is refused for one. */
  lemma {:induction false} LocalRunsHaveNoConflicts(events: seq<Event>)
    requires forall e :: e in events ==> e.Batch?
    ensures RunOf(events).disputed == map[]
    ensures forall table, assignments, column, value ::
              ColumnConflicted !in UpdateRefusals(RunOf(events), table, assignments, column, value)
  {
    if events != [] {
      var init, last := events[..|events| - 1], events[|events| - 1];
      assert last in events;
      LocalRunsHaveNoConflicts(init);
      BatchKeepsDisputes(RunOf(init), last.statements);
    }
    forall table, assignments, column, value
      ensures ColumnConflicted !in UpdateRefusals(RunOf(events), table, assignments, column, value)
    {
      NoConflictNoRefusal(RunOf(events), table, assignments, column, value);
    }
  }

  lemma {:induction false} NoConflictNoRefusal(db: Database, table: Name, assignments: seq<(Name, Value)>, column: Name,
                                               value: Value)
    requires db.disputed == map[]
    ensures ColumnConflicted !in UpdateRefusals(db, table, assignments, column, value)
  {
    AssignmentErrors(db.Def(table), assignments);
    assert forall ids :: !Contested(db, table, ids, assignments);
  }

  lemma {:induction false} AssignmentErrors(def: TableDef, assignments: seq<(Name, Value)>)
    ensures var error := AssignmentRefusal(def, assignments);
            error == None || error == Some(ColumnNotFound) || error == Some(PrimaryKeyFixed)
  {
    if assignments != [] {
      AssignmentErrors(def, assignments[..|assignments| - 1]);
    }
  }

  lemma {:induction false} BatchApart(a: Database, b: Database, statements: seq<Statement>)
    requires b == a.(records := b.records)
    ensures AfterBatch(b, statements) == AfterBatch(a, statements).(records := b.records)
  {
    if statements != [] {
      var init := statements[..|statements| - 1];
      BatchApart(a, b, init);
      StatementApart(AfterBatch(a, init), AfterBatch(b, init), statements[|statements| - 1]);
    }
  }

  lemma {:induction false} BatchSucceedsApart(a: Database, b: Database, statements: seq<Statement>)
    requires b == a.(records := b.records)
    ensures BatchSucceeds(a, statements) == BatchSucceeds(b, statements)
  {
    forall i | 0 <= i < |statements|
      ensures Succeeds(AfterBatch(a, statements[..i]), statements[i])
              == Succeeds(AfterBatch(b, statements[..i]), statements[i])
    {
      BatchApart(a, b, statements[..i]);
      StatementApart(AfterBatch(a, statements[..i]), AfterBatch(b, statements[..i]), statements[i]);
    }
  }

  lemma {:induction false} SetDocsApart(a: Database, b: Database, mutations: seq<Mutation>)
    requires b == a.(records := b.records)
    ensures SetDocs(b, mutations) == SetDocs(a, mutations).(records := b.records)
  {
    if mutations != [] {
      SetDocsApart(a, b, mutations[..|mutations| - 1]);
    }
  }

  lemma {:induction false} ReceiptApart(a: Database, b: Database, table: Name, visible: bool)
    requires b == a.(records := b.records)
    ensures ReceiptAccepted(a, table, visible) == ReceiptAccepted(b, table, visible)
  {
    assert a.Def(table) == b.Def(table);
    assert forall name :: a.Indexed(name, table) <==> b.Indexed(name, table);
  }

  lemma {:induction false} MergedApart(a: Database, b: Database, table: Name, id: Uuid, after: Option<Doc>,
                                       conflicts: set<Name>)
    requires b == a.(records := b.records)
    ensures Merged(b, table, id, after, conflicts) == Merged(a, table, id, after, conflicts).(records := b.records)
  {
    assert SetDoc(b, table, id, after) == SetDoc(a, table, id, after).(records := b.records);
  }

  lemma {:induction false} ReceiptsApart(a: Database, b: Database, mutations: seq<Mutation>)
    requires b == a.(records := b.records)
    ensures AfterEvent(b, Receipts(mutations)) == AfterEvent(a, Receipts(mutations)).(records := b.records)
  {
    SetDocsApart(a, b, mutations);
    DisputesApart(SetDocs(a, mutations), SetDocs(b, mutations), mutations);
    forall m | m in mutations
      ensures ReceiptAccepted(a, m.table, m.after.Some?) == ReceiptAccepted(b, m.table, m.after.Some?)
    {
      ReceiptApart(a, b, m.table, m.after.Some?);
    }
  }

  lemma {:induction false} ReceivableApart(a: Database, b: Database, e: Event)
    requires b == a.(records := b.records)
    ensures Receivable(a, e) == Receivable(b, e)
  {
    assert forall t :: a.Def(t) == b.Def(t) && a.Dead(t) == b.Dead(t);
  }

  lemma {:induction false} EventApart(a: Database, b: Database, e: Event)
    requires b == a.(records := b.records)
    ensures AfterEvent(b, e) == AfterEvent(a, e).(records := b.records)
  {
    match e {
      case Batch(statements) =>
        BatchApart(a, b, statements);
        BatchSucceedsApart(a, b, statements);
      case Receipt(table, id, after, conflicts) =>
        ReceiptApart(a, b, table, after.Some?);
        MergedApart(a, b, table, id, after, conflicts);
      case Receipts(mutations) =>
        ReceiptsApart(a, b, mutations);
    }
  }
}
