// Local statements: the checks the executor makes, the changes it issues, and the transaction they run in, proved
// against what the statements mean.
module Executor {
  import opened Values
  import opened Wrappers
  import opened Catalog
  import opened Index
  import opened Changes
  import opened Statements

  // ---------------------------------------------------------------------------------------------
  // Row statements
  // ---------------------------------------------------------------------------------------------

  /** INSERT: the row, completed, becomes visible under the id it names, which no visible and no deleted row may
      have. */
  method InsertRow(tx: Transaction, table: Name, row: Row, generated: Uuid) returns (r: Result<Uuid, EngineError>)
    requires Good(tx.db)
    modifies tx
    ensures match InsertRefusal(old(tx.db), table, row, generated)
            case Some(error) => r == Err(error)
            case None =>
              && Good(tx.db) && tx.db == Inserted(old(tx.db), table, row, generated).(records := tx.db.records)
              && r.Ok? && IdOf(old(tx.db).Def(table), InsertedDoc(old(tx.db), table, row, generated)) == Some(r.value)
  {
    if !Exists(tx.db, table) {
      return Err(TableNotFound);
    }
    var columns := Columns(tx.db.Def(table));
    var full := MaterializeInsert(columns.value, row, generated);
    if full.Err? {
      return Err(full.error);
    }
    var doc := DocOf(columns.value, full.value);
    DocReadsBack(tx.db.Def(table), full.value);
    var rowId := RowId(columns.value, full.value, tx.db.Def(table), doc);
    if rowId.Err? {
      return Err(rowId.error);
    }
    var id := rowId.value;
    if id in tx.db.Dead(table) {
      return Err(PrimaryKeyDeleted);
    }
    if id in tx.db.Docs(table) {
      return Err(PrimaryKeyExists);
    }
    IdIsGood(tx.db.Def(table), id, doc);
    var written := MaterializeWriteRow(tx, table, id, doc, true);
    if written.Err? {
      return Err(written.error);
    }
    r := Ok(id);
  }

  method MatchingRows(tx: Transaction, table: Name, column: Name, value: Value)
    returns (r: Result<set<Uuid>, EngineError>)
    requires Good(tx.db)
    ensures r == if !Exists(tx.db, table) then Err(TableNotFound)
                 else if !Live(tx.db.Def(table), column) then Err(ColumnNotFound)
                 else Ok(Matching(tx.db, table, column, value))
  {
    if !Exists(tx.db, table) {
      return Err(TableNotFound);
    }
    var columns := Columns(tx.db.Def(table));
    LivePosition(tx.db.Def(table), column);
    var position := PositionOf(columns.value, column);
    if position.None? {
      return Err(ColumnNotFound);
    }
    var found: set<Uuid> := {};
    var ids := tx.db.Docs(table).Keys;
    while ids != {}
      invariant ids <= tx.db.Docs(table).Keys
      invariant found == Matching(tx.db, table, column, value) - ids
      decreases ids
    {
      var id :| id in ids;
      var row := tx.GetRow(table, id);
      var full := MaterializeDefaults(columns.value, row.value);
      ColumnValue(tx.db.Def(table), position.value, tx.db.Docs(table)[id]);
      if full[position.value] == value {
        found := found + {id};
      }
      ids := ids - {id};
    }
    assert found == Matching(tx.db, table, column, value);
    r := Ok(found);
  }

  /** The columns assigned to exist and are no primary keys. */
  method CheckAssignments(def: TableDef, assignments: seq<(Name, Value)>) returns (error: Option<EngineError>)
    requires !def.deleted
    ensures error == AssignmentRefusal(def, assignments)
  {
    var columns := Columns(def);
    for i := 0 to |assignments|
      invariant AssignmentRefusal(def, assignments[..i]).None?
    {
      assert assignments[..i + 1][..i] == assignments[..i];
      var name := assignments[i].0;
      LivePosition(def, name);
      var position := PositionOf(columns.value, name);
      if position.None? {
        FirstRefusal(def, assignments, i);
        return Some(ColumnNotFound);
      }
      assert columns.value[position.value] in columns.value;
      if columns.value[position.value].primaryKey {
        FirstRefusal(def, assignments, i);
        return Some(PrimaryKeyFixed);
      }
    }
    assert assignments[..|assignments|] == assignments;
    error := None;
  }

  lemma {:induction false} FirstRefusal(def: TableDef, assignments: seq<(Name, Value)>, i: nat)
    requires i < |assignments| && AssignmentRefusal(def, assignments[..i + 1]).Some?
    ensures AssignmentRefusal(def, assignments) == AssignmentRefusal(def, assignments[..i + 1])
  {
    if i + 1 == |assignments| {
      assert assignments[..i + 1] == assignments;
    } else {
      var init := assignments[..|assignments| - 1];
      assert init[..i + 1] == assignments[..i + 1];
      FirstRefusal(def, init, i);
    }
  }

  /** UPDATE: every matching row gets the assignments, and no other row changes; or it fails, as it does for want of a
      change when a matching row shows the assigned values already. */
  method UpdateRows(tx: Transaction, table: Name, assignments: seq<(Name, Value)>, column: Name, value: Value)
    returns (r: Result<bool, EngineError>)
    requires Good(tx.db)
    modifies tx
    ensures var refusals := UpdateRefusals(old(tx.db), table, assignments, column, value);
            if refusals != {} then r.Err? && r.error in refusals
            else
              && r == Ok(true) && Good(tx.db)
              && var ids := Matching(old(tx.db), table, column, value);
                 tx.db == RowsAssigned(old(tx.db), table, ids, assignments).(records := tx.db.records)
  {
    if !Exists(tx.db, table) {
      return Err(TableNotFound);
    }
    if assignments == [] {
      return Err(EmptyStatement);
    }
    var invalid := CheckAssignments(tx.db.Def(table), assignments);
    if invalid.Some? {
      return Err(invalid.value);
    }
    var columns := Columns(tx.db.Def(table));
    var matching := MatchingRows(tx, table, column, value);
    if matching.Err? {
      return Err(matching.error);
    }
    r := AssignRows(tx, table, matching.value, columns.value, assignments);
  }

  /** The assignments are made row by row. */
  method AssignRows(tx: Transaction, table: Name, ids: set<Uuid>, cols: seq<Column>, assignments: seq<(Name, Value)>)
    returns (r: Result<bool, EngineError>)
    requires Good(tx.db) && Exists(tx.db, table) && cols == ColumnsOf(tx.db.Def(table))
    requires AssignmentRefusal(tx.db.Def(table), assignments).None? && ids <= tx.db.Docs(table).Keys
    modifies tx
    ensures ids == {} ==> r == Ok(true)
    ensures ids != {} && !Singular(old(tx.db).Def(table)) ==> r == Err(BadPrimaryKey)
    ensures ids != {} && Singular(old(tx.db).Def(table)) ==>
              var refusals := RowRefusals(old(tx.db), table, ids, assignments);
              if refusals == {} then r == Ok(true) else r.Err? && r.error in refusals
    ensures r.Ok? ==>
              Good(tx.db) && tx.db == RowsAssigned(old(tx.db), table, ids, assignments).(records := tx.db.records)
  {
    ghost var start := tx.db;
    var left := ids;
    ghost var done: set<Uuid> := {};
    while left != {}
      invariant done !! left && done + left == ids
      invariant done != {} ==> Singular(start.Def(table))
      invariant Assigning(start, tx.db, table, done, assignments)
      decreases left
    {
      var id :| id in left;
      r := AssignRow(tx, table, id, cols, assignments, start, done, ids);
      if r.Err? {
        return;
      }
      done, left := done + {id}, left - {id};
    }
    assert done == ids;
    r := Ok(true);
  }

  /** Some of the rows have been assigned, all of them changed and without a clash. */
  ghost predicate Assigning(start: Database, db: Database, table: Name, done: set<Uuid>,
                            assignments: seq<(Name, Value)>) {
    && Good(db) && db == RowsAssigned(start, table, done, assignments).(records := db.records)
    && RowRefusals(start, table, done, assignments) == {}
  }

  method AssignRow(tx: Transaction, table: Name, id: Uuid, cols: seq<Column>, assignments: seq<(Name, Value)>,
                   ghost start: Database, ghost done: set<Uuid>, ghost ids: set<Uuid>)
    returns (r: Result<bool, EngineError>)
    requires Exists(start, table) && cols == ColumnsOf(start.Def(table))
    requires AssignmentRefusal(start.Def(table), assignments).None?
    requires done <= ids <= start.Docs(table).Keys && id in ids && id !in done
    requires Assigning(start, tx.db, table, done, assignments)
    modifies tx
    ensures r.Ok? ==> Singular(start.Def(table)) && Assigning(start, tx.db, table, done + {id}, assignments)
    ensures !Singular(start.Def(table)) ==> r == Err(BadPrimaryKey)
    ensures r.Err? && Singular(start.Def(table)) ==> r.error in RowRefusals(start, table, ids, assignments)
  {
    StillUnassigned(start, tx.db, table, done, id, assignments);
    var doc := Assign(tx.db.Docs(table)[id], assignments);
    AssignedKeepsId(start.Def(table), id, tx.db.Docs(table)[id], assignments);
    var error := CheckRow(start.Def(table), id, doc, cols, tx.db.Disputed(table, id), assignments);
    if error.Some? {
      assert error == Some(ColumnConflicted) ==> Contested(start, table, ids, assignments);
      return Err(error.value);
    }
    IdIsGood(start.Def(table), id, doc);
    assert id !in tx.db.Dead(table);
    ghost var before := tx.db;
    r := MaterializeWriteRow(tx, table, id, doc, true);
    if r.Ok? {
      RowTaken(start, before, table, done, id, assignments);
      RowAssigned(start, before, tx.db, table, done, id, assignments);
    } else {
      RowRefused(start, before, table, done, ids, id, assignments);
    }
  }

  /** A row that has not been assigned yet is as it was. */
  lemma {:induction false} StillUnassigned(start: Database, db: Database, table: Name, done: set<Uuid>, id: Uuid,
                                           assignments: seq<(Name, Value)>)
    requires db == RowsAssigned(start, table, done, assignments).(records := db.records)
    requires id in start.Docs(table) && id !in done
    ensures id in db.Docs(table) && db.Docs(table)[id] == start.Docs(table)[id]
    ensures db.Def(table) == start.Def(table) && db.Disputed(table, id) == start.Disputed(table, id)
  {
    RowsAssignedDocs(start, table, done, assignments);
  }

  lemma {:induction false} RowAssigned(start: Database, before: Database, after: Database, table: Name,
                                       done: set<Uuid>, id: Uuid, assignments: seq<(Name, Value)>)
    requires before == RowsAssigned(start, table, done, assignments).(records := before.records)
    requires id in start.Docs(table) && id !in done
    requires after == SetDoc(before, table, id, Some(Assign(start.Docs(table)[id], assignments)))
                        .(records := after.records)
    ensures after == RowsAssigned(start, table, done + {id}, assignments).(records := after.records)
  {
    AssignOneMore(start, table, done, id, assignments);
    assert before.Docs(table) == RowsAssigned(start, table, done, assignments).Docs(table);
  }

  /** A row keeps its id, and no column assigned to is in conflict. */
  method CheckRow(ghost def: TableDef, id: Uuid, doc: Doc, cols: seq<Column>, disputed: set<Name>,
                  assignments: seq<(Name, Value)>) returns (error: Option<EngineError>)
    requires cols == ColumnsOf(def) && IdOf(def, doc) == if Singular(def) then Some(id) else None
    ensures error == if !Singular(def) then Some(BadPrimaryKey)
                     else if exists i :: 0 <= i < |assignments| && assignments[i].0 in disputed then
                       Some(ColumnConflicted)
                     else None
  {
    var rowId := RowId(cols, Decode(cols, doc), def, doc);
    if rowId.Err? {
      return Some(rowId.error);
    }
    if rowId.value != id {
      return Some(PrimaryKeyFixed);
    }
    var conflicted := HasConflicts(disputed, assignments);
    error := if conflicted then Some(ColumnConflicted) else None;
  }

  /** `has_conflicts`, for the columns assigned to. */
  method HasConflicts(disputed: set<Name>, assignments: seq<(Name, Value)>) returns (found: bool)
    ensures found <==> exists i :: 0 <= i < |assignments| && assignments[i].0 in disputed
  {
    for i := 0 to |assignments|
      invariant forall j :: 0 <= j < i ==> assignments[j].0 !in disputed
    {
      if assignments[i].0 in disputed {
        return true;
      }
    }
    found := false;
  }

  /** A row write that is accepted leaves the rows assigned so far without a refusal. */
  lemma {:induction false} RowTaken(start: Database, db: Database, table: Name, done: set<Uuid>, id: Uuid,
                                    assignments: seq<(Name, Value)>)
    requires id in start.Docs(table) && id !in done && id !in db.Dead(table) && Exists(start, table)
    requires db == RowsAssigned(start, table, done, assignments).(records := db.records)
    requires RowRefusals(start, table, done, assignments) == {}
    requires forall i :: 0 <= i < |assignments| ==> assignments[i].0 !in start.Disputed(table, id)
    requires ChangeAccepted(db, WriteRow(table, id, Assign(start.Docs(table)[id], assignments)), true)
    ensures RowRefusals(start, table, done + {id}, assignments) == {}
  {
    var now, doc := RowsAssigned(start, table, done, assignments), Assign(start.Docs(table)[id], assignments);
    AssignOneMore(start, table, done, id, assignments);
    RowsAssignedDocs(start, table, done, assignments);
    assert !Idle(db, table, id, doc) && doc != start.Docs(table)[id];
    WriteApart(now, db, table, id, doc);
    NoClashSoFar(now, table, done, id, doc);
    assert ColumnConflicted !in RowRefusals(start, table, done, assignments);
    assert NoChange !in RowRefusals(start, table, done, assignments);
    assert UniqueViolation !in RowRefusals(start, table, done, assignments);
  }

  /** A row write that is refused shows that the statement may be. */
  lemma {:induction false} RowRefused(start: Database, db: Database, table: Name, done: set<Uuid>, ids: set<Uuid>,
                                      id: Uuid, assignments: seq<(Name, Value)>)
    requires done <= ids <= start.Docs(table).Keys && id in ids && id !in done && Singular(start.Def(table))
    requires db == RowsAssigned(start, table, done, assignments).(records := db.records)
    requires !ChangeAccepted(db, WriteRow(table, id, Assign(start.Docs(table)[id], assignments)), true)
    ensures (if Idle(db, table, id, Assign(start.Docs(table)[id], assignments)) then NoChange else UniqueViolation)
            in RowRefusals(start, table, ids, assignments)
  {
    var now, doc := RowsAssigned(start, table, done, assignments), Assign(start.Docs(table)[id], assignments);
    AssignOneMore(start, table, done, id, assignments);
    RowsAssignedDocs(start, table, done, assignments);
    if Idle(db, table, id, doc) {
      assert Unmoved(start, table, ids, assignments);
    } else {
      WriteApart(now, db, table, id, doc);
      var name :| now.Indexed(name, table) && RowsClash(now, name, id, doc);
      ClashRemains(start, table, done, ids, name, id, assignments);
    }
  }

  /** DELETE: the matching rows are deleted for good, and no other row changes. */
  method DeleteRows(tx: Transaction, table: Name, column: Name, value: Value) returns (r: Result<bool, EngineError>)
    requires Good(tx.db)
    modifies tx
    ensures match DeleteRefusal(old(tx.db), table, column)
            case Some(error) => r == Err(error)
            case None =>
              && r == Ok(true) && Good(tx.db)
              && var ids := Matching(old(tx.db), table, column, value);
                 tx.db == RowsDeleted(old(tx.db), table, ids).(records := tx.db.records)
  {
    var matching := MatchingRows(tx, table, column, value);
    if matching.Err? {
      return Err(matching.error);
    }
    ghost var start := tx.db;
    var left := matching.value;
    ghost var done: set<Uuid> := {};
    while left != {}
      invariant done !! left && done + left == matching.value
      invariant Good(tx.db) && tx.db == RowsDeleted(start, table, done).(records := tx.db.records)
      decreases left
    {
      var id :| id in left;
      DeleteOneMore(start, table, done, id);
      EffectApart(RowsDeleted(start, table, done), tx.db, DeleteRow(table, id));
      var _ := MaterializeDeleteRow(tx, table, id, true);
      done, left := done + {id}, left - {id};
    }
    assert done == matching.value;
    r := Ok(true);
  }

  // ---------------------------------------------------------------------------------------------
  // Schema statements
  // ---------------------------------------------------------------------------------------------

  method ValidatePrimaryKey(columns: seq<ColumnDecl>) returns (valid: bool)
    ensures valid <==> ValidKey(columns)
  {
    var first: Option<nat> := None;
    for i := 0 to |columns|
      invariant first.None? ==> forall j :: 0 <= j < i ==> !columns[j].primaryKey
      invariant first.Some? ==> first.value < i && columns[first.value].primaryKey
      invariant first.Some? ==> forall j :: 0 <= j < i && columns[j].primaryKey ==> j == first.value
    {
      if columns[i].primaryKey {
        if first.Some? {
          return false;
        }
        first := Some(i);
      }
    }
    if first.None? {
      return false;
    }
    valid := columns[first.value].valueType.UuidType?;
  }

  /** The first `i` changes of a list have been made, from `start`. */
  ghost predicate Changing(start: Database, db: Database, changes: seq<Change>, i: nat)
    requires i <= |changes|
  {
    && Good(db) && db == EffectAll(start, changes[..i]).(records := db.records)
    && forall j :: 0 <= j < i ==> ChangeAccepted(EffectAll(start, changes[..j]), changes[j], true)
  }

  /** The next change of a list. */
  method MakeChange(tx: Transaction, ch: Change, ghost start: Database, ghost changes: seq<Change>, ghost i: nat)
    returns (r: Result<bool, EngineError>)
    requires i < |changes| && ch == changes[i] && !ch.WriteRow? && Changing(start, tx.db, changes, i)
    modifies tx
    ensures r.Ok? ==> Changing(start, tx.db, changes, i + 1)
    ensures r.Err? ==> !AllAccepted(start, changes)
  {
    assert changes[..i + 1][..i] == changes[..i];
    ChangeApart(EffectAll(start, changes[..i]), tx.db, ch);
    r := MaterializeChange(tx, ch, true);
  }

  lemma {:induction false} AllChanged(start: Database, db: Database, changes: seq<Change>)
    requires Changing(start, db, changes, |changes|)
    ensures AllAccepted(start, changes) && Good(db) && db == EffectAll(start, changes).(records := db.records)
  {
    assert changes[..|changes|] == changes;
  }

  /** A change on its own. */
  method MakeOne(tx: Transaction, ch: Change) returns (r: Result<bool, EngineError>)
    requires Good(tx.db) && !ch.WriteRow?
    modifies tx
    ensures r.Ok? <==> ChangeAccepted(old(tx.db), ch, true)
    ensures r.Ok? ==> Good(tx.db) && tx.db == Effect(old(tx.db), ch).(records := tx.db.records)
  {
    r := MaterializeChange(tx, ch, true);
  }

  /** `add_column`: the column at the given position, next in the list of changes. */
  method AddColumn(tx: Transaction, table: Name, position: nat, c: ColumnDecl, ghost start: Database,
                   ghost changes: seq<Change>, ghost i: nat) returns (r: Result<bool, EngineError>)
    requires i < |changes| && changes[i] == Change.AddColumn(table, c.name, c.default, position, c.primaryKey)
    requires Changing(start, tx.db, changes, i)
    modifies tx
    ensures r.Ok? ==> Changing(start, tx.db, changes, i + 1)
    ensures r.Err? ==> !AllAccepted(start, changes)
  {
    r := MakeChange(tx, Change.AddColumn(table, c.name, c.default, position, c.primaryKey), start, changes, i);
  }

  /** CREATE TABLE, with its columns at positions 0, 1 and so on. A dropped table of that name comes back, with the
      columns and rows it had. */
  method CreateTable(tx: Transaction, table: Name, columns: seq<ColumnDecl>, ifNotExists: bool)
    returns (r: Result<bool, EngineError>)
    requires Good(tx.db)
    modifies tx
    ensures r.Ok? <==> Succeeds(old(tx.db), DeclareTable(table, columns, ifNotExists))
    ensures r.Ok? ==>
              && Good(tx.db)
              && tx.db == After(old(tx.db), DeclareTable(table, columns, ifNotExists)).(records := tx.db.records)
    ensures Exists(old(tx.db), table) ==>
              tx.db == old(tx.db) && r == if ifNotExists then Ok(false) else Err(TableExists)
  {
    if Exists(tx.db, table) {
      return if ifNotExists then Ok(false) else Err(TableExists);
    }
    var valid := ValidatePrimaryKey(columns);
    if !valid {
      return Err(BadPrimaryKey);
    }
    ghost var start, changes := tx.db, [Change.CreateTable(table)] + Additions(table, 0, columns);
    r := MakeChange(tx, Change.CreateTable(table), start, changes, 0);
    if r.Err? {
      return;
    }
    r := AddColumns(tx, table, columns, start, changes);
  }

  method AddColumns(tx: Transaction, table: Name, columns: seq<ColumnDecl>, ghost start: Database,
                    ghost changes: seq<Change>) returns (r: Result<bool, EngineError>)
    requires changes == [Change.CreateTable(table)] + Additions(table, 0, columns)
    requires Changing(start, tx.db, changes, 1)
    modifies tx
    ensures r.Ok? <==> AllAccepted(start, changes)
    ensures r.Ok? ==> Good(tx.db) && tx.db == EffectAll(start, changes).(records := tx.db.records)
  {
    for i := 0 to |columns|
      invariant Changing(start, tx.db, changes, i + 1)
    {
      r := AddColumn(tx, table, i, columns[i], start, changes, i + 1);
      if r.Err? {
        return;
      }
    }
    AllChanged(start, tx.db, changes);
    r := Ok(true);
  }

  /** ALTER TABLE ADD COLUMN: column by column the checks and the change, at the positions after the live columns. */
  method AlterTableColumns(tx: Transaction, table: Name, columns: seq<ColumnDecl>, ifExists: bool)
    returns (r: Result<bool, EngineError>)
    requires Good(tx.db)
    modifies tx
    ensures r.Ok? <==> Succeeds(old(tx.db), AlterTable(table, columns, ifExists))
    ensures r.Ok? ==>
              && Good(tx.db)
              && tx.db == After(old(tx.db), AlterTable(table, columns, ifExists)).(records := tx.db.records)
    ensures !Exists(old(tx.db), table) ==>
              tx.db == old(tx.db) && r == if ifExists then Ok(false) else Err(TableNotFound)
  {
    if !Exists(tx.db, table) {
      return if ifExists then Ok(false) else Err(TableNotFound);
    }
    var existing := Columns(tx.db.Def(table));
    r := AddNewColumns(tx, table, existing.value, columns);
  }

  /** The checks on one column to be added. */
  method CheckColumn(existing: seq<Column>, columns: seq<ColumnDecl>, i: nat, ghost def: TableDef)
    returns (error: Option<EngineError>)
    requires existing == ColumnsOf(def) && i < |columns|
    ensures error.None? <==> NewColumn(def, columns, i)
  {
    LivePosition(def, columns[i].name);
    if PositionOf(existing, columns[i].name).Some? || exists j :: 0 <= j < i && columns[j].name == columns[i].name {
      return Some(ColumnExists);
    }
    return if columns[i].primaryKey then Some(PrimaryKeyFixed) else None;
  }

  /** The first `i` columns have been checked and added. */
  ghost predicate Adding(start: Database, db: Database, table: Name, columns: seq<ColumnDecl>, i: nat)
    requires i <= |columns|
  {
    && Changing(start, db, Additions(table, |ColumnsOf(start.Def(table))|, columns), i)
    && NewColumns(start.Def(table), columns, i)
  }

  /** One column is checked and added. */
  method AddNewColumn(tx: Transaction, table: Name, existing: seq<Column>, columns: seq<ColumnDecl>, i: nat,
                      ghost start: Database) returns (r: Result<bool, EngineError>)
    requires existing == ColumnsOf(start.Def(table)) && i < |columns| && Adding(start, tx.db, table, columns, i)
    modifies tx
    ensures r.Ok? ==> Adding(start, tx.db, table, columns, i + 1)
    ensures r.Err? ==> !MayAdd(start, table, columns)
  {
    var error := CheckColumn(existing, columns, i, start.Def(table));
    if error.Some? {
      return Err(error.value);
    }
    r := AddColumn(tx, table, |existing| + i, columns[i], start, Additions(table, |existing|, columns), i);
  }

  lemma {:induction false} AllAdded(start: Database, db: Database, table: Name, columns: seq<ColumnDecl>)
    requires Adding(start, db, table, columns, |columns|)
    ensures MayAdd(start, table, columns) && Good(db)
    ensures db == EffectAll(start, Additions(table, |ColumnsOf(start.Def(table))|, columns)).(records := db.records)
  {
    AllChanged(start, db, Additions(table, |ColumnsOf(start.Def(table))|, columns));
  }

  method AddNewColumns(tx: Transaction, table: Name, existing: seq<Column>, columns: seq<ColumnDecl>)
    returns (r: Result<bool, EngineError>)
    requires Good(tx.db) && existing == ColumnsOf(tx.db.Def(table))
    modifies tx
    ensures r.Ok? <==> MayAdd(old(tx.db), table, columns)
    ensures r.Ok? ==>
              && Good(tx.db)
              && tx.db == EffectAll(old(tx.db), Additions(table, |existing|, columns)).(records := tx.db.records)
  {
    ghost var start := tx.db;
    for i := 0 to |columns|
      invariant Adding(start, tx.db, table, columns, i)
    {
      r := AddNewColumn(tx, table, existing, columns, i, start);
      if r.Err? {
        return;
      }
    }
    AllAdded(start, tx.db, table, columns);
    r := Ok(true);
  }

  /** `create_index`. */
  method CreateIndexAt(tx: Transaction, index: Name, table: Name, unique: bool, positions: seq<nat>)
    returns (r: Result<bool, EngineError>)
    requires Good(tx.db)
    modifies tx
    ensures r.Ok? <==>
              && InRange(old(tx.db), table, positions)
              && MayCreate(old(tx.db), index, table, unique, NamesAt(ColumnsOf(old(tx.db).Def(table)), positions))
    ensures r.Ok? ==>
              var names := NamesAt(ColumnsOf(old(tx.db).Def(table)), positions);
              && Good(tx.db)
              && tx.db == Effect(old(tx.db), CreateIndex(index, table, unique, names)).(records := tx.db.records)
  {
    if !Exists(tx.db, table) {
      return Err(TableNotFound);
    }
    if index == [] || positions == [] {
      return Err(EmptyStatement);
    }
    var columns := Columns(tx.db.Def(table));
    for i := 0 to |positions|
      invariant tx.db == old(tx.db)
      invariant forall j :: 0 <= j < i ==> positions[j] < |columns.value|
    {
      if positions[i] >= |columns.value| {
        return Err(ColumnNotFound);
      }
    }
    r := MakeOne(tx, CreateIndex(index, table, unique, NamesAt(columns.value, positions)));
  }

  /** `index_schema`: whether an index of that name is in use; an error when its table is dropped. */
  method IndexInUse(tx: Transaction, index: Name) returns (r: Result<bool, EngineError>)
    ensures r.Ok? <==> Readable(tx.db, index)
    ensures r.Ok? ==> r.value == InUse(tx.db, index)
  {
    if !InUse(tx.db, index) {
      return Ok(false);
    }
    var schema := ResolveIndex(tx.db.indices[index], tx.db.Def(tx.db.indices[index].table));
    r := if schema.Ok? then Ok(true) else Err(schema.error);
  }

  /** CREATE INDEX on columns given by position: IF NOT EXISTS lets an index in use be redefined. */
  method CreateIndexOn(tx: Transaction, index: Name, table: Name, unique: bool, positions: seq<nat>, ifNotExists: bool)
    returns (r: Result<bool, EngineError>)
    requires Good(tx.db)
    modifies tx
    ensures r.Ok? <==> Succeeds(old(tx.db), DeclareIndex(index, table, unique, positions, ifNotExists))
    ensures r.Ok? ==>
              && Good(tx.db)
              && tx.db == After(old(tx.db), DeclareIndex(index, table, unique, positions, ifNotExists))
                            .(records := tx.db.records)
  {
    var inUse := IndexInUse(tx, index);
    if inUse.Err? {
      return Err(inUse.error);
    }
    if inUse.value && !ifNotExists {
      return Err(IndexExists);
    }
    r := CreateIndexAt(tx, index, table, unique, positions);
  }

  /** CREATE INDEX on columns given by name: an index in use is never changed. */
  method CreateIndexByNames(tx: Transaction, index: Name, table: Name, unique: bool, names: seq<Name>,
                            ifNotExists: bool)
    returns (r: Result<bool, EngineError>)
    requires Good(tx.db)
    modifies tx
    ensures r.Ok? <==> Succeeds(old(tx.db), DeclareIndexByNames(index, table, unique, names, ifNotExists))
    ensures r.Ok? ==>
              && Good(tx.db)
              && tx.db == After(old(tx.db), DeclareIndexByNames(index, table, unique, names, ifNotExists))
                            .(records := tx.db.records)
  {
    var inUse := IndexInUse(tx, index);
    if inUse.Err? {
      return Err(inUse.error);
    }
    if inUse.value {
      return if ifNotExists then Ok(false) else Err(IndexExists);
    }
    if !Exists(tx.db, table) {
      return Err(TableNotFound);
    }
    var columns := Columns(tx.db.Def(table));
    var positions := Positions(columns.value, names);
    NamesResolve(tx.db.Def(table), names);
    if positions.None? {
      return Err(ColumnNotFound);
    }
    assert NamesAt(columns.value, positions.value) == names;
    r := CreateIndexAt(tx, index, table, unique, positions.value);
  }

  lemma {:induction false} NamesResolve(def: TableDef, names: seq<Name>)
    ensures Positions(ColumnsOf(def), names).Some? <==> forall n :: n in names ==> Live(def, n)
  {
    PositionsDefined(ColumnsOf(def), names);
    forall n
      ensures PositionOf(ColumnsOf(def), n).Some? <==> Live(def, n)
    {
      LivePosition(def, n);
    }
  }

  method DropTableNamed(tx: Transaction, table: Name, ifExists: bool) returns (r: Result<bool, EngineError>)
    requires Good(tx.db)
    modifies tx
    ensures r.Ok? <==> Succeeds(old(tx.db), DropTable(table, ifExists))
    ensures r.Ok? ==> Good(tx.db) && tx.db == After(old(tx.db), DropTable(table, ifExists)).(records := tx.db.records)
    ensures r.Err? ==> r == Err(TableNotFound)
  {
    if !Exists(tx.db, table) {
      return if ifExists then Ok(false) else Err(TableNotFound);
    }
    r := MakeOne(tx, TombstoneTable(table));
  }

  method DropIndexNamed(tx: Transaction, index: Name, ifExists: bool) returns (r: Result<bool, EngineError>)
    requires Good(tx.db)
    modifies tx
    ensures r.Ok? <==> Succeeds(old(tx.db), DropIndex(index, ifExists))
    ensures r.Ok? ==> Good(tx.db) && tx.db == After(old(tx.db), DropIndex(index, ifExists)).(records := tx.db.records)
  {
    var inUse := IndexInUse(tx, index);
    if inUse.Err? {
      return Err(inUse.error);
    }
    if !inUse.value {
      return if ifExists then Ok(false) else Err(IndexNotFound);
    }
    r := MakeOne(tx, TombstoneIndex(index));
  }

  // ---------------------------------------------------------------------------------------------
  // Transactions of statements, and whole runs
  // ---------------------------------------------------------------------------------------------

  method ExecuteStatement(tx: Transaction, s: Statement) returns (r: Result<bool, EngineError>)
    requires Good(tx.db)
    modifies tx
    ensures r.Ok? <==> Succeeds(old(tx.db), s)
    ensures r.Ok? ==> Good(tx.db) && tx.db == After(old(tx.db), s).(records := tx.db.records)
  {
    match s {
      case Insert(table, row, generated) =>
        var inserted := InsertRow(tx, table, row, generated);
        r := if inserted.Ok? then Ok(true) else Err(inserted.error);
      case Update(table, assignments, column, value) =>
        r := UpdateRows(tx, table, assignments, column, value);
      case Delete(table, column, value) =>
        r := DeleteRows(tx, table, column, value);
      case DeclareTable(table, columns, ifNotExists) =>
        r := CreateTable(tx, table, columns, ifNotExists);
      case AlterTable(table, columns, ifExists) =>
        r := AlterTableColumns(tx, table, columns, ifExists);
      case DropTable(table, ifExists) =>
        r := DropTableNamed(tx, table, ifExists);
      case DeclareIndex(index, table, unique, positions, ifNotExists) =>
        r := CreateIndexOn(tx, index, table, unique, positions, ifNotExists);
      case DeclareIndexByNames(index, table, unique, names, ifNotExists) =>
        r := CreateIndexByNames(tx, index, table, unique, names, ifNotExists);
      case DropIndex(index, ifExists) =>
        r := DropIndexNamed(tx, index, ifExists);
    }
  }

  /** The first `i` statements of a batch have been executed, from `start`. */
  ghost predicate Executing(start: Database, db: Database, statements: seq<Statement>, i: nat)
    requires i <= |statements|
  {
    && Good(db) && db == AfterBatch(start, statements[..i]).(records := db.records)
    && forall j :: 0 <= j < i ==> Succeeds(AfterBatch(start, statements[..j]), statements[j])
  }

  method ExecuteNext(tx: Transaction, statements: seq<Statement>, i: nat, ghost start: Database)
    returns (r: Result<bool, EngineError>)
    requires i < |statements| && Executing(start, tx.db, statements, i)
    modifies tx
    ensures r.Ok? ==> Executing(start, tx.db, statements, i + 1)
    ensures r.Err? ==> !BatchSucceeds(start, statements)
  {
    assert statements[..i + 1][..i] == statements[..i];
    StatementApart(AfterBatch(start, statements[..i]), tx.db, statements[i]);
    r := ExecuteStatement(tx, statements[i]);
  }

  /** `execute_statement`: all statements in one transaction, or none. The active indexes come out equal to the record
      keys of the rows the statements leave. */
  method ExecuteStatements(engine: Engine, statements: seq<Statement>) returns (r: Result<bool, EngineError>)
    requires Good(engine.db)
    modifies engine
    ensures r.Ok? <==> BatchSucceeds(old(engine.db), statements)
    ensures engine.db == AfterEvent(old(engine.db), Batch(statements)).(records := engine.db.records)
    ensures r.Err? ==> engine.db == old(engine.db)
    ensures Good(engine.db)
  {
    var tx := new Transaction(engine.db);
    ghost var start := engine.db;
    for i := 0 to |statements|
      invariant fresh(tx) && engine.db == start
      invariant Executing(start, tx.db, statements, i)
    {
      r := ExecuteNext(tx, statements, i, start);
      if r.Err? {
        return;
      }
    }
    assert statements[..|statements|] == statements;
    engine.db := tx.db;
    r := Ok(true);
  }

  method Play(engine: Engine, e: Event)
    requires Good(engine.db) && Receivable(engine.db, e)
    modifies engine
    ensures engine.db == AfterEvent(old(engine.db), e).(records := engine.db.records)
    ensures Good(engine.db)
  {
    match e {
      case Batch(statements) =>
        var _ := ExecuteStatements(engine, statements);
      case Receipt(table, id, after, conflicts) =>
        var _ := engine.ReceiveRow(table, id, after, conflicts);
      case Receipts(mutations) =>
        var _ := engine.ReceiveBatch(mutations);
    }
  }

  /** Every run from an empty database, of local batches and of what is received, whatever fails in it: it leaves
      exactly the catalog and the rows its events mean, every active index equal to the record keys of the visible
      rows, and no deleted row visible. Without received rows unique indexes are unique as well. */
  method PlayAll(events: seq<Event>) returns (engine: Engine)
    requires ReceivableRun(events)
    ensures engine.db == RunOf(events).(records := engine.db.records)
    ensures Good(engine.db)
    ensures (forall e :: e in events ==> e.Batch?) ==> Unique(engine.db)
  {
    EmptyIsGood();
    engine := new Engine(EMPTY);
    for i := 0 to |events|
      invariant fresh(engine) && Good(engine.db)
      invariant engine.db == RunOf(events[..i]).(records := engine.db.records)
    {
      assert events[..i + 1][..i] == events[..i];
      EventApart(RunOf(events[..i]), engine.db, events[i]);
      ReceivableApart(RunOf(events[..i]), engine.db, events[i]);
      Play(engine, events[i]);
    }
    assert events[..|events|] == events;
    LocalRunLeavesUnique(events, engine.db);
  }

  lemma {:induction false} LocalRunLeavesUnique(events: seq<Event>, db: Database)
    requires db == RunOf(events).(records := db.records)
    ensures (forall e :: e in events ==> e.Batch?) ==> Unique(db)
  {
    if forall e :: e in events ==> e.Batch? {
      LocalRunsAreUnique(events);
      UniqueApart(RunOf(events), db);
    }
  }

  lemma {:induction false} UniqueApart(a: Database, b: Database)
    requires b == a.(records := b.records) && Unique(a)
    ensures Unique(b)
  {
    forall name | name in b.indices && !b.indices[name].deleted && !b.Def(b.indices[name].table).deleted
      ensures UniqueOn(b, name)
    {
      assert UniqueOn(a, name);
      SameUnique(a, b, name);
    }
  }
}
