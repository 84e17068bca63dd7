// What holds in every state of a run: documents keep to their tables' columns, and what is deleted stays deleted.
module StatementRuns {
  import opened Values
  import opened Wrappers
  import opened Catalog
  import opened Index
  import opened Changes
  import opened Statements
  import opened StatementEffects

  // ---------------------------------------------------------------------------------------------
  // Local runs
  // ---------------------------------------------------------------------------------------------

  /** No column is dropped, and no document has a value for anything but a column. */
  ghost predicate Tidy(db: Database) {
    forall t :: TidyTable(db.Def(t), db.Docs(t))
  }

  ghost predicate TidyTable(def: TableDef, docs: map<Uuid, Doc>) {
    && (forall n :: n in def.fields ==> !def.fields[n].deleted)
    && forall id :: id in docs ==> docs[id].Keys <= def.fields.Keys
  }

  lemma {:induction false} TidyButFor(a: Database, b: Database, table: Name)
    requires Tidy(a) && TidyTable(b.Def(table), b.Docs(table))
    requires forall t :: t != table ==> b.Def(t) == a.Def(t) && b.Docs(t) == a.Docs(t)
    ensures Tidy(b)
  {
    forall t
      ensures TidyTable(b.Def(t), b.Docs(t))
    {
      assert TidyTable(a.Def(t), a.Docs(t));
    }
  }

  lemma {:induction false} SetDefKeepsTidy(db: Database, table: Name, def: TableDef)
    requires Tidy(db) && (forall n :: n in def.fields ==> !def.fields[n].deleted)
    requires db.Def(table).fields.Keys <= def.fields.Keys
    ensures Tidy(SetDef(db, table, def))
  {
    assert TidyTable(db.Def(table), db.Docs(table));
    TidyButFor(db, SetDef(db, table, def), table);
  }

  lemma {:induction false} ChangeKeepsTidy(db: Database, ch: Change)
    requires Tidy(db) && !ch.WriteRow? && !ch.DeleteRow?
    ensures Tidy(Effect(db, ch))
  {
    if ch.CreateIndex? || ch.TombstoneIndex? {
      var next := Effect(db, ch);
      assert forall t :: next.Def(t) == db.Def(t) && next.Docs(t) == db.Docs(t);
    } else {
      var def := db.Def(ch.table);
      assert TidyTable(def, db.Docs(ch.table));
      match ch {
        case CreateTable(table) => SetDefKeepsTidy(db, table, def.(deleted := false));
        case TombstoneTable(table) => SetDefKeepsTidy(db, table, def.(deleted := true));
        case AddColumn(table, column, default, position, primaryKey) =>
          SetDefKeepsTidy(db, table, def.(fields := def.fields[column := Field(default, position, primaryKey, false)]));
      }
    }
  }

  lemma {:induction false} ChangesKeepTidy(db: Database, changes: seq<Change>)
    requires Tidy(db) && forall ch :: ch in changes ==> !ch.WriteRow? && !ch.DeleteRow?
    ensures Tidy(EffectAll(db, changes))
  {
    if changes != [] {
      var init, last := changes[..|changes| - 1], changes[|changes| - 1];
      assert last in changes && forall ch :: ch in init ==> ch in changes;
      ChangesKeepTidy(db, init);
      ChangeKeepsTidy(EffectAll(db, init), last);
    }
  }

  lemma {:induction false} DocOfKeys(cols: seq<Column>, row: Row)
    requires |row| == |cols|
    ensures forall n :: n in DocOf(cols, row) ==> exists i :: 0 <= i < |cols| && cols[i].name == n
  {
    if cols != [] {
      DocOfKeys(cols[..|cols| - 1], row[..|row| - 1]);
      assert forall i :: 0 <= i < |cols| - 1 ==> cols[..|cols| - 1][i] == cols[i];
    }
  }

  lemma {:induction false} InsertKeepsTidy(db: Database, table: Name, row: Row, generated: Uuid)
    requires Tidy(db) && InsertRefusal(db, table, row, generated).None?
    ensures Tidy(Inserted(db, table, row, generated))
  {
    var cols := ColumnsOf(db.Def(table));
    var full, after := MaterializeInsert(cols, row, generated).value, Inserted(db, table, row, generated);
    DocOfKeys(cols, full);
    forall n | n in DocOf(cols, full)
      ensures n in db.Def(table).fields
    {
      var i :| 0 <= i < |cols| && cols[i].name == n;
      assert cols[i] in cols;
    }
    assert TidyTable(db.Def(table), db.Docs(table));
    TidyButFor(db, after, table);
  }

  lemma {:induction false} AssignedKeys(def: TableDef, doc: Doc, assignments: seq<(Name, Value)>)
    requires AssignmentRefusal(def, assignments).None? && doc.Keys <= def.fields.Keys
    ensures Assign(doc, assignments).Keys <= def.fields.Keys
  {
    if assignments != [] {
      AssignedKeys(def, doc, assignments[..|assignments| - 1]);
    }
  }

  lemma {:induction false} UpdateKeepsTidy(db: Database, table: Name, ids: set<Uuid>, assignments: seq<(Name, Value)>)
    requires Tidy(db) && AssignmentRefusal(db.Def(table), assignments).None?
    ensures Tidy(RowsAssigned(db, table, ids, assignments))
  {
    var after := RowsAssigned(db, table, ids, assignments);
    RowsAssignedDocs(db, table, ids, assignments);
    assert TidyTable(db.Def(table), db.Docs(table));
    forall id | id in after.Docs(table)
      ensures after.Docs(table)[id].Keys <= db.Def(table).fields.Keys
    {
      AssignedKeys(db.Def(table), db.Docs(table)[id], assignments);
    }
    TidyButFor(db, after, table);
  }

  lemma {:induction false} DeletionKeepsTidy(db: Database, table: Name, ids: set<Uuid>)
    requires Tidy(db)
    ensures Tidy(RowsDeleted(db, table, ids))
  {
    assert TidyTable(db.Def(table), db.Docs(table));
    TidyButFor(db, RowsDeleted(db, table, ids), table);
  }

  lemma {:induction false} StatementKeepsTidy(db: Database, s: Statement)
    requires Tidy(db) && Succeeds(db, s)
    ensures Tidy(After(db, s))
  {
    match s {
      case Insert(table, row, generated) => InsertKeepsTidy(db, table, row, generated);
      case Update(table, assignments, column, value) =>
        UpdateKeepsTidy(db, table, Matching(db, table, column, value), assignments);
      case Delete(table, column, value) => DeletionKeepsTidy(db, table, Matching(db, table, column, value));
      case _ => SchemaKeepsTidy(db, s);
    }
  }

  lemma {:induction false} SchemaKeepsTidy(db: Database, s: Statement)
    requires Tidy(db) && Succeeds(db, s) && !s.Insert? && !s.Update? && !s.Delete?
    ensures Tidy(After(db, s))
  {
    match s {
      case DeclareTable(table, columns, _) =>
        if !Exists(db, table) { ChangesKeepTidy(db, [Change.CreateTable(table)] + Additions(table, 0, columns)); }
      case AlterTable(table, columns, _) =>
        if Exists(db, table) { ChangesKeepTidy(db, Additions(table, |ColumnsOf(db.Def(table))|, columns)); }
      case DropTable(table, _) => if Exists(db, table) { ChangeKeepsTidy(db, TombstoneTable(table)); }
      case DeclareIndex(index, table, unique, positions, _) =>
        ChangeKeepsTidy(db, CreateIndex(index, table, unique, NamesAt(ColumnsOf(db.Def(table)), positions)));
      case DeclareIndexByNames(index, table, unique, names, _) =>
        if !InUse(db, index) { ChangeKeepsTidy(db, CreateIndex(index, table, unique, names)); }
      case DropIndex(index, _) => if InUse(db, index) { ChangeKeepsTidy(db, TombstoneIndex(index)); }
    }
  }

  lemma {:induction false} BatchKeepsTidy(db: Database, statements: seq<Statement>)
    requires Tidy(db)
    ensures Tidy(AfterBatch(db, statements))
  {
    if statements != [] {
      var init, last := statements[..|statements| - 1], statements[|statements| - 1];
      BatchKeepsTidy(db, init);
      if Succeeds(AfterBatch(db, init), last) { StatementKeepsTidy(AfterBatch(db, init), last); }
    }
  }

  /** Every state of every run of local batches is tidy. */
  lemma {:induction false} LocalRunsAreTidy(events: seq<Event>)
    requires forall e :: e in events ==> e.Batch?
    ensures Tidy(RunOf(events))
  {
    if events != [] {
      var init, last := events[..|events| - 1], events[|events| - 1];
      assert last in events;
      LocalRunsAreTidy(init);
      BatchKeepsTidy(RunOf(init), last.statements);
    }
  }

  /** In a tidy database, and so in every local run, every row shows the default of every column an ALTER TABLE adds,
      and WHERE on that column with the default finds all rows. */
  lemma {:induction false} TidyAlterIsRead(db: Database, table: Name, columns: seq<ColumnDecl>, ifExists: bool, i: nat)
    requires Tidy(db) && Exists(db, table) && Succeeds(db, AlterTable(table, columns, ifExists)) && i < |columns|
    ensures var after := After(db, AlterTable(table, columns, ifExists));
            && after.Docs(table) == db.Docs(table) && Live(after.Def(table), columns[i].name)
            && (forall id :: id in db.Docs(table) ==>
                  Shown(after, table, id, columns[i].name) == columns[i].default)
            && Matching(after, table, columns[i].name, columns[i].default) == db.Docs(table).Keys
  {
    var after := After(db, AlterTable(table, columns, ifExists));
    AlteredDef(db, table, columns, ifExists);
    assert TidyTable(db.Def(table), db.Docs(table)) && after.Docs(table) == db.Docs(table);
    forall id | id in db.Docs(table)
      ensures Shown(after, table, id, columns[i].name) == columns[i].default
    {
      AlterIsRead(db, table, columns, ifExists, id, i);
    }
    MatchingIsRead(after, table, columns[i].name, columns[i].default);
  }

  // ---------------------------------------------------------------------------------------------
  // Deleted for good
  // ---------------------------------------------------------------------------------------------

  /** Deleted rows are out of sight, and none comes back. */
  ghost predicate Deepens(a: Database, b: Database) {
    Buried(b) && forall t :: a.Dead(t) <= b.Dead(t)
  }

  lemma {:induction false} ChangesKeepRows(db: Database, changes: seq<Change>)
    requires forall ch :: ch in changes ==> !ch.WriteRow? && !ch.DeleteRow?
    ensures EffectAll(db, changes).docs == db.docs && EffectAll(db, changes).dead == db.dead
  {
    if changes != [] {
      var init, last := changes[..|changes| - 1], changes[|changes| - 1];
      assert last in changes && forall ch :: ch in init ==> ch in changes;
      ChangesKeepRows(db, init);
    }
  }

  lemma {:induction false} SchemaKeepsRows(db: Database, s: Statement)
    requires Succeeds(db, s) && !s.Insert? && !s.Update? && !s.Delete?
    ensures After(db, s).docs == db.docs && After(db, s).dead == db.dead
  {
    match s {
      case DeclareTable(table, columns, _) =>
        ChangesKeepRows(db, [Change.CreateTable(table)] + Additions(table, 0, columns));
      case AlterTable(table, columns, _) =>
        ChangesKeepRows(db, Additions(table, |ColumnsOf(db.Def(table))|, columns));
      case _ =>
    }
  }

  lemma {:induction false} SameRowsDeepen(a: Database, b: Database)
    requires Buried(a) && b.docs == a.docs && b.dead == a.dead
    ensures Deepens(a, b)
  {
    BuriedFrame(a, b);
    assert forall t :: a.Dead(t) == b.Dead(t);
  }

  lemma {:induction false} StatementDeepens(db: Database, s: Statement)
    requires Buried(db) && Succeeds(db, s)
    ensures Deepens(db, After(db, s))
  {
    var after := After(db, s);
    match s {
      case Insert(table, row, generated) => InsertDeepens(db, table, row, generated);
      case Update(table, assignments, column, value) =>
        UpdateDeepens(db, table, Matching(db, table, column, value), assignments);
      case Delete(table, column, value) => DeletionDeepens(db, table, Matching(db, table, column, value));
      case _ =>
        SchemaKeepsRows(db, s);
        SameRowsDeepen(db, after);
    }
  }

  lemma {:induction false} InsertDeepens(db: Database, table: Name, row: Row, generated: Uuid)
    requires Buried(db) && InsertRefusal(db, table, row, generated).None?
    ensures Deepens(db, Inserted(db, table, row, generated))
  {
    var doc := InsertedDoc(db, table, row, generated);
    var id := IdOf(db.Def(table), doc).value;
    SetDocBuried(db, Inserted(db, table, row, generated), table, id, Some(doc));
  }

  lemma {:induction false} UpdateDeepens(db: Database, table: Name, ids: set<Uuid>, assignments: seq<(Name, Value)>)
    requires Buried(db)
    ensures Deepens(db, RowsAssigned(db, table, ids, assignments))
  {
    var after := RowsAssigned(db, table, ids, assignments);
    RowsAssignedDocs(db, table, ids, assignments);
    forall t, id | id in after.Docs(t)
      ensures id in db.Docs(t)
    {
    }
    BuriedFrame(db, after);
  }

  lemma {:induction false} DeletionDeepens(db: Database, table: Name, ids: set<Uuid>)
    requires Buried(db)
    ensures Deepens(db, RowsDeleted(db, table, ids))
  {
    var after := RowsDeleted(db, table, ids);
    assert after.Docs(table) == db.Docs(table) - ids && after.Dead(table) == db.Dead(table) + ids;
    forall t, id | id in after.Dead(t)
      ensures id !in after.Docs(t)
    {
      assert t != table ==> id in db.Dead(t);
    }
  }

  lemma {:induction false} BatchDeepens(db: Database, statements: seq<Statement>)
    requires Buried(db)
    ensures Deepens(db, AfterBatch(db, statements))
  {
    if statements != [] {
      var init, last := statements[..|statements| - 1], statements[|statements| - 1];
      BatchDeepens(db, init);
      if Succeeds(AfterBatch(db, init), last) { StatementDeepens(AfterBatch(db, init), last); }
    }
  }

  lemma {:induction false} ReceiptDeepens(db: Database, table: Name, id: Uuid, after: Option<Doc>, conflicts: set<Name>)
    requires Buried(db) && (after.Some? ==> id !in db.Dead(table))
    ensures Deepens(db, Merged(db, table, id, after, conflicts))
  {
    var next := Merged(db, table, id, after, conflicts);
    forall t, i | i in next.Dead(t)
      ensures i !in next.Docs(t)
    {
      assert (t == table && i == id) || i in db.Dead(t);
    }
  }

  lemma {:induction false} ReceiptsDeepen(db: Database, mutations: seq<Mutation>)
    requires Buried(db) && GoodMutations(db, mutations)
    ensures Deepens(db, SetDocs(db, mutations))
  {
    if mutations != [] {
      var init, last := mutations[..|mutations| - 1], mutations[|mutations| - 1];
      assert last in mutations && forall m :: m in init ==> m in mutations;
      ReceiptsDeepen(db, init);
      SetDocsKeepsCatalog(db, init);
      SetDocBuried(SetDocs(db, init), SetDoc(SetDocs(db, init), last.table, last.id, last.after), last.table, last.id,
                   last.after);
    }
  }

  lemma {:induction false} EventDeepens(db: Database, e: Event)
    requires Buried(db) && Receivable(db, e)
    ensures Deepens(db, AfterEvent(db, e))
  {
    match e {
      case Batch(statements) => BatchDeepens(db, statements);
      case Receipt(table, id, after, conflicts) => ReceiptDeepens(db, table, id, after, conflicts);
      case Receipts(mutations) =>
        ReceiptsDeepen(db, mutations);
        DisputesOnly(SetDocs(db, mutations), mutations);
        SameRowsDeepen(SetDocs(db, mutations), AllMerged(db, mutations));
    }
  }

  lemma {:induction false} RunBefore(events: seq<Event>)
    requires ReceivableRun(events) && events != []
    ensures ReceivableRun(events[..|events| - 1])
  {
    var init := events[..|events| - 1];
    forall j | 0 <= j < |init|
      ensures Receivable(RunOf(init[..j]), init[j])
    {
      assert init[..j] == events[..j] && init[j] == events[j];
    }
  }

  lemma {:induction false} RunIsBuried(events: seq<Event>)
    requires ReceivableRun(events)
    ensures Buried(RunOf(events))
  {
    if events != [] {
      var init := events[..|events| - 1];
      RunBefore(events);
      RunIsBuried(init);
      EventDeepens(RunOf(init), events[|events| - 1]);
    }
  }

  /** In every run, of local batches and of what is received, a row that has been deleted is deleted from then on, and
      never visible again. */
  lemma {:induction false} DeletedForGood(events: seq<Event>, i: nat)
    requires ReceivableRun(events) && i <= |events|
    ensures Deepens(RunOf(events[..i]), RunOf(events))
    decreases |events|
  {
    RunIsBuried(events);
    if i == |events| {
      assert events[..i] == events;
    } else {
      var init := events[..|events| - 1];
      RunBefore(events);
      assert init[..i] == events[..i];
      DeletedForGood(init, i);
      EventDeepens(RunOf(init), events[|events| - 1]);
    }
  }
}
