// What statements leave, as the rows read afterwards show it: the values given and the defaults, the assignments, what
// is deleted, the columns of a new or altered table, and what an index refuses.
module StatementEffects {
  import opened Values
  import opened Wrappers
  import opened Catalog
  import opened Index
  import opened Changes
  import opened Statements

  /** The row that reading a visible row yields (`Index.Transaction.GetRow`). */
  ghost function RowRead(db: Database, table: Name, id: Uuid): Row
    requires id in db.Docs(table)
  {
    Decode(ColumnsOf(db.Def(table)), db.Docs(table)[id])
  }

  /** The position of a live column. */
  ghost function Place(def: TableDef, name: Name): (i: nat)
    requires Live(def, name)
    ensures i < |ColumnsOf(def)| && ColumnsOf(def)[i].name == name
  {
    LivePosition(def, name);
    PositionOf(ColumnsOf(def), name).value
  }

  /** What the row read shows under a column. */
  ghost function Shown(db: Database, table: Name, id: Uuid, name: Name): Value
    requires id in db.Docs(table) && Live(db.Def(table), name)
  {
    RowRead(db, table, id)[Place(db.Def(table), name)]
  }

  lemma {:induction false} ShownValue(db: Database, table: Name, id: Uuid, name: Name)
    requires id in db.Docs(table) && Live(db.Def(table), name)
    ensures Shown(db, table, id, name) == ValueOf(db.Def(table), db.Docs(table)[id], name)
  {
    ColumnValue(db.Def(table), Place(db.Def(table), name), db.Docs(table)[id]);
  }

  /** There is one position for a column. */
  lemma {:induction false} PlaceIs(def: TableDef, name: Name, i: nat)
    requires i < |ColumnsOf(def)| && ColumnsOf(def)[i].name == name
    ensures Live(def, name) && Place(def, name) == i
  {
    assert ColumnsOf(def)[i] in ColumnsOf(def);
    var j := Place(def, name);
    assert ColumnsOf(def)[j] in ColumnsOf(def);
    DistinctColumns(ColumnsOf(def), i, j);
  }

  // ---------------------------------------------------------------------------------------------
  // WHERE
  // ---------------------------------------------------------------------------------------------

  /** A predicate selects the visible rows that show the value, put there or by default. */
  lemma {:induction false} MatchingIsRead(db: Database, table: Name, column: Name, value: Value)
    requires Live(db.Def(table), column)
    ensures forall id :: id in Matching(db, table, column, value) <==>
              id in db.Docs(table) && Shown(db, table, id, column) == value
  {
    forall id | id in db.Docs(table)
      ensures id in Matching(db, table, column, value) <==> Shown(db, table, id, column) == value
    {
      ShownValue(db, table, id, column);
    }
  }

  // ---------------------------------------------------------------------------------------------
  // INSERT
  // ---------------------------------------------------------------------------------------------

  /** The values of an INSERT, with a generated id in front exactly when they are too few and the table's first column
      is its key. */
  ghost function Given(cols: seq<Column>, row: Row, generated: Uuid): Row {
    if |row| < |cols| && cols[0].primaryKey then [Uuid(generated)] + row else row
  }

  lemma {:induction false} CompletedRow(cols: seq<Column>, row: Row, generated: Uuid)
    requires MaterializeInsert(cols, row, generated).Ok?
    ensures var full, given := MaterializeInsert(cols, row, generated).value, Given(cols, row, generated);
            && |full| == |cols| && given <= full
            && forall i :: |given| <= i < |cols| ==> full[i] == cols[i].default
  {
  }

  /** The row an INSERT makes visible reads, position by position, as the values given, and then the columns' defaults;
      it has the id under its key, and no other row changes. */
  lemma {:induction false} InsertIsRead(db: Database, table: Name, row: Row, generated: Uuid) returns (id: Uuid)
    requires InsertRefusal(db, table, row, generated).None?
    ensures var after, cols := Inserted(db, table, row, generated), ColumnsOf(db.Def(table));
            var given := Given(cols, row, generated);
            && id !in db.Docs(table) && id !in db.Dead(table)
            && after.Docs(table).Keys == db.Docs(table).Keys + {id}
            && (forall other :: other in db.Docs(table) ==> after.Docs(table)[other] == db.Docs(table)[other])
            && after.Def(table) == db.Def(table) && Singular(db.Def(table))
            && |given| <= |cols| && given <= RowRead(after, table, id)
            && (forall i :: |given| <= i < |cols| ==> RowRead(after, table, id)[i] == cols[i].default)
            && forall i :: 0 <= i < |cols| && cols[i].primaryKey ==> RowRead(after, table, id)[i] == Uuid(id)
  {
    var def := db.Def(table);
    var cols := ColumnsOf(def);
    var full := MaterializeInsert(cols, row, generated).value;
    CompletedRow(cols, row, generated);
    DocReadsBack(def, full);
    var doc := InsertedDoc(db, table, row, generated);
    id := IdOf(def, doc).value;
    var n :| PrimaryNames(def) == {n};
    assert n in PrimaryNames(def);
    IdOfKey(def, doc, n);
    forall i | 0 <= i < |cols| && cols[i].primaryKey
      ensures full[i] == Uuid(id)
    {
      assert cols[i] in cols && cols[i].name in PrimaryNames(def);
      ColumnValue(def, i, doc);
    }
  }

  // ---------------------------------------------------------------------------------------------
  // UPDATE
  // ---------------------------------------------------------------------------------------------

  /** The last value assigned to a column. */
  ghost predicate LastAssigned(assignments: seq<(Name, Value)>, i: nat, name: Name) {
    && i < |assignments| && assignments[i].0 == name
    && forall j :: i < j < |assignments| ==> assignments[j].0 != name
  }

  lemma {:induction false} AssignedIsLast(assignments: seq<(Name, Value)>, name: Name)
    ensures forall i: nat :: LastAssigned(assignments, i, name) ==>
              Assigned(assignments, name) == Some(assignments[i].1)
    ensures (forall i :: 0 <= i < |assignments| ==> assignments[i].0 != name) ==> Assigned(assignments, name).None?
  {
    if assignments != [] {
      var init := assignments[..|assignments| - 1];
      AssignedIsLast(init, name);
      forall i: nat | LastAssigned(assignments, i, name)
        ensures Assigned(assignments, name) == Some(assignments[i].1)
      {
        if i < |init| { assert LastAssigned(init, i, name); }
      }
    }
  }

  /** After an UPDATE the matching rows show under each column the last value assigned to it, and under all others what
      they showed; every other row is as it was. */
  lemma {:induction false} UpdateIsRead(db: Database, table: Name, assignments: seq<(Name, Value)>, column: Name,
                                        value: Value, id: Uuid, name: Name)
    requires Succeeds(db, Update(table, assignments, column, value))
    requires id in db.Docs(table) && Live(db.Def(table), name)
    ensures var after := After(db, Update(table, assignments, column, value));
            && after.Docs(table).Keys == db.Docs(table).Keys && after.Def(table) == db.Def(table)
            && (Shown(db, table, id, column) != value ==> after.Docs(table)[id] == db.Docs(table)[id])
            && (Shown(db, table, id, column) == value ==>
                  && (forall i: nat :: LastAssigned(assignments, i, name) ==>
                        Shown(after, table, id, name) == assignments[i].1)
                  && ((forall i :: 0 <= i < |assignments| ==> assignments[i].0 != name) ==>
                        Shown(after, table, id, name) == Shown(db, table, id, name)))
  {
    var after := After(db, Update(table, assignments, column, value));
    var ids := Matching(db, table, column, value);
    MatchingIsRead(db, table, column, value);
    RowsAssignedDocs(db, table, ids, assignments);
    ShownValue(db, table, id, name);
    ShownValue(after, table, id, name);
    AssignedValue(db.Def(table), db.Docs(table)[id], assignments, name);
    AssignedIsLast(assignments, name);
  }

  /** A column in conflict in a matching row cannot be assigned to. */
  lemma {:induction false} ConflictIsRefused(db: Database, table: Name, assignments: seq<(Name, Value)>, column: Name,
                                             value: Value, id: Uuid, i: nat)
    requires id in Matching(db, table, column, value) && i < |assignments|
    requires assignments[i].0 in db.Disputed(table, id)
    ensures !Succeeds(db, Update(table, assignments, column, value))
  {
    assert Contested(db, table, Matching(db, table, column, value), assignments);
  }

  /** IF EXISTS and IF NOT EXISTS: without them a statement on a table or index that is not there, or is already, fails;
      with them it succeeds and changes nothing. (But an index given by positions is redefined.) */
  lemma {:induction false} IfClauses(db: Database, name: Name, table: Name, columns: seq<ColumnDecl>, unique: bool,
                                     positions: seq<nat>, clause: bool)
    ensures Exists(db, name) ==>
              && (Succeeds(db, DeclareTable(name, columns, clause)) <==> clause)
              && (clause ==> After(db, DeclareTable(name, columns, clause)) == db)
    ensures !Exists(db, name) ==>
              && (Succeeds(db, DropTable(name, clause)) <==> clause)
              && (clause ==> After(db, DropTable(name, clause)) == db)
              && (Succeeds(db, AlterTable(name, columns, clause)) <==> clause)
              && (clause ==> After(db, AlterTable(name, columns, clause)) == db)
    ensures !InUse(db, name) ==>
              && (Succeeds(db, DropIndex(name, clause)) <==> clause)
              && (clause ==> After(db, DropIndex(name, clause)) == db)
    ensures InUse(db, name) && !clause ==> !Succeeds(db, DeclareIndex(name, table, unique, positions, clause))
  {
  }

  // ---------------------------------------------------------------------------------------------
  // DELETE
  // ---------------------------------------------------------------------------------------------

  /** After a DELETE no row shows the value any more, the other rows are as they were, and no INSERT can use the ids of
      the deleted ones. */
  lemma {:induction false} DeleteIsRead(db: Database, table: Name, column: Name, value: Value)
    requires Succeeds(db, Delete(table, column, value))
    ensures var after, ids := After(db, Delete(table, column, value)), Matching(db, table, column, value);
            && after.Def(table) == db.Def(table)
            && after.Docs(table).Keys == db.Docs(table).Keys - ids && Matching(after, table, column, value) == {}
            && (forall id :: id in after.Docs(table) ==> after.Docs(table)[id] == db.Docs(table)[id])
            && forall row, generated :: InsertRefusal(after, table, row, generated).None? ==>
                 IdOf(db.Def(table), InsertedDoc(after, table, row, generated)).value !in ids
  {
    var after, ids := After(db, Delete(table, column, value)), Matching(db, table, column, value);
    assert after.Docs(table) == db.Docs(table) - ids;
    assert after.Dead(table) == db.Dead(table) + ids;
    assert after.Def(table) == db.Def(table);
  }

  // ---------------------------------------------------------------------------------------------
  // ALTER TABLE and CREATE TABLE
  // ---------------------------------------------------------------------------------------------

  lemma {:induction false} AdditionsKeepDocs(db: Database, table: Name, first: nat, columns: seq<ColumnDecl>)
    ensures EffectAll(db, Additions(table, first, columns)).docs == db.docs
  {
    if columns != [] {
      AdditionsKeepDocs(db, table, first, columns[..|columns| - 1]);
      AdditionsSnoc(table, first, columns);
    }
  }

  lemma {:induction false} NewColumnsDiffer(def: TableDef, columns: seq<ColumnDecl>)
    requires NewColumns(def, columns, |columns|)
    ensures DistinctDecls(columns)
    ensures forall i :: 0 <= i < |columns| ==> !Live(def, columns[i].name) && !columns[i].primaryKey
  {
    forall i, j | 0 <= i < j < |columns|
      ensures columns[i].name != columns[j].name
    {
      assert NewColumn(def, columns, j);
    }
    forall i | 0 <= i < |columns|
      ensures !Live(def, columns[i].name) && !columns[i].primaryKey
    {
      assert NewColumn(def, columns, i);
    }
  }

  /** The columns of an ALTER that succeeds come as declared, at the positions after the live columns. */
  lemma {:induction false} AlteredDef(db: Database, table: Name, columns: seq<ColumnDecl>, ifExists: bool)
    requires Exists(db, table) && Succeeds(db, AlterTable(table, columns, ifExists))
    ensures var before, after := db.Def(table), After(db, AlterTable(table, columns, ifExists)).Def(table);
            && DistinctDecls(columns) && Joined(before, after, |ColumnsOf(before)|, columns)
            && forall n :: n in after.fields ==>
                 n in before.fields || exists i :: 0 <= i < |columns| && columns[i].name == n
    ensures After(db, AlterTable(table, columns, ifExists)).docs == db.docs
    ensures forall i :: 0 <= i < |columns| ==> !Live(db.Def(table), columns[i].name) && !columns[i].primaryKey
  {
    var first := |ColumnsOf(db.Def(table))|;
    NewColumnsDiffer(db.Def(table), columns);
    AdditionsJoin(db, table, first, columns);
    OnlyDeclared(db, table, first, columns);
    AdditionsKeepDocs(db, table, first, columns);
  }

  /** No ALTER changes which columns are the key. */
  lemma {:induction false} AlterKeepsKey(db: Database, table: Name, columns: seq<ColumnDecl>, ifExists: bool)
    requires Exists(db, table) && Succeeds(db, AlterTable(table, columns, ifExists))
    ensures PrimaryNames(After(db, AlterTable(table, columns, ifExists)).Def(table)) == PrimaryNames(db.Def(table))
  {
    AlteredDef(db, table, columns, ifExists);
    var before, after := db.Def(table), After(db, AlterTable(table, columns, ifExists)).Def(table);
    forall n | n in after.fields && n !in before.fields
      ensures !after.fields[n].primaryKey
    {
      var i :| 0 <= i < |columns| && columns[i].name == n;
    }
  }

  /** After ALTER TABLE a visible row shows the default under an added column it has no value for, and under every
      column there was what it showed. */
  lemma {:induction false} AlterIsRead(db: Database, table: Name, columns: seq<ColumnDecl>, ifExists: bool, id: Uuid,
                                       i: nat)
    requires Exists(db, table) && Succeeds(db, AlterTable(table, columns, ifExists)) && id in db.Docs(table)
    requires i < |columns| && columns[i].name !in db.Def(table).fields && columns[i].name !in db.Docs(table)[id]
    ensures var after := After(db, AlterTable(table, columns, ifExists));
            && after.Docs(table) == db.Docs(table) && Live(after.Def(table), columns[i].name)
            && Shown(after, table, id, columns[i].name) == columns[i].default
            && forall n :: Live(db.Def(table), n) ==>
                 Live(after.Def(table), n) && Shown(after, table, id, n) == Shown(db, table, id, n)
  {
    var after := After(db, AlterTable(table, columns, ifExists));
    AlteredDef(db, table, columns, ifExists);
    assert after.Docs(table) == db.Docs(table);
    ShownValue(after, table, id, columns[i].name);
    forall n | Live(db.Def(table), n)
      ensures Live(after.Def(table), n) && Shown(after, table, id, n) == Shown(db, table, id, n)
    {
      ShownValue(db, table, id, n);
      ShownValue(after, table, id, n);
    }
  }

  /** Every column's position is below the number of columns, as it is in a table created once and altered since. */
  ghost predicate Compact(def: TableDef) {
    forall n :: Live(def, n) ==> 0 <= def.fields[n].position < |ColumnsOf(def)|
  }

  ghost function DeclaredColumns(first: nat, columns: seq<ColumnDecl>): seq<Column> {
    seq(|columns|, i requires 0 <= i < |columns| =>
      Column(columns[i].name, columns[i].default, first + i, columns[i].primaryKey))
  }

  lemma {:induction false} JoinedColumns(before: TableDef, after: TableDef, columns: seq<ColumnDecl>)
    requires Joined(before, after, |ColumnsOf(before)|, columns) && DistinctDecls(columns) && Compact(before)
    requires forall i :: 0 <= i < |columns| ==> columns[i].name !in before.fields
    requires forall n :: n in after.fields ==>
               n in before.fields || exists i :: 0 <= i < |columns| && columns[i].name == n
    ensures ColumnsOf(after) == ColumnsOf(before) + DeclaredColumns(|ColumnsOf(before)|, columns)
  {
    var kept, added := ColumnsOf(before), DeclaredColumns(|ColumnsOf(before)|, columns);
    assert forall c :: c in kept ==> c.position < |kept|;
    forall c
      ensures c in kept + added <==> Live(after, c.name) && c == ColumnOf(after, c.name)
    {
      if c in added {
        var i :| 0 <= i < |added| && added[i] == c;
      }
      if Live(after, c.name) && c == ColumnOf(after, c.name) && c.name !in before.fields {
        var i :| 0 <= i < |columns| && columns[i].name == c.name;
        assert added[i] == c;
      }
    }
    forall i, j | 0 <= i < j < |kept + added|
      ensures Before((kept + added)[i], (kept + added)[j])
    {
      if i < |kept| { assert kept[i] in kept; }
    }
    SameColumns(ColumnsOf(after), kept + added);
  }

  /** In such a table the added columns come last: every row reads as before with the defaults behind. */
  lemma {:induction false} AlterAppends(db: Database, table: Name, columns: seq<ColumnDecl>, ifExists: bool, id: Uuid)
    requires Exists(db, table) && Succeeds(db, AlterTable(table, columns, ifExists)) && id in db.Docs(table)
    requires Compact(db.Def(table))
    requires forall i :: 0 <= i < |columns| ==>
               columns[i].name !in db.Def(table).fields && columns[i].name !in db.Docs(table)[id]
    ensures var after := After(db, AlterTable(table, columns, ifExists));
            && id in after.Docs(table)
            && RowRead(after, table, id)
               == RowRead(db, table, id) + seq(|columns|, i requires 0 <= i < |columns| => columns[i].default)
  {
    var after := After(db, AlterTable(table, columns, ifExists));
    AlteredDef(db, table, columns, ifExists);
    assert after.Docs(table) == db.Docs(table);
    JoinedColumns(db.Def(table), after.Def(table), columns);
    DefaultsBehind(ColumnsOf(db.Def(table)), columns, db.Docs(table)[id]);
  }

  lemma {:induction false} DefaultsBehind(cols: seq<Column>, columns: seq<ColumnDecl>, doc: Doc)
    requires forall i :: 0 <= i < |columns| ==> columns[i].name !in doc
    ensures Decode(cols + DeclaredColumns(|cols|, columns), doc)
            == Decode(cols, doc) + seq(|columns|, i requires 0 <= i < |columns| => columns[i].default)
  {
  }

  /** WHERE on an added column with its default finds every row that has no value for it. */
  lemma {:induction false} DefaultIsFound(db: Database, table: Name, columns: seq<ColumnDecl>, ifExists: bool, id: Uuid,
                                          i: nat)
    requires Exists(db, table) && Succeeds(db, AlterTable(table, columns, ifExists)) && id in db.Docs(table)
    requires i < |columns| && columns[i].name !in db.Def(table).fields && columns[i].name !in db.Docs(table)[id]
    ensures id in Matching(After(db, AlterTable(table, columns, ifExists)), table, columns[i].name, columns[i].default)
  {
    AlterIsRead(db, table, columns, ifExists, id, i);
    MatchingIsRead(After(db, AlterTable(table, columns, ifExists)), table, columns[i].name, columns[i].default);
  }

  /** So does a lookup in an index on that column. */
  lemma {:induction false} DefaultIsLookedUp(db: Database, index: Name, name: Name, id: Uuid)
    requires index in db.indices && LiveNames(db.indices[index].fields) == [name]
    requires var table := db.indices[index].table; id in db.Docs(table) && Live(db.Def(table), name)
    ensures var table := db.indices[index].table;
            Index.Matches(db, index, [Shown(db, table, id, name)], id)
  {
    ShownValue(db, db.indices[index].table, id, name);
  }

  lemma {:induction false} NoColumns(def: TableDef)
    requires def.fields == map[]
    ensures ColumnsOf(def) == []
  {
    SameColumns(ColumnsOf(def), []);
  }

  /** The columns of a table that is created come as declared, beside those it had when it was dropped. */
  lemma {:induction false} DeclaredDef(db: Database, table: Name, columns: seq<ColumnDecl>, ifNotExists: bool)
    requires !Exists(db, table) && Succeeds(db, DeclareTable(table, columns, ifNotExists)) && DistinctDecls(columns)
    ensures var after := After(db, DeclareTable(table, columns, ifNotExists));
            && Exists(after, table) && after.docs == db.docs
            && Joined(db.Def(table).(deleted := false), after.Def(table), 0, columns)
            && forall n :: n in after.Def(table).fields ==>
                 n in db.Def(table).fields || exists i :: 0 <= i < |columns| && columns[i].name == n
  {
    var created := Effect(db, Change.CreateTable(table));
    EffectAllCons(db, Change.CreateTable(table), Additions(table, 0, columns));
    AdditionsJoin(created, table, 0, columns);
    OnlyDeclared(created, table, 0, columns);
    AdditionsKeepDocs(created, table, 0, columns);
    StillNamed(created, table, 0, columns);
  }

  lemma {:induction false} OneKeyDeclared(def: TableDef, columns: seq<ColumnDecl>)
    requires Joined(TableDef(false, map[]), def, 0, columns) && ValidKey(columns)
    requires forall n :: n in def.fields ==> exists i :: 0 <= i < |columns| && columns[i].name == n
    ensures Singular(def)
  {
    var k :| 0 <= k < |columns| && columns[k].primaryKey
             && forall j :: 0 <= j < |columns| && columns[j].primaryKey ==> j == k;
    assert columns[k].name in PrimaryNames(def);
    forall n | n in PrimaryNames(def)
      ensures n == columns[k].name
    {
      var i :| 0 <= i < |columns| && columns[i].name == n;
    }
    assert PrimaryNames(def) == {columns[k].name};
  }

  /** A table created for the first time has exactly the declared columns, in their order, and one key. */
  lemma {:induction false} CreateTableIsRead(db: Database, table: Name, columns: seq<ColumnDecl>, ifNotExists: bool)
    requires table !in db.tables && Succeeds(db, DeclareTable(table, columns, ifNotExists)) && DistinctDecls(columns)
    ensures var after := After(db, DeclareTable(table, columns, ifNotExists));
            && Exists(after, table) && ColumnsOf(after.Def(table)) == DeclaredColumns(0, columns)
            && Singular(after.Def(table)) && after.docs == db.docs
  {
    var empty, def := TableDef(false, map[]), After(db, DeclareTable(table, columns, ifNotExists)).Def(table);
    DeclaredDef(db, table, columns, ifNotExists);
    NoColumns(empty);
    JoinedColumns(empty, def, columns);
    OneKeyDeclared(def, columns);
  }

  /** Without an index on it, a table that is not dropped can be rebuilt. */
  lemma {:induction false} AdditionsAccepted(db: Database, table: Name, first: nat, columns: seq<ColumnDecl>)
    requires !db.Def(table).deleted && forall name :: !db.Indexed(name, table)
    ensures AllAccepted(db, Additions(table, first, columns))
    ensures var after := EffectAll(db, Additions(table, first, columns));
            !after.Def(table).deleted && forall name :: !after.Indexed(name, table)
  {
    if columns != [] {
      var changes, init := Additions(table, first, columns), columns[..|columns| - 1];
      AdditionsAccepted(db, table, first, init);
      AdditionsSnoc(table, first, columns);
      AdditionAccepted(EffectAll(db, Additions(table, first, init)), table, changes[|changes| - 1]);
      AcceptedSnoc(db, changes);
    }
  }

  lemma {:induction false} AdditionAccepted(db: Database, table: Name, ch: Change)
    requires !db.Def(table).deleted && (forall name :: !db.Indexed(name, table)) && ch.AddColumn? && ch.table == table
    ensures ChangeAccepted(db, ch, true)
    ensures !Effect(db, ch).Def(table).deleted && forall name :: !Effect(db, ch).Indexed(name, table)
  {
    assert Effect(db, ch).indices == db.indices;
    assert forall name :: Effect(db, ch).Indexed(name, table) ==> db.Indexed(name, table);
  }

  lemma {:induction false} AcceptedSnoc(db: Database, changes: seq<Change>)
    requires changes != [] && AllAccepted(db, changes[..|changes| - 1])
    requires ChangeAccepted(EffectAll(db, changes[..|changes| - 1]), changes[|changes| - 1], true)
    ensures AllAccepted(db, changes)
  {
    var init := changes[..|changes| - 1];
    forall i | 0 <= i < |changes|
      ensures ChangeAccepted(EffectAll(db, changes[..i]), changes[i], true)
    {
      if i < |init| {
        AcceptedAt(db, init, i);
        assert changes[..i] == init[..i] && changes[i] == init[i];
      }
    }
  }

  lemma {:induction false} AcceptedAt(db: Database, changes: seq<Change>, i: nat)
    requires AllAccepted(db, changes) && i < |changes|
    ensures ChangeAccepted(EffectAll(db, changes[..i]), changes[i], true)
  {
  }

  lemma {:induction false} AcceptedCons(db: Database, ch: Change, changes: seq<Change>)
    requires ChangeAccepted(db, ch, true) && AllAccepted(Effect(db, ch), changes)
    ensures AllAccepted(db, [ch] + changes)
  {
    var all := [ch] + changes;
    forall i | 0 <= i < |all|
      ensures ChangeAccepted(EffectAll(db, all[..i]), all[i], true)
    {
      if i == 0 {
        assert all[..0] == [];
      } else {
        assert all[..i] == [ch] + changes[..i - 1] && all[i] == changes[i - 1];
        EffectAllCons(db, ch, changes[..i - 1]);
      }
    }
  }

  /** CREATE TABLE with one UUID key succeeds for any name that is not in use and has no index: also for one that was
      dropped. */
  lemma {:induction false} CreateTableSucceeds(db: Database, table: Name, columns: seq<ColumnDecl>, ifNotExists: bool)
    requires !Exists(db, table) && ValidKey(columns) && forall name :: !db.Indexed(name, table)
    ensures Succeeds(db, DeclareTable(table, columns, ifNotExists))
    ensures Exists(After(db, DeclareTable(table, columns, ifNotExists)), table)
  {
    var created := Effect(db, Change.CreateTable(table));
    assert forall name :: created.Indexed(name, table) ==> db.Indexed(name, table);
    AdditionsAccepted(created, table, 0, columns);
    AcceptedCons(db, Change.CreateTable(table), Additions(table, 0, columns));
    EffectAllCons(db, Change.CreateTable(table), Additions(table, 0, columns));
    StillNamed(created, table, 0, columns);
  }

  /** ALTER TABLE with new columns that are no keys succeeds for a table without an index. */
  lemma {:induction false} AlterTableSucceeds(db: Database, table: Name, columns: seq<ColumnDecl>, ifExists: bool)
    requires Exists(db, table) && NewColumns(db.Def(table), columns, |columns|)
    requires forall name :: !db.Indexed(name, table)
    ensures Succeeds(db, AlterTable(table, columns, ifExists))
  {
    AdditionsAccepted(db, table, |ColumnsOf(db.Def(table))|, columns);
  }

  /** A table without exactly one UUID key is not created. */
  lemma {:induction false} KeyIsOneUuid(db: Database, table: Name, columns: seq<ColumnDecl>, ifNotExists: bool, i: nat,
                                        j: nat)
    requires !Exists(db, table) && i < |columns| && columns[i].primaryKey && j < |columns| && columns[j].primaryKey
    requires i != j || !columns[i].valueType.UuidType?
    ensures !Succeeds(db, DeclareTable(table, columns, ifNotExists))
  {
  }

  // ---------------------------------------------------------------------------------------------
  // DROP TABLE
  // ---------------------------------------------------------------------------------------------

  /** A dropped table is no table to any statement; its rows stay. */
  lemma {:induction false} DroppedTableIsGone(db: Database, table: Name, ifExists: bool)
    requires Succeeds(db, DropTable(table, ifExists))
    ensures var after := After(db, DropTable(table, ifExists));
            && !Exists(after, table) && after.docs == db.docs
            && (forall row, generated :: InsertRefusal(after, table, row, generated) == Some(TableNotFound))
            && (forall assignments, column, value ::
                  UpdateRefusals(after, table, assignments, column, value) == {TableNotFound})
            && (forall column :: DeleteRefusal(after, table, column) == Some(TableNotFound))
            && forall other :: other != table ==> (Exists(after, other) <==> Exists(db, other))
  {
  }

  /** Created again, it comes back with its rows, which show under their columns what they showed. */
  lemma {:induction false} RecreatedIsRead(db: Database, table: Name, columns: seq<ColumnDecl>, ifNotExists: bool,
                                           id: Uuid, name: Name)
    requires !Exists(db, table) && Succeeds(db, DeclareTable(table, columns, ifNotExists)) && DistinctDecls(columns)
    requires id in db.Docs(table) && Live(db.Def(table), name)
    ensures var after := After(db, DeclareTable(table, columns, ifNotExists));
            && Exists(after, table) && id in after.Docs(table) && Live(after.Def(table), name)
            && Shown(after, table, id, name) == Shown(db, table, id, name)
  {
    var after := After(db, DeclareTable(table, columns, ifNotExists));
    DeclaredDef(db, table, columns, ifNotExists);
    assert after.Docs(table) == db.Docs(table);
    ShownValue(db, table, id, name);
    ShownValue(after, table, id, name);
  }

  // ---------------------------------------------------------------------------------------------
  // CREATE INDEX and DROP INDEX
  // ---------------------------------------------------------------------------------------------

  /** The columns an index is declared on. */
  ghost function AskedNames(db: Database, s: Statement): seq<Name>
    requires (s.DeclareIndex? || s.DeclareIndexByNames?) && Succeeds(db, s)
  {
    if s.DeclareIndex? then NamesAt(ColumnsOf(db.Def(s.table)), s.positions) else s.names
  }

  /** The statement creates or redefines its index. */
  ghost predicate Creates(db: Database, s: Statement) {
    (s.DeclareIndex? || (s.DeclareIndexByNames? && !InUse(db, s.index))) && Succeeds(db, s)
  }

  /** No earlier definition of the index has left a field behind these columns. */
  ghost predicate NothingBehind(db: Database, index: Name, names: seq<Name>) {
    forall i :: |names| <= i < |EarlierFields(db, index)| ==> EarlierFields(db, index)[i].deleted
  }

  /** An index that is created or redefined is in use, on the table and with the uniqueness asked for; it begins with
      the columns asked for, and has no others if no earlier definition left any. */
  lemma {:induction false} CreatedIndexIsInUse(db: Database, s: Statement)
    requires Creates(db, s)
    ensures var after, names := After(db, s), AskedNames(db, s);
            && InUse(after, s.index) && after.Indexed(s.index, s.table)
            && after.indices[s.index].unique == s.unique
            && names != [] && names <= LiveNames(after.indices[s.index].fields)
            && (NothingBehind(db, s.index, names) ==> LiveNames(after.indices[s.index].fields) == names)
    ensures After(db, s).docs == db.docs && After(db, s).tables == db.tables && After(db, s).dead == db.dead
    ensures forall other :: other != s.index ==>
              (other in After(db, s).indices <==> other in db.indices)
              && (other in db.indices ==> After(db, s).indices[other] == db.indices[other])
  {
    var names, earlier := AskedNames(db, s), EarlierFields(db, s.index);
    RedefinitionKeepsLaterFields(names, earlier);
    LiveNamesOfNew(names);
    LiveNamesConcat(NewFields(names), LaterFields(names, earlier));
  }

  /** Another visible row shows the same values under the index's columns, none of them null. */
  ghost predicate Repeats(db: Database, index: Name, doc: Doc, other: Uuid)
    requires index in db.indices
  {
    var table, def := db.indices[index].table, db.Def(db.indices[index].table);
    && other in db.Docs(table)
    && forall n :: n in LiveNames(db.indices[index].fields) ==>
         && Live(def, n) && Shown(db, table, other, n) != Null
         && Decode(ColumnsOf(def), doc)[Place(def, n)] == Shown(db, table, other, n)
  }

  lemma {:induction false} RepeatsIsSame(db: Database, index: Name, doc: Doc, other: Uuid)
    requires index in db.indices && Resolves(db.Def(db.indices[index].table), db.indices[index])
    requires other in db.Docs(db.indices[index].table)
    ensures var table, def := db.indices[index].table, db.Def(db.indices[index].table);
            Repeats(db, index, doc, other) <==>
            && IndexedValues(def, db.indices[index], doc)
               == IndexedValues(def, db.indices[index], db.Docs(table)[other])
            && NoNull(IndexedValues(def, db.indices[index], doc))
  {
    var table, def := db.indices[index].table, db.Def(db.indices[index].table);
    var names := LiveNames(db.indices[index].fields);
    var x := IndexedValues(def, db.indices[index], doc);
    var y := IndexedValues(def, db.indices[index], db.Docs(table)[other]);
    forall n | n in names
      ensures Live(def, n) && Shown(db, table, other, n) == ValueOf(def, db.Docs(table)[other], n)
      ensures Decode(ColumnsOf(def), doc)[Place(def, n)] == ValueOf(def, doc, n)
    {
      ShownValue(db, table, other, n);
      ColumnValue(def, Place(def, n), doc);
    }
    ValuesByName(def, names, doc, db.Docs(table)[other], x, y);
  }

  lemma {:induction false} ValuesByName(def: TableDef, names: seq<Name>, a: Doc, b: Doc, x: Row, y: Row)
    requires |x| == |y| == |names|
    requires forall i :: 0 <= i < |names| ==> x[i] == ValueOf(def, a, names[i]) && y[i] == ValueOf(def, b, names[i])
    ensures x == y && NoNull(x) <==>
            forall n :: n in names ==> ValueOf(def, b, n) != Null && ValueOf(def, a, n) == ValueOf(def, b, n)
  {
    if x == y && NoNull(x) {
      forall n | n in names
        ensures ValueOf(def, b, n) != Null && ValueOf(def, a, n) == ValueOf(def, b, n)
      {
        var i :| 0 <= i < |names| && names[i] == n;
        assert x[i] in x;
      }
    }
    if forall n :: n in names ==> ValueOf(def, b, n) != Null && ValueOf(def, a, n) == ValueOf(def, b, n) {
      assert forall i :: 0 <= i < |names| ==> names[i] in names;
    }
  }

  /** An index in use is unique, and another visible row shows the same values under its columns, none of them null. */
  ghost predicate Forbidden(db: Database, table: Name, id: Uuid, doc: Doc) {
    exists index, other :: db.Indexed(index, table) && db.indices[index].unique && other != id
                           && Repeats(db, index, doc, other)
  }

  lemma {:induction false} ForbiddenIsClash(db: Database, table: Name, id: Uuid, doc: Doc)
    requires AllResolve(db, table)
    ensures Forbidden(db, table, id, doc) <==> exists name :: db.Indexed(name, table) && RowsClash(db, name, id, doc)
  {
    forall index, other | db.Indexed(index, table) && other in db.Docs(table)
      ensures Repeats(db, index, doc, other) <==>
              && IndexedValues(db.Def(table), db.indices[index], doc)
                 == IndexedValues(db.Def(table), db.indices[index], db.Docs(table)[other])
              && NoNull(IndexedValues(db.Def(table), db.indices[index], doc))
    {
      RepeatsIsSame(db, index, doc, other);
    }
    if name :| db.Indexed(name, table) && RowsClash(db, name, id, doc) {
      var other := ClashWith(db, name, table, id, doc);
      assert Repeats(db, name, doc, other);
    }
    if index, other :| db.Indexed(index, table) && db.indices[index].unique && other != id
                       && Repeats(db, index, doc, other) {
      assert RowsClash(db, index, id, doc);
    }
  }

  /** An INSERT that nothing else stands against is refused as a violation exactly when its row repeats, under the
      columns of a unique index in use, what another visible row shows, and none of that is null. */
  lemma {:induction false} UniqueIsEnforced(db: Database, table: Name, row: Row, generated: Uuid, id: Uuid)
    requires AllResolve(db, table) && Exists(db, table)
    requires MaterializeInsert(ColumnsOf(db.Def(table)), row, generated).Ok?
    requires IdOf(db.Def(table), InsertedDoc(db, table, row, generated)) == Some(id)
    requires id !in db.Dead(table) && id !in db.Docs(table)
    ensures var doc := InsertedDoc(db, table, row, generated);
            && (InsertRefusal(db, table, row, generated) == Some(UniqueViolation) <==> Forbidden(db, table, id, doc))
            && (InsertRefusal(db, table, row, generated).None? <==> !Forbidden(db, table, id, doc))
            && Decode(ColumnsOf(db.Def(table)), doc)
               == MaterializeInsert(ColumnsOf(db.Def(table)), row, generated).value
  {
    ForbiddenIsClash(db, table, id, InsertedDoc(db, table, row, generated));
    DocReadsBack(db.Def(table), MaterializeInsert(ColumnsOf(db.Def(table)), row, generated).value);
  }

  /** Under these columns a row repeats what another visible row shows, none of it null. */
  ghost predicate RepeatsUnder(db: Database, table: Name, names: seq<Name>, row: Row, other: Uuid) {
    && |row| == |ColumnsOf(db.Def(table))| && other in db.Docs(table)
    && forall n :: n in names ==>
         && Live(db.Def(table), n) && Shown(db, table, other, n) != Null
         && row[Place(db.Def(table), n)] == Shown(db, table, other, n)
  }

  lemma {:induction false} CreatedUniqueForbids(db: Database, s: Statement, id: Uuid, doc: Doc, other: Uuid)
    requires Creates(db, s) && s.unique && other != id
    requires NothingBehind(db, s.index, AskedNames(db, s))
    requires RepeatsUnder(db, s.table, AskedNames(db, s), Decode(ColumnsOf(db.Def(s.table)), doc), other)
    ensures Forbidden(After(db, s), s.table, id, doc)
  {
    CreatedIndexIsInUse(db, s);
    var after := After(db, s);
    assert after.Def(s.table) == db.Def(s.table) && after.Docs(s.table) == db.Docs(s.table);
    forall n | n in AskedNames(db, s)
      ensures Shown(after, s.table, other, n) == Shown(db, s.table, other, n)
    {
    }
    assert Repeats(after, s.index, doc, other);
  }

  lemma {:induction false} CreatedKeepsTable(db: Database, s: Statement)
    requires Creates(db, s)
    ensures var after := After(db, s);
            && after.Def(s.table) == db.Def(s.table) && after.Docs(s.table) == db.Docs(s.table)
            && after.Dead(s.table) == db.Dead(s.table) && AllResolve(after, s.table)
            && (Exists(after, s.table) <==> Exists(db, s.table))
  {
    CreatedIndexIsInUse(db, s);
  }

  /** After CREATE UNIQUE INDEX on columns, an INSERT that nothing else stands against is refused if its row repeats
      another's values under them, none of them null. */
  lemma {:induction false} CreatedUniqueRefuses(db: Database, s: Statement, row: Row, generated: Uuid, id: Uuid,
                                                other: Uuid)
    requires Creates(db, s) && s.unique && other != id && Exists(db, s.table)
    requires NothingBehind(db, s.index, AskedNames(db, s))
    requires MaterializeInsert(ColumnsOf(db.Def(s.table)), row, generated).Ok?
    requires IdOf(db.Def(s.table), InsertedDoc(db, s.table, row, generated)) == Some(id)
    requires id !in db.Dead(s.table) && id !in db.Docs(s.table)
    requires var full := MaterializeInsert(ColumnsOf(db.Def(s.table)), row, generated).value;
             RepeatsUnder(db, s.table, AskedNames(db, s), full, other)
    ensures InsertRefusal(After(db, s), s.table, row, generated) == Some(UniqueViolation)
  {
    CreatedIndexIsInUse(db, s);
    var after := After(db, s);
    CreatedKeepsTable(db, s);
    DocReadsBack(db.Def(s.table), MaterializeInsert(ColumnsOf(db.Def(s.table)), row, generated).value);
    CreatedUniqueForbids(db, s, id, InsertedDoc(db, s.table, row, generated), other);
    UniqueIsEnforced(after, s.table, row, generated, id);
  }

  /** The databases differ in one index, which in the one is not in use and in the other is not unique. */
  ghost predicate PlainlyIndexed(a: Database, b: Database, index: Name) {
    && a.tables == b.tables && a.docs == b.docs && a.dead == b.dead && a.disputed == b.disputed
    && !InUse(a, index) && InUse(b, index) && !b.indices[index].unique
    && forall other :: other != index ==>
         (other in b.indices <==> other in a.indices) && (other in a.indices ==> b.indices[other] == a.indices[other])
  }

  lemma {:induction false} SameClash(a: Database, b: Database, index: Name, table: Name, id: Uuid, doc: Doc)
    requires PlainlyIndexed(a, b, index)
    ensures (exists name :: a.Indexed(name, table) && RowsClash(a, name, id, doc)) <==>
            exists name :: b.Indexed(name, table) && RowsClash(b, name, id, doc)
  {
    assert a.Def(table) == b.Def(table) && a.Docs(table) == b.Docs(table);
    if name :| a.Indexed(name, table) && RowsClash(a, name, id, doc) {
      assert b.Indexed(name, table) && RowsClash(b, name, id, doc);
    }
    if name :| b.Indexed(name, table) && RowsClash(b, name, id, doc) {
      assert a.Indexed(name, table) && RowsClash(a, name, id, doc);
    }
  }

  lemma {:induction false} SameClashes(a: Database, b: Database, index: Name, table: Name, ids: set<Uuid>)
    requires PlainlyIndexed(a, b, index)
    ensures Clashes(a, table, ids) <==> Clashes(b, table, ids)
  {
    assert a.Docs(table) == b.Docs(table);
    forall id | id in ids && id in a.Docs(table)
      ensures (exists name :: a.Indexed(name, table) && RowsClash(a, name, id, a.Docs(table)[id])) <==>
              exists name :: b.Indexed(name, table) && RowsClash(b, name, id, b.Docs(table)[id])
    {
      SameClash(a, b, index, table, id, a.Docs(table)[id]);
    }
  }

  lemma {:induction false} SameInserts(a: Database, b: Database, index: Name, table: Name, row: Row, generated: Uuid)
    requires PlainlyIndexed(a, b, index)
    ensures InsertRefusal(a, table, row, generated) == InsertRefusal(b, table, row, generated)
  {
    assert a.Def(table) == b.Def(table) && a.Docs(table) == b.Docs(table) && a.Dead(table) == b.Dead(table);
    if MaterializeInsert(ColumnsOf(a.Def(table)), row, generated).Ok? {
      var doc := InsertedDoc(a, table, row, generated);
      if IdOf(a.Def(table), doc).Some? { SameClash(a, b, index, table, IdOf(a.Def(table), doc).value, doc); }
    }
  }

  lemma {:induction false} SameUpdates(a: Database, b: Database, index: Name, table: Name,
                                       assignments: seq<(Name, Value)>, column: Name, value: Value)
    requires PlainlyIndexed(a, b, index)
    ensures UpdateRefusals(a, table, assignments, column, value) == UpdateRefusals(b, table, assignments, column, value)
  {
    assert a.Def(table) == b.Def(table) && a.Docs(table) == b.Docs(table);
    SameRowRefusals(a, b, index, table, Matching(a, table, column, value), assignments);
  }

  lemma {:induction false} SameRowRefusals(a: Database, b: Database, index: Name, table: Name, ids: set<Uuid>,
                                           assignments: seq<(Name, Value)>)
    requires PlainlyIndexed(a, b, index)
    ensures RowRefusals(a, table, ids, assignments) == RowRefusals(b, table, ids, assignments)
  {
    var x, y := RowsAssigned(a, table, ids, assignments), RowsAssigned(b, table, ids, assignments);
    SameAssigned(a, b, index, table, ids, assignments);
    SameClashes(x, y, index, table, ids);
    assert a.Docs(table) == b.Docs(table);
    SameContested(a, b, table, ids, assignments);
  }

  lemma {:induction false} SameContested(a: Database, b: Database, table: Name, ids: set<Uuid>,
                                         assignments: seq<(Name, Value)>)
    requires a.disputed == b.disputed
    ensures Contested(a, table, ids, assignments) == Contested(b, table, ids, assignments)
  {
    assert forall id :: a.Disputed(table, id) == b.Disputed(table, id);
  }

  lemma {:induction false} SameAssigned(a: Database, b: Database, index: Name, table: Name, ids: set<Uuid>,
                                        assignments: seq<(Name, Value)>)
    requires PlainlyIndexed(a, b, index)
    ensures PlainlyIndexed(RowsAssigned(a, table, ids, assignments), RowsAssigned(b, table, ids, assignments), index)
  {
    assert a.Docs(table) == b.Docs(table);
  }

  /** A new index that is not unique refuses nothing: every INSERT and every UPDATE fares as without it. */
  lemma {:induction false} PlainIndexRefusesNothing(db: Database, s: Statement, table: Name, row: Row, generated: Uuid,
                                                    assignments: seq<(Name, Value)>, column: Name, value: Value)
    requires Creates(db, s) && !s.unique && !InUse(db, s.index)
    ensures InsertRefusal(After(db, s), table, row, generated) == InsertRefusal(db, table, row, generated)
    ensures UpdateRefusals(After(db, s), table, assignments, column, value)
            == UpdateRefusals(db, table, assignments, column, value)
  {
    CreatedIndexIsInUse(db, s);
    SameInserts(db, After(db, s), s.index, table, row, generated);
    SameUpdates(db, After(db, s), s.index, table, assignments, column, value);
  }

  /** A second Ada is refused once names are unique, and not before. */
  lemma {:induction false} SecondAda(id: Uuid, second: Uuid)
    requires id != second
    ensures Creates(Users(id), NamesUnique())
    ensures InsertRefusal(Users(id), [117], [Uuid(second), ADA], second).None?
    ensures InsertRefusal(After(Users(id), NamesUnique()), [117], [Uuid(second), ADA], second) == Some(UniqueViolation)
  {
    var db, def, row := Users(id), Users(id).Def([117]), [Uuid(second), ADA];
    UsersColumns(id);
    NamesMayBeUnique(id);
    AdaFits(id, second);
    ShownValue(db, [117], id, NAME);
    PlaceIs(def, NAME, 1);
    assert RepeatsUnder(db, [117], [NAME], row, id);
    CreatedUniqueRefuses(db, NamesUnique(), row, second, second, id);
  }

  /** CREATE UNIQUE INDEX ON users (name) */
  function NamesUnique(): Statement {
    DeclareIndexByNames([105], [117], true, [NAME], false)
  }

  lemma {:induction false} NamesMayBeUnique(id: Uuid)
    ensures Creates(Users(id), NamesUnique())
  {
    var db := Users(id);
    var created := Effect(db, CreateIndex([105], [117], true, [NAME]));
    assert PrimaryNames(db.Def([117])) == {[105]};
    LiveNamesOfNew([NAME]);
    assert OverwriteFields([NAME], []) == NewFields([NAME]);
    assert created.indices == map[[105] := IndexDef([117], true, false, NewFields([NAME]))];
    assert created.Docs([117]).Keys == {id} && UniqueOn(created, [105]);
    assert Rebuildable(created, [117], true);
  }

  lemma {:induction false} AdaFits(id: Uuid, second: Uuid)
    requires id != second
    ensures var db, row := Users(id), [Uuid(second), ADA];
            && MaterializeInsert(ColumnsOf(db.Def([117])), row, second) == Ok(row)
            && IdOf(db.Def([117]), InsertedDoc(db, [117], row, second)) == Some(second)
            && InsertRefusal(db, [117], row, second).None?
  {
    var def, row := Users(id).Def([117]), [Uuid(second), ADA];
    UsersColumns(id);
    assert PrimaryNames(def) == {[105]};
    DocOfAt(ColumnsOf(def), row, 0);
    IdOfKey(def, InsertedDoc(Users(id), [117], row, second), [105]);
  }

  lemma {:induction false} UsersColumns(id: Uuid)
    ensures ColumnsOf(Users(id).Def([117])) == [Column([105], Null, 0, true), Column(NAME, Null, 1, false)]
  {
    SameColumns(ColumnsOf(Users(id).Def([117])), [Column([105], Null, 0, true), Column(NAME, Null, 1, false)]);
  }

  /** Given names, an index in use is left as it is: with IF NOT EXISTS in silence, and otherwise by an error. */
  lemma {:induction false} IndexInUseStays(db: Database, index: Name, table: Name, unique: bool, names: seq<Name>,
                                           ifNotExists: bool)
    requires InUse(db, index) && Readable(db, index)
    ensures var s := DeclareIndexByNames(index, table, unique, names, ifNotExists);
            (Succeeds(db, s) <==> ifNotExists) && (Succeeds(db, s) ==> After(db, s) == db)
  {
  }

  /** An index that is dropped is not in use, and forbids nothing; created again on any columns it has just those. */
  lemma {:induction false} DroppedIndexIsGone(db: Database, index: Name, ifExists: bool)
    requires Succeeds(db, DropIndex(index, ifExists))
    ensures var after := After(db, DropIndex(index, ifExists));
            && !InUse(after, index) && after.docs == db.docs && after.tables == db.tables
            && (InUse(db, index) ==> forall names :: NothingBehind(after, index, names))
            && forall other :: other != index ==>
                 (other in after.indices <==> other in db.indices)
                 && (other in db.indices ==> after.indices[other] == db.indices[other])
  {
  }
}
