// The engine's catalog, decoded: tables with their columns, indexes with their fields. The ordered column list of a
// table is read off it in two places, and an index's fields are resolved against that list.
module Catalog {
  import opened Bytes
  import opened Values
  import opened Wrappers

  type Name = seq<Byte>

  datatype Field = Field(default: Value, position: int, primaryKey: bool, deleted: bool)

  datatype Column = Column(name: Name, default: Value, position: int, primaryKey: bool)

  datatype TableDef = TableDef(deleted: bool, fields: map<Name, Field>)

  datatype IndexField = IndexField(column: Name, deleted: bool)

  // The fields of an index by position.
  datatype IndexDef = IndexDef(table: Name, unique: bool, deleted: bool, fields: seq<IndexField>)

  datatype EngineError =
    | TableNotFound | ColumnNotFound | IndexNotFound | SchemaNameNotFound | WrongColumnCount
    | BadPrimaryKey | UniqueViolation | TableExists | ColumnExists | IndexExists
    | PrimaryKeyExists | PrimaryKeyDeleted | PrimaryKeyFixed | EmptyStatement
    | NoChange | ColumnConflicted

  // ---------------------------------------------------------------------------------------------
  // Columns
  // ---------------------------------------------------------------------------------------------

  predicate Live(def: TableDef, name: Name) {
    name in def.fields && !def.fields[name].deleted
  }

  function ColumnOf(def: TableDef, name: Name): Column
    requires name in def.fields
  {
    Column(name, def.fields[name].default, def.fields[name].position, def.fields[name].primaryKey)
  }

  /** Columns are listed by position, and by name where positions are equal. */
  predicate Before(a: Column, b: Column) {
    a.position < b.position || (a.position == b.position && Less(a.name, b.name))
  }

  ghost predicate Sorted(cols: seq<Column>) {
    forall i, j :: 0 <= i < j < |cols| ==> Before(cols[i], cols[j])
  }

  /** The live columns of a table, in order. */
  ghost predicate IsColumns(def: TableDef, cols: seq<Column>) {
    && Sorted(cols)
    && forall c :: c in cols <==> Live(def, c.name) && c == ColumnOf(def, c.name)
  }

  lemma {:induction false} BeforeAsymmetric(a: Column, b: Column)
    requires Before(a, b)
    ensures !Before(b, a)
  {
    if a.position == b.position {
      LessAsymmetric(a.name, b.name);
    }
  }

  lemma {:induction false} BeforeTransitive(a: Column, b: Column, c: Column)
    requires Before(a, b) && Before(b, c)
    ensures Before(a, c)
  {
    if a.position == c.position {
      LessTransitive(a.name, b.name, c.name);
    }
  }

  function Insert(cols: seq<Column>, c: Column): seq<Column> {
    if cols == [] || Before(c, cols[0]) then [c] + cols else [cols[0]] + Insert(cols[1..], c)
  }

  lemma {:induction false} InsertSorts(cols: seq<Column>, c: Column)
    requires Sorted(cols) && forall d :: d in cols ==> d.name != c.name
    ensures Sorted(Insert(cols, c))
    ensures forall d :: d in Insert(cols, c) <==> d in cols || d == c
  {
    if cols == [] {
    } else if Before(c, cols[0]) {
      forall j | 0 <= j < |cols|
        ensures Before(c, cols[j])
      {
        if j > 0 { BeforeTransitive(c, cols[0], cols[j]); }
      }
    } else {
      InsertSorts(cols[1..], c);
      LessTotal(c.name, cols[0].name);
      assert cols[0] in cols && cols == [cols[0]] + cols[1..];
      forall d | d in Insert(cols[1..], c)
        ensures Before(cols[0], d)
      {
        if d in cols[1..] {
          var j :| 0 <= j < |cols[1..]| && cols[1..][j] == d;
          assert cols[j + 1] == d;
        }
      }
    }
  }

  /** The column list is unique, so the engine's reader and the row codec's reader of the same catalog agree. */
  lemma {:induction false} SameColumns(a: seq<Column>, b: seq<Column>)
    requires Sorted(a) && Sorted(b) && forall c :: c in a <==> c in b
    ensures a == b
  {
    assert (a == [] || a[0] in a) && (b == [] || b[0] in b);
    if a != [] && b != [] {
      assert a[0] in b && b[0] in a;
      if a[0] != b[0] {
        var i :| 0 <= i < |b| && b[i] == a[0];
        var j :| 0 <= j < |a| && a[j] == b[0];
        BeforeAsymmetric(a[0], b[0]);
        assert false;
      }
      forall c
        ensures c in a[1..] <==> c in b[1..]
      {
        if c in a[1..] { NotFirst(a, c); }
        if c in b[1..] { NotFirst(b, c); }
      }
      SameColumns(a[1..], b[1..]);
    }
  }

  lemma {:induction false} NotFirst(a: seq<Column>, c: Column)
    requires Sorted(a) && a != [] && c in a[1..]
    ensures c != a[0] && c in a
  {
    var i :| 0 <= i < |a[1..]| && a[1..][i] == c;
    assert a[i + 1] == c && Before(a[0], a[i + 1]);
    BeforeAsymmetric(a[0], c);
  }

  method ReadColumns(def: TableDef) returns (cols: seq<Column>)
    ensures IsColumns(def, cols)
  {
    cols := [];
    var names := def.fields.Keys;
    while names != {}
      invariant names <= def.fields.Keys
      invariant Sorted(cols)
      invariant forall c :: c in cols <==>
                  c.name in def.fields.Keys - names && Live(def, c.name) && c == ColumnOf(def, c.name)
      decreases names
    {
      var name :| name in names;
      if !def.fields[name].deleted {
        InsertSorts(cols, ColumnOf(def, name));
        cols := Insert(cols, ColumnOf(def, name));
      }
      names := names - {name};
    }
  }

  /** The engine's reader: an error for a dropped table. */
  method Columns(def: TableDef) returns (r: Result<seq<Column>, EngineError>)
    ensures r == if def.deleted then Err(TableNotFound) else Ok(ColumnsOf(def))
  {
    if def.deleted {
      return Err(TableNotFound);
    }
    var cols := ReadColumns(def);
    SameColumns(cols, ColumnsOf(def));
    r := Ok(cols);
  }

  /** The row codec's reader: numbered columns with null defaults for a table without a live column. */
  method CodecColumns(def: TableDef, fallback: nat) returns (cols: seq<Column>)
    ensures cols == if ColumnsOf(def) == [] then Numbered(fallback) else ColumnsOf(def)
  {
    cols := ReadColumns(def);
    SameColumns(cols, ColumnsOf(def));
    if cols == [] {
      cols := Numbered(fallback);
    }
  }

  function Numbered(count: nat): seq<Column> {
    seq(count, (i: nat) => Column(Decimal(i), Null, i, false))
  }

  function Decimal(n: nat): Name {
    if n < 10 then [48 + n] else Decimal(n / 10) + [48 + n % 10]
  }

  /** A number as it is written: digits without a leading zero, unless it is zero itself. */
  predicate Digits(s: Name) {
    s != [] && (forall i :: 0 <= i < |s| ==> 48 <= s[i] <= 57) && (|s| > 1 ==> s[0] != 48)
  }

  function NumberOf(s: Name): int
    requires forall i :: 0 <= i < |s| ==> 48 <= s[i] <= 57
  {
    if s == [] then 0 else 10 * NumberOf(s[..|s| - 1]) + (s[|s| - 1] - 48)
  }

  /** Every number is written in one way, and that is its decimal. */
  lemma {:induction false} DecimalIsNumber(n: nat)
    ensures Digits(Decimal(n)) && NumberOf(Decimal(n)) == n && (n > 0 ==> Decimal(n)[0] != 48)
  {
    if n < 10 {
      assert [48 + n][..0] == [];
    } else {
      DecimalIsNumber(n / 10);
      assert Decimal(n)[..|Decimal(n)| - 1] == Decimal(n / 10);
    }
  }

  lemma {:induction false} NumberIsPositive(s: Name)
    requires forall i :: 0 <= i < |s| ==> 48 <= s[i] <= 57
    ensures NumberOf(s) >= 0 && (s != [] && s[0] != 48 ==> NumberOf(s) > 0)
  {
    if s != [] {
      NumberIsPositive(s[..|s| - 1]);
    }
  }

  lemma {:induction false} OneDecimal(s: Name)
    requires Digits(s)
    ensures NumberOf(s) >= 0 && Decimal(NumberOf(s)) == s
  {
    var init, digit := s[..|s| - 1], s[|s| - 1] - 48;
    NumberIsPositive(s);
    assert s == init + [48 + digit];
    if init == [] {
      assert NumberOf(init) == 0;
    } else {
      OneDecimal(init);
      NumberIsPositive(init);
      NextDigit(NumberOf(init), digit);
    }
  }

  lemma {:induction false} NextDigit(n: nat, digit: nat)
    requires n > 0 && digit < 10
    ensures Decimal(10 * n + digit) == Decimal(n) + [48 + digit]
  {
    assert (10 * n + digit) / 10 == n && (10 * n + digit) % 10 == digit;
  }

  lemma {:induction false} ColumnsExist(def: TableDef, names: set<Name>) returns (cols: seq<Column>)
    requires names <= def.fields.Keys
    ensures Sorted(cols)
    ensures forall c :: c in cols <==> c.name in names && Live(def, c.name) && c == ColumnOf(def, c.name)
    decreases names
  {
    if names == {} {
      cols := [];
    } else {
      var name :| name in names;
      cols := ColumnsExist(def, names - {name});
      if Live(def, name) {
        InsertSorts(cols, ColumnOf(def, name));
        cols := Insert(cols, ColumnOf(def, name));
      }
    }
  }

  lemma {:induction false} SomeColumns(def: TableDef)
    ensures exists cols :: IsColumns(def, cols)
  {
    var cols := ColumnsExist(def, def.fields.Keys);
    assert IsColumns(def, cols);
  }

  ghost function ColumnsOf(def: TableDef): (cols: seq<Column>)
    ensures IsColumns(def, cols)
  {
    SomeColumns(def);
    var cols :| IsColumns(def, cols);
    cols
  }

  function PositionOf(cols: seq<Column>, name: Name): (r: Option<nat>)
    ensures r.Some? ==> r.value < |cols| && cols[r.value].name == name
    ensures r.None? ==> forall c :: c in cols ==> c.name != name
  {
    if cols == [] then None
    else if cols[0].name == name then Some(0)
    else match PositionOf(cols[1..], name) case None => None case Some(i) => Some(i + 1)
  }

  // ---------------------------------------------------------------------------------------------
  // Index schemas
  // ---------------------------------------------------------------------------------------------

  datatype IndexSchema = IndexSchema(table: Name, unique: bool, positions: seq<nat>)

  function LiveNames(fields: seq<IndexField>): seq<Name> {
    if fields == [] then []
    else (if fields[0].deleted then [] else [fields[0].column]) + LiveNames(fields[1..])
  }

  function Positions(cols: seq<Column>, names: seq<Name>): (r: Option<seq<nat>>)
    ensures r.Some? ==> |r.value| == |names|
    ensures r.Some? ==> forall i :: 0 <= i < |names| ==> r.value[i] < |cols| && cols[r.value[i]].name == names[i]
  {
    if names == [] then Some([])
    else if PositionOf(cols, names[0]).None? || Positions(cols, names[1..]).None? then None
    else Some([PositionOf(cols, names[0]).value] + Positions(cols, names[1..]).value)
  }

  /** Every field of the index names a live column of its table. */
  ghost predicate Resolves(def: TableDef, index: IndexDef) {
    forall n :: n in LiveNames(index.fields) ==> Live(def, n)
  }

  /** `index_schema`, for an index that is not dropped, on its table. */
  method ResolveIndex(index: IndexDef, def: TableDef) returns (r: Result<IndexSchema, EngineError>)
    ensures def.deleted ==> r == Err(TableNotFound)
    ensures !def.deleted && !Resolves(def, index) ==> r == Err(ColumnNotFound)
    ensures !def.deleted && Resolves(def, index) ==>
              r.Ok? && r.value.table == index.table && r.value.unique == index.unique
              && Positions(ColumnsOf(def), LiveNames(index.fields)) == Some(r.value.positions)
  {
    var names := [];
    for i := 0 to |index.fields|
      invariant names + LiveNames(index.fields[i..]) == LiveNames(index.fields)
    {
      assert index.fields[i..][1..] == index.fields[i + 1..];
      if !index.fields[i].deleted {
        names := names + [index.fields[i].column];
      }
    }
    assert names == LiveNames(index.fields);
    var columns := Columns(def);
    if columns.Err? {
      return Err(TableNotFound);
    }
    ResolvesPositions(def, index);
    match Positions(columns.value, names) {
      case None => r := Err(ColumnNotFound);
      case Some(positions) => r := Ok(IndexSchema(index.table, index.unique, positions));
    }
  }

  lemma {:induction false} PositionsDefined(cols: seq<Column>, names: seq<Name>)
    ensures Positions(cols, names).Some? <==> forall n :: n in names ==> PositionOf(cols, n).Some?
  {
    if names != [] {
      PositionsDefined(cols, names[1..]);
      if PositionOf(cols, names[0]).None? {
        assert names[0] in names;
      } else if Positions(cols, names[1..]).None? {
        var n :| n in names[1..] && PositionOf(cols, n).None?;
        assert n in names;
      }
    }
  }

  lemma {:induction false} ResolvesPositions(def: TableDef, index: IndexDef)
    ensures Positions(ColumnsOf(def), LiveNames(index.fields)).Some? <==> Resolves(def, index)
  {
    PositionsDefined(ColumnsOf(def), LiveNames(index.fields));
    forall n
      ensures PositionOf(ColumnsOf(def), n).Some? <==> Live(def, n)
    {
      LivePosition(def, n);
    }
  }

  lemma {:induction false} LivePosition(def: TableDef, n: Name)
    ensures PositionOf(ColumnsOf(def), n).Some? <==> Live(def, n)
  {
    var cols := ColumnsOf(def);
    match PositionOf(cols, n) {
      case Some(i) => assert cols[i] in cols;
      case None =>
        if n in def.fields {
          assert ColumnOf(def, n) !in cols;
        }
    }
  }

  // ---------------------------------------------------------------------------------------------
  // Rows of a table
  // ---------------------------------------------------------------------------------------------

  // A row's document: the value under each of its columns' names.
  type Doc = map<Name, Value>

  function ValueOf(def: TableDef, doc: Doc, name: Name): Value {
    if name in doc then doc[name] else if name in def.fields then def.fields[name].default else Null
  }

  /** `decode_row` with given columns. */
  function Decode(cols: seq<Column>, doc: Doc): (row: Row)
    ensures |row| == |cols|
  {
    seq(|cols|, i requires 0 <= i < |cols| => if cols[i].name in doc then doc[cols[i].name] else cols[i].default)
  }

  function PrimaryNames(def: TableDef): set<Name> {
    set n | n in def.fields && !def.fields[n].deleted && def.fields[n].primaryKey
  }

  /** The UUID under the one primary-key column, None when there is not exactly one or it holds no UUID. */
  ghost function IdOf(def: TableDef, doc: Doc): Option<Uuid> {
    if exists n :: PrimaryNames(def) == {n} && ValueOf(def, doc, n).Uuid? then
      var n :| PrimaryNames(def) == {n} && ValueOf(def, doc, n).Uuid?;
      Some(ValueOf(def, doc, n).id)
    else None
  }

  lemma {:induction false} IdOfKey(def: TableDef, doc: Doc, n: Name)
    requires PrimaryNames(def) == {n}
    ensures IdOf(def, doc) == if ValueOf(def, doc, n).Uuid? then Some(ValueOf(def, doc, n).id) else None
  {
    forall m | PrimaryNames(def) == {m}
      ensures m == n
    {
      assert m in PrimaryNames(def);
    }
  }

  /** `row_id`: the table has exactly one primary-key column, and the row a UUID in it. */
  method RowId(cols: seq<Column>, row: Row, ghost def: TableDef, ghost doc: Doc) returns (r: Result<Uuid, EngineError>)
    requires cols == ColumnsOf(def) && row == Decode(cols, doc)
    ensures r == match IdOf(def, doc) case Some(id) => Ok(id) case None => Err(BadPrimaryKey)
  {
    var keys: seq<nat> := [];
    for i := 0 to |cols|
      invariant forall k: nat :: k in keys ==> k < i && cols[k].primaryKey
      invariant forall k: nat :: k < i && cols[k].primaryKey ==> k in keys
      invariant forall a, b :: 0 <= a < b < |keys| ==> keys[a] < keys[b]
    {
      assert forall a :: 0 <= a < |keys| ==> keys[a] in keys;
      if cols[i].primaryKey {
        keys := keys + [i];
      }
    }
    KeyPositions(def, keys);
    if |keys| != 1 {
      return Err(BadPrimaryKey);
    }
    assert keys[0] in keys && cols[keys[0]] in cols;
    IdOfKey(def, doc, cols[keys[0]].name);
    match row[keys[0]] {
      case Uuid(id) => r := Ok(id);
      case _ => r := Err(BadPrimaryKey);
    }
  }

  /** The positions of the primary-key columns are as many as there are primary-key columns. */
  lemma {:induction false} KeyPositions(def: TableDef, keys: seq<nat>)
    requires forall k: nat :: k in keys <==> k < |ColumnsOf(def)| && ColumnsOf(def)[k].primaryKey
    requires forall a, b :: 0 <= a < b < |keys| ==> keys[a] < keys[b]
    ensures forall k :: k in keys ==> k < |ColumnsOf(def)|
    ensures |keys| == 1 ==> keys[0] in keys && PrimaryNames(def) == {ColumnsOf(def)[keys[0]].name}
    ensures (exists n :: PrimaryNames(def) == {n}) ==> |keys| == 1
  {
    var cols := ColumnsOf(def);
    forall n
      ensures n in PrimaryNames(def) <==> exists k :: k in keys && cols[k].name == n
    {
      if n in PrimaryNames(def) {
        assert ColumnOf(def, n) in cols;
        var k :| 0 <= k < |cols| && cols[k] == ColumnOf(def, n);
        assert k in keys;
      }
      if k :| k in keys && cols[k].name == n {
        assert cols[k] in cols;
      }
    }
    if |keys| == 1 {
      assert keys == [keys[0]] && keys[0] in keys;
      assert forall n :: n in PrimaryNames(def) <==> n == cols[keys[0]].name;
    }
    if n :| PrimaryNames(def) == {n} {
      assert n in PrimaryNames(def);
      var k :| k in keys && cols[k].name == n;
      assert |keys| > 1 ==> keys[0] < keys[1];
      forall i | 0 <= i < |keys|
        ensures keys[i] == k
      {
        assert keys[i] in keys;
        assert cols[keys[i]].name in PrimaryNames(def);
        assert cols[keys[i]] in cols && cols[k] in cols;
        assert cols[keys[i]] == cols[k];
        DistinctColumns(cols, keys[i], k);
      }
    }
  }

  lemma {:induction false} DistinctColumns(cols: seq<Column>, i: nat, j: nat)
    requires Sorted(cols) && i < |cols| && j < |cols| && cols[i] == cols[j]
    ensures i == j
  {
    if i < j {
      BeforeAsymmetric(cols[i], cols[j]);
    } else if j < i {
      BeforeAsymmetric(cols[j], cols[i]);
    }
  }

  /** The indexed values of a document. */
  ghost function IndexedValues(def: TableDef, index: IndexDef, doc: Doc): (values: Row)
    ensures |values| == |LiveNames(index.fields)|
  {
    var names := LiveNames(index.fields);
    seq(|names|, i requires 0 <= i < |names| => ValueOf(def, doc, names[i]))
  }

  lemma {:induction false} ColumnValue(def: TableDef, i: nat, doc: Doc)
    requires i < |ColumnsOf(def)|
    ensures Decode(ColumnsOf(def), doc)[i] == ValueOf(def, doc, ColumnsOf(def)[i].name)
  {
    assert ColumnsOf(def)[i] in ColumnsOf(def);
  }

  lemma {:induction false} IndexedValueAt(positions: seq<nat>, i: nat, def: TableDef, index: IndexDef, doc: Doc)
    requires Positions(ColumnsOf(def), LiveNames(index.fields)) == Some(positions) && i < |positions|
    ensures |positions| == |LiveNames(index.fields)| && positions[i] < |ColumnsOf(def)|
    ensures Decode(ColumnsOf(def), doc)[positions[i]] == IndexedValues(def, index, doc)[i]
  {
    ColumnValue(def, positions[i], doc);
  }

  method ValuesAt(row: Row, positions: seq<nat>) returns (values: Row)
    requires forall i :: 0 <= i < |positions| ==> positions[i] < |row|
    ensures |values| == |positions| && forall i :: 0 <= i < |positions| ==> values[i] == row[positions[i]]
  {
    values := [];
    for i := 0 to |positions|
      invariant |values| == i && forall j :: 0 <= j < i ==> values[j] == row[positions[j]]
    {
      values := values + [row[positions[i]]];
    }
  }

  /** `record_key`: the indexed values, then the row's id. */
  method RecordKey(schema: IndexSchema, id: Uuid, row: Row, ghost def: TableDef, ghost index: IndexDef, ghost doc: Doc)
    returns (key: Row)
    requires row == Decode(ColumnsOf(def), doc)
    requires Positions(ColumnsOf(def), LiveNames(index.fields)) == Some(schema.positions)
    ensures key == IndexedValues(def, index, doc) + [Uuid(id)]
  {
    var values := ValuesAt(row, schema.positions);
    forall i | 0 <= i < |values|
      ensures values[i] == IndexedValues(def, index, doc)[i]
    {
      IndexedValueAt(schema.positions, i, def, index, doc);
    }
    assert values == IndexedValues(def, index, doc);
    key := values + [Uuid(id)];
  }
}
