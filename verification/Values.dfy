// The value type stored in rows and index keys, and the order the key codec has to match.
module Values {
  import opened Bytes

  const TWO_63 := 0x8000_0000_0000_0000
  const TWO_64 := 0x1_0000_0000_0000_0000

  type I64 = i: int | -TWO_63 <= i < TWO_63
  type U64 = i: int | 0 <= i < TWO_64
  type Uuid = u: seq<Byte> | |u| == 16 witness seq(16, _ => 0)

  datatype ValueType =
    | NullType | TypeType | UuidType | BoolType | IntegerType | FloatType | TextType | JsonType | BlobType
  {
    function Rank(): Byte {
      match this
      case NullType => 0
      case TypeType => 1
      case UuidType => 2
      case BoolType => 3
      case IntegerType => 4
      case FloatType => 5
      case TextType => 6
      case JsonType => 7
      case BlobType => 8
    }
  }

  // A float is its IEEE bit pattern, text is its UTF-8 bytes, and a JSON value is its rendered text: these are
  // what equality, order and the codec look at.
  datatype Value =
    | Null
    | Type(valueType: ValueType)
    | Uuid(id: Uuid)
    | Bool(truth: bool)
    | Integer(number: I64)
    | Float(bits: U64)
    | Text(utf8: seq<Byte>)
    | Json(rendered: seq<Byte>)
    | Blob(data: seq<Byte>)
  {
    function TypeOf(): ValueType {
      match this
      case Null => NullType
      case Type(_) => TypeType
      case Uuid(_) => UuidType
      case Bool(_) => BoolType
      case Integer(_) => IntegerType
      case Float(_) => FloatType
      case Text(_) => TextType
      case Json(_) => JsonType
      case Blob(_) => BlobType
    }
  }

  type Row = seq<Value>

  /** `cmp` answers Less. */
  ghost predicate Below(a: Value, b: Value) {
    match (a, b)
    case (Type(s), Type(t)) => s.Rank() < t.Rank()
    case (Uuid(s), Uuid(t)) => Less(s, t)
    case (Bool(s), Bool(t)) => !s && t
    case (Integer(s), Integer(t)) => s < t
    case (Float(s), Float(t)) => s < t
    case (Text(s), Text(t)) => Less(s, t)
    case (Json(s), Json(t)) => Less(s, t)
    case (Blob(s), Blob(t)) => Less(s, t)
    case _ => a.TypeOf().Rank() < b.TypeOf().Rank()
  }

  /** `cmp` answers Less on rows: the first position where the rows differ decides, and a proper prefix is less. */
  ghost predicate RowBelow(a: Row, b: Row) {
    exists k :: RowBelowAt(a, b, k)
  }

  ghost predicate RowBelowAt(a: Row, b: Row, k: int) {
    0 <= k <= |a| && k < |b| && a[..k] == b[..k] && (k < |a| ==> Below(a[k], b[k]))
  }

  lemma {:induction false} BelowTotal(a: Value, b: Value)
    ensures a == b || Below(a, b) || Below(b, a)
  {
    match (a, b)
    case (Uuid(s), Uuid(t)) => LessTotal(s, t);
    case (Text(s), Text(t)) => LessTotal(s, t);
    case (Json(s), Json(t)) => LessTotal(s, t);
    case (Blob(s), Blob(t)) => LessTotal(s, t);
    case _ =>
  }

  lemma {:induction false} RowBelowTotal(a: Row, b: Row)
    ensures a == b || RowBelow(a, b) || RowBelow(b, a)
  {
    if a == [] || b == [] {
      if b != [] { assert RowBelowAt(a, b, 0); }
      if a != [] { assert RowBelowAt(b, a, 0); }
    } else if a[0] != b[0] {
      BelowTotal(a[0], b[0]);
      assert RowBelowAt(a, b, 0) || RowBelowAt(b, a, 0);
    } else {
      RowBelowTotal(a[1..], b[1..]);
      assert a == [a[0]] + a[1..] && b == [b[0]] + b[1..];
      if RowBelow(a[1..], b[1..]) { RowBelowCons(a[0], a[1..], b[1..]); }
      if RowBelow(b[1..], a[1..]) { RowBelowCons(a[0], b[1..], a[1..]); }
    }
  }

  lemma {:induction false} RowBelowCons(v: Value, a: Row, b: Row)
    requires RowBelow(a, b)
    ensures RowBelow([v] + a, [v] + b)
  {
    var k :| RowBelowAt(a, b, k);
    assert ([v] + a)[..k + 1] == [v] + a[..k];
    assert ([v] + b)[..k + 1] == [v] + b[..k];
    assert RowBelowAt([v] + a, [v] + b, k + 1);
  }
}
