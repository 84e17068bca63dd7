// The key codec of row tables: an order-preserving encoding of the row, a two-byte separator, and the
// serialized row itself. The serializer is a parameter, a total function `serialize` with an inverse.
module RowTable {
  import opened Bytes
  import opened Values
  import opened Wrappers

  /** The byte buffer the encoders append to. */
  class Buffer {
    var bytes: seq<Byte>

    constructor ()
      ensures bytes == []
    {
      bytes := [];
    }

    method Extend(more: seq<Byte>)
      modifies this
      ensures bytes == old(bytes) + more
    {
      bytes := bytes + more;
    }
  }

  // ---------------------------------------------------------------------------------------------
  // The encoding as a function
  // ---------------------------------------------------------------------------------------------

  /** The two's complement pattern of a signed number. */
  function AsUnsigned(i: I64): U64 {
    if i < 0 then i + TWO_64 else i
  }

  /** Exclusive-or with the top bit. */
  function FlipTopBit(u: U64): U64 {
    if u < TWO_63 then u + TWO_63 else u - TWO_63
  }

  function BigEndian(n: nat, width: nat): (s: seq<Byte>)
    ensures |s| == width
  {
    if width == 0 then [] else BigEndian(n / 256, width - 1) + [n % 256]
  }

  function EncodeValue(v: Value): seq<Byte> {
    match v
    case Null => [1]
    case Type(t) => [2, t.Rank() + 1]
    case Uuid(id) => [3] + id
    case Bool(b) => [4, if b then 2 else 1]
    case Integer(i) => [5] + BigEndian(FlipTopBit(AsUnsigned(i)), 8)
    case Float(bits) => [6] + BigEndian(bits, 8)
    case Text(s) => [7] + Escaped(s)
    case Json(s) => [8] + Escaped(s)
    case Blob(s) => [9] + Escaped(s)
  }

  function ConcatMap<T>(f: T -> seq<Byte>, s: seq<T>): seq<Byte> {
    if s == [] then [] else f(s[0]) + ConcatMap(f, s[1..])
  }

  function EncodeValues(row: Row): seq<Byte> {
    ConcatMap(EncodeValue, row)
  }

  function EncodeKey(row: Row, serialize: Row -> seq<Byte>): seq<Byte> {
    EncodeValues(row) + [0, 0] + serialize(row)
  }

  // ---------------------------------------------------------------------------------------------
  // The encoders as they run
  // ---------------------------------------------------------------------------------------------

  method WriteEscaped(value: seq<Byte>, out: Buffer)
    modifies out
    ensures out.bytes == old(out.bytes) + Escaped(value)
  {
    for i := 0 to |value|
      invariant out.bytes == old(out.bytes) + Escape(value[..i])
    {
      assert value[..i + 1] == value[..i] + [value[i]];
      EscapeConcat(value[..i], [value[i]]);
      if value[i] == 0 {
        out.Extend([0, 255]);
      } else {
        out.Extend([value[i]]);
      }
    }
    assert value[..|value|] == value;
    out.Extend([0, 0]);
  }

  method WriteTagged(tag: Byte, value: seq<Byte>, out: Buffer)
    modifies out
    ensures out.bytes == old(out.bytes) + ([tag] + Escaped(value))
  {
    out.Extend([tag]);
    WriteEscaped(value, out);
    assert out.bytes == old(out.bytes) + [tag] + Escaped(value);
  }

  method WriteValue(v: Value, out: Buffer)
    modifies out
    ensures out.bytes == old(out.bytes) + EncodeValue(v)
  {
    match v
    case Null => out.Extend([1]);
    case Type(t) => out.Extend([2, t.Rank() + 1]);
    case Uuid(id) => out.Extend([3] + id);
    case Bool(b) => out.Extend([4, if b then 2 else 1]);
    case Integer(i) => out.Extend([5] + BigEndian(FlipTopBit(AsUnsigned(i)), 8));
    case Float(bits) => out.Extend([6] + BigEndian(bits, 8));
    case Text(s) => WriteTagged(7, s, out);
    case Json(s) => WriteTagged(8, s, out);
    case Blob(s) => WriteTagged(9, s, out);
  }

  method WriteKey(row: Row, serialize: Row -> seq<Byte>) returns (bytes: seq<Byte>)
    ensures bytes == EncodeKey(row, serialize)
  {
    var out := new Buffer();
    for i := 0 to |row|
      invariant out.bytes == EncodeValues(row[..i])
      invariant fresh(out)
    {
      assert row[..i + 1] == row[..i] + [row[i]];
      ConcatMapConcat(EncodeValue, row[..i], [row[i]]);
      WriteValue(row[i], out);
    }
    assert row[..|row|] == row;
    out.Extend([0, 0]);
    out.Extend(serialize(row));
    bytes := out.bytes;
  }

  lemma {:induction false} ConcatMapConcat<T>(f: T -> seq<Byte>, a: seq<T>, b: seq<T>)
    ensures ConcatMap(f, a + b) == ConcatMap(f, a) + ConcatMap(f, b)
  {
    if a == [] {
      assert a + b == b;
    } else {
      ConcatMapConcat(f, a[1..], b);
      assert (a + b)[0] == a[0] && (a + b)[1..] == a[1..] + b;
      ConcatAssociative(f(a[0]), ConcatMap(f, a[1..]), ConcatMap(f, b));
    }
  }

  // ---------------------------------------------------------------------------------------------
  // Order preservation
  // ---------------------------------------------------------------------------------------------

  function Power256(width: nat): nat {
    if width == 0 then 1 else 256 * Power256(width - 1)
  }

  lemma {:induction false} BigEndianDiverges(a: nat, b: nat, width: nat)
    requires a < b < Power256(width)
    ensures Diverges(BigEndian(a, width), BigEndian(b, width))
  {
    var ha, hb := BigEndian(a / 256, width - 1), BigEndian(b / 256, width - 1);
    if a / 256 < b / 256 {
      BigEndianDiverges(a / 256, b / 256, width - 1);
      DivergesAppend([], ha, hb, [a % 256], [b % 256]);
      assert [] + ha + [a % 256] == ha + [a % 256] && [] + hb + [b % 256] == hb + [b % 256];
    } else {
      assert DivergesAt(ha + [a % 256], hb + [b % 256], width - 1);
    }
  }

  lemma {:induction false} WordDiverges(a: U64, b: U64)
    requires a < b
    ensures Diverges(BigEndian(a, 8), BigEndian(b, 8))
  {
    assert Power256(4) == 0x1_0000_0000;
    assert Power256(8) == TWO_64;
    BigEndianDiverges(a, b, 8);
  }

  /** A smaller value's encoding is smaller at a byte both encodings have, so nothing appended to either can
      change the order: value encodings are monotone and prefix-free, across and within variants. */
  lemma {:induction false} ValueDiverges(a: Value, b: Value)
    requires Below(a, b)
    ensures Diverges(EncodeValue(a), EncodeValue(b))
  {
    if a.TypeOf() != b.TypeOf() {
      assert DivergesAt(EncodeValue(a), EncodeValue(b), 0);
    } else {
      match (a, b)
      case (Type(_), Type(_)) => assert DivergesAt(EncodeValue(a), EncodeValue(b), 1);
      case (Bool(_), Bool(_)) => assert DivergesAt(EncodeValue(a), EncodeValue(b), 1);
      case (Uuid(s), Uuid(t)) => LessSameLength(s, t); AfterTag(3, s, t);
      case (Integer(s), Integer(t)) =>
        WordDiverges(FlipTopBit(AsUnsigned(s)), FlipTopBit(AsUnsigned(t)));
        AfterTag(5, BigEndian(FlipTopBit(AsUnsigned(s)), 8), BigEndian(FlipTopBit(AsUnsigned(t)), 8));
      case (Float(s), Float(t)) => WordDiverges(s, t); AfterTag(6, BigEndian(s, 8), BigEndian(t, 8));
      case (Text(s), Text(t)) => EscapedDiverges(s, t); AfterTag(7, Escaped(s), Escaped(t));
      case (Json(s), Json(t)) => EscapedDiverges(s, t); AfterTag(8, Escaped(s), Escaped(t));
      case (Blob(s), Blob(t)) => EscapedDiverges(s, t); AfterTag(9, Escaped(s), Escaped(t));
    }
  }

  lemma {:induction false} AfterTag(tag: Byte, s: seq<Byte>, t: seq<Byte>)
    requires Diverges(s, t)
    ensures Diverges([tag] + s, [tag] + t)
  {
    DivergesAppend([tag], s, t, [], []);
    assert [tag] + s + [] == [tag] + s && [tag] + t + [] == [tag] + t;
  }

  lemma {:induction false} EncodeStartsWithTag(v: Value)
    ensures |EncodeValue(v)| > 0 && EncodeValue(v)[0] == v.TypeOf().Rank() + 1
  {
  }

  /** Byte order of encoded keys is row order, for rows of any length and any mix of variants. */
  lemma {:induction false} KeyOrderPreserved(a: Row, b: Row, serialize: Row -> seq<Byte>)
    requires RowBelow(a, b)
    ensures Less(EncodeKey(a, serialize), EncodeKey(b, serialize))
  {
    var k :| RowBelowAt(a, b, k);
    var p := EncodeValues(a[..k]);
    KeySplit(b, k, serialize);
    EncodeStartsWithTag(b[k]);
    if k < |a| {
      KeySplit(a, k, serialize);
      ValueDiverges(a[k], b[k]);
      DivergesAppend(p, EncodeValue(a[k]), EncodeValue(b[k]), KeyRest(a, k, serialize), KeyRest(b, k, serialize));
    } else {
      assert a[..k] == a;
      assert DivergesAt([0, 0], EncodeValue(b[k]), 0);
      DivergesAppend(p, [0, 0], EncodeValue(b[k]), serialize(a), KeyRest(b, k, serialize));
    }
  }

  function KeyRest(row: Row, k: nat, serialize: Row -> seq<Byte>): seq<Byte>
    requires k < |row|
  {
    EncodeValues(row[k + 1..]) + [0, 0] + serialize(row)
  }

  lemma {:induction false} KeySplit(row: Row, k: nat, serialize: Row -> seq<Byte>)
    requires k < |row|
    ensures EncodeKey(row, serialize) == EncodeValues(row[..k]) + EncodeValue(row[k]) + KeyRest(row, k, serialize)
  {
    assert row == row[..k] + row[k..] && row[k..][1..] == row[k + 1..];
    ConcatMapConcat(EncodeValue, row[..k], row[k..]);
  }

  /** ... and it reflects row order: keys are equal only for equal rows. */
  lemma {:induction false} KeyOrderReflected(a: Row, b: Row, serialize: Row -> seq<Byte>)
    ensures RowBelow(a, b) <==> Less(EncodeKey(a, serialize), EncodeKey(b, serialize))
    ensures a == b <==> EncodeKey(a, serialize) == EncodeKey(b, serialize)
  {
    RowBelowTotal(a, b);
    if RowBelow(a, b) {
      KeyOrderPreserved(a, b, serialize);
      LessIrreflexive(EncodeKey(a, serialize));
    } else if RowBelow(b, a) {
      KeyOrderPreserved(b, a, serialize);
      LessIrreflexive(EncodeKey(a, serialize));
      LessAsymmetric(EncodeKey(b, serialize), EncodeKey(a, serialize));
    } else {
      LessIrreflexive(EncodeKey(a, serialize));
    }
  }

  // ---------------------------------------------------------------------------------------------
  // Decoding: skip value encodings by their tags until the separator, then deserialize what follows it
  // ---------------------------------------------------------------------------------------------

  /** Where the scan over an escaped string that starts at `i` stops. */
  function AfterEscaped(bytes: seq<Byte>, i: nat): (j: nat)
    requires i <= |bytes|
    ensures i <= j <= |bytes|
    decreases |bytes| - i
  {
    if i == |bytes| then i
    else if bytes[i] == 0 && i + 1 < |bytes| && bytes[i + 1] == 0 then i + 2
    else if bytes[i] == 0 && i + 1 < |bytes| && bytes[i + 1] == 255 then AfterEscaped(bytes, i + 2)
    else AfterEscaped(bytes, i + 1)
  }

  /** Where the value whose tag stands at `i` ends; None for a byte that is no tag. */
  function AfterValue(bytes: seq<Byte>, i: nat): (j: Option<nat>)
    requires i < |bytes|
    ensures j.Some? ==> i < j.value
  {
    var tag := bytes[i];
    if tag == 1 then Some(i + 1)
    else if tag == 2 || tag == 4 then Some(i + 2)
    else if tag == 3 then Some(i + 17)
    else if tag == 5 || tag == 6 then Some(i + 9)
    else if 7 <= tag <= 9 then Some(AfterEscaped(bytes, i + 1))
    else None
  }

  /** Where the serialized row starts, for a scan that stands at `i`. */
  function PayloadStart(bytes: seq<Byte>, i: nat): (j: Option<nat>)
    ensures j.Some? ==> j.value <= |bytes|
    decreases |bytes| - i
  {
    if i >= |bytes| then None
    else if bytes[i] == 0 then
      if i + 1 < |bytes| && bytes[i + 1] == 0 then Some(i + 2) else None
    else
      match AfterValue(bytes, i)
      case None => None
      case Some(j) => PayloadStart(bytes, j)
  }

  function KeyRow(bytes: seq<Byte>, deserialize: seq<Byte> -> Option<Row>): Option<Row> {
    match PayloadStart(bytes, 0)
    case None => None
    case Some(j) => deserialize(bytes[j..])
  }

  method DecodeKey(bytes: seq<Byte>, deserialize: seq<Byte> -> Option<Row>) returns (row: Option<Row>)
    ensures row == KeyRow(bytes, deserialize)
  {
    var index := 0;
    while index < |bytes|
      invariant PayloadStart(bytes, index) == PayloadStart(bytes, 0)
    {
      var tag := bytes[index];
      if tag == 0 && index + 1 < |bytes| && bytes[index + 1] == 0 {
        return deserialize(bytes[index + 2..]);
      } else if tag == 1 {
        index := index + 1;
      } else if tag == 2 || tag == 4 {
        index := index + 2;
      } else if tag == 3 {
        index := index + 17;
      } else if tag == 5 || tag == 6 {
        index := index + 9;
      } else if 7 <= tag <= 9 {
        ghost var start := index;
        index := index + 1;
        while index < |bytes|
          invariant start < index <= |bytes|
          invariant AfterEscaped(bytes, index) == AfterEscaped(bytes, start + 1)
        {
          if bytes[index] == 0 && index + 1 < |bytes| && bytes[index + 1] == 0 {
            index := index + 2;
            break;
          } else if bytes[index] == 0 && index + 1 < |bytes| && bytes[index + 1] == 255 {
            index := index + 2;
          } else {
            index := index + 1;
          }
        }
        assert index == AfterEscaped(bytes, start + 1);
      } else {
        return None;
      }
    }
    return None;
  }

  lemma {:induction false} AfterEscapedStops(p: seq<Byte>, s: seq<Byte>, rest: seq<Byte>)
    ensures AfterEscaped(p + Escaped(s) + rest, |p|) == |p| + |Escaped(s)|
    decreases s
  {
    var bytes := p + Escaped(s) + rest;
    if s != [] {
      var q := p + EscapeByte(s[0]);
      assert bytes == q + Escaped(s[1..]) + rest;
      AfterEscapedStops(q, s[1..], rest);
      assert AfterEscaped(bytes, |p|) == AfterEscaped(bytes, |q|);
    }
  }

  lemma {:induction false} TaggedStops(p: seq<Byte>, tag: Byte, s: seq<Byte>, rest: seq<Byte>)
    ensures AfterEscaped(p + ([tag] + Escaped(s)) + rest, |p| + 1) == |p| + 1 + |Escaped(s)|
  {
    ConcatAssociative(p, [tag], Escaped(s));
    AfterEscapedStops(p + [tag], s, rest);
  }

  lemma {:induction false} AfterValueStops(p: seq<Byte>, v: Value, rest: seq<Byte>)
    ensures AfterValue(p + EncodeValue(v) + rest, |p|) == Some(|p| + |EncodeValue(v)|)
  {
    EncodeStartsWithTag(v);
    assert (p + EncodeValue(v) + rest)[|p|] == EncodeValue(v)[0];
    match v
    case Text(s) => TaggedStops(p, 7, s, rest);
    case Json(s) => TaggedStops(p, 8, s, rest);
    case Blob(s) => TaggedStops(p, 9, s, rest);
    case _ =>
  }

  lemma {:induction false} SeparatorIsFound(p: seq<Byte>, payload: seq<Byte>)
    ensures PayloadStart(p + [0, 0] + payload, |p|) == Some(|p| + 2)
  {
    assert (p + [0, 0] + payload)[|p|] == 0 && (p + [0, 0] + payload)[|p| + 1] == 0;
  }

  lemma {:induction false} ValueIsSkipped(p: seq<Byte>, first: seq<Byte>, rest: seq<Byte>)
    requires first != [] && first[0] != 0 && AfterValue(p + first + rest, |p|) == Some(|p| + |first|)
    ensures PayloadStart(p + first + rest, |p|) == PayloadStart(p + first + rest, |p| + |first|)
  {
    assert (p + first + rest)[|p|] == first[0];
  }

  lemma {:induction false} Regrouped(p: seq<Byte>, a: seq<Byte>, b: seq<Byte>, c: seq<Byte>, d: seq<Byte>)
    ensures p + (a + b) + c + d == p + a + (b + c + d) == p + a + b + c + d
  {
  }

  /** The tag-driven scan stops exactly at the separator: no zero pair inside a UUID, a number, a float or an
      escaped payload is taken for it. */
  lemma {:induction false} PayloadStartsAfterValues(p: seq<Byte>, row: Row, payload: seq<Byte>)
    ensures PayloadStart(p + EncodeValues(row) + [0, 0] + payload, |p|) == Some(|p| + |EncodeValues(row)| + 2)
    decreases row
  {
    if row == [] {
      assert p + EncodeValues(row) == p;
      SeparatorIsFound(p, payload);
    } else {
      var first, others := EncodeValue(row[0]), EncodeValues(row[1..]);
      Regrouped(p, first, others, [0, 0], payload);
      EncodeStartsWithTag(row[0]);
      AfterValueStops(p, row[0], others + [0, 0] + payload);
      ValueIsSkipped(p, first, others + [0, 0] + payload);
      PayloadStartsAfterValues(p + first, row[1..], payload);
    }
  }

  /** Decoding inverts encoding, for every row and every lossless serializer. */
  lemma {:induction false} KeyRoundTrip(row: Row, serialize: Row -> seq<Byte>, deserialize: seq<Byte> -> Option<Row>)
    requires deserialize(serialize(row)) == Some(row)
    ensures KeyRow(EncodeKey(row, serialize), deserialize) == Some(row)
  {
    var bytes := EncodeKey(row, serialize);
    PayloadStartsAfterValues([], row, serialize(row));
    assert [] + EncodeValues(row) + [0, 0] + serialize(row) == bytes;
    assert bytes[|EncodeValues(row)| + 2..] == serialize(row);
  }
}
