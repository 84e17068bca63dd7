// The ordered key of a stored document entry (document id, entry type, change hash), its byte codec, and the
// ranges of encoded keys that select documents.
module DocumentKey {
  import opened Bytes
  import opened Wrappers

  type DocumentId = seq<Byte>
  type ChangeHash = h: seq<Byte> | |h| == 32 witness seq(32, _ => 0)

  datatype DocumentType = Snapshot | Incremental | Metadata
  {
    function Rank(): Byte {
      match this
      case Snapshot => 0
      case Incremental => 1
      case Metadata => 2
    }
  }

  datatype Key = Key(id: DocumentId, kind: DocumentType, hash: ChangeHash)

  /** `cmp` answers Less: by id, then type, then hash. */
  ghost predicate KeyBelow(a: Key, b: Key) {
    || Less(a.id, b.id)
    || (a.id == b.id && a.kind.Rank() < b.kind.Rank())
    || (a.id == b.id && a.kind == b.kind && Less(a.hash, b.hash))
  }

  function Encode(key: Key): seq<Byte> {
    Escaped(key.id) + [key.kind.Rank()] + key.hash
  }

  method EncodeOrdered(key: Key) returns (bytes: seq<Byte>)
    ensures bytes == Encode(key)
  {
    bytes := [];
    for i := 0 to |key.id|
      invariant bytes == Escape(key.id[..i])
    {
      assert key.id[..i + 1] == key.id[..i] + [key.id[i]];
      EscapeConcat(key.id[..i], [key.id[i]]);
      if key.id[i] == 0 {
        bytes := bytes + [0, 255];
      } else {
        bytes := bytes + [key.id[i]];
      }
    }
    assert key.id[..|key.id|] == key.id;
    bytes := bytes + [0, 0, key.kind.Rank()];
    bytes := bytes + key.hash;
  }

  // ---------------------------------------------------------------------------------------------
  // Order
  // ---------------------------------------------------------------------------------------------

  lemma {:induction false} KeyBelowTotal(a: Key, b: Key)
    ensures a == b || KeyBelow(a, b) || KeyBelow(b, a)
  {
    LessTotal(a.id, b.id);
    LessTotal(a.hash, b.hash);
  }

  lemma {:induction false} EncodeDiverges(a: Key, b: Key)
    requires KeyBelow(a, b)
    ensures Diverges(Encode(a), Encode(b))
  {
    if Less(a.id, b.id) {
      EscapedDiverges(a.id, b.id);
      DivergesAppend([], Escaped(a.id), Escaped(b.id), [a.kind.Rank()] + a.hash, [b.kind.Rank()] + b.hash);
      assert [] + Escaped(a.id) + ([a.kind.Rank()] + a.hash) == Encode(a);
      assert [] + Escaped(b.id) + ([b.kind.Rank()] + b.hash) == Encode(b);
    } else if a.kind != b.kind {
      assert DivergesAt([a.kind.Rank()], [b.kind.Rank()], 0);
      DivergesAppend(Escaped(a.id), [a.kind.Rank()], [b.kind.Rank()], a.hash, b.hash);
    } else {
      LessSameLength(a.hash, b.hash);
      DivergesAppend(Escaped(a.id) + [a.kind.Rank()], a.hash, b.hash, [], []);
      assert Escaped(a.id) + [a.kind.Rank()] + a.hash + [] == Encode(a);
      assert Escaped(b.id) + [b.kind.Rank()] + b.hash + [] == Encode(b);
    }
  }

  /** Byte order of encoded keys is key order, both ways, for ids of any length holding any bytes. */
  lemma {:induction false} KeyOrderIsByteOrder(a: Key, b: Key)
    ensures KeyBelow(a, b) <==> Less(Encode(a), Encode(b))
    ensures a == b <==> Encode(a) == Encode(b)
  {
    KeyBelowTotal(a, b);
    LessIrreflexive(Encode(a));
    if KeyBelow(a, b) {
      EncodeDiverges(a, b);
    } else if KeyBelow(b, a) {
      EncodeDiverges(b, a);
      LessAsymmetric(Encode(b), Encode(a));
    }
  }

  // ---------------------------------------------------------------------------------------------
  // Decoding
  // ---------------------------------------------------------------------------------------------

  datatype DecodedId = DecodedId(id: DocumentId, next: nat)

  /** The id read from position `i` on, and the position behind its terminator. A zero byte that is followed by
      neither 0 nor 255 is taken as it stands. */
  function DecodeId(bytes: seq<Byte>, i: nat): (r: Option<DecodedId>)
    ensures r.Some? ==> i < r.value.next <= |bytes|
    decreases |bytes| - i
  {
    if i >= |bytes| then None
    else if bytes[i] == 0 && i + 1 < |bytes| && bytes[i + 1] == 0 then Some(DecodedId([], i + 2))
    else
      var step := if bytes[i] == 0 && i + 1 < |bytes| && bytes[i + 1] == 255 then 2 else 1;
      match DecodeId(bytes, i + step)
      case None => None
      case Some(rest) => Some(DecodedId([bytes[i]] + rest.id, rest.next))
  }

  function DecodeTail(bytes: seq<Byte>, id: DocumentId, next: nat): Option<Key>
    requires next <= |bytes|
  {
    if next == |bytes| || bytes[next] > 2 || |bytes[next + 1..]| != 32 then None
    else
      var kind := if bytes[next] == 0 then Snapshot else if bytes[next] == 1 then Incremental else Metadata;
      Some(Key(id, kind, bytes[next + 1..]))
  }

  function Decode(bytes: seq<Byte>): Option<Key> {
    match DecodeId(bytes, 0)
    case None => None
    case Some(d) => DecodeTail(bytes, d.id, d.next)
  }

  /** A decoder that stands at `index` with `id` read so far will read what one at the start reads. */
  ghost predicate Resumes(bytes: seq<Byte>, id: DocumentId, index: nat) {
    DecodeId(bytes, 0) ==
      match DecodeId(bytes, index)
      case None => None
      case Some(d) => Some(DecodedId(id + d.id, d.next))
  }

  lemma {:induction false} ResumesAfterByte(bytes: seq<Byte>, id: DocumentId, index: nat, step: nat)
    requires index < |bytes| && Resumes(bytes, id, index)
    requires !(bytes[index] == 0 && index + 1 < |bytes| && bytes[index + 1] == 0)
    requires step == if bytes[index] == 0 && index + 1 < |bytes| && bytes[index + 1] == 255 then 2 else 1
    ensures Resumes(bytes, id + [bytes[index]], index + step)
  {
    var rest := DecodeId(bytes, index + step);
    if rest.Some? {
      assert id + ([bytes[index]] + rest.value.id) == (id + [bytes[index]]) + rest.value.id;
    }
  }

  method DecodeOrdered(bytes: seq<Byte>) returns (key: Option<Key>)
    ensures key == Decode(bytes)
  {
    var id: seq<Byte> := [];
    var index := 0;
    assert DecodeId(bytes, 0).Some? ==> [] + DecodeId(bytes, 0).value.id == DecodeId(bytes, 0).value.id;
    while !(index + 1 < |bytes| && bytes[index] == 0 && bytes[index + 1] == 0)
      invariant index <= |bytes|
      invariant Resumes(bytes, id, index)
      decreases |bytes| - index
    {
      if index == |bytes| {
        return None;
      } else if index + 1 < |bytes| && bytes[index] == 0 && bytes[index + 1] == 255 {
        ResumesAfterByte(bytes, id, index, 2);
        id := id + [0];
        index := index + 2;
      } else {
        ResumesAfterByte(bytes, id, index, 1);
        id := id + [bytes[index]];
        index := index + 1;
      }
    }
    index := index + 2;
    assert DecodeId(bytes, 0) == Some(DecodedId(id, index)) by {
      assert id + [] == id;
    }
    if index == |bytes| || bytes[index] > 2 || |bytes[index + 1..]| != 32 {
      return None;
    }
    var kind := if bytes[index] == 0 then Snapshot else if bytes[index] == 1 then Incremental else Metadata;
    return Some(Key(id, kind, bytes[index + 1..]));
  }

  lemma {:induction false} DecodeIdInverts(p: seq<Byte>, id: DocumentId, rest: seq<Byte>)
    ensures DecodeId(p + Escaped(id) + rest, |p|) == Some(DecodedId(id, |p| + |Escaped(id)|))
    decreases id
  {
    var bytes := p + Escaped(id) + rest;
    if id != [] {
      var q := p + EscapeByte(id[0]);
      assert bytes == q + Escaped(id[1..]) + rest;
      DecodeIdInverts(q, id[1..], rest);
      assert id == [id[0]] + id[1..];
    }
  }

  /** Decoding inverts encoding. */
  lemma {:induction false} DecodeInvertsEncode(key: Key)
    ensures Decode(Encode(key)) == Some(key)
  {
    var bytes := Encode(key);
    var next := |Escaped(key.id)|;
    assert [] + Escaped(key.id) + ([key.kind.Rank()] + key.hash) == bytes;
    DecodeIdInverts([], key.id, [key.kind.Rank()] + key.hash);
    assert bytes[next] == key.kind.Rank();
    assert bytes[next + 1..] == key.hash;
  }

  /** No zero byte of the id part stands before anything but 0 or 255. */
  ghost predicate WellEscaped(bytes: seq<Byte>, from: nat, next: nat)
    requires next <= |bytes|
  {
    forall i :: from <= i < next - 1 && bytes[i] == 0 ==> bytes[i + 1] == 0 || bytes[i + 1] == 255
  }

  /** A byte that is no zero, and a zero that is escaped, are passed over. */
  lemma {:induction false} SkipsEscaped(bytes: seq<Byte>, i: nat, step: nat, next: nat)
    requires i + step < next <= |bytes|
    requires (step == 1 && bytes[i] != 0) || (step == 2 && bytes[i] == 0 && bytes[i + 1] == 255)
    ensures WellEscaped(bytes, i, next) <==> WellEscaped(bytes, i + step, next)
  {
  }

  lemma {:induction false} SamePrefix(prefix: seq<Byte>, a: seq<Byte>, b: seq<Byte>)
    ensures prefix + a == prefix + b <==> a == b
  {
    assert (prefix + a)[|prefix|..] == a && (prefix + b)[|prefix|..] == b;
  }

  lemma {:induction false} DecodeIdCanonical(bytes: seq<Byte>, i: nat)
    requires DecodeId(bytes, i).Some?
    ensures var d := DecodeId(bytes, i).value; Escaped(d.id) == bytes[i..d.next] <==> WellEscaped(bytes, i, d.next)
    decreases |bytes| - i
  {
    var d := DecodeId(bytes, i).value;
    if bytes[i] == 0 && i + 1 < |bytes| && bytes[i + 1] == 0 {
      assert bytes[i..d.next] == [0, 0];
    } else {
      var step := if bytes[i] == 0 && i + 1 < |bytes| && bytes[i + 1] == 255 then 2 else 1;
      var rest := DecodeId(bytes, i + step).value;
      DecodeIdCanonical(bytes, i + step);
      assert d.id == [bytes[i]] + rest.id;
      OneByteCanonical(bytes, i, step, rest, d.next);
    }
  }

  /** One byte of an id, escaped as it stands or a lone zero, and the rest of it. */
  lemma {:induction false} OneByteCanonical(bytes: seq<Byte>, i: nat, step: nat, rest: DecodedId, next: nat)
    requires 1 <= step && i + step < next <= |bytes| && !(bytes[i] == 0 && bytes[i + 1] == 0)
    requires step == if bytes[i] == 0 && bytes[i + 1] == 255 then 2 else 1
    requires Escaped(rest.id) == bytes[i + step..next] <==> WellEscaped(bytes, i + step, next)
    ensures Escaped([bytes[i]] + rest.id) == bytes[i..next] <==> WellEscaped(bytes, i, next)
  {
    assert Escaped([bytes[i]] + rest.id) == EscapeByte(bytes[i]) + Escaped(rest.id);
    if bytes[i] != 0 || step == 2 {
      SkipsEscaped(bytes, i, step, next);
      assert bytes[i..i + step] == EscapeByte(bytes[i]);
      assert bytes[i..next] == bytes[i..i + step] + bytes[i + step..next];
      SamePrefix(EscapeByte(bytes[i]), Escaped(rest.id), bytes[i + step..next]);
    } else {
      assert Escaped([bytes[i]] + rest.id)[1] == 255 && bytes[i..next][1] == bytes[i + 1];
    }
  }

  /** Encoding inverts decoding exactly on the well-escaped byte strings. */
  lemma {:induction false} EncodeInvertsDecode(bytes: seq<Byte>)
    requires Decode(bytes).Some?
    ensures Encode(Decode(bytes).value) == bytes <==> WellEscaped(bytes, 0, DecodeId(bytes, 0).value.next)
  {
    var d := DecodeId(bytes, 0).value;
    DecodeIdCanonical(bytes, 0);
    var key := Decode(bytes).value;
    assert bytes == bytes[..d.next] + [bytes[d.next]] + bytes[d.next + 1..];
    assert bytes[0..d.next] == bytes[..d.next];
    if Encode(key) == bytes {
      assert |Escaped(d.id)| == d.next;
      assert Encode(key)[..d.next] == Escaped(d.id);
    }
  }

  /** There are decodable strings that no key encodes to. */
  lemma {:induction false} DecodeAcceptsLoneZero()
    ensures var bytes := [0, 1, 0, 0, 0] + seq(32, _ => 0);
            Decode(bytes).Some? && Encode(Decode(bytes).value) != bytes
  {
    var bytes: seq<Byte> := [0, 1, 0, 0, 0] + seq(32, _ => 0);
    assert DecodeId(bytes, 2) == Some(DecodedId([], 4));
    assert DecodeId(bytes, 1) == Some(DecodedId([1], 4)) by { assert [1] + [] == [1]; }
    assert DecodeId(bytes, 0) == Some(DecodedId([0, 1], 4)) by { assert [0] + [1] == [0, 1]; }
    EncodeInvertsDecode(bytes);
  }

  // ---------------------------------------------------------------------------------------------
  // Ranges
  // ---------------------------------------------------------------------------------------------

  datatype Bound<+T> = Included(bound: T) | Excluded(bound: T) | Unbounded

  datatype Bounds<+T> = Bounds(start: Bound<T>, end: Bound<T>)

  function Fill(b: Byte): ChangeHash { seq(32, _ => b) }

  const ZERO_HASH: ChangeHash := Fill(0)
  const FULL_HASH: ChangeHash := Fill(255)

  function MinForId(id: DocumentId): Key { Key(id, Snapshot, ZERO_HASH) }

  function MaxForId(id: DocumentId): Key { Key(id, Metadata, FULL_HASH) }

  function RangeFor(id: DocumentId): Bounds<Key> {
    Bounds(Included(MinForId(id)), Included(MaxForId(id)))
  }

  function MapDocumentIdRange(range: Bounds<DocumentId>): Bounds<Key> {
    Bounds(
      match range.start
      case Included(id) => Included(MinForId(id))
      case Excluded(id) => Excluded(MaxForId(id))
      case Unbounded => Unbounded,
      match range.end
      case Included(id) => Included(MaxForId(id))
      case Excluded(id) => Excluded(MinForId(id))
      case Unbounded => Unbounded)
  }

  function EncodeBound(bound: Bound<Key>): Bound<seq<Byte>> {
    match bound
    case Included(key) => Included(Encode(key))
    case Excluded(key) => Excluded(Encode(key))
    case Unbounded => Unbounded
  }

  function EncodeBounds(range: Bounds<Key>): Bounds<seq<Byte>> {
    Bounds(EncodeBound(range.start), EncodeBound(range.end))
  }

  /** The range test of the byte table, and of ordered maps over byte strings generally. */
  predicate Contains(range: Bounds<seq<Byte>>, key: seq<Byte>) {
    && (match range.start
        case Included(start) => !Less(key, start)
        case Excluded(start) => Less(start, key)
        case Unbounded => true)
    && (match range.end
        case Included(end) => !Less(end, key)
        case Excluded(end) => Less(key, end)
        case Unbounded => true)
  }

  // ---------------------------------------------------------------------------------------------
  // What the ends of a range mean
  // ---------------------------------------------------------------------------------------------

  /** An excluded end is outside; including it adds just that key. */
  lemma {:induction false} ExcludedEnds(at: seq<Byte>, other: Bound<seq<Byte>>, key: seq<Byte>)
    ensures !Contains(Bounds(Excluded(at), other), at) && !Contains(Bounds(other, Excluded(at)), at)
    ensures key != at ==>
              && (Contains(Bounds(Excluded(at), other), key) <==> Contains(Bounds(Included(at), other), key))
              && (Contains(Bounds(other, Excluded(at)), key) <==> Contains(Bounds(other, Included(at)), key))
    ensures Contains(Bounds(Included(at), Included(at)), at)
  {
    LessIrreflexive(at);
    LessTotal(at, key);
    if Less(at, key) { LessAsymmetric(at, key); }
    if Less(key, at) { LessAsymmetric(key, at); }
  }

  /** Below a key and from it on are everything, and nothing twice. */
  lemma {:induction false} RangesPartition(at: seq<Byte>, key: seq<Byte>)
    ensures Contains(Bounds(Unbounded, Excluded(at)), key) <==> !Contains(Bounds(Included(at), Unbounded), key)
    ensures Contains(Bounds(Unbounded, Included(at)), key) <==> !Contains(Bounds(Excluded(at), Unbounded), key)
    ensures Less(key, at) ==> Contains(Bounds(Unbounded, Excluded(at)), key)
    ensures Contains(Bounds(Unbounded, Unbounded), key)
  {
    LessTotal(at, key);
    if Less(at, key) { LessAsymmetric(at, key); }
    if Less(key, at) { LessAsymmetric(key, at); }
  }

  /** A range is what lies above its start and below its end. */
  lemma {:induction false} RangeIsBothEnds(range: Bounds<seq<Byte>>, key: seq<Byte>)
    ensures Contains(range, key) <==>
            Contains(Bounds(range.start, Unbounded), key) && Contains(Bounds(Unbounded, range.end), key)
  {
  }

  /** The encoded range for ids after, or before, an id has no key of that id. */
  lemma {:induction false} ExcludedIdHasNoKey(id: DocumentId, other: Bound<DocumentId>, key: Key)
    requires key.id == id
    ensures !Contains(EncodeBounds(MapDocumentIdRange(Bounds(Excluded(id), other))), Encode(key))
    ensures !Contains(EncodeBounds(MapDocumentIdRange(Bounds(other, Excluded(id)))), Encode(key))
  {
    EncodedRangeIsIdRange(Bounds(Excluded(id), other), key);
    EncodedRangeIsIdRange(Bounds(other, Excluded(id)), key);
    ExcludedEnds(id, other, id);
  }

  lemma {:induction false} KeysOfIdBetween(key: Key)
    ensures !KeyBelow(key, MinForId(key.id))
    ensures !KeyBelow(MaxForId(key.id), key)
    ensures Encode(key) != Encode(MinForId(key.id)) ==> KeyBelow(MinForId(key.id), key)
  {
    LessIrreflexive(key.id);
    KeyOrderIsByteOrder(key, MinForId(key.id));
    KeyBelowTotal(key, MinForId(key.id));
  }

  /** Against the encoded minimal and maximal key of an id, every other key compares as its id does. */
  lemma {:induction false} EncodedIdBounds(key: Key, id: DocumentId)
    ensures Less(Encode(key), Encode(MinForId(id))) <==> Less(key.id, id)
    ensures Less(Encode(MaxForId(id)), Encode(key)) <==> Less(id, key.id)
  {
    KeyOrderIsByteOrder(key, MinForId(id));
    KeyOrderIsByteOrder(MaxForId(id), key);
    KeysOfIdBetween(key);
    if key.id != id {
      LessTotal(key.id, id);
      if Less(key.id, id) { LessAsymmetric(key.id, id); } else { LessAsymmetric(id, key.id); }
    } else {
      LessIrreflexive(id);
    }
  }

  /** Scanning the encoded bounds of a document-id range selects exactly the entries whose id lies in the range,
      for every combination of included, excluded and open ends. */
  lemma {:induction false} EncodedRangeIsIdRange(range: Bounds<DocumentId>, key: Key)
    ensures Contains(EncodeBounds(MapDocumentIdRange(range)), Encode(key)) <==> Contains(range, key.id)
  {
    if !range.start.Unbounded? { EncodedIdBounds(key, range.start.bound); }
    if !range.end.Unbounded? { EncodedIdBounds(key, range.end.bound); }
  }

  lemma {:induction false} EncodedRangeForIsOneId(id: DocumentId, key: Key)
    ensures Contains(EncodeBounds(RangeFor(id)), Encode(key)) <==> key.id == id
  {
    EncodedIdBounds(key, id);
    LessTotal(key.id, id);
    LessIrreflexive(id);
  }

  // ---------------------------------------------------------------------------------------------
  // The range scan of a change store: filter the byte table by the encoded bounds, then decode
  // ---------------------------------------------------------------------------------------------

  /** The entries, in their order, whose document id lies in the range. */
  ghost function Selected<V>(entries: seq<(Key, V)>, range: Bounds<DocumentId>): seq<(Key, V)> {
    if entries == [] then []
    else
      var before := Selected(entries[..|entries| - 1], range);
      var last := entries[|entries| - 1];
      if Contains(range, last.0.id) then before + [last] else before
  }

  /** A range scan over a table of encoded keys returns the entries whose id lies in the range; a key inside the
      encoded bounds that does not decode ends the scan with an error. */
  method RangeScan<V>(table: seq<(seq<Byte>, V)>, range: Bounds<DocumentId>, ghost entries: seq<(Key, V)>)
    returns (found: Option<seq<(Key, V)>>)
    requires |entries| == |table|
    requires forall i :: 0 <= i < |table| ==> table[i] == (Encode(entries[i].0), entries[i].1)
    ensures found == Some(Selected(entries, range))
  {
    var bounds := EncodeBounds(MapDocumentIdRange(range));
    var result: seq<(Key, V)> := [];
    for i := 0 to |table|
      invariant result == Selected(entries[..i], range)
    {
      EncodedRangeIsIdRange(range, entries[i].0);
      DecodeInvertsEncode(entries[i].0);
      assert entries[..i + 1][..i] == entries[..i];
      if Contains(bounds, table[i].0) {
        var key := DecodeOrdered(table[i].0);
        if key == None {
          return None;
        }
        result := result + [(key.value, table[i].1)];
      }
    }
    assert entries[..|table|] == entries;
    return Some(result);
  }
}
