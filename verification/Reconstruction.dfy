// Rebuilding documents from stored entries: one document's fold, and the streaming loop that folds a key-ordered
// scan of many documents.
module Reconstruction {
  import opened Automerge
  import opened Bytes
  import opened DocumentKey
  import opened Wrappers

  // The 32-byte hashes of stored keys, symbolically: a change's own hash, the hash of a document's heads, and the
  // zeros of a metadata key.
  datatype EntryHash = OfChange(change: Change) | OfHeads(heads: set<Change>) | Zero

  datatype EntryKey = EntryKey(id: DocumentId, kind: DocumentType, hash: EntryHash)

  // Stored bytes by what they decode to: a set of changes, or a row's metadata record.
  datatype Blob = Changes(payload: set<Change>) | Meta(deleted: bool)

  datatype Entry = Entry(key: EntryKey, data: Blob)

  datatype DocState = DocState(doc: Option<Document>, deltas: nat)

  const EMPTY := DocState(None, 0)

  /** What applying one stored entry does to a document under reconstruction; None is an error. */
  ghost function ApplyEntry(state: DocState, kind: DocumentType, data: Blob): Option<DocState> {
    if kind.Metadata? then Some(DocState(None, state.deltas + 1))
    else if data.Meta? then None
    else if state.doc.Some? then
      Some(DocState(Some(Settle(state.doc.value.All() + data.payload)), state.deltas + 1))
    else if kind.Snapshot? then Some(DocState(Some(Settle(data.payload)), state.deltas + 1))
    else None
  }

  /** The fold over a document's entries; the first error stays. */
  ghost function Fold(run: seq<Entry>): Option<DocState> {
    if run == [] then Some(EMPTY)
    else
      var last := run[|run| - 1];
      match Fold(run[..|run| - 1])
      case None => None
      case Some(state) => ApplyEntry(state, last.key.kind, last.data)
  }

  class ReconstructedDocument {
    const id: DocumentId
    var doc: Option<Document>
    var deltas: nat

    ghost predicate Valid()
      reads this
    {
      doc.Some? ==> Settled(doc.value)
    }

    ghost function State(): DocState
      reads this
    {
      DocState(doc, deltas)
    }

    constructor (id: DocumentId)
      ensures Valid() && this.id == id && State() == EMPTY
    {
      this.id := id;
      doc := None;
      deltas := 0;
    }

    method Apply(key: EntryKey, data: Blob) returns (ok: bool)
      requires Valid()
      modifies this
      ensures Valid()
      ensures ok <==> ApplyEntry(old(State()), key.kind, data).Some?
      ensures State() == if ok then ApplyEntry(old(State()), key.kind, data).value else old(State())
    {
      if key.kind.Metadata? {
        doc := None;
        deltas := deltas + 1;
        return true;
      }
      if data.Meta? {
        return false;
      }
      if doc.Some? {
        var loaded := LoadIncremental(doc.value, data.payload);
        doc := Some(loaded);
      } else if key.kind.Snapshot? {
        var loaded := Load(data.payload);
        doc := Some(loaded);
      } else {
        return false;
      }
      deltas := deltas + 1;
      return true;
    }
  }

  // ---------------------------------------------------------------------------------------------
  // One document: the stored order does not matter
  // ---------------------------------------------------------------------------------------------

  /** Snapshots before incrementals before metadata: all that the key order promises within one id. */
  ghost predicate KindSorted(run: seq<Entry>) {
    forall i, j :: 0 <= i < j < |run| ==> run[i].key.kind.Rank() <= run[j].key.kind.Rank()
  }

  ghost predicate WellTyped(run: seq<Entry>) {
    forall e :: e in run ==> (e.key.kind.Metadata? <==> e.data.Meta?)
  }

  ghost function Payloads(run: seq<Entry>): set<Change> {
    set e, c | e in run && e.data.Changes? && c in e.data.payload :: c
  }

  lemma {:induction false} FoldSettles(run: seq<Entry>)
    requires run != [] && run[0].key.kind.Snapshot?
    requires WellTyped(run) && forall e :: e in run ==> !e.key.kind.Metadata?
    ensures Fold(run) == Some(DocState(Some(Settle(Payloads(run))), |run|))
  {
    var init, last := run[..|run| - 1], run[|run| - 1];
    assert run == init + [last];
    assert last in run;
    if init == [] {
      assert Payloads(run) == last.data.payload;
      assert Fold([]) == Some(EMPTY);
    } else {
      assert init[0] == run[0];
      FoldSettles(init);
      SettleKeepsAll(Payloads(init));
      assert Payloads(run) == Payloads(init) + last.data.payload;
    }
  }

  /** Entries in stored order fold to the document that holds every stored change whose history is stored too. A
      metadata record, sorting last, leaves no document; without a snapshot the first incremental is an error. */
  lemma {:induction false} FoldOfStoredOrder(run: seq<Entry>)
    requires run != [] && KindSorted(run) && WellTyped(run)
    ensures (exists e :: e in run && e.key.kind.Snapshot?) && (forall e :: e in run ==> !e.key.kind.Metadata?)
            ==> Fold(run) == Some(DocState(Some(Settle(Payloads(run))), |run|))
    ensures (exists e :: e in run && e.key.kind.Metadata?) && Fold(run).Some?
            ==> Fold(run).value.doc == None
    ensures Fold(run).None? <==> run[0].key.kind.Incremental?
  {
    var init, last := run[..|run| - 1], run[|run| - 1];
    assert run == init + [last];
    if run[0].key.kind.Snapshot? && !last.key.kind.Metadata? {
      FoldSettles(run);
    } else if |run| == 1 {
      assert Fold(init) == Some(EMPTY);
    } else {
      assert init[0] == run[0];
      FoldOfStoredOrder(init);
      if run[0].key.kind.Snapshot? || run[0].key.kind.Metadata? {
        assert last.key.kind.Metadata?;
      } else {
        assert Fold(init).None?;
      }
    }
  }

  /** Any two stored orders of the same entries, and so hash order and causal order, give the same document. */
  lemma {:induction false} ReconstructionIgnoresOrder(a: seq<Entry>, b: seq<Entry>)
    requires KindSorted(a) && KindSorted(b) && WellTyped(a)
    requires forall e :: e in a <==> e in b
    requires exists e :: e in a && e.key.kind.Snapshot?
    ensures Fold(a).Some? && Fold(b).Some? && Fold(a).value.doc == Fold(b).value.doc
  {
    FoldOfStoredOrder(a);
    FoldOfStoredOrder(b);
    assert Payloads(a) == Payloads(b);
    var e :| e in a && e.key.kind.Snapshot?;
    assert e in b;
    if m :| m in a && m.key.kind.Metadata? {
      assert m in b;
    }
  }

  // ---------------------------------------------------------------------------------------------
  // Many documents: the streaming loop
  // ---------------------------------------------------------------------------------------------

  // What the loop yields for a run of entries: the keys it read, and the document or an error. An error of the
  // source itself is yielded with no keys.
  datatype RangeDocument = RangeDocument(keys: seq<EntryKey>, result: Option<(DocumentId, DocState)>)

  const SOURCE_ERROR := RangeDocument([], None)

  ghost function Keys(run: seq<Entry>): seq<EntryKey> {
    if run == [] then [] else Keys(run[..|run| - 1]) + [run[|run| - 1].key]
  }

  ghost function Finished(run: seq<Entry>): RangeDocument
    requires run != []
  {
    RangeDocument(Keys(run), match Fold(run) case None => None case Some(state) => Some((run[0].key.id, state)))
  }

  class PendingDocument {
    const document: ReconstructedDocument
    var keys: seq<EntryKey>
    var failed: bool

    ghost predicate Valid()
      reads this, document
    {
      document.Valid()
    }

    /** The pending document has read exactly `run`. */
    ghost predicate Holds(run: seq<Entry>)
      reads this, document
    {
      && run != []
      && document.id == run[0].key.id
      && keys == Keys(run)
      && failed == Fold(run).None?
      && (!failed ==> document.State() == Fold(run).value)
    }

    constructor (key: EntryKey, data: Blob)
      ensures Valid() && fresh(document) && Holds([Entry(key, data)])
    {
      var created := new ReconstructedDocument(key.id);
      var ok := created.Apply(key, data);
      document := created;
      keys := [key];
      failed := !ok;
      new;
      var run := [Entry(key, data)];
      assert run[..0] == [];
      assert Fold([]) == Some(EMPTY) && Keys([]) == [];
    }

    method Apply(key: EntryKey, data: Blob, ghost run: seq<Entry>)
      requires Valid() && Holds(run)
      modifies this, document
      ensures Valid() && Holds(run + [Entry(key, data)])
    {
      keys := keys + [key];
      if !failed {
        var ok := document.Apply(key, data);
        failed := !ok;
      }
      assert (run + [Entry(key, data)])[..|run|] == run;
    }

    method Finish(ghost run: seq<Entry>) returns (result: RangeDocument)
      requires Valid() && Holds(run)
      ensures result == Finished(run)
    {
      result := RangeDocument(
        keys, if failed then None else Some((document.id, DocState(document.doc, document.deltas))));
    }
  }

  /** What the loop yields for the rest of a source, `run` being the entries it holds pending. */
  ghost function Yielded(source: seq<Option<Entry>>, run: seq<Entry>): seq<RangeDocument> {
    if source == [] then
      if run == [] then [] else [Finished(run)]
    else
      match source[0]
      case None => [SOURCE_ERROR] + Yielded(source[1..], run)
      case Some(entry) =>
        if run != [] && run[0].key.id != entry.key.id then [Finished(run)] + Yielded(source[1..], [entry])
        else Yielded(source[1..], run + [entry])
  }

  ghost function EmittedBy(item: Option<Entry>, run: seq<Entry>): seq<RangeDocument> {
    match item
    case None => [SOURCE_ERROR]
    case Some(entry) => if run != [] && run[0].key.id != entry.key.id then [Finished(run)] else []
  }

  ghost function PendingAfter(item: Option<Entry>, run: seq<Entry>): seq<Entry> {
    match item
    case None => run
    case Some(entry) => if run != [] && run[0].key.id != entry.key.id then [entry] else run + [entry]
  }

  ghost predicate PendingHolds(pending: PendingDocument?, run: seq<Entry>)
    reads pending, if pending == null then {} else {pending.document}
  {
    if pending == null then run == [] else pending.Valid() && pending.Holds(run)
  }

  /** One turn of the loop: finish the pending document when the id changes, then take the entry in. */
  method Feed(pending: PendingDocument?, item: Option<Entry>, ghost run: seq<Entry>)
    returns (emitted: seq<RangeDocument>, next: PendingDocument?)
    requires PendingHolds(pending, run)
    modifies pending, if pending == null then {} else {pending.document}
    ensures emitted == EmittedBy(item, run)
    ensures PendingHolds(next, PendingAfter(item, run))
    ensures next != null && next != pending ==> fresh(next) && fresh(next.document)
  {
    emitted, next := [], pending;
    match item {
      case None =>
        emitted := [SOURCE_ERROR];
      case Some(entry) =>
        if next != null && next.document.id != entry.key.id {
          var finished := next.Finish(run);
          emitted, next := [finished], null;
        }
        if next != null {
          next.Apply(entry.key, entry.data, run);
        } else {
          next := new PendingDocument(entry.key, entry.data);
          assert [] + [entry] == [entry];
        }
        assert Entry(entry.key, entry.data) == entry;
    }
  }

  /** The streaming loop: consecutive entries of one id are folded into one result. */
  method ReconstructDocuments(source: seq<Option<Entry>>) returns (out: seq<RangeDocument>)
    ensures out == Yielded(source, [])
  {
    out := [];
    var pending: PendingDocument? := null;
    ghost var run: seq<Entry> := [];
    for i := 0 to |source|
      invariant pending != null ==> fresh(pending) && fresh(pending.document)
      invariant PendingHolds(pending, run)
      invariant out + Yielded(source[i..], run) == Yielded(source, [])
    {
      var emitted, next := Feed(pending, source[i], run);
      YieldedStep(source[i..], run);
      assert source[i..][1..] == source[i + 1..];
      out, pending, run := out + emitted, next, PendingAfter(source[i], run);
    }
    if pending != null {
      var finished := pending.Finish(run);
      out := out + [finished];
    }
  }

  lemma {:induction false} YieldedStep(source: seq<Option<Entry>>, run: seq<Entry>)
    requires source != []
    ensures Yielded(source, run) == EmittedBy(source[0], run) + Yielded(source[1..], PendingAfter(source[0], run))
  {
    var rest := Yielded(source[1..], PendingAfter(source[0], run));
    match source[0] {
      case None => assert Yielded(source, run) == [SOURCE_ERROR] + rest;
      case Some(entry) =>
        if run != [] && run[0].key.id != entry.key.id {
          assert Yielded(source, run) == [Finished(run)] + rest;
        } else {
          assert Yielded(source, run) == rest == [] + rest;
        }
    }
  }

  // ---------------------------------------------------------------------------------------------
  // What the loop amounts to: group by id, then fold
  // ---------------------------------------------------------------------------------------------

  ghost function Entries(source: seq<Option<Entry>>): seq<Entry> {
    if source == [] then []
    else (match source[0] case None => [] case Some(entry) => [entry]) + Entries(source[1..])
  }

  ghost function AllKeys(out: seq<RangeDocument>): seq<EntryKey> {
    if out == [] then [] else out[0].keys + AllKeys(out[1..])
  }

  lemma {:induction false} KeysConcat(a: seq<Entry>, b: seq<Entry>)
    ensures Keys(a + b) == Keys(a) + Keys(b)
  {
    if b == [] {
      assert a + b == a;
    } else {
      var init := b[..|b| - 1];
      KeysConcat(a, init);
      assert (a + b)[..|a + b| - 1] == a + init;
      ConcatAssociative(Keys(a), Keys(init), [b[|b| - 1].key]);
    }
  }

  lemma {:induction false} AllKeysConcat(a: seq<RangeDocument>, b: seq<RangeDocument>)
    ensures AllKeys(a + b) == AllKeys(a) + AllKeys(b)
  {
    if a == [] {
      assert a + b == b;
    } else {
      AllKeysConcat(a[1..], b);
      assert (a + b)[0] == a[0] && (a + b)[1..] == a[1..] + b;
      ConcatAssociative(a[0].keys, AllKeys(a[1..]), AllKeys(b));
    }
  }

  /** The yielded key lists concatenate to the keys of the input, also when documents or the source itself fail. */
  lemma {:induction false} NoKeyIsLost(source: seq<Option<Entry>>, run: seq<Entry>)
    ensures AllKeys(Yielded(source, run)) == Keys(run) + Keys(Entries(source))
    decreases source
  {
    if source == [] {
      if run != [] { assert AllKeys([Finished(run)]) == Keys(run) + AllKeys([]); }
    } else {
      var item, rest := source[0], source[1..];
      NoKeyIsLost(rest, PendingAfter(item, run));
      YieldedStep(source, run);
      AllKeysConcat(EmittedBy(item, run), Yielded(rest, PendingAfter(item, run)));
      match item {
        case None =>
          assert AllKeys([SOURCE_ERROR]) == [] + AllKeys([]) == [];
          assert Entries(source) == [] + Entries(rest) == Entries(rest);
          assert AllKeys(Yielded(source, run)) == [] + AllKeys(Yielded(rest, run));
        case Some(entry) =>
          KeysConcat(run, [entry]);
          KeysConcat([entry], Entries(rest));
          if run != [] { assert AllKeys([Finished(run)]) == Keys(run) + AllKeys([]); }
      }
    }
  }

  ghost predicate IdSorted(run: seq<Entry>) {
    forall i, j :: 0 <= i < j < |run| ==> run[i].key.id == run[j].key.id || Less(run[i].key.id, run[j].key.id)
  }

  /** The entries of one id, in their order. */
  ghost function OfId(run: seq<Entry>, id: DocumentId): seq<Entry> {
    if run == [] then []
    else
      var before := OfId(run[..|run| - 1], id);
      if run[|run| - 1].key.id == id then before + [run[|run| - 1]] else before
  }

  /** The distinct ids in order of appearance. */
  ghost function Ids(run: seq<Entry>): seq<DocumentId> {
    if run == [] then []
    else
      var before := Ids(run[..|run| - 1]);
      if run[|run| - 1].key.id in before then before else before + [run[|run| - 1].key.id]
  }

  function Somes(run: seq<Entry>): seq<Option<Entry>> {
    seq(|run|, i requires 0 <= i < |run| => Some(run[i]))
  }

  lemma {:induction false} OfIdConcat(a: seq<Entry>, b: seq<Entry>, id: DocumentId)
    ensures OfId(a + b, id) == OfId(a, id) + OfId(b, id)
  {
    if b == [] {
      assert a + b == a;
    } else {
      OfIdConcat(a, b[..|b| - 1], id);
      assert (a + b)[..|a + b| - 1] == a + b[..|b| - 1];
      ConcatAssociative(OfId(a, id), OfId(b[..|b| - 1], id), [b[|b| - 1]]);
    }
  }

  lemma {:induction false} OfIdMembers(run: seq<Entry>, id: DocumentId)
    ensures (forall e :: e in run ==> e.key.id == id) ==> OfId(run, id) == run
    ensures (forall e :: e in run ==> e.key.id != id) ==> OfId(run, id) == []
    ensures forall e :: e in OfId(run, id) <==> e in run && e.key.id == id
  {
    if run != [] {
      assert run == run[..|run| - 1] + [run[|run| - 1]];
      OfIdMembers(run[..|run| - 1], id);
    }
  }

  lemma {:induction false} IdsMembers(run: seq<Entry>)
    ensures forall id :: id in Ids(run) <==> exists e :: e in run && e.key.id == id
  {
    if run != [] {
      var init, last := run[..|run| - 1], run[|run| - 1];
      assert run == init + [last];
      IdsMembers(init);
      assert last in run;
      forall id
        ensures id in Ids(run) <==> exists e :: e in run && e.key.id == id
      {
        if e :| e in init && e.key.id == id { assert e in run; }
      }
    }
  }

  lemma {:induction false} IdsOfOne(run: seq<Entry>, id: DocumentId)
    requires run != [] && forall e :: e in run ==> e.key.id == id
    ensures Ids(run) == [id]
  {
    var init, last := run[..|run| - 1], run[|run| - 1];
    assert run == init + [last];
    if init != [] {
      IdsOfOne(init, id);
    }
  }

  lemma {:induction false} IdsConcatDisjoint(a: seq<Entry>, b: seq<Entry>)
    requires forall e :: e in b ==> e.key.id !in Ids(a)
    ensures Ids(a + b) == Ids(a) + Ids(b)
  {
    if b == [] {
      assert a + b == a;
    } else {
      var init, last := b[..|b| - 1], b[|b| - 1];
      assert b == init + [last];
      IdsConcatDisjoint(a, init);
      assert (a + b)[..|a + b| - 1] == a + init;
      assert last in b;
    }
  }

  /** `out` holds one result per distinct id, in order, folded from all the entries of that id. */
  ghost predicate GroupedById(run: seq<Entry>, out: seq<RangeDocument>) {
    && |out| == |Ids(run)|
    && forall i :: 0 <= i < |out| ==> OfId(run, Ids(run)[i]) != [] && out[i] == Finished(OfId(run, Ids(run)[i]))
  }

  lemma {:induction false} StreamGroups(pending: seq<Entry>, rest: seq<Entry>)
    requires IdSorted(pending + rest)
    requires pending != [] && forall e :: e in pending ==> e.key.id == pending[0].key.id
    ensures GroupedById(pending + rest, Yielded(Somes(rest), pending))
    decreases rest
  {
    var id := pending[0].key.id;
    IdsOfOne(pending, id);
    if rest == [] {
      assert pending + rest == pending;
      OfIdMembers(pending, id);
    } else {
      var first, tail := rest[0], rest[1..];
      assert [first] + tail == rest;
      YieldedOne(first, tail, pending);
      if first.key.id == id {
        assert (pending + [first]) + tail == pending + rest;
        StreamGroups(pending + [first], tail);
      } else {
        SuffixSorted(pending, rest);
        StreamGroups([first], tail);
        LaterIdsAreNew(pending, rest);
        GroupsCons(pending, rest, Yielded(Somes(tail), [first]));
      }
    }
  }

  lemma {:induction false} YieldedOne(first: Entry, tail: seq<Entry>, pending: seq<Entry>)
    requires pending != []
    ensures Yielded(Somes([first] + tail), pending)
            == if first.key.id == pending[0].key.id then Yielded(Somes(tail), pending + [first])
               else [Finished(pending)] + Yielded(Somes(tail), [first])
  {
    assert Somes([first] + tail)[0] == Some(first) && Somes([first] + tail)[1..] == Somes(tail);
  }

  lemma {:induction false} SuffixSorted(a: seq<Entry>, b: seq<Entry>)
    requires IdSorted(a + b)
    ensures IdSorted(b)
  {
    forall i, j | 0 <= i < j < |b|
      ensures b[i].key.id == b[j].key.id || Less(b[i].key.id, b[j].key.id)
    {
      assert (a + b)[|a| + i] == b[i] && (a + b)[|a| + j] == b[j];
    }
  }

  lemma {:induction false} GroupsCons(pending: seq<Entry>, rest: seq<Entry>, out: seq<RangeDocument>)
    requires pending != [] && forall e :: e in pending ==> e.key.id == pending[0].key.id
    requires forall e :: e in rest ==> e.key.id != pending[0].key.id && e.key.id !in Ids(pending)
    requires GroupedById(rest, out)
    ensures GroupedById(pending + rest, [Finished(pending)] + out)
  {
    var id, all, result := pending[0].key.id, pending + rest, [Finished(pending)] + out;
    IdsCons(pending, rest);
    OnlyPendingHasId(pending, rest, id);
    assert Ids(all)[0] == id && result[0] == Finished(pending);
    forall i | 1 <= i < |result|
      ensures OfId(all, Ids(all)[i]) != [] && result[i] == Finished(OfId(all, Ids(all)[i]))
    {
      assert Ids(all)[i] == Ids(rest)[i - 1] && result[i] == out[i - 1];
      OtherIdUnchanged(pending, rest, Ids(rest)[i - 1]);
    }
  }

  lemma {:induction false} IdsCons(pending: seq<Entry>, rest: seq<Entry>)
    requires pending != [] && forall e :: e in pending ==> e.key.id == pending[0].key.id
    requires forall e :: e in rest ==> e.key.id != pending[0].key.id && e.key.id !in Ids(pending)
    ensures Ids(pending + rest) == [pending[0].key.id] + Ids(rest)
  {
    IdsOfOne(pending, pending[0].key.id);
    IdsConcatDisjoint(pending, rest);
  }

  lemma {:induction false} OnlyPendingHasId(pending: seq<Entry>, rest: seq<Entry>, id: DocumentId)
    requires forall e :: e in pending ==> e.key.id == id
    requires forall e :: e in rest ==> e.key.id != id
    ensures OfId(pending + rest, id) == pending
  {
    OfIdConcat(pending, rest, id);
    OfIdMembers(pending, id);
    OfIdMembers(rest, id);
  }

  lemma {:induction false} OtherIdUnchanged(pending: seq<Entry>, rest: seq<Entry>, later: DocumentId)
    requires later in Ids(rest)
    requires forall e :: e in rest ==> e.key.id !in Ids(pending)
    ensures OfId(pending + rest, later) == OfId(rest, later)
  {
    IdsMembers(rest);
    IdsMembers(pending);
    OfIdConcat(pending, rest, later);
    OfIdMembers(pending, later);
  }

  lemma {:induction false} LaterIdsAreNew(pending: seq<Entry>, rest: seq<Entry>)
    requires IdSorted(pending + rest) && rest != []
    requires pending != [] && forall e :: e in pending ==> e.key.id == pending[0].key.id
    requires rest[0].key.id != pending[0].key.id
    ensures forall e :: e in rest ==> e.key.id != pending[0].key.id
    ensures forall e :: e in rest ==> e.key.id !in Ids(pending)
  {
    var all := pending + rest;
    IdsMembers(pending);
    forall e | e in rest
      ensures e.key.id != pending[0].key.id
    {
      var k :| 0 <= k < |rest| && rest[k] == e;
      assert all[0] == pending[0] && all[|pending|] == rest[0] && all[|pending| + k] == e;
      assert Less(pending[0].key.id, rest[0].key.id);
      if k > 0 && e.key.id != rest[0].key.id {
        LessTransitive(pending[0].key.id, rest[0].key.id, e.key.id);
      }
      LessIrreflexive(e.key.id);
    }
  }

  /** On key-sorted input the streaming loop is group-by-id followed by a fold of each group: one result per id,
      the ids strictly increasing. */
  lemma {:induction false} StreamIsGroupThenFold(run: seq<Entry>)
    requires IdSorted(run)
    ensures GroupedById(run, Yielded(Somes(run), []))
    ensures forall i, j :: 0 <= i < j < |Ids(run)| ==> Less(Ids(run)[i], Ids(run)[j])
  {
    IdsIncrease(run);
    if run != [] {
      var first, tail := run[0], run[1..];
      assert [first] + tail == run && [] + [first] == [first];
      assert Somes(run)[1..] == Somes(tail);
      StreamGroups([first], tail);
    }
  }

  lemma {:induction false} IdsIncrease(run: seq<Entry>)
    requires IdSorted(run)
    ensures forall i, j :: 0 <= i < j < |Ids(run)| ==> Less(Ids(run)[i], Ids(run)[j])
  {
    if run != [] {
      var init, last := run[..|run| - 1], run[|run| - 1];
      assert run == init + [last];
      IdsIncrease(init);
      if last.key.id !in Ids(init) {
        forall i | 0 <= i < |Ids(init)|
          ensures Less(Ids(init)[i], last.key.id)
        {
          EarlierIdIsLess(init, last, Ids(init)[i]);
        }
      }
    }
  }

  lemma {:induction false} EarlierIdIsLess(init: seq<Entry>, last: Entry, id: DocumentId)
    requires IdSorted(init + [last]) && id in Ids(init) && last.key.id !in Ids(init)
    ensures Less(id, last.key.id)
  {
    IdsMembers(init);
    var e :| e in init && e.key.id == id;
    var k :| 0 <= k < |init| && init[k] == e;
    assert (init + [last])[k] == e && (init + [last])[|init|] == last;
  }
}
