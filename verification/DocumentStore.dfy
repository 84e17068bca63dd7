// Documents over a key-ordered table of entries: lookup, removal, snapshots, ranges and compaction.
module DocumentStore {
  import opened Automerge
  import opened Bytes
  import opened DocumentKey
  import opened Reconstruction
  import opened Wrappers

  type Table = map<EntryKey, Blob>

  ghost predicate TypedTable(entries: Table) {
    forall k :: k in entries ==> (k.kind.Metadata? <==> entries[k].Meta?)
  }

  ghost predicate Has(entries: Table, id: DocumentId, kind: DocumentType) {
    exists k :: k in entries && k.id == id && k.kind == kind
  }

  /** Every change stored under an id. */
  ghost function Stored(entries: Table, id: DocumentId): set<Change> {
    set k, c | k in entries && k.id == id && entries[k].Changes? && c in entries[k].payload :: c
  }

  /** The document stored under an id: None is a reconstruction error, Some(None) no document. */
  ghost function Lookup(entries: Table, id: DocumentId): Option<Option<Document>> {
    if Has(entries, id, Incremental) && !Has(entries, id, Snapshot) then None
    else if Has(entries, id, Metadata) || !Has(entries, id, Snapshot) then Some(None)
    else Some(Some(Settle(Stored(entries, id))))
  }

  // ---------------------------------------------------------------------------------------------
  // Scans
  // ---------------------------------------------------------------------------------------------

  /** The part of the key order that does not depend on hash values: by id, then by type. */
  predicate Before(a: EntryKey, b: EntryKey) {
    Less(a.id, b.id) || (a.id == b.id && a.kind.Rank() < b.kind.Rank())
  }

  ghost predicate InKeyOrder(run: seq<Entry>) {
    forall i, j :: 0 <= i < j < |run| ==> !Before(run[j].key, run[i].key)
  }

  /** A scan of an id range: every entry of the table in range, once, in key order. */
  ghost predicate Scans(run: seq<Entry>, entries: Table, range: Bounds<DocumentId>) {
    && InKeyOrder(run)
    && (forall e :: e in run ==> e.key in entries && entries[e.key] == e.data && Contains(range, e.key.id))
    && (forall k :: k in entries && Contains(range, k.id) ==> Entry(k, entries[k]) in run)
  }

  lemma {:induction false} FirstKeyExists(keys: set<EntryKey>) returns (first: EntryKey)
    requires keys != {}
    ensures first in keys && forall k :: k in keys ==> !Before(k, first)
  {
    var k :| k in keys;
    LessIrreflexive(k.id);
    if keys == {k} {
      first := k;
    } else {
      var other := FirstKeyExists(keys - {k});
      first := if Before(k, other) then k else other;
      if Before(k, other) {
        forall m | m in keys
          ensures !Before(m, first)
        {
          if m != k && Before(m, k) { BeforeTransitive(m, k, other); }
        }
      }
    }
  }

  lemma {:induction false} BeforeTransitive(a: EntryKey, b: EntryKey, c: EntryKey)
    requires Before(a, b) && Before(b, c)
    ensures Before(a, c)
  {
    if Less(a.id, b.id) && Less(b.id, c.id) { LessTransitive(a.id, b.id, c.id); }
  }

  lemma {:induction false} InOrderSortsIdsAndKinds(run: seq<Entry>)
    requires InKeyOrder(run)
    ensures IdSorted(run)
    ensures (forall i, j :: 0 <= i < |run| && 0 <= j < |run| ==> run[i].key.id == run[j].key.id) ==> KindSorted(run)
  {
    forall i, j | 0 <= i < j < |run|
      ensures run[i].key.id == run[j].key.id || Less(run[i].key.id, run[j].key.id)
    {
      LessTotal(run[i].key.id, run[j].key.id);
    }
  }

  lemma {:induction false} OneIdRange(id: DocumentId, other: DocumentId)
    ensures Contains(Bounds(Included(id), Included(id)), other) <==> other == id
  {
    LessIrreflexive(id);
    LessTotal(id, other);
  }

  /** The fold of a scan of one id is the document stored there. */
  lemma {:induction false} FoldOfScan(run: seq<Entry>, entries: Table, id: DocumentId)
    requires TypedTable(entries) && run != []
    requires InKeyOrder(run) && forall e :: e in run <==> e.key in entries && e.key.id == id && entries[e.key] == e.data
    ensures Lookup(entries, id) == match Fold(run) case None => None case Some(state) => Some(state.doc)
  {
    InOrderSortsIdsAndKinds(run);
    FoldOfStoredOrder(run);
    var first := run[0];
    assert Payloads(run) == Stored(entries, id) by {
      forall c | c in Stored(entries, id)
        ensures c in Payloads(run)
      {
        var k :| k in entries && k.id == id && entries[k].Changes? && c in entries[k].payload;
        assert Entry(k, entries[k]) in run;
      }
    }
    forall kind: DocumentType
      ensures Has(entries, id, kind) <==> exists e :: e in run && e.key.kind == kind
    {
      if k :| k in entries && k.id == id && k.kind == kind { assert Entry(k, entries[k]) in run; }
    }
    if first.key.kind.Metadata? {
      forall e | e in run ensures e.key.kind.Metadata? { }
    }
    assert first in run;
  }

  ghost function KeySet(run: seq<Entry>): set<EntryKey> {
    set e | e in run :: e.key
  }

  function FoundDocument(found: RangeDocument): Option<Option<Document>> {
    match found.result
    case None => None
    case Some(r) => Some(r.1.doc)
  }

  lemma {:induction false} ScanOfOneId(run: seq<Entry>, entries: Table, id: DocumentId)
    requires TypedTable(entries) && Scans(run, entries, Bounds(Included(id), Included(id)))
    ensures IdSorted(run) && (forall e :: e in run ==> e.key.id == id)
    ensures forall k :: k in Keys(run) <==> k in entries && k.id == id
    ensures run == [] ==> Ids(run) == [] && forall k :: k in entries ==> k.id != id
    ensures run != [] ==> Ids(run) == [id] && OfId(run, id) == run
  {
    forall other: DocumentId
      ensures Contains(Bounds(Included(id), Included(id)), other) <==> other == id
    {
      OneIdRange(id, other);
    }
    InOrderSortsIdsAndKinds(run);
    OfIdMembers(run, id);
    KeysMembers(run);
    forall k | k in entries && k.id == id
      ensures k in Keys(run)
    {
      assert Entry(k, entries[k]) in run;
    }
    if run != [] {
      IdsOfOne(run, id);
    }
  }

  class Store {
    var entries: Table

    constructor ()
      ensures entries == map[]
    {
      entries := map[];
    }

    method Scan(range: Bounds<DocumentId>) returns (run: seq<Entry>)
      ensures Scans(run, entries, range)
    {
      run := [];
      var remaining := set k | k in entries && Contains(range, k.id);
      while remaining != {}
        invariant remaining <= entries.Keys && forall k :: k in remaining ==> Contains(range, k.id)
        invariant InKeyOrder(run)
        invariant forall e, k :: e in run && k in remaining ==> !Before(k, e.key)
        invariant forall e :: e in run ==> e.key in entries && entries[e.key] == e.data && Contains(range, e.key.id)
        invariant forall k :: k in entries && Contains(range, k.id) && k !in remaining ==> Entry(k, entries[k]) in run
        decreases remaining
      {
        ghost var first := FirstKeyExists(remaining);
        var key :| key in remaining && forall k :: k in remaining ==> !Before(k, key);
        run := run + [Entry(key, entries[key])];
        remaining := remaining - {key};
      }
    }

    /** Scan and reconstruct the entries of one id; None when there are none. */
    method Reconstruct(id: DocumentId) returns (found: Option<RangeDocument>)
      requires TypedTable(entries)
      ensures found.None? ==> Lookup(entries, id) == Some(None) && forall k :: k in entries ==> k.id != id
      ensures found.Some? ==> Lookup(entries, id) == FoundDocument(found.value)
      ensures found.Some? ==> forall k :: k in found.value.keys <==> k in entries && k.id == id
    {
      var range := Bounds(Included(id), Included(id));
      var run := Scan(range);
      ScanOfOneId(run, entries, id);
      var out := ReconstructDocuments(Somes(run));
      StreamIsGroupThenFold(run);
      if |out| == 0 {
        return None;
      }
      FoldOfScan(run, entries, id);
      return Some(out[0]);
    }

    method GetDocument(id: DocumentId) returns (doc: Option<Option<Document>>)
      requires TypedTable(entries)
      ensures doc == Lookup(entries, id)
    {
      var found := Reconstruct(id);
      match found {
        case None => return Some(None);
        case Some(document) =>
          match document.result {
            case None => return None;
            case Some(r) => return Some(r.1.doc);
          }
      }
    }

    method RemoveKeys(keys: seq<EntryKey>)
      modifies this
      ensures entries == old(entries) - (set k | k in keys)
    {
      for i := 0 to |keys|
        invariant entries == old(entries) - (set k | k in keys[..i])
      {
        entries := entries - {keys[i]};
      }
    }

    /** Removes every entry of the document, also when it cannot be reconstructed. */
    method RemoveDocument(id: DocumentId) returns (doc: Option<Option<Document>>)
      requires TypedTable(entries)
      modifies this
      ensures entries == old(entries) - KeysOf(old(entries), id)
      ensures doc == Lookup(old(entries), id)
    {
      var found := Reconstruct(id);
      if found == None {
        return Some(None);
      }
      RemoveKeys(found.value.keys);
      return FoundDocument(found.value);
    }

    method InsertSnapshot(id: DocumentId, doc: Document)
      modifies this
      ensures entries == old(entries)[SnapshotKey(id, doc) := Changes(doc.All())]
    {
      entries := entries[SnapshotKey(id, doc) := Changes(doc.All())];
    }

    /** Consumes the stream of a range removal to its end: each document in range is yielded, in id order, and
        then all keys that were read are removed. */
    method RemoveRange(range: Bounds<DocumentId>) returns (yielded: seq<Option<(DocumentId, Document)>>)
      requires TypedTable(entries)
      modifies this
      ensures forall k :: k in entries <==> k in old(entries) && !Contains(range, k.id)
      ensures forall k :: k in entries ==> entries[k] == old(entries)[k]
      ensures forall id, doc :: Some((id, doc)) in yielded <==>
                Contains(range, id) && Lookup(old(entries), id) == Some(Some(doc))
      ensures None in yielded <==> exists id :: Contains(range, id) && Lookup(old(entries), id) == None
    {
      var run := Scan(range);
      var out := ReconstructDocuments(Somes(run));
      ScanKeys(run, entries, range);
      ScanYields(run, entries, range);
      var keys;
      yielded, keys := DrainStream(out);
      RemoveKeys(keys);
    }
  }

  /** The documents a stream of results yields: those that hold a document, and the errors. */
  ghost function Documents(out: seq<RangeDocument>): seq<Option<(DocumentId, Document)>> {
    if out == [] then []
    else
      Documents(out[..|out| - 1]) + DocumentsOf(out[|out| - 1])
  }

  /** The document of one id: an error, one that is shown, or none. */
  ghost function DocumentsOf(d: RangeDocument): seq<Option<(DocumentId, Document)>> {
    match d.result
    case None => [None]
    case Some(r) => if r.1.doc.Some? then [Some((r.0, r.1.doc.value))] else []
  }

  lemma {:induction false} DocumentsMember(out: seq<RangeDocument>, x: Option<(DocumentId, Document)>)
    ensures x in Documents(out) <==> exists j :: 0 <= j < |out| && x in DocumentsOf(out[j])
  {
    if out != [] {
      var init := out[..|out| - 1];
      DocumentsMember(init, x);
      if x in DocumentsOf(out[|out| - 1]) {
        assert x in Documents(out);
      } else if j :| 0 <= j < |init| && x in DocumentsOf(init[j]) {
        assert init[j] == out[j];
      }
    }
  }

  method DrainStream(out: seq<RangeDocument>)
    returns (yielded: seq<Option<(DocumentId, Document)>>, keys: seq<EntryKey>)
    ensures yielded == Documents(out)
    ensures keys == AllKeys(out)
  {
    yielded, keys := [], [];
    for i := 0 to |out|
      invariant keys == AllKeys(out[..i])
      invariant yielded == Documents(out[..i])
    {
      assert out[..i + 1] == out[..i] + [out[i]];
      AllKeysConcat(out[..i], [out[i]]);
      assert AllKeys([out[i]]) == out[i].keys + AllKeys([]);
      assert out[..i + 1][..i] == out[..i];
      keys := keys + out[i].keys;
      match out[i].result {
        case None =>
          yielded := yielded + [None];
        case Some(r) =>
          if r.1.doc.Some? {
            yielded := yielded + [Some((r.0, r.1.doc.value))];
          }
      }
    }
    assert out[..|out|] == out;
  }

  lemma {:induction false} DocumentsMembers(out: seq<RangeDocument>)
    ensures forall id, doc :: Some((id, doc)) in Documents(out) <==>
              exists j :: 0 <= j < |out| && out[j].result.Some? && out[j].result.value.0 == id
                          && out[j].result.value.1.doc == Some(doc)
    ensures None in Documents(out) <==> exists j :: 0 <= j < |out| && out[j].result.None?
  {
    forall id, doc
      ensures Some((id, doc)) in Documents(out) <==>
              exists j :: 0 <= j < |out| && out[j].result.Some? && out[j].result.value.0 == id
                          && out[j].result.value.1.doc == Some(doc)
    {
      DocumentsMember(out, Some((id, doc)));
    }
    DocumentsMember(out, None);
  }

  lemma {:induction false} ScanYields(run: seq<Entry>, entries: Table, range: Bounds<DocumentId>)
    requires TypedTable(entries) && Scans(run, entries, range)
    ensures var yielded := Documents(Yielded(Somes(run), []));
            && (forall id, doc :: Some((id, doc)) in yielded <==>
                  Contains(range, id) && Lookup(entries, id) == Some(Some(doc)))
            && (None in yielded <==> exists id :: Contains(range, id) && Lookup(entries, id) == None)
  {
    var out := Yielded(Somes(run), []);
    DocumentsMembers(out);
    forall j | 0 <= j < |out|
      ensures YieldsItsDocument(out[j], entries, range)
    {
      GroupAt(run, entries, range, j);
    }
    forall id | Contains(range, id) && Lookup(entries, id) != Some(None)
      ensures exists j :: 0 <= j < |out| && HoldsId(out[j], entries, id)
    {
      var j := GroupFor(run, entries, range, id);
    }
  }

  ghost predicate YieldsItsDocument(found: RangeDocument, entries: Table, range: Bounds<DocumentId>) {
    exists id :: Contains(range, id) && HoldsId(found, entries, id)
  }

  ghost predicate HoldsId(found: RangeDocument, entries: Table, id: DocumentId) {
    match found.result
    case None => Lookup(entries, id) == None
    case Some(r) => r.0 == id && Lookup(entries, id) == Some(r.1.doc)
  }

  lemma {:induction false} GroupAt(run: seq<Entry>, entries: Table, range: Bounds<DocumentId>, j: nat)
    requires TypedTable(entries) && Scans(run, entries, range)
    requires j < |Yielded(Somes(run), [])|
    ensures YieldsItsDocument(Yielded(Somes(run), [])[j], entries, range)
  {
    ScanDocuments(run, entries, range);
    var id := Ids(run)[j];
    assert id in Ids(run);
    assert HoldsId(Finished(OfId(run, id)), entries, id);
  }

  lemma {:induction false} GroupFor(run: seq<Entry>, entries: Table, range: Bounds<DocumentId>, id: DocumentId)
    returns (j: nat)
    requires TypedTable(entries) && Scans(run, entries, range)
    requires Contains(range, id) && Lookup(entries, id) != Some(None)
    ensures j < |Yielded(Somes(run), [])| && HoldsId(Yielded(Somes(run), [])[j], entries, id)
  {
    ScanDocuments(run, entries, range);
    assert id in Ids(run);
    j :| 0 <= j < |Ids(run)| && Ids(run)[j] == id;
    assert HoldsId(Finished(OfId(run, id)), entries, id);
  }

  /** The ids a scan meets are the ids in range that have entries, and each group folds to its document. */
  lemma {:induction false} ScanDocuments(run: seq<Entry>, entries: Table, range: Bounds<DocumentId>)
    requires TypedTable(entries) && Scans(run, entries, range)
    ensures GroupedById(run, Yielded(Somes(run), []))
    ensures forall id :: id in Ids(run) <==> Contains(range, id) && exists k :: k in entries && k.id == id
    ensures forall id :: id in Ids(run) ==>
        OfId(run, id) != [] && OfId(run, id)[0].key.id == id
        && FoundDocument(Finished(OfId(run, id))) == Lookup(entries, id)
  {
    InOrderSortsIdsAndKinds(run);
    StreamIsGroupThenFold(run);
    IdsMembers(run);
    forall id | Contains(range, id) && exists k :: k in entries && k.id == id
      ensures id in Ids(run)
    {
      var k :| k in entries && k.id == id;
      assert Entry(k, entries[k]) in run;
    }
    forall id | id in Ids(run)
      ensures OfId(run, id) != [] && OfId(run, id)[0].key.id == id
      ensures FoundDocument(Finished(OfId(run, id))) == Lookup(entries, id)
    {
      OfIdMembers(run, id);
      OfIdInOrder(run, id);
      FoldOfScan(OfId(run, id), entries, id);
    }
  }

  lemma {:induction false} OfIdInOrder(run: seq<Entry>, id: DocumentId)
    requires InKeyOrder(run)
    ensures InKeyOrder(OfId(run, id))
  {
    if run != [] {
      var init, last := run[..|run| - 1], run[|run| - 1];
      OfIdInOrder(init, id);
      OfIdMembers(init, id);
      forall e | e in init
        ensures !Before(last.key, e.key)
      {
        var i :| 0 <= i < |init| && init[i] == e;
        assert run[i] == e;
      }
    }
  }

  lemma {:induction false} ScanKeys(run: seq<Entry>, entries: Table, range: Bounds<DocumentId>)
    requires Scans(run, entries, range)
    ensures forall k :: k in AllKeys(Yielded(Somes(run), [])) <==> k in entries && Contains(range, k.id)
  {
    NoKeyIsLost(Somes(run), []);
    EntriesOfSomes(run);
    KeysMembers(run);
    forall k | k in entries && Contains(range, k.id)
      ensures k in Keys(run)
    {
      assert Entry(k, entries[k]) in run;
    }
  }

  lemma {:induction false} EntriesOfSomes(run: seq<Entry>)
    ensures Entries(Somes(run)) == run
  {
    if run != [] {
      EntriesOfSomes(run[1..]);
      assert Somes(run)[1..] == Somes(run[1..]);
    }
  }

  ghost function KeysOf(entries: Table, id: DocumentId): set<EntryKey> {
    set k | k in entries && k.id == id
  }

  function SnapshotKey(id: DocumentId, doc: Document): EntryKey {
    EntryKey(id, Snapshot, OfHeads(Heads(doc.applied)))
  }

  // ---------------------------------------------------------------------------------------------
  // Compaction
  // ---------------------------------------------------------------------------------------------

  /** Replaces a document's entries by one snapshot, as the code does it: list the keys, insert the snapshot,
      remove the listed keys. */
  method RunCompaction(store: Store, id: DocumentId, doc: Document)
    modifies store
    ensures store.entries == Compacted(old(store.entries), id, doc)
  {
    var range := Bounds(Included(id), Included(id));
    var run := store.Scan(range);
    var keys: seq<EntryKey> := [];
    for i := 0 to |run|
      invariant keys == Keys(run[..i])
    {
      assert run[..i + 1][..i] == run[..i];
      keys := keys + [run[i].key];
    }
    assert run[..|run|] == run;
    KeysMembers(run);
    forall k
      ensures k in keys <==> k in KeysOf(store.entries, id)
    {
      OneIdRange(id, k.id);
      if k in KeysOf(store.entries, id) { assert Entry(k, store.entries[k]) in run; }
    }
    assert (set k | k in keys) == KeysOf(store.entries, id);
    store.InsertSnapshot(id, doc);
    store.RemoveKeys(keys);
  }

  ghost function Compacted(entries: Table, id: DocumentId, doc: Document): Table {
    entries[SnapshotKey(id, doc) := Changes(doc.All())] - KeysOf(entries, id)
  }

  /** The snapshots of an id are keyed by the heads of what they hold. */
  ghost predicate KeyedByHeads(entries: Table) {
    forall k :: k in entries && k.kind.Snapshot? ==>
      entries[k].Changes? && Closed(entries[k].payload) && k.hash == OfHeads(Heads(entries[k].payload))
  }

  lemma {:induction false} CompactionKeepsOthers(entries: Table, id: DocumentId, doc: Document)
    ensures forall k: EntryKey :: k.id != id ==>
        (k in Compacted(entries, id, doc) <==> k in entries)
        && (k in entries ==> Compacted(entries, id, doc)[k] == entries[k])
  {
  }

  /** Compaction leaves exactly one entry, holding the unchanged document, if and only if the new snapshot's key
      was not there before; if it was, the removal loop takes the new snapshot with it and nothing is left. */
  lemma {:induction false} CompactionKeepsDocument(entries: Table, id: DocumentId, doc: Document)
    requires TypedTable(entries) && Lookup(entries, id) == Some(Some(doc))
    ensures SnapshotKey(id, doc) !in entries ==>
        KeysOf(Compacted(entries, id, doc), id) == {SnapshotKey(id, doc)}
        && Lookup(Compacted(entries, id, doc), id) == Some(Some(doc))
    ensures SnapshotKey(id, doc) in entries ==>
        KeysOf(Compacted(entries, id, doc), id) == {}
        && Lookup(Compacted(entries, id, doc), id) == Some(None)
  {
    var key, after := SnapshotKey(id, doc), Compacted(entries, id, doc);
    if key !in entries {
      assert KeysOf(after, id) == {key};
      assert after[key] == Changes(doc.All());
      assert forall k :: k in after && k.id == id ==> k == key;
      assert key in after && key.kind == Snapshot;
      assert Has(after, id, Snapshot);
      SettleKeepsAll(Stored(entries, id));
      assert Stored(after, id) == doc.All();
    } else {
      assert KeysOf(after, id) == {};
      assert forall k :: k in after ==> k !in KeysOf(after, id);
    }
  }

  /** In a store whose snapshots are keyed by their heads that happens exactly when some stored snapshot already
      holds all the document's applied changes. */
  lemma {:induction false} CompactionLosesExactlyCompacted(entries: Table, id: DocumentId, doc: Document)
    requires KeyedByHeads(entries) && Lookup(entries, id) == Some(Some(doc))
    ensures Lookup(Compacted(entries, id, doc), id) == Some(None)
        <==> exists k :: k in entries && k.id == id && k.kind.Snapshot? && entries[k] == Changes(doc.applied)
    requires TypedTable(entries)
  {
    CompactionKeepsDocument(entries, id, doc);
    var key := SnapshotKey(id, doc);
    ClosureIsGreatest(Stored(entries, id), {});
    if key in entries {
      HeadsDetermineChanges(entries[key].payload, doc.applied);
    }
    if k :| k in entries && k.id == id && k.kind.Snapshot? && entries[k] == Changes(doc.applied) {
      assert k == key;
    }
  }

  /** A document that is stored as one snapshot is lost. */
  lemma {:induction false} OneSnapshotIsLost(id: DocumentId, changes: set<Change>)
    requires Closed(changes)
    ensures var doc := Document(changes, {});
            var entries := map[SnapshotKey(id, doc) := Changes(changes)];
            && TypedTable(entries) && Lookup(entries, id) == Some(Some(doc))
            && Compacted(entries, id, doc) == map[] && Lookup(map[], id) == Some(None)
  {
    var doc := Document(changes, {});
    var key := SnapshotKey(id, doc);
    var entries: Table := map[key := Changes(changes)];
    assert key in entries && key.id == id && key.kind == Snapshot;
    assert Has(entries, id, Snapshot);
    assert Stored(entries, id) == changes by {
      forall c | c in changes
        ensures c in Stored(entries, id)
      {
        assert key in entries && entries[key].Changes? && c in entries[key].payload;
      }
    }
    ClosedIsSettled(changes);
    assert KeysOf(entries, id) == {key};
    assert entries[key := Changes(doc.All())] - {key} == map[];
  }

  /** So a document that compaction kept is lost when it is compacted again. */
  lemma {:induction false} CompactingTwiceLoses(entries: Table, id: DocumentId, doc: Document)
    requires TypedTable(entries) && Lookup(entries, id) == Some(Some(doc)) && SnapshotKey(id, doc) !in entries
    ensures Lookup(Compacted(entries, id, doc), id) == Some(Some(doc))
    ensures Lookup(Compacted(Compacted(entries, id, doc), id, doc), id) == Some(None)
  {
    CompactionKeepsDocument(entries, id, doc);
    assert SnapshotKey(id, doc) in KeysOf(Compacted(entries, id, doc), id);
    CompactionKeepsDocument(Compacted(entries, id, doc), id, doc);
  }

  lemma {:induction false} KeysMembers(run: seq<Entry>)
    ensures forall k :: k in Keys(run) <==> exists e :: e in run && e.key == k
  {
    if run != [] {
      var init, last := run[..|run| - 1], run[|run| - 1];
      assert run == init + [last];
      KeysMembers(init);
      assert last in run;
      forall k
        ensures k in Keys(run) <==> exists e :: e in run && e.key == k
      {
        if e :| e in init && e.key == k { assert e in run; }
      }
    }
  }
}
