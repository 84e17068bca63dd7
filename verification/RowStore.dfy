// The row codec: rows as documents in a table of entries, with tombstones as metadata records.
module RowStore {
  import opened Automerge
  import opened DocumentKey
  import opened DocumentStore
  import opened Reconstruction
  import opened Wrappers
  import opened RowState
  import Catalog
  import Index
  import Values

  // How a document reads as a row: the winning values under its root keys, a function of the applied changes, and the
  // table's live columns in catalog order.
  datatype Reading = Reading(document: set<Change> -> Catalog.Doc, columns: seq<Catalog.Column>) {

    /** The live columns, or as many numbered ones as asked for. */
    function Columns(fallback: nat): (c: seq<Catalog.Column>)
      ensures columns == [] ==> |c| == fallback
      ensures columns != [] ==> c == columns
    {
      if columns == [] then Catalog.Numbered(fallback) else columns
    }

    function Decode(applied: set<Change>, columnCount: nat): Values.Row {
      Catalog.Decode(Columns(columnCount), document(applied))
    }

    function DecodeDocument(applied: set<Change>): Values.Row {
      Decode(applied, |document(applied)|)
    }

    /** What a stored row reads as. */
    function Read(r: Row): Option<Values.Row> {
      match r.Visible()
      case None => None
      case Some(applied) => Some(DecodeDocument(applied))
    }
  }

  /** What is read here is the row the indexes are kept for: the codec's column list is the engine's, and the row it
      reads, or returns from a merge, decodes the document the row shows. */
  lemma {:induction false} ReadDecodes(reading: Reading, def: Catalog.TableDef, id: Values.Uuid, r: Row)
    requires reading.columns == Catalog.ColumnsOf(def)
    requires r.Visible().Some? ==> Index.GoodDoc(def, id, reading.document(r.Visible().value))
    ensures var doc := match r.Visible() case None => None case Some(applied) => Some(reading.document(applied));
            Index.Decodes(def, reading.Read(r), id, doc)
  {
    if r.Visible().Some? {
      Index.HasColumns(def, id, reading.document(r.Visible().value));
    }
  }

  /** A visible row reads, column by column, as its document's value, or the column's default where it has none; without
      a live column it reads as its values under the numbers from 0 on. */
  lemma {:induction false} ReadByColumn(reading: Reading, r: Row, i: nat)
    requires r.Visible().Some?
    ensures reading.Read(r).Some?
    ensures reading.columns != [] && i < |reading.columns| ==>
              var doc, name := reading.document(r.Visible().value), reading.columns[i].name;
              && |reading.Read(r).value| == |reading.columns|
              && (name in doc ==> reading.Read(r).value[i] == doc[name])
              && (name !in doc ==> reading.Read(r).value[i] == reading.columns[i].default)
    ensures reading.columns == [] && i < |reading.document(r.Visible().value)| ==>
              var doc := reading.document(r.Visible().value);
              && |reading.Read(r).value| == |doc|
              && forall n :: n in doc && Catalog.Digits(n) && Catalog.NumberOf(n) == i ==>
                   n == Catalog.Decimal(i) && reading.Read(r).value[i] == doc[n]
  {
    forall n | Catalog.Digits(n) && Catalog.NumberOf(n) == i
      ensures n == Catalog.Decimal(i)
    {
      Catalog.OneDecimal(n);
    }
  }

  // ---------------------------------------------------------------------------------------------
  // The row stored under an id
  // ---------------------------------------------------------------------------------------------

  function MetaKey(id: DocumentId): EntryKey { EntryKey(id, Metadata, Zero) }

  function IncrementalKey(id: DocumentId, c: Change): EntryKey { EntryKey(id, Incremental, OfChange(c)) }

  ghost function RowOf(entries: Table, id: DocumentId): Row {
    Row(
      if Has(entries, id, Snapshot) then Some(Stored(entries, id)) else None,
      map k | k in entries && k.id == id && k.kind.Incremental? && k.hash.OfChange? && entries[k].Changes? ::
        k.hash.change := entries[k].payload,
      if MetaKey(id) in entries && entries[MetaKey(id)].Meta? then Some(entries[MetaKey(id)].deleted) else None)
  }

  /** Every key is of one of the three shapes the codec writes, with the right kind of bytes under it. */
  ghost predicate WellKeyed(entries: Table) {
    forall k :: k in entries ==>
      match k.kind
      case Snapshot => entries[k].Changes? && Closed(entries[k].payload) && k.hash == OfHeads(Heads(entries[k].payload))
      case Incremental => entries[k].Changes? && k.hash.OfChange? && GoodPayload(k.hash.change, entries[k].payload)
      case Metadata => entries[k].Meta? && k.hash == Zero
  }

  ghost predicate GoodTable(entries: Table) {
    WellKeyed(entries) && forall id :: GoodRow(RowOf(entries, id)) && NoStrayIncremental(entries, id)
  }

  ghost predicate NoStrayIncremental(entries: Table, id: DocumentId) {
    Has(entries, id, Incremental) ==> Has(entries, id, Snapshot)
  }

  /** In a well-formed table, reconstruction yields the visible document, with nothing left queued. */
  lemma {:induction false} LookupIsVisible(entries: Table, id: DocumentId)
    requires GoodTable(entries)
    ensures TypedTable(entries)
    ensures Lookup(entries, id) ==
            Some(match RowOf(entries, id).Visible() case None => None case Some(applied) => Some(Document(applied, {})))
  {
    var r := RowOf(entries, id);
    assert GoodRow(r) && NoStrayIncremental(entries, id);
    if Has(entries, id, Metadata) {
      var k :| k in entries && k.id == id && k.kind == Metadata;
      assert k == MetaKey(id);
    } else if Has(entries, id, Snapshot) {
      if MetaKey(id) in entries { assert false; }
      ClosedIsSettled(Stored(entries, id));
    }
  }

  /** Rows of other ids are untouched by changes to one id's entries. */
  lemma {:induction false} OtherRowsUnchanged(before: Table, after: Table, id: DocumentId)
    requires forall k: EntryKey :: k.id != id ==>
               (k in before <==> k in after) && (k in before ==> before[k] == after[k])
    ensures forall other :: other != id ==>
        RowOf(after, other) == RowOf(before, other)
        && (NoStrayIncremental(after, other) <==> NoStrayIncremental(before, other))
  {
    forall other | other != id
      ensures RowOf(after, other) == RowOf(before, other)
      ensures NoStrayIncremental(after, other) <==> NoStrayIncremental(before, other)
    {
      forall kind: DocumentType
        ensures Has(after, other, kind) <==> Has(before, other, kind)
      {
        if Has(after, other, kind) { var k :| k in after && k.id == other && k.kind == kind; assert k in before; }
        if Has(before, other, kind) { var k :| k in before && k.id == other && k.kind == kind; assert k in after; }
      }
      assert Stored(after, other) == Stored(before, other);
      assert RowOf(after, other).incrementals == RowOf(before, other).incrementals;
    }
  }

  /** Adding a snapshot entry adds its payload to the row. */
  lemma {:induction false} RowAfterSnapshot(entries: Table, id: DocumentId, payload: set<Change>)
    requires WellKeyed(entries) && Closed(payload)
    ensures var after := entries[EntryKey(id, Snapshot, OfHeads(Heads(payload))) := Changes(payload)];
            var r := RowOf(entries, id);
            WellKeyed(after) && Has(after, id, Snapshot)
            && RowOf(after, id) == r.(doc := Some(Stored(entries, id) + payload))
  {
    var key := EntryKey(id, Snapshot, OfHeads(Heads(payload)));
    var after := entries[key := Changes(payload)];
    assert key in after && key.id == id && key.kind == Snapshot;
    if key in entries {
      HeadsDetermineChanges(entries[key].payload, payload);
    }
    assert Stored(after, id) == Stored(entries, id) + payload by {
      forall c | c in Stored(entries, id) + payload
        ensures c in Stored(after, id)
      {
        if c in payload {
          assert key in after && after[key].Changes? && c in after[key].payload;
        } else {
          var k :| k in entries && k.id == id && entries[k].Changes? && c in entries[k].payload;
          assert k in after && after[k] == entries[k];
        }
      }
    }
    assert RowOf(after, id).incrementals == RowOf(entries, id).incrementals;
  }

  lemma {:induction false} RowAfterIncremental(entries: Table, id: DocumentId, c: Change, payload: set<Change>)
    requires WellKeyed(entries) && GoodPayload(c, payload)
    requires IncrementalKey(id, c) !in entries && Has(entries, id, Snapshot)
    ensures var after := entries[IncrementalKey(id, c) := Changes(payload)];
            var r := RowOf(entries, id);
            WellKeyed(after) && Has(after, id, Snapshot)
            && RowOf(after, id) == r.(doc := Some(Stored(entries, id) + payload),
                                      incrementals := r.incrementals[c := payload])
  {
    var key := IncrementalKey(id, c);
    var after := entries[key := Changes(payload)];
    var s :| s in entries && s.id == id && s.kind == Snapshot;
    assert s in after;
    assert Stored(after, id) == Stored(entries, id) + payload by {
      forall a | a in Stored(entries, id) + payload
        ensures a in Stored(after, id)
      {
        if a in payload {
          assert key in after && after[key].Changes? && a in after[key].payload;
        } else {
          var k :| k in entries && k.id == id && entries[k].Changes? && a in entries[k].payload;
          assert k in after && after[k] == entries[k];
        }
      }
    }
    assert RowOf(after, id).incrementals == RowOf(entries, id).incrementals[c := payload] by {
      assert key in after && key.hash.change == c;
      forall d | d in RowOf(entries, id).incrementals.Keys + {c}
        ensures d in RowOf(after, id).incrementals
      {
        assert IncrementalKey(id, d) in after;
      }
    }
  }

  lemma {:induction false} RowAfterMetadata(entries: Table, id: DocumentId, deleted: bool)
    requires WellKeyed(entries)
    ensures var after := entries[MetaKey(id) := Meta(deleted)];
            WellKeyed(after)
            && RowOf(after, id) == RowOf(entries, id).(meta := Some(deleted))
            && (NoStrayIncremental(entries, id) <==> NoStrayIncremental(after, id))
  {
    var after := entries[MetaKey(id) := Meta(deleted)];
    forall kind: DocumentType | kind != Metadata
      ensures Has(after, id, kind) <==> Has(entries, id, kind)
    {
      if Has(entries, id, kind) { var k :| k in entries && k.id == id && k.kind == kind; assert k in after; }
    }
    assert Stored(after, id) == Stored(entries, id) by {
      forall c | c in Stored(entries, id)
        ensures c in Stored(after, id)
      {
        var k :| k in entries && k.id == id && entries[k].Changes? && c in entries[k].payload;
        assert k in after && after[k] == entries[k];
      }
    }
    assert RowOf(after, id).incrementals == RowOf(entries, id).incrementals;
  }

  lemma {:induction false} RowAfterRemoval(entries: Table, id: DocumentId)
    requires WellKeyed(entries)
    ensures WellKeyed(entries - KeysOf(entries, id)) && RowOf(entries - KeysOf(entries, id), id) == NO_ROW
    ensures Stored(entries - KeysOf(entries, id), id) == {}
    ensures !Has(entries - KeysOf(entries, id), id, Snapshot) && !Has(entries - KeysOf(entries, id), id, Incremental)
  {
  }

  lemma {:induction false} IncrementalsAreKeys(entries: Table, id: DocumentId, c: Change)
    requires WellKeyed(entries)
    ensures c in RowOf(entries, id).incrementals <==> IncrementalKey(id, c) in entries
    ensures IncrementalKey(id, c) in entries ==>
        entries[IncrementalKey(id, c)] == Changes(RowOf(entries, id).incrementals[c])
  {
  }

  // ---------------------------------------------------------------------------------------------
  // The codec
  // ---------------------------------------------------------------------------------------------

  /** The table changed for one id only, and its row from `before` to `after`. */
  twostate predicate RowMoves(store: Store, id: DocumentId, before: Row, after: Row)
    reads store
  {
    && GoodTable(store.entries)
    && before == RowOf(old(store.entries), id)
    && RowOf(store.entries, id) == after
    && forall other :: other != id ==> RowOf(store.entries, other) == RowOf(old(store.entries), other)
  }

  lemma {:induction false} StillGood(before: Table, after: Table, id: DocumentId)
    requires GoodTable(before) && WellKeyed(after)
    requires forall k: EntryKey :: k.id != id ==>
               (k in before <==> k in after) && (k in before ==> before[k] == after[k])
    requires GoodRow(RowOf(after, id)) && NoStrayIncremental(after, id)
    ensures GoodTable(after)
    ensures forall other :: other != id ==> RowOf(after, other) == RowOf(before, other)
  {
    OtherRowsUnchanged(before, after, id);
    forall other
      ensures GoodRow(RowOf(after, other)) && NoStrayIncremental(after, other)
    {
      if other != id { assert GoodRow(RowOf(before, other)) && NoStrayIncremental(before, other); }
    }
  }

  lemma {:induction false} StoredIsHeld(entries: Table, id: DocumentId)
    requires GoodTable(entries)
    ensures Stored(entries, id) == RowOf(entries, id).Held()
  {
    assert NoStrayIncremental(entries, id);
  }

  function WithSnapshot(entries: Table, id: DocumentId, payload: set<Change>): Table {
    entries[EntryKey(id, Snapshot, OfHeads(Heads(payload))) := Changes(payload)]
  }

  /** Writing one more snapshot adds its changes to the row. */
  lemma {:induction false} AddSnapshot(before: Table, id: DocumentId, payload: set<Change>)
    requires GoodTable(before) && Closed(payload)
    ensures GoodTable(WithSnapshot(before, id, payload))
    ensures var r := RowOf(before, id);
            RowOf(WithSnapshot(before, id, payload), id) == r.(doc := Some(r.Held() + payload))
    ensures forall other :: other != id ==> RowOf(WithSnapshot(before, id, payload), other) == RowOf(before, other)
  {
    assert GoodRow(RowOf(before, id));
    StoredIsHeld(before, id);
    RowAfterSnapshot(before, id, payload);
    ClosedUnion(RowOf(before, id).Held(), payload);
    StillGood(before, WithSnapshot(before, id, payload), id);
  }

  /** Replacing all entries of a row by one snapshot leaves just that. */
  lemma {:induction false} ReplaceBySnapshot(before: Table, id: DocumentId, payload: set<Change>)
    requires GoodTable(before) && Closed(payload)
    ensures var after := WithSnapshot(before - KeysOf(before, id), id, payload);
            && GoodTable(after)
            && RowOf(after, id) == Row(Some(payload), map[], None)
            && forall other :: other != id ==> RowOf(after, other) == RowOf(before, other)
  {
    var removed := before - KeysOf(before, id);
    RowAfterRemoval(before, id);
    RowAfterSnapshot(removed, id, payload);
    assert {} + payload == payload;
    StillGood(before, WithSnapshot(removed, id, payload), id);
  }

  lemma {:induction false} OneEntryLeft(before: Table, id: DocumentId, payload: set<Change>)
    ensures |KeysOf(WithSnapshot(before - KeysOf(before, id), id, payload), id)| == 1
  {
    var key := EntryKey(id, Snapshot, OfHeads(Heads(payload)));
    assert KeysOf(WithSnapshot(before - KeysOf(before, id), id, payload), id) == {key};
  }

  /** Writing an incremental adds it to the row. */
  lemma {:induction false} AddIncremental(before: Table, id: DocumentId, c: Change, payload: set<Change>)
    requires GoodTable(before) && GoodPayload(c, payload)
    requires RowOf(before, id).doc.Some? && c !in RowOf(before, id).incrementals
    requires Closed(RowOf(before, id).Held() + payload)
    ensures var after := before[IncrementalKey(id, c) := Changes(payload)];
            var r := RowOf(before, id);
            && GoodTable(after)
            && RowOf(after, id) == r.(doc := Some(r.Held() + payload), incrementals := r.incrementals[c := payload])
            && forall other :: other != id ==> RowOf(after, other) == RowOf(before, other)
  {
    assert GoodRow(RowOf(before, id)) && NoStrayIncremental(before, id);
    IncrementalsAreKeys(before, id, c);
    RowAfterIncremental(before, id, c, payload);
    StillGood(before, before[IncrementalKey(id, c) := Changes(payload)], id);
  }

  class RowCodec {
    const store: Store
    const reading: Reading

    constructor (reading: Reading)
      ensures fresh(store) && GoodTable(store.entries) && this.reading == reading
    {
      this.reading := reading;
      store := new Store();
    }

    /** When a local change to this row is answered with the row the next read finds: the row is deleted, or it has no
        metadata record and both reads agree on the column list. */
    predicate ReadsBack(r: Row, payload: set<Change>, columnCount: nat) {
      || r.Deleted()
      || (r.meta.None? && (reading.columns != [] || columnCount == |reading.document(r.Held() + payload)|))
    }

    method MetadataDeleted(id: DocumentId) returns (deleted: bool)
      requires GoodTable(store.entries)
      ensures deleted <==> RowOf(store.entries, id).Deleted()
    {
      if MetaKey(id) !in store.entries {
        return false;
      }
      return store.entries[MetaKey(id)].deleted;
    }

    method GetRow(id: DocumentId) returns (row: Option<Values.Row>)
      requires GoodTable(store.entries)
      ensures row == reading.Read(RowOf(store.entries, id))
    {
      var deleted := MetadataDeleted(id);
      if deleted {
        return None;
      }
      LookupIsVisible(store.entries, id);
      var found := store.GetDocument(id);
      if found.value == None {
        return None;
      }
      var applied := found.value.value.applied;
      return Some(reading.DecodeDocument(applied));
    }

    /** Every reconstructed row, in id order. */
    method ScanRows() returns (rows: seq<(DocumentId, Values.Row)>)
      requires GoodTable(store.entries)
      ensures forall id, row :: (id, row) in rows <==> reading.Read(RowOf(store.entries, id)) == Some(row)
    {
      LookupIsVisible(store.entries, []);
      var run := store.Scan(Bounds(Unbounded, Unbounded));
      var out := ReconstructDocuments(Somes(run));
      var yielded, _ := DrainStream(out);
      YieldedAreVisible(run, store.entries, yielded);
      rows := DecodeAll(yielded);
    }

    method DecodeAll(yielded: seq<Option<(DocumentId, Document)>>) returns (rows: seq<(DocumentId, Values.Row)>)
      requires None !in yielded
      ensures forall id, row :: (id, row) in rows <==> Decoded(yielded, id, row)
    {
      rows := [];
      for i := 0 to |yielded|
        invariant forall id, row :: (id, row) in rows <==> Decoded(yielded[..i], id, row)
      {
        assert yielded[i] in yielded && yielded[..i + 1] == yielded[..i] + [yielded[i]];
        var (id, doc) := yielded[i].value;
        rows := rows + [(id, reading.DecodeDocument(doc.applied))];
      }
      assert yielded[..|yielded|] == yielded;
    }

    ghost predicate Decoded(yielded: seq<Option<(DocumentId, Document)>>, id: DocumentId, row: Values.Row) {
      exists doc: Document :: Some((id, doc)) in yielded
        && row == reading.DecodeDocument(doc.applied)
    }

    lemma {:induction false} YieldedAreVisible(run: seq<Entry>, entries: Table,
                                               yielded: seq<Option<(DocumentId, Document)>>)
      requires GoodTable(entries) && TypedTable(entries) && Scans(run, entries, Bounds(Unbounded, Unbounded))
      requires yielded == Documents(Yielded(Somes(run), []))
      ensures None !in yielded
      ensures forall id, row :: Decoded(yielded, id, row) <==> reading.Read(RowOf(entries, id)) == Some(row)
    {
      ScanYields(run, entries, Bounds(Unbounded, Unbounded));
      forall id
        ensures Lookup(entries, id).Some?
        ensures forall row :: Decoded(yielded, id, row) <==> reading.Read(RowOf(entries, id)) == Some(row)
      {
        LookupIsVisible(entries, id);
        var visible := RowOf(entries, id).Visible();
        if visible.Some? {
          assert Some((id, Document(visible.value, {}))) in yielded;
        }
      }
    }

    method DeleteRow(id: DocumentId) returns (row: Option<Values.Row>)
      requires GoodTable(store.entries)
      modifies store
      ensures RowMoves(store, id, RowOf(old(store.entries), id), RowState.DeleteRow(RowOf(old(store.entries), id)))
      ensures row == reading.Read(RowOf(old(store.entries), id))
    {
      row := GetRow(id);
      MergeMetadata(id, true);
    }

    method MergeMetadata(id: DocumentId, deleted: bool)
      requires GoodTable(store.entries)
      modifies store
      ensures RowMoves(store, id, RowOf(old(store.entries), id),
                       RowState.MergeMetadata(RowOf(old(store.entries), id), deleted))
    {
      ghost var before := store.entries;
      assert GoodRow(RowOf(before, id)) && NoStrayIncremental(before, id);
      RowAfterMetadata(before, id, deleted);
      store.entries := store.entries[MetaKey(id) := Meta(deleted)];
      StillGood(before, store.entries, id);
    }

    /** The row returned is the one the next `GetRow` reads, unless the row had a metadata record that does not
        say deleted: then a row is returned that is not visible. */
    method MergeState(id: DocumentId, state: set<Change>) returns (row: Option<Values.Row>)
      requires GoodTable(store.entries) && Closed(state)
      modifies store
      ensures RowMoves(store, id, RowOf(old(store.entries), id),
                       RowState.MergeState(RowOf(old(store.entries), id), state))
      ensures row == reading.Read(RowOf(store.entries, id)) <==> RowOf(old(store.entries), id).meta != Some(false)
      ensures RowOf(old(store.entries), id).Visible().Some? ==> |KeysOf(store.entries, id)| == 1
    {
      ghost var before := store.entries;
      assert GoodRow(RowOf(before, id));
      var deleted := MetadataDeleted(id);
      if deleted {
        return None;
      }
      LookupIsVisible(before, id);
      var existing := store.GetDocument(id);
      var merged := state;
      if existing.value.Some? {
        merged := existing.value.value.applied + state;
        ClosedUnion(existing.value.value.applied, state);
        var _ := store.RemoveDocument(id);
        ReplaceBySnapshot(before, id, merged);
        OneEntryLeft(before, id, merged);
      } else {
        AddSnapshot(before, id, merged);
        assert {} + state == state;
      }
      store.InsertSnapshot(id, Document(merged, {}));
      assert Document(merged, {}).All() == merged;
      return Some(reading.DecodeDocument(merged));
    }

    /** The row returned, if any, is the one the next `GetRow` reads. */
    method ApplyChange(id: DocumentId, c: Change, payload: set<Change>)
      returns (r: Result<Option<Values.Row>, ApplyError>)
      requires GoodTable(store.entries) && GoodPayload(c, payload)
      modifies store
      ensures match RowState.ApplyChange(RowOf(old(store.entries), id), c, payload)
              case Err(error) => r == Err(error) && store.entries == old(store.entries)
              case Ok(after) =>
                r == Ok(reading.Read(after)) && RowMoves(store, id, RowOf(old(store.entries), id), after)
    {
      ghost var before := store.entries;
      ghost var row := RowOf(before, id);
      assert GoodRow(row) && NoStrayIncremental(before, id);
      IncrementalsAreKeys(before, id, c);
      if IncrementalKey(id, c) in store.entries {
        var current := GetRow(id);
        return Ok(current);
      }
      LookupIsVisible(before, id);
      var existing := store.GetDocument(id);
      if existing.value == None {
        return Err(DependencyUnavailable);
      }
      var document := existing.value.value;
      ClosedIsSettled(document.applied);
      assert document.All() == document.applied;
      var loaded := LoadIncremental(document, payload);
      if c in document.applied || c !in loaded.applied {
        return Err(HashMismatch);
      }
      PayloadApplies(document.applied, c, payload);
      AddIncremental(before, id, c, payload);
      store.entries := store.entries[IncrementalKey(id, c) := Changes(payload)];
      return Ok(Some(reading.DecodeDocument(loaded.applied)));
    }

    method WriteIfAbsent(key: EntryKey, payload: set<Change>)
      requires WellKeyed(store.entries)
      requires key.kind.Snapshot? ==> key.hash == OfHeads(Heads(payload)) && Closed(payload)
      requires key.kind.Incremental? ==> key !in store.entries
      requires !key.kind.Metadata?
      modifies store
      ensures store.entries == old(store.entries)[key := Changes(payload)]
    {
      if key in store.entries {
        HeadsDetermineChanges(store.entries[key].payload, payload);
      } else {
        store.entries := store.entries[key := Changes(payload)];
      }
    }

    /** Merging a local change, saved when the table had `columnCount` columns. The row returned is the one the
        next `GetRow` reads exactly when the metadata record, if any, says deleted, and either the catalog has
        columns or the count equals the number of keys of the merged document. */
    method MergeRow(id: DocumentId, columnCount: nat, c: Change, payload: set<Change>)
      returns (r: Result<Option<Values.Row>, ApplyError>)
      requires GoodTable(store.entries) && LocalChange(RowOf(store.entries, id), c, payload)
      modifies store
      ensures match RowState.MergeRow(RowOf(old(store.entries), id), c, payload)
              case Err(error) => r == Err(error) && store.entries == old(store.entries)
              case Ok(after) => r.Ok? && RowMoves(store, id, RowOf(old(store.entries), id), after)
      ensures r.Ok? ==> (r.value == reading.Read(RowOf(store.entries, id)) <==>
                           ReadsBack(RowOf(old(store.entries), id), payload, columnCount))
    {
      ghost var before := store.entries;
      ghost var row := RowOf(before, id);
      assert GoodRow(row) && NoStrayIncremental(before, id);
      var deleted := MetadataDeleted(id);
      if deleted {
        return Ok(None);
      }
      LookupIsVisible(before, id);
      var existing := store.GetDocument(id);
      var document := if existing.value.Some? then existing.value.value else Document({}, {});
      ClosedIsSettled(document.applied);
      assert document.All() == document.applied;
      var loaded := LoadIncremental(document, payload);
      ClosedIsSettled(document.applied + payload);
      var decoded := reading.Decode(loaded.applied, columnCount);
      if existing.value == None {
        assert {} + payload == payload;
        AddSnapshot(before, id, payload);
        WriteIfAbsent(EntryKey(id, Snapshot, OfHeads(Heads(payload))), payload);
      } else {
        if loaded.applied <= document.applied {
          return Err(NoChange);
        }
        NewPayloadIsNew(document.applied, c, payload);
        AddIncremental(before, id, c, payload);
        IncrementalsAreKeys(before, id, c);
        WriteIfAbsent(IncrementalKey(id, c), payload);
      }
      return Ok(Some(decoded));
    }

    method ChangeInventory(id: DocumentId) returns (inventory: set<Change>)
      requires GoodTable(store.entries)
      ensures inventory == RowOf(store.entries, id).incrementals.Keys
    {
      inventory := set k | k in store.entries && k.id == id && k.kind.Incremental? && k.hash.OfChange? :: k.hash.change;
      LookupIsVisible(store.entries, id);
      assert GoodRow(RowOf(store.entries, id));
      forall c
        ensures c in inventory <==> c in RowOf(store.entries, id).incrementals
      {
        IncrementalsAreKeys(store.entries, id, c);
        if c in inventory { assert IncrementalKey(id, c) in store.entries; }
        if c in RowOf(store.entries, id).incrementals { assert IncrementalKey(id, c) in store.entries; }
      }
      var found := store.GetDocument(id);
      if found.value.Some? {
        inventory := inventory * found.value.value.applied;
      }
    }
  }

  lemma {:induction false} NewPayloadIsNew(doc: set<Change>, c: Change, payload: set<Change>)
    requires Closed(doc) && GoodPayload(c, payload) && !(payload <= doc)
    ensures c !in doc
  {
    if c in doc {
      forall a | a in payload ensures a in doc { ClosedUnderWithin(a, c, doc); }
    }
  }

  /** A row with a metadata record that does not say deleted: merging a state answers with a row, and the next read
      finds none. */
  method MergedStateIsNotRead(reading: Reading) returns (answered: Option<Values.Row>, read: Option<Values.Row>)
    ensures answered.Some? && read == None
  {
    var codec := new RowCodec(reading);
    codec.MergeMetadata([], false);
    answered := codec.MergeState([], {});
    read := codec.GetRow([]);
  }

  /** So it is with a local change. */
  method MergedRowIsNotRead(reading: Reading, content: nat)
    returns (answered: Result<Option<Values.Row>, ApplyError>, read: Option<Values.Row>)
    ensures answered.Ok? && answered.value.Some? && read == None
  {
    var codec := new RowCodec(reading);
    codec.MergeMetadata([], false);
    var c := Change(content, {});
    ghost var row := RowOf(codec.store.entries, []);
    assert row.meta == Some(false) && Within(c, c) && Closed({} + {c});
    assert !codec.ReadsBack(row, {c}, 0);
    answered := codec.MergeRow([], 0, c, {c});
    read := codec.GetRow([]);
  }

  /** `get_row` and `scan_rows` agree on which rows exist: a row is read exactly when its document reconstructs. */
  lemma {:induction false} GetAgreesWithScan(entries: Table, id: DocumentId, reading: Reading)
    requires GoodTable(entries)
    ensures reading.Read(RowOf(entries, id)).Some?
        <==> !RowOf(entries, id).Deleted() && exists doc :: Lookup(entries, id) == Some(Some(doc))
  {
    LookupIsVisible(entries, id);
  }
}
