// One row, two views: the changes and marks the codec stores and a session exchanges, and the documents and deleted ids
// that statements and indexes are about. What one view takes in, the other does, with the same refusals.
module RowDatabase {
  import opened RowState
  import opened SyncCatalog
  import opened SyncState
  import opened Wrappers
  import opened Changes
  import Automerge
  import Catalog
  import Index
  import SyncIndexes

  // How a set of changes reads as a document, and which columns are in conflict in it.
  datatype Show = Show(document: set<Automerge.Change> -> Catalog.Doc,
                       conflicts: set<Automerge.Change> -> set<Catalog.Name>)

  function ShownDoc(show: Show, r: RowState.Row): Option<Catalog.Doc> {
    match r.Visible() case None => None case Some(applied) => Some(show.document(applied))
  }

  function ShownConflicts(show: Show, r: RowState.Row): set<Catalog.Name> {
    match r.Visible() case None => {} case Some(applied) => show.conflicts(applied)
  }

  /** The database has the row's document, with its conflicts, if it is visible, and its id among the deleted exactly if
      it is deleted. */
  ghost predicate Shows(show: Show, db: Index.Database, k: RowKey, r: RowState.Row) {
    && r.meta != Some(false)
    && db.DocAt(k.table, k.row) == ShownDoc(show, r)
    && (!r.Deleted() ==> db.Disputed(k.table, k.row) == ShownConflicts(show, r))
    && (k.row in db.Dead(k.table) <==> r.Deleted())
  }

  ghost predicate ShowsReplica(show: Show, db: Index.Database, rep: Replica) {
    Describes(rep.catalog, db) && forall k :: Shows(show, db, k, rep.RowAt(k))
  }

  // ---------------------------------------------------------------------------------------------
  // Local changes
  // ---------------------------------------------------------------------------------------------

  /** `encode_row` records a change only where it puts another value, so that the document then reads differently; and
      it puts none under a column in conflict, so that the conflicts stay what they were. */
  ghost predicate Recorded(show: Show, r: RowState.Row, payload: set<Automerge.Change>) {
    && (r.Visible().Some? && !(payload <= r.doc.value) ==>
          show.document(r.doc.value + payload) != show.document(r.doc.value))
    && (!r.Deleted() ==> show.conflicts(r.Held() + payload) == ShownConflicts(show, r))
  }

  /** The document a row write leaves visible is the one the codec's merge of the local change leaves, and the write is
      refused for want of a change exactly when the merge is. */
  lemma {:induction false} WriteIsMerge(show: Show, db: Index.Database, k: RowKey, r: RowState.Row,
                                        c: Automerge.Change, payload: set<Automerge.Change>)
    requires Shows(show, db, k, r) && !db.Def(k.table).deleted && Recorded(show, r, payload)
    ensures var merged := show.document(r.Held() + payload);
            match MergeRow(r, c, payload)
            case Err(error) => error == NoChange && Idle(db, k.table, k.row, merged)
            case Ok(after) =>
              && !Idle(db, k.table, k.row, merged)
              && Shows(show, Effect(db, WriteRow(k.table, k.row, merged)), k, after)
  {
    FlagValues(r.meta);
    if r.Visible().Some? && payload <= r.doc.value {
      assert r.doc.value + payload == r.doc.value;
    }
  }

  /** A row deletion leaves the row as deleted as the codec's tombstone does, for good: whatever the codec is given
      afterwards leaves it as it is. */
  lemma {:induction false} DeletionIsTombstone(show: Show, db: Index.Database, k: RowKey, r: RowState.Row,
                                               ops: seq<Operation>)
    requires Shows(show, db, k, r) && !db.Def(k.table).deleted
    requires forall op :: op in ops ==> op != OnMetadata(false)
    ensures Shows(show, Effect(db, DeleteRow(k.table, k.row)), k, RowState.DeleteRow(r))
    ensures RowState.DeleteRow(r).Deleted() && RowState.DeleteRow(r).Visible() == None
    ensures Run(RowState.DeleteRow(r), ops) == RowState.DeleteRow(r)
  {
    var written := SetDoc(db, k.table, k.row, None);
    assert Effect(db, DeleteRow(k.table, k.row)) == Bury(written, k.table, k.row);
    DeletedStays(RowState.DeleteRow(r), ops);
  }

  lemma {:induction false} DeletedStays(r: RowState.Row, ops: seq<Operation>)
    requires r.Deleted() && forall op :: op in ops ==> op != OnMetadata(false)
    ensures Run(r, ops) == r
  {
    if ops != [] {
      var init := ops[..|ops| - 1];
      assert ops[|ops| - 1] in ops;
      forall op | op in init
        ensures op != OnMetadata(false)
      {
        assert op in ops;
      }
      DeletedStays(r, init);
    }
  }

  // ---------------------------------------------------------------------------------------------
  // Received units
  // ---------------------------------------------------------------------------------------------

  /** Two databases differ in one row at most. */
  ghost predicate SameButFor(k: RowKey, a: Index.Database, b: Index.Database) {
    && b == a.(docs := b.docs, disputed := b.disputed, dead := b.dead)
    && forall o: RowKey :: o != k ==>
         && b.DocAt(o.table, o.row) == a.DocAt(o.table, o.row)
         && b.Disputed(o.table, o.row) == a.Disputed(o.table, o.row)
         && (o.row in b.Dead(o.table) <==> o.row in a.Dead(o.table))
  }

  lemma {:induction false} SetDocElsewhere(db: Index.Database, k: RowKey, after: Option<Catalog.Doc>)
    ensures SameButFor(k, db, SetDoc(db, k.table, k.row, after))
  {
  }

  lemma {:induction false} DisputeElsewhere(db: Index.Database, k: RowKey, conflicts: set<Catalog.Name>)
    ensures SameButFor(k, db, Dispute(db, k.table, k.row, conflicts))
    ensures Dispute(db, k.table, k.row, conflicts).Disputed(k.table, k.row) == conflicts
  {
  }

  lemma {:induction false} BuryElsewhere(db: Index.Database, k: RowKey)
    ensures SameButFor(k, db, Bury(db, k.table, k.row))
  {
  }

  lemma {:induction false} MergedElsewhere(db: Index.Database, k: RowKey, after: Option<Catalog.Doc>,
                                           conflicts: set<Catalog.Name>)
    ensures SameButFor(k, db, Merged(db, k.table, k.row, after, conflicts))
  {
    var written := SetDoc(db, k.table, k.row, after);
    SetDocElsewhere(db, k, after);
    BuryElsewhere(written, k);
    DisputeElsewhere(if after.Some? then written else Bury(written, k.table, k.row), k, conflicts);
  }

  lemma {:induction false} DescribesApart(catalog: Entries, a: Index.Database, b: Index.Database)
    requires Describes(catalog, a) && b == a.(docs := b.docs, disputed := b.disputed, dead := b.dead)
    ensures Describes(catalog, b)
  {
    assert forall t :: a.Def(t) == b.Def(t);
    assert forall n, t :: a.Indexed(n, t) <==> b.Indexed(n, t);
  }

  lemma {:induction false} RowReplaced(show: Show, a: Index.Database, b: Index.Database, rep: Replica, k: RowKey,
                                       r: RowState.Row)
    requires ShowsReplica(show, a, rep) && SameButFor(k, a, b) && Shows(show, b, k, r)
    ensures ShowsReplica(show, b, rep.(rows := rep.rows[k := r]))
  {
    var next := rep.(rows := rep.rows[k := r]);
    DescribesApart(rep.catalog, a, b);
    forall o
      ensures Shows(show, b, o, next.RowAt(o))
    {
      assert Shows(show, a, o, rep.RowAt(o));
    }
  }

  lemma {:induction false} RowIsReceipt(show: Show, db: Index.Database, k: RowKey, r: RowState.Row,
                                        state: Option<set<Automerge.Change>>, meta: Option<bool>)
    requires Shows(show, db, k, r) && (state.Some? || meta.Some?) && meta != Some(false)
    ensures var next := MergeContent(r, state, meta);
            Shows(show, Merged(db, k.table, k.row, ShownDoc(show, next), ShownConflicts(show, next)), k, next)
    ensures Touched(r, state, meta) <==>
            db.DocAt(k.table, k.row).Some? || ShownDoc(show, MergeContent(r, state, meta)).Some?
  {
    FlagValues(meta);
    FlagValues(r.meta);
  }

  lemma {:induction false} UnitResult(rep: Replica, k: RowKey, state: Option<set<Automerge.Change>>,
                                      meta: Option<bool>)
    ensures ApplyUnit(rep, NewUnit(OfRow(k), RowContent(state, meta)))
            == if TakesRow(rep.catalog, k.table, Touched(rep.RowAt(k), state, meta)) then
                 Ok(rep.(rows := rep.rows[k := MergeContent(rep.RowAt(k), state, meta)]))
               else Err(EngineFailure)
  {
  }

  /** A received unit of a row is accepted by the protocol's replica exactly when it is by the engine with its indexes,
      and they go on showing the same. */
  lemma {:induction false} UnitIsReceipt(show: Show, db: Index.Database, rep: Replica, k: RowKey,
                                         state: Option<set<Automerge.Change>>, meta: Option<bool>)
    requires ShowsReplica(show, db, rep) && Index.Good(db)
    requires (state.Some? || meta.Some?) && meta != Some(false)
    ensures var next := ApplyUnit(rep, NewUnit(OfRow(k), RowContent(state, meta)));
            var r := MergeContent(rep.RowAt(k), state, meta);
            var merged := Merged(db, k.table, k.row, ShownDoc(show, r), ShownConflicts(show, r));
            && (next.Ok? <==> ReceiptAccepted(db, k.table, ShownDoc(show, r).Some?))
            && (next.Ok? ==> ShowsReplica(show, merged, next.value))
  {
    var r := rep.RowAt(k);
    var merged := MergeContent(r, state, meta);
    var after := ShownDoc(show, merged);
    UnitResult(rep, k, state, meta);
    assert Shows(show, db, k, r);
    RowIsReceipt(show, db, k, r, state, meta);
    TakesReceipt(rep.catalog, db, k.table, k.row, after);
    MergedElsewhere(db, k, after, ShownConflicts(show, merged));
    RowReplaced(show, db, Merged(db, k.table, k.row, after, ShownConflicts(show, merged)), rep, k, merged);
  }

  // ---------------------------------------------------------------------------------------------
  // Received changes
  // ---------------------------------------------------------------------------------------------

  function Applied(rep: Replica, ch: RowChange): Replica
    requires ApplyChange(rep.RowAt(ch.row), ch.id, ch.payload).Ok?
  {
    rep.(rows := rep.rows[ch.row := ApplyChange(rep.RowAt(ch.row), ch.id, ch.payload).value])
  }

  function MutationOf(show: Show, rep: Replica, ch: RowChange): Mutation
    requires ApplyChange(rep.RowAt(ch.row), ch.id, ch.payload).Ok?
  {
    var r := Applied(rep, ch).RowAt(ch.row);
    Mutation(ch.row.table, ch.row.row, ShownDoc(show, r), ShownConflicts(show, r))
  }

  /** The changes of a batch as mutations: each row with the document it then shows. */
  function Mutations(show: Show, rep: Replica, batch: seq<RowChange>): (mutations: seq<Mutation>)
    requires ApplyChanges(rep, batch).Ok?
    ensures |mutations| == |batch|
    decreases batch
  {
    if batch == [] then []
    else
      [MutationOf(show, rep, batch[0])] + Mutations(show, Applied(rep, batch[0]), batch[1..])
  }

  /** Whether a mutation leaves a document is whether its row was visible before the batch. */
  lemma {:induction false} MutationAt(show: Show, rep: Replica, batch: seq<RowChange>, i: nat)
    requires ApplyChanges(rep, batch).Ok? && i < |batch|
    ensures var m, k := Mutations(show, rep, batch)[i], batch[i].row;
            m.table == k.table && m.id == k.row && m.after.Some? == rep.RowAt(k).Visible().Some?
    decreases batch
  {
    var ch, next := batch[0], Applied(rep, batch[0]);
    assert [ch][0] == ch && [ch][1..] == [] && ApplyChanges(rep, [ch]) == Ok(next);
    SyncIndexes.ChangesKeepSight(rep, [ch], batch[i].row);
    if i > 0 {
      MutationAt(show, next, batch[1..], i - 1);
    }
  }

  lemma {:induction false} SetDocsCons(db: Index.Database, m: Mutation, rest: seq<Mutation>)
    ensures SetDocs(db, [m] + rest) == SetDocs(SetDoc(db, m.table, m.id, m.after), rest)
  {
    var all := [m] + rest;
    if rest == [] {
      assert all[..0] == [] && all[0] == m;
    } else {
      assert all[..|all| - 1] == [m] + rest[..|rest| - 1];
      SetDocsCons(db, m, rest[..|rest| - 1]);
    }
  }

  lemma {:induction false} DisputeAllCons(db: Index.Database, m: Mutation, rest: seq<Mutation>)
    ensures DisputeAll(db, [m] + rest) == DisputeAll(Dispute(db, m.table, m.id, m.conflicts), rest)
  {
    var all := [m] + rest;
    if rest == [] {
      assert all[..0] == [] && all[0] == m;
    } else {
      assert all[..|all| - 1] == [m] + rest[..|rest| - 1];
      DisputeAllCons(db, m, rest[..|rest| - 1]);
    }
  }

  lemma {:induction false} DocsApart(a: Index.Database, b: Index.Database, mutations: seq<Mutation>)
    requires b == a.(disputed := b.disputed)
    ensures SetDocs(b, mutations) == SetDocs(a, mutations).(disputed := b.disputed)
  {
    if mutations != [] {
      DocsApart(a, b, mutations[..|mutations| - 1]);
    }
  }

  function MergedOne(db: Index.Database, m: Mutation): Index.Database {
    Dispute(SetDoc(db, m.table, m.id, m.after), m.table, m.id, m.conflicts)
  }

  lemma {:induction false} AllMergedCons(db: Index.Database, m: Mutation, rest: seq<Mutation>)
    ensures AllMerged(db, [m] + rest) == AllMerged(MergedOne(db, m), rest)
  {
    var written := SetDoc(db, m.table, m.id, m.after);
    SetDocsCons(db, m, rest);
    DisputeAllCons(SetDocs(written, rest), m, rest);
    DocsApart(written, MergedOne(db, m), rest);
    SetDocsKeepsCatalog(written, rest);
    assert Dispute(SetDocs(written, rest), m.table, m.id, m.conflicts) == SetDocs(MergedOne(db, m), rest);
  }

  lemma {:induction false} ChangeShows(show: Show, db: Index.Database, rep: Replica, ch: RowChange)
    requires ShowsReplica(show, db, rep) && ApplyChange(rep.RowAt(ch.row), ch.id, ch.payload).Ok?
    ensures ShowsReplica(show, MergedOne(db, MutationOf(show, rep, ch)), Applied(rep, ch))
  {
    var r := ApplyChange(rep.RowAt(ch.row), ch.id, ch.payload).value;
    assert Shows(show, db, ch.row, rep.RowAt(ch.row));
    SetDocElsewhere(db, ch.row, ShownDoc(show, r));
    DisputeElsewhere(SetDoc(db, ch.row.table, ch.row.row, ShownDoc(show, r)), ch.row, ShownConflicts(show, r));
    RowReplaced(show, db, MergedOne(db, MutationOf(show, rep, ch)), rep, ch.row, r);
  }

  lemma {:induction false} ChangesShow(show: Show, db: Index.Database, rep: Replica, batch: seq<RowChange>)
    requires ShowsReplica(show, db, rep) && ApplyChanges(rep, batch).Ok?
    ensures ShowsReplica(show, AllMerged(db, Mutations(show, rep, batch)), ApplyChanges(rep, batch).value)
    decreases batch
  {
    if batch != [] {
      var next, m := Applied(rep, batch[0]), MutationOf(show, rep, batch[0]);
      ChangeShows(show, db, rep, batch[0]);
      ChangesShow(show, MergedOne(db, m), next, batch[1..]);
      AllMergedCons(db, m, Mutations(show, next, batch[1..]));
    }
  }

  lemma {:induction false} MutationAccepted(show: Show, db: Index.Database, rep: Replica, batch: seq<RowChange>,
                                            i: nat)
    requires ShowsReplica(show, db, rep) && Index.Good(db) && ApplyChanges(rep, batch).Ok? && i < |batch|
    ensures var m := Mutations(show, rep, batch)[i];
            ReceiptAccepted(db, m.table, m.after.Some?) <==> TakesChange(rep, batch[i])
  {
    var m, k := Mutations(show, rep, batch)[i], batch[i].row;
    MutationAt(show, rep, batch, i);
    assert Shows(show, db, k, rep.RowAt(k));
    TakesReceipt(rep.catalog, db, m.table, m.id, m.after);
  }

  lemma {:induction false} ChangesAccepted(show: Show, db: Index.Database, rep: Replica, batch: seq<RowChange>)
    requires ShowsReplica(show, db, rep) && Index.Good(db) && ApplyChanges(rep, batch).Ok?
    ensures ReceiptsAccepted(db, Mutations(show, rep, batch)) <==> forall ch :: ch in batch ==> TakesChange(rep, ch)
  {
    var mutations := Mutations(show, rep, batch);
    forall i | 0 <= i < |batch|
      ensures ReceiptAccepted(db, mutations[i].table, mutations[i].after.Some?) <==> TakesChange(rep, batch[i])
    {
      MutationAccepted(show, db, rep, batch, i);
    }
    assert forall i :: 0 <= i < |batch| ==> mutations[i] in mutations && batch[i] in batch;
  }

  /** A received batch of changes is accepted by the protocol's replica exactly when its rows can take its changes and
      the engine with its indexes accepts them, and they go on showing the same. */
  lemma {:induction false} BatchIsReceipts(show: Show, db: Index.Database, rep: Replica, batch: seq<RowChange>)
    requires ShowsReplica(show, db, rep) && Index.Good(db) && forall ch :: ch in batch ==> ch.payload != {}
    ensures ApplyBatch(rep, batch).Ok? <==>
            ApplyChanges(rep, batch).Ok? && ReceiptsAccepted(db, Mutations(show, rep, batch))
    ensures ApplyBatch(rep, batch).Ok? ==>
              ShowsReplica(show, AllMerged(db, Mutations(show, rep, batch)), ApplyBatch(rep, batch).value)
  {
    BatchResult(rep, batch);
    if ApplyChanges(rep, batch).Ok? {
      ChangesAccepted(show, db, rep, batch);
      ChangesShow(show, db, rep, batch);
    }
  }

  lemma {:induction false} BatchResult(rep: Replica, batch: seq<RowChange>)
    requires forall ch :: ch in batch ==> ch.payload != {}
    ensures ApplyBatch(rep, batch).Ok? <==>
            ApplyChanges(rep, batch).Ok? && forall ch :: ch in batch ==> TakesChange(rep, ch)
    ensures ApplyBatch(rep, batch).Ok? ==> ApplyBatch(rep, batch) == ApplyChanges(rep, batch)
  {
  }
}
