# Verified model of an offline-first database

The repository is a database that works offline: a transactional key/value kernel, tables whose rows are stored as CRDT
documents under ordered byte keys, indexes derived from the visible rows, and a session in which two replicas bring each
other up to date. This project models those parts in Dafny and proves what each of them is there for.

One module per component, from the bottom up:

- `Bytes`, `Values`, `RowTable`, `DocumentKey`: byte order, the value order, and the two order-preserving key codecs.
- `Kernel`, `PatchTree`: the optimistic in-memory kernel as a class and as a machine over interleaved events, and the
  patch overlay of the in-memory B-tree.
- `Automerge`: what the repository relies on of an Automerge document. A change holds the changes it depends on, so it
  stands for its own hash; a document is a set of applied changes and a queue; loading adds to the queue and drains it.
- `Reconstruction`, `DocumentStore`: rebuilding documents from stored entries, one at a time and streaming; lookup,
  range removal and compaction.
- `RowState`, `RowStore`: a row as the codec sees it (changes, incrementals, tombstone), each codec operation as a
  function on it, and the codec's methods on the entry table proved against those functions.
- `Catalog`, `Index`, `Changes`: the decoded catalog, the column lists read off it, the index records, the one step that
  applies a schema or row change together with the index updates it needs, received row units and received change
  batches.
- `Statements`, `StatementEffects`, `StatementRuns`, `Executor`: what local statements and received changes mean on
  catalog and rows alone, in whole runs; what they leave as the rows read afterwards show it; what holds in every state of
  a run; and the executor's methods, proved against these meanings.
- `Sorting`, `SyncManifest`, `SyncCatalog`, `SyncState`, `SyncMachine`, `SyncRun`, `SyncSafety`, `SyncHalting`,
  `SyncConvergence`, `SyncIndexes`, `SyncConditions`, `SyncWitnesses`, `SyncEngine`: manifests; catalog entries and when
  the indexes they define take a received row; what a session exchanges; the session as two parties with FIFO channels;
  all its runs; its runs with faults; how they end; what two successful ones achieve; which rows are taken on the way;
  when sessions succeed and when one is enough; what sessions do not achieve; and the session's own loops on a replica
  updated in place.
- `RowDatabase`: the two views of a row joined. The changes and marks that the codec stores and a session exchanges, and
  the documents and deleted ids that statements and indexes are about, take in the same things with the same refusals.

Code that changes state is modelled by classes and methods with loops, proved against functions; the theorems are about
those functions and the machines built from them. In the session, how a side orders its outbound and cuts it into frames
is a parameter (`Policy`), so the theorems hold for the code's hash order and frame size and for any other.

Where the code and its comments or plans leave a question, the code decides:

- The plan asks whether reconstruction in hash order is right (docs/kv-plan.md:66). It is: see
  `Reconstruction.ReconstructionIgnoresOrder`.
- `decode_ordered` accepts byte strings `encode_ordered` never produces; `DocumentKey.EncodeInvertsDecode` says which.
- `run_compaction` loses the document when its snapshot key is already stored; `DocumentStore.CompactionLosesExactlyCompacted`
  says when that is, and `DocumentStore.CompactingTwiceLoses` that a second compaction always does.
- `merge_row` and `merge_state` return something other than what the next read finds for a row whose metadata record says
  "not deleted"; the contracts say exactly when, and `RowStore.MergedRowIsNotRead` and `RowStore.MergedStateIsNotRead`
  show it.
- CREATE INDEX IF NOT EXISTS over an index that exists leaves it alone when its columns are given by name
  (crates/engine/src/executor.rs:309-333), and redefines it when they are given by position
  (crates/engine/src/executor.rs:244-307); `Changes.RedefinitionKeepsLaterFields` says what comes out.
- Writes of a B-tree transaction are computed from the base they read, and other transactions may commit underneath;
  `PatchTree.ActsAlikeExactly` says which writes still mean the same then.
- Catalog entries that differ are swapped and not merged; `SyncConvergence.CatalogsAreExchanged`, and for a pair
  `SyncWitnesses.EntriesAreSwapped`.
- A session between two good replicas may fail every time. A change that the other side holds without listing it is sent,
  and refused as a mismatch (crates/engine-automerge/src/codec.rs:730-738); `SyncWitnesses.OrdinaryUseMayFail` comes to
  such a pair by one session and one local change. And a row is refused when its table has an index and not exactly one
  key column (crates/engine/src/index.rs:205-241), as a table has that was dropped and created again with another key
  (`Statements.RecreatedHasTwoKeys`); `SyncWitnesses.IndexMayRefuse` shows such a pair.
  `SyncConditions.SessionsSucceedExactly` says for which replicas every session succeeds.
- An UPDATE that leaves a matching row as it is fails, and with it the batch it is in, because it has no change to record
  (crates/engine-automerge/src/codec.rs:486-490): `Statements.RenamingAdaToAdaFails`, and exactly when in
  `Statements.SettingWhatIsThere`.
- A session that succeeds need not make two replicas agree (`SyncWitnesses.OneSessionIsNotEnough`); two in a row do
  (`SyncConvergence.TwoSessionsConverge`), and `SyncConditions.OneSessionSuffices` says when one is enough.

`dafny verify dfyconfig.toml` checks the whole project.

## Model

| member | source | states |
|---|---|---|
| `Bytes.EscapedDiverges` | crates/engine/src/row_table.rs:122-131 | Zero-escaped strings are ordered as their originals and prefix-free: they differ at a byte both have, whatever follows. |
| `RowTable.WriteValue` | crates/engine/src/row_table.rs:88-131 | The encoder appends exactly the encoding of the value to the buffer. |
| `RowTable.WriteKey` | crates/engine/src/row_table.rs:78-86 | The key bytes are the value encodings, the two-byte separator and the serialized row. |
| `RowTable.ValueDiverges` | crates/engine/src/row_table.rs:88-131 | A smaller value's encoding is smaller at a byte both encodings have: monotone and prefix-free within and across variants, with sign-flipped integers and escaped text. |
| `RowTable.KeyOrderPreserved` | crates/engine/src/row_table.rs:78-131 | A smaller row has the smaller key bytes, for rows of any length and any mix of variants. |
| `RowTable.KeyOrderReflected` | crates/value/src/value.rs:168-184 | Row order and byte order of keys are the same in both directions, and keys are equal only for equal rows. |
| `RowTable.DecodeKey` | crates/engine/src/row_table.rs:133-162 | The nested skip loops find exactly the payload the scan function describes, or nothing. |
| `RowTable.PayloadStartsAfterValues` | crates/engine/src/row_table.rs:133-162 | The skip loop stops at the separator and never at a zero pair inside a UUID, number or escaped payload. |
| `RowTable.KeyRoundTrip` | crates/engine/src/row_table.rs:78-162 | Decoding inverts encoding for every row, given a lossless row serializer. |
| `DocumentKey.EncodeOrdered` | crates/btree-automerge/src/document_change_key.rs:80-92 | The loop writes the escaped id, the terminator, the type and the hash. |
| `DocumentKey.DecodeOrdered` | crates/btree-automerge/src/document_change_key.rs:94-126 | The loop computes the decoding function, with the same rejections. |
| `DocumentKey.KeyOrderIsByteOrder` | crates/btree-automerge/src/document_change_key.rs:171-178 | The (id, type, hash) order is byte order of the encodings, in both directions, for ids of any length and any bytes. |
| `DocumentKey.DecodeInvertsEncode` | crates/btree-automerge/src/document_change_key.rs:80-126 | Every encoded key decodes to itself. |
| `DocumentKey.EncodeInvertsDecode` | crates/btree-automerge/src/document_change_key.rs:94-126 | A decodable string is the encoding of what it decodes to if and only if every zero byte of its id part is escaped. |
| `DocumentKey.DecodeAcceptsLoneZero` | crates/btree-automerge/src/document_change_key.rs:107-110 | A concrete string that decodes and that no key encodes to. |
| `DocumentKey.EncodedRangeIsIdRange` | crates/btree-automerge/src/document_change_key.rs:151-168 | An encoded key lies between the encoded bounds exactly when its id lies in the id range, for included, excluded and unbounded ends. |
| `DocumentKey.EncodedRangeForIsOneId` | crates/btree-automerge/src/document_change_key.rs:144-149 | The range for an id holds exactly the keys with that id. |
| `DocumentKey.ExcludedEnds` | crates/engine/src/bytes_table.rs:39-53 | A key is outside a range that excludes it as an end, and including it adds just that key. |
| `DocumentKey.RangesPartition` | crates/engine/src/bytes_table.rs:39-53 | The keys below a key and those from it on are all keys, and none is both; smaller keys are below. |
| `DocumentKey.ExcludedIdHasNoKey` | crates/btree-automerge/src/document_change_key.rs:151-168 | The encoded range for ids after, or before, an id has no key of that id. |
| `DocumentKey.RangeScan` | crates/engine/src/bytes_table.rs:39-92 | Filtering encoded keys by the encoded bounds and decoding them yields exactly the entries with ids in the range, in order. |
| `Automerge.Drain` | crates/btree-automerge/src/reconstruction.rs:37-52 | Applying ready changes in any order ends in the greatest causally closed subset of all changes present. |
| `Automerge.HeadsDetermineChanges` | crates/btree-automerge/src/compaction.rs:22-27 | Two closed change sets with the same heads are equal, so a snapshot's key identifies its document. |
| `Automerge.ChangesSinceHeads` | crates/engine-automerge/src/codec.rs:489-497 | Counted from a former state's heads, the changes are exactly those applied since. |
| `Reconstruction.ReconstructedDocument.Apply` | crates/btree-automerge/src/reconstruction.rs:30-58 | Applying an entry in place moves the state as the fold does, and fails exactly where it does. |
| `Reconstruction.FoldOfStoredOrder` | crates/btree-automerge/src/reconstruction.rs:30-58 | Entries in key order (snapshots, incrementals, metadata) fold to all their changes settled; any metadata hides the document; it is an error exactly when the first entry is an incremental. |
| `Reconstruction.ReconstructionIgnoresOrder` | crates/btree-automerge/src/reconstruction.rs:30-58 | Hash order, causal order and any other stored order of the same entries give the same document. |
| `Reconstruction.ReconstructDocuments` | crates/btree-automerge/src/reconstruction.rs:100-140 | The streaming loop with its pending document yields what the recursive description says. |
| `Reconstruction.NoKeyIsLost` | crates/btree-automerge/src/reconstruction.rs:61-140 | The yielded key lists concatenate to the keys of the input, also when a document or the source fails. |
| `Reconstruction.StreamIsGroupThenFold` | crates/btree-automerge/src/reconstruction.rs:100-140 | On sorted input the loop is grouping by id and folding each group: one result per id, in increasing id order. |
| `DocumentStore.Store.GetDocument` | crates/btree-automerge/src/util.rs:14-47 | Reading one id returns what its stored entries reconstruct to: nothing, an error, a hidden or a visible document. |
| `DocumentStore.Store.RemoveDocument` | crates/btree-automerge/src/util.rs:49-71 | Removal deletes exactly the entries of the id and returns the document there was. |
| `DocumentStore.Store.RemoveRange` | crates/btree-automerge/src/transaction.rs:106-139 | A consumed range removal deletes exactly the keys with ids in the range and yields exactly the documents there. |
| `DocumentStore.RunCompaction` | crates/btree-automerge/src/compaction.rs:60-89 | The insertion and the removal loop leave the table the compaction function describes. |
| `DocumentStore.CompactionKeepsOthers` | crates/btree-automerge/src/compaction.rs:60-89 | No other id's entries change. |
| `DocumentStore.CompactionKeepsDocument` | crates/btree-automerge/src/compaction.rs:60-89 | One entry and the same document are left if the new snapshot key was not stored before, and nothing at all if it was. |
| `DocumentStore.CompactionLosesExactlyCompacted` | crates/btree-automerge/src/compaction.rs:60-89 | The document is lost if and only if some stored snapshot of the id holds exactly the document's changes. |
| `DocumentStore.OneSnapshotIsLost` | crates/btree-automerge/src/compaction.rs:60-73 | Any document that is stored as one snapshot is lost by compaction, and the table left empty. |
| `DocumentStore.CompactingTwiceLoses` | crates/btree-automerge/src/compaction.rs:60-73 | A document that compaction kept is lost when it is compacted again. |
| `RowState.StepKeeps` | crates/engine-automerge/src/codec.rs:454-530 | Every codec operation keeps a row well formed, loses no change and no metadata record. |
| `RowState.RunKeeps` | crates/engine-automerge/src/codec.rs:148-167 | Over every run of operations nothing held is lost, and a row with a metadata record is never visible again whatever is merged later. |
| `RowState.InventoryAfter` | crates/engine-automerge/src/codec.rs:454-746 | What is stored as incrementals after an operation: a merged state leaves none of a row that was shown; an applied change, and a local one on a row that is shown, is added with its payload; a row's first local change is not, and nothing is on a deleted row. |
| `RowState.PayloadApplies` | crates/engine-automerge/src/codec.rs:725-738 | A change that can be applied brings its whole payload with it: nothing stays queued. |
| `RowStore.LookupIsVisible` | crates/btree-automerge/src/transaction.rs:16-40 | Reconstruction of a well-formed table yields the row's visible document with an empty queue. |
| `RowStore.GetAgreesWithScan` | crates/engine-automerge/src/codec.rs:356-392 | A row is read by id exactly when its document reconstructs, so the two ways of reading agree on which rows exist. |
| `RowStore.RowCodec.GetRow` | crates/engine-automerge/src/codec.rs:356-372 | The row read is the visible document decoded with its columns. |
| `RowStore.RowCodec.ScanRows` | crates/engine-automerge/src/codec.rs:374-392 | The scan returns exactly the rows that can be read by id, with the same values. |
| `RowStore.RowCodec.DeleteRow` | crates/engine-automerge/src/codec.rs:510-530 | Deleting writes the tombstone, touches nothing else and returns the row there was. |
| `RowStore.RowCodec.MergeMetadata` | crates/engine-automerge/src/codec.rs:645-654 | Merging metadata sets the row's metadata record and touches nothing else. |
| `RowStore.RowCodec.MergeState` | crates/engine-automerge/src/codec.rs:600-630 | A received state replaces the row's entries by one snapshot of the merge; the row returned is what the next read finds if and only if the row had no "not deleted" record. |
| `RowStore.RowCodec.ApplyChange` | crates/engine-automerge/src/codec.rs:701-746 | A received change is stored, repeated harmlessly or refused exactly as the row function says, and the row returned is what the next read finds. |
| `RowStore.RowCodec.MergeRow` | crates/engine-automerge/src/codec.rs:454-508 | A local change is stored as a snapshot or an incremental; the row returned is what the next read finds if and only if the row was deleted, or had no metadata and the column list both reads use is the catalog's or has as many columns as the merged document has keys. |
| `RowStore.RowCodec.ChangeInventory` | crates/engine-automerge/src/codec.rs:656-681 | The inventory is exactly the set of changes stored as incrementals. |
| `RowStore.MergedStateIsNotRead` | crates/engine-automerge/src/codec.rs:600-630 | A table where merging a state answers with a row and the next read finds none. |
| `RowStore.MergedRowIsNotRead` | crates/engine-automerge/src/codec.rs:454-508 | The same for a local change. |
| `RowStore.ReadDecodes` | crates/engine-automerge/src/codec.rs:169-187 | With the catalog's columns, the row the codec reads or returns from a merge is the decoded document the indexes are kept for. |
| `RowStore.ReadByColumn` | crates/engine-automerge/src/codec.rs:62-187 | A row reads, column by column, as its document's value or else the column's default; without a live column, as its values under the decimal numbers from 0 on. |
| `PatchTree.Patch.Remove` | crates/btree/src/in_memory_btree.rs:108-127 | Removal returns the value seen and hides the key in the overlay. |
| `PatchTree.Patch.Range` | crates/btree/src/in_memory_btree.rs:142-223 | The merged range, a map as in the source, is the overlay restricted to the range. |
| `PatchTree.Patch.RemoveRange` | crates/btree/src/in_memory_btree.rs:290-302 | Removing a range returns what was seen in it and leaves none of it. |
| `PatchTree.Patch.Commit` | crates/btree/src/in_memory_btree.rs:129-140 | Writing the patch back leaves the overlay, in whatever order the entries are taken. |
| `PatchTree.TransactionIsPrivateCopy` | crates/btree/src/in_memory_btree.rs:91-313 | After any sequence of writes the transaction sees, and commits, exactly a private copy of the base with the same writes. |
| `PatchTree.RemovalIsRemembered` | crates/btree/src/in_memory_btree.rs:108-127 | A removal holds against any later base if and only if the key was pending or in the base when it was removed. |
| `PatchTree.ActsAlikeExactly` | crates/btree/src/in_memory_btree.rs:91-313 | A write means the same on whatever base is underneath at commit if and only if it is an insert, an update of a pending key or one that changes no value and put none into the patch, or a removal of keys that are all pending or in the base. |
| `Kernel.Transaction.Execute` | crates/engine/src/in_memory.rs:84-112 | Every operation leaves the transaction's tables, and is answered, as the step of the interleaving machine says. |
| `Kernel.PutIsRead` | crates/engine/src/in_memory.rs:105-108 | After a put its key has the value put, whatever it had before, and every other key and table reads as it did. |
| `Kernel.RemovedIsGone` | crates/engine/src/in_memory.rs:110-112 | A removal answers what a read would have and leaves nothing under its key, and all else as it was. |
| `Kernel.DroppedIsMissing` | crates/engine/src/in_memory.rs:90-95 | A dropped table is missing, and the others are as they were. |
| `Kernel.EnsuredIsThere` | crates/engine/src/in_memory.rs:85-88 | Ensuring a table makes it, empty, where it is missing, and otherwise changes nothing. |
| `Kernel.ScanIsAllGets` | crates/engine/src/in_memory.rs:97-103 | A scan has exactly the pairs that are found by key. |
| `Kernel.LatestIsRead` | crates/engine/src/in_memory.rs:85-112 | After any operations from no tables on, a key has a value if and only if that was put last: while its table was there, and not overwritten, removed or dropped since. |
| `Kernel.Transaction.Commit` | crates/engine/src/in_memory.rs:114-127 | A commit installs the transaction's tables and counts up the revision when the revision is the one it began at, and otherwise fails and changes nothing. |
| `Kernel.ExecuteBatch` | crates/engine/src/executor.rs:30-81 | A batch commits the result of all its statements; it fails with the statement's error, or with a conflict exactly when another transaction has committed since it began, and then leaves the committed tables and the revision alone. |
| `Kernel.EveryInterleavingIsSerial` | crates/engine/src/in_memory.rs:50-132 | Every interleaving of transactions is equivalent to running the committed ones one at a time in commit order, with the same answers, and every transaction reads from a committed prefix. |
| `Kernel.CommitOrNothing` | crates/engine/src/in_memory.rs:114-132 | A commit takes effect exactly when nothing was committed since the transaction began; a failed commit or a rollback changes nothing. |
| `Catalog.SameColumns` | crates/engine-automerge/src/codec.rs:62-117 | A table's ordered column list is unique. |
| `Catalog.Columns` | crates/engine/src/schema.rs:296-353 | The engine reads that list, with an error for a dropped table. |
| `Catalog.CodecColumns` | crates/engine-automerge/src/codec.rs:62-117 | The codec reads the same list whenever a column is live, and numbered columns otherwise. |
| `Catalog.ResolveIndex` | crates/engine/src/index.rs:28-86 | An index schema names the positions of its live fields in the column list; it is an error exactly for a dropped table or an unknown column. |
| `Catalog.RowId` | crates/engine/src/executor.rs:1217-1234 | The row id is the UUID under the one primary-key column, and an error exactly when there is not exactly one or it holds no UUID. |
| `Catalog.RecordKey` | crates/engine/src/index.rs:114-128 | The record key is the row's values under the indexed columns and its id. |
| `Index.Transaction.UpdateIndex` | crates/engine/src/index.rs:213-241 | In one index the old row's record goes and the new row's comes; it succeeds exactly when the table has one primary key and, enforced, no other record has the same non-null values. |
| `Index.Transaction.UpdateRow` | crates/engine/src/index.rs:205-241 | All indexes of the table are so updated and no other; it succeeds exactly when the table is in use, its indexes name live columns, and each index accepts the update. |
| `Index.Transaction.UniqueKeyExists` | crates/engine/src/index.rs:243-258 | The scan finds a record with the same values exactly when there is one. |
| `Index.Transaction.RebuildTable` | crates/engine/src/index.rs:160-203 | After a rebuild every index of the table has exactly the records of its visible rows, and other indexes are untouched; it succeeds exactly when the indexes can be built, unique where enforced. |
| `Index.Least` | crates/engine/src/row_table.rs:24-43 | The key a scan yields first is the one with the smallest encoding. |
| `Index.SameValuesById` | crates/engine/src/index.rs:114-128 | Record keys with the same values stand in byte order by the row ids they end with. |
| `Index.FirstIsLeast` | crates/engine/src/index.rs:144-153 | The first key of the scan that begins with the values belongs to the matching row with the smallest id. |
| `Index.Transaction.Lookup` | crates/engine/src/index.rs:130-158 | The lookup returns the visible row with the smallest UUID among those with the given values, None exactly when there is none, and otherwise only the errors for a missing index, a dropped table and a wrong number of values. |
| `Changes.SchemaKeepsIdentified` | crates/engine/src/schema.rs:151-278 | While a table has one primary key, no schema change makes a row lose its id as the value of it. |
| `Changes.SchemaKeepsValues` | crates/engine/src/schema.rs:151-278 | No schema change alters what a row shows under a column there was, also once there is a second primary key. |
| `Changes.UpdatedIndexAgrees` | crates/engine/src/index.rs:205-241 | After a row update the records are those of the rows, because a record belongs to one row only. |
| `Changes.ChangeKeepsUnique` | crates/engine/src/index.rs:227-238 | Every change that is accepted with uniqueness enforced leaves the values of unique indexes distinct. |
| `Changes.MaterializeCreateTable` | crates/engine/src/change.rs:69-80 | Creating a table, or bringing a dropped one back with its rows, leaves all indexes in agreement; it succeeds exactly when the table's indexes can be built. |
| `Changes.MaterializeAddColumn` | crates/engine/src/schema.rs:175-205 | Adding a column leaves all indexes in agreement and succeeds exactly when the table's indexes can be built; a column that exists is left alone. |
| `Changes.MaterializeCreateIndex` | crates/engine/src/schema.rs:206-236 | Creating or redefining an index leaves all indexes in agreement; it succeeds exactly when the index resolves and can be built from the visible rows without repeated values. |
| `Changes.RedefinitionKeepsLaterFields` | crates/engine/src/executor.rs:243-251 | A redefined index has exactly the columns asked for if and only if the earlier definition has no live field at a later position. |
| `Changes.RedefinedOnOne` | crates/engine/src/schema.rs:206-236 | An index on columns a and b, redefined on c alone, comes out on c and b. |
| `Changes.MaterializeTombstoneIndex` | crates/engine/src/schema.rs:249-276 | Dropping an index drops its fields and its records and nothing else. |
| `Changes.MaterializeWriteRow` | crates/engine/src/change.rs:88-104 | A row write changes the row and keeps all indexes in agreement; it is refused exactly when the row shows just that already, the table has an index and no single primary key, or another visible row has the same non-null values on a unique index. |
| `Changes.MaterializeDeleteRow` | crates/engine/src/change.rs:105-111 | A row deletion always succeeds, removes the row and keeps all indexes in agreement. |
| `Changes.MaterializeChange` | crates/engine/src/change.rs:58-115 | Every change succeeds exactly when its condition on catalog and rows holds, has its stated effect on them, and keeps every active index equal to the record keys of the visible rows. |
| `Statements.DocReadsBack` | crates/engine-automerge/src/codec.rs:169-187 | A row put column by column and decoded with the same columns is the row. |
| `Statements.AssignedAlike` | crates/engine/src/executor.rs:775-798 | Two rows whose indexed values are equal once one of them is assigned have equal values once both are. |
| `Statements.ClashRemains` | crates/engine/src/executor.rs:775-798 | A unique violation met part way through an UPDATE is one among the rows as they would come out: the order of the rows does not decide whether there is one. |
| `Statements.SettingWhatIsThere` | crates/engine-automerge/src/codec.rs:484-490 | UPDATE t SET c = v WHERE c = v is refused for want of a change exactly when some visible row has v put under c, and not when all of them show it as the column's default. |
| `Statements.RenamingAdaToAdaFails` | crates/engine-automerge/src/codec.rs:484-490 | A database and an UPDATE to the name a user has: it fails, and so does the batch it is in. |
| `Statements.RecreatedHasTwoKeys` | crates/engine/src/schema.rs:156-205 | A table that was dropped and is created again with a key column it did not have comes out with two key columns, and so without a row id. |
| `Statements.LocalRunsHaveNoConflicts` | crates/engine-automerge/src/codec.rs:394-416 | Without a receipt no column ever comes into conflict, so in a local run no assignment is refused for one. |
| `StatementEffects.MatchingIsRead` | crates/engine/src/executor.rs:936-961 | A predicate selects exactly the visible rows that show the value in the row read, put there or by default. |
| `StatementEffects.InsertIsRead` | crates/engine/src/executor.rs:1174-1215 | The row an INSERT makes visible reads, position by position, as the values given, with the generated UUID in front exactly when they are too few and the first column is the key, and then as the columns' defaults; it has the row's id under the one key, was neither visible nor deleted before, and no other row changes. |
| `StatementEffects.UpdateIsRead` | crates/engine/src/executor.rs:743-800 | After an UPDATE the matching rows show under each column the value assigned to it last, and under the others what they showed; every other row is as it was. |
| `StatementEffects.ConflictIsRefused` | crates/engine-automerge/src/codec.rs:394-416 | An UPDATE that assigns to a column in conflict in a matching row fails. |
| `StatementEffects.IfClauses` | crates/engine/src/executor.rs:147-230 | Without IF EXISTS or IF NOT EXISTS a statement on what is not there, or is already, fails; with it, it succeeds and changes nothing. |
| `StatementEffects.DeleteIsRead` | crates/engine/src/executor.rs:802-843 | After a DELETE no row shows the value, the other rows are as they were, and no INSERT can use the ids of the deleted ones. |
| `StatementEffects.AlterIsRead` | crates/engine-automerge/src/codec.rs:169-187 | After ALTER TABLE a visible row shows the default under an added column it has no value for, and under every column there was what it showed. |
| `StatementEffects.AlterAppends` | crates/engine/src/executor.rs:373-422 | Where columns' positions are below their number, every row then reads as before with the defaults of the new columns behind. |
| `StatementEffects.AlterKeepsKey` | crates/engine/src/executor.rs:409-411 | No ALTER TABLE changes which columns are the key. |
| `StatementEffects.DefaultIsFound` | crates/engine/src/executor.rs:936-961 | WHERE on an added column with its default finds every row that has no value for it. |
| `StatementEffects.DefaultIsLookedUp` | crates/engine/src/index.rs:130-158 | So does a lookup with what a row shows, in an index on that column. |
| `StatementEffects.CreateTableIsRead` | crates/engine/src/executor.rs:512-552 | A table created for the first time has exactly the declared columns, in their order, and one key. |
| `StatementEffects.CreateTableSucceeds` | crates/engine/src/executor.rs:158-172 | CREATE TABLE with one UUID key succeeds for any name that is not in use and has no index, also for one that was dropped. |
| `StatementEffects.AlterTableSucceeds` | crates/engine/src/executor.rs:373-422 | ALTER TABLE with new columns that are no keys succeeds for a table without an index. |
| `StatementEffects.KeyIsOneUuid` | crates/schema/src/schema.rs:47-68 | A table with two keys, or with a key that is no UUID, is not created. |
| `StatementEffects.DroppedTableIsGone` | crates/engine/src/schema.rs:246-248 | A dropped table is no table to INSERT, UPDATE and DELETE; its rows stay, and other tables are as they were. |
| `StatementEffects.RecreatedIsRead` | crates/engine/src/schema.rs:156-174 | Created again, it comes back with its rows, which show under their columns what they showed. |
| `StatementEffects.CreatedIndexIsInUse` | crates/engine/src/schema.rs:206-236 | An index that is created or redefined is in use, on the table and with the uniqueness asked for; it begins with the columns asked for and has no others unless an earlier definition left some. |
| `StatementEffects.UniqueIsEnforced` | crates/engine/src/index.rs:227-238 | An INSERT that nothing else stands against is refused as a violation if and only if its row repeats, under the columns of a unique index in use, what another visible row shows, and none of that is null. |
| `StatementEffects.CreatedUniqueRefuses` | crates/engine/src/schema.rs:213-220 | After CREATE UNIQUE INDEX such an INSERT is refused if it repeats another row under the columns asked for. |
| `StatementEffects.PlainIndexRefusesNothing` | crates/engine/src/schema.rs:213-220 | A new index that is not unique changes the outcome of no INSERT and no UPDATE. |
| `StatementEffects.SecondAda` | crates/engine/src/index.rs:227-238 | A second user of a name is accepted before CREATE UNIQUE INDEX on names, and refused after it. |
| `StatementEffects.IndexInUseStays` | crates/engine/src/executor.rs:309-333 | Given names, an index in use stays as it is: by an error, or in silence with IF NOT EXISTS. |
| `StatementEffects.DroppedIndexIsGone` | crates/engine/src/schema.rs:249-276 | A dropped index is not in use, and leaves nothing behind for one created under its name again. |
| `StatementRuns.LocalRunsAreTidy` | crates/engine/src/executor.rs:30-81 | In every state of every local run no column is dropped, and no document has a value for anything but a column of its table. |
| `StatementRuns.TidyAlterIsRead` | crates/engine-automerge/src/codec.rs:169-187 | So in local runs every row shows the default of every column an ALTER TABLE adds, and WHERE with the default finds all rows. |
| `StatementRuns.DeletedForGood` | crates/engine-automerge/src/codec.rs:510-530 | In every run, of local batches and of what is received, a row that has been deleted is deleted from then on, and never visible again. |
| `Statements.StatementKeepsUnique` | crates/engine/src/executor.rs:30-81 | Whatever a statement that succeeds does to the catalog and the rows, unique indexes stay unique. |
| `Statements.StatementApart` | crates/engine/src/executor.rs:90-371 | Whether a statement succeeds, and what it leaves, depends on the catalog and the rows alone, and on no index record. |
| `Statements.LocalRunsAreUnique` | crates/engine/src/executor.rs:30-81 | In every state of every run of local batches from an empty database no two visible rows share non-null values on a unique index. |
| `Executor.InsertRow` | crates/engine/src/executor.rs:588-627 | An insert fails with the first of these that applies, or else makes exactly the completed row visible under the UUID it names: no such table, too many values, no primary key, not one UUID key, a deleted row of that id, a visible one, a clash on a unique index. |
| `Executor.MatchingRows` | crates/engine/src/executor.rs:936-961 | The scan finds exactly the visible rows with the value in the column. |
| `Executor.UpdateRows` | crates/engine/src/executor.rs:743-800 | An update fails with the first of these that applies, or else makes the assignments in exactly the matching rows: no such table, no assignment, an unknown or a primary-key column, an unknown predicate column, no single primary key; then, by the order of the rows, an assigned column in conflict, a matching row that shows the assigned values already, or a clash among the rows as they would come out. It succeeds if and only if none of these is the case. |
| `Executor.DeleteRows` | crates/engine/src/executor.rs:802-843 | A deletion fails exactly for a missing table or predicate column, and otherwise takes exactly the matching rows out of sight, for good. |
| `Executor.ValidatePrimaryKey` | crates/schema/src/schema.rs:47-68 | A declaration is valid exactly when it has one primary key and that is a UUID. |
| `Executor.CreateTable` | crates/engine/src/executor.rs:158-172 | Creating a table that exists changes nothing; otherwise it succeeds exactly with one UUID key and indexes that can be built, and leaves exactly the table, back if it was dropped, with each new column's default, position and key flag as declared. |
| `Executor.AlterTableColumns` | crates/engine/src/executor.rs:373-422 | Columns are added exactly when their names are new, none is a primary key and the indexes can be built, with their defaults, at the positions after the live columns. |
| `Executor.CreateIndexAt` | crates/engine/src/executor.rs:458-510 | An index is created exactly when the table exists, the name and the columns are not empty, all columns are in range and the index can be built; it is then on exactly those columns. |
| `Executor.CreateIndexOn` | crates/engine/src/executor.rs:243-307 | Given positions, an index in use is refused without IF NOT EXISTS and redefined with it; one whose table was dropped is an error. |
| `Executor.CreateIndexByNames` | crates/engine/src/executor.rs:309-371 | Given names, an index in use is never changed; otherwise it is created on exactly those columns, or refused for the reasons stated. |
| `Executor.ExecuteStatements` | crates/engine/src/executor.rs:30-81 | A batch succeeds exactly when each of its statements does where it stands; then it leaves exactly what they mean, with every active index equal to the record keys of the visible rows, and otherwise the database as it was. |
| `Executor.PlayAll` | crates/engine/src/executor.rs:30-81 | Every run of local batches, received units and received change batches from an empty database leaves exactly the catalog, rows and conflicts its events mean, active indexes equal to the record keys of the visible rows and no deleted row visible; unique indexes are unique where nothing was received. |
| `Changes.Engine.ReceiveRow` | crates/engine/src/state_transfer.rs:122-162 | A received row unit changes the row, with the conflicts of its document, and keeps all indexes in agreement, or leaves the database as it was; it is refused exactly for a dropped table, or a visible row of an indexed table without a single primary key. |
| `Changes.WriteRows` | crates/sync/src/session.rs:371-397 | The first half of a batch records for each change the row before it, after all earlier changes, and the row after it. |
| `Changes.HalfwayStep` | crates/engine/src/state_transfer.rs:183-191 | Entering one more recorded pair brings the indexes from agreement with the rows before the change to agreement with those after it. |
| `Changes.Engine.ReceiveBatch` | crates/engine/src/state_transfer.rs:164-206 | A received batch, rows first and indexes afterwards, changes its rows and keeps all indexes in agreement, or leaves the database as it was; it is refused exactly when one of its changes would be. |
| `SyncManifest.New` | crates/sync/src/state.rs:56-60 | Sorting and removing repeated keys leaves a sorted list with every key once, and drops nothing when keys are distinct. |
| `SyncManifest.Contains` | crates/sync/src/state.rs:62-66 | Binary search finds exactly the entries of a sorted manifest. |
| `SyncCatalog.UpdateIndexes` | crates/engine/src/index.rs:205-241 | The loop over the entries finds whether the indexes of a table take a received row: the table is not dropped, every field of its indexes is a live column, and if the row is visible before or after and there is an index, the table has exactly one key column. |
| `SyncCatalog.EntriesDescribe` | crates/engine/src/schema.rs:151-278 | Read back, the entries an engine writes for its catalog are that catalog. |
| `SyncCatalog.TakesExactly` | crates/engine/src/index.rs:205-241 | That is exactly when `Index.Transaction.UpdateRow` accepts the row on the catalog that the entries spell out. |
| `SyncCatalog.TakesReceipt` | crates/engine/src/state_transfer.rs:122-162 | Where indexes agree with the rows it is exactly when `Changes.Engine.ReceiveRow` accepts it. |
| `Sorting.Sort` | crates/sync/src/session.rs:539-544 | Sorting leaves the same elements in the order of their keys. |
| `SyncState.MergeContentEffect` | crates/sync/src/session.rs:288-311 | A unit merged into a row loses nothing, is delivered, and adds nothing but itself. |
| `SyncState.ApplyChangeEffect` | crates/engine-automerge/src/codec.rs:701-746 | A change applied to a row loses nothing, adds no more than its payload, and is listed as an incremental. |
| `SyncState.UnitDelivered` | crates/sync/src/session.rs:733-739 | A unit in a frame that went in whole has arrived, whatever the other units of the frame are. |
| `SyncState.ChangesEffect` | crates/sync/src/session.rs:357-399 | A batch that goes in makes exactly its changes incrementals of their rows, and loses nothing. |
| `SyncMachine.Commute` | crates/sync/src/session.rs:861-881 | Steps of the two sides commute: neither can disable or change the other's next step. |
| `SyncMachine.BadFrameRefused` | crates/sync/src/session.rs:349-408 | A frame with a unit that does not match its digest, or a batch with an empty change, is refused whole, and the other side is told. |
| `SyncMachine.Absorb` | crates/sync/src/session.rs:71-139 | Any run to a halt can be begun with any other possible steps and still reaches the same state in the same number of steps. |
| `SyncRun.EveryRunEnds` | crates/sync/src/session.rs:71-139 | Any two parties in any state halt: there is a longest run, and all runs that cannot be continued have its length and its final state. |
| `SyncRun.RunExchange` | crates/sync/src/session.rs:438-591 | One exchange brings both sides to the next with empty channels, unless one of them fails. |
| `SyncRun.RunSession` | crates/sync/src/session.rs:87-129 | The six exchanges compute the session result from the two replicas and policies, and fail where it is undefined. |
| `SyncRun.SessionSucceeds` | crates/sync/src/session.rs:71-139 | When no engine refuses anything but for a missing dependency, no run fails, both sides are never stuck before both have succeeded, no unexpected message is met, and at the end the channels are empty and the replicas are the session result. |
| `SyncRun.SuccessIsResult` | crates/sync/src/session.rs:71-139 | A run that succeeds on both sides leaves the session result, which depends on the replicas and policies alone, and not on roles or timing. |
| `SyncRun.VersionsMustAgree` | crates/sync/src/session.rs:788-823 | Sides with different protocol versions never succeed, never touch their replicas, and halt with the responder failed. |
| `SyncSafety.NothingLostNothingInvented` | crates/sync/src/session.rs:280-399 | After any prefix of any session, with crashes and engine failures at any step and part-applied frames, each row keeps its side's changes and tombstone and gains only changes, tombstones and catalog entries of the two starting replicas. |
| `SyncSafety.PoliciesExist` | crates/sync/src/session.rs:542-568 | Some ordering and framing sends what the protocol prescribes in every situation, so the theorems about all of them are about something. |
| `SyncSafety.FaultsShow` | crates/test/src/transport.rs:45-56 | A run that fails on neither side had no fault. |
| `SyncHalting.EverySessionEnds` | crates/sync/src/session.rs:664-786 | In every run, with engines that refuse whatever they like, both sides have ended when neither can go on: a refusal reaches the other side as an abort, and nobody waits for ever. The initiator has succeeded only where the responder has. |
| `SyncHalting.InitiatorKnows` | crates/sync/src/session.rs:71-139 | In a run that cannot be continued both sides have ended, and the initiator has succeeded if and only if the session has a result. |
| `SyncConvergence.RowGetsAcross` | crates/sync/src/session.rs:474-546 | One session delivers a row of an active table, or leaves the target with every incremental either side had. |
| `SyncConvergence.ChangesGetAcross` | crates/sync/src/session.rs:503-540 | A row whose changes went one by one, none put off, comes out holding exactly what it held and what the missing incrementals carry, and visible. |
| `SyncConvergence.DeliveredExactly` | crates/sync/src/session.rs:474-546 | One session delivers a row the target asks for; one it does not ask for it delivers if and only if the source has nothing to deliver, the two agree, no incremental is missing, the target does not show the row, or the source's row is not deleted and what the target holds and the missing incrementals carry is all it holds. |
| `SyncConvergence.RequestedGetsAcross` | crates/sync/src/session.rs:606-704 | A row whose batch was put off for a missing dependency arrives whole through recovery. |
| `SyncConvergence.CatalogsAreExchanged` | crates/sync/src/session.rs:101-114 | After a successful session each side's catalog is its own overwritten by the other's, so the catalogs agree if and only if the sides agreed on every shared entry. |
| `SyncConvergence.TwoSessionsConverge` | crates/sync/src/session.rs:71-139 | With equal catalogs, after two successful sessions in a row a tombstone on either side is on both, and every other row of an active table holds on both sides exactly the union of the two starting change sets. |
| `SyncConditions.ClearApplies` | crates/engine-automerge/src/codec.rs:725-738 | A clear change is accepted in whatever order the changes of its row arrive. |
| `SyncConditions.UntakenFails` | crates/engine/src/state_transfer.rs:122-162 | For a row in which the sides differ and that the target's indexes do not take, some order makes every session fail: whether it goes whole, as changes, or is asked for. |
| `SyncConditions.SessionsSucceedExactly` | crates/engine-automerge/src/codec.rs:701-746 | Between well-formed replicas with equal catalogs every session succeeds, under all orders and framings, if and only if two things hold both ways. Every change a side sends for a row the other shows is clear: not held there yet, resting on what is held or comes along, and brought by no other change sent for the row. And the other's indexes take every row in which the two differ. For the failing order nothing need be sent twice. |
| `SyncConditions.OneSessionDelivers` | crates/sync/src/session.rs:474-546 | Where sessions succeed, every session delivers a row if and only if the condition of `SyncConvergence.DeliveredExactly` holds of the two replicas. |
| `SyncConditions.OneSessionSuffices` | crates/sync/src/session.rs:71-139 | Where sessions succeed, one session always merges all rows of active tables on both sides if and only if that condition holds of every row both ways. |
| `SyncWitnesses.SessionMayAlwaysFail` | crates/engine-automerge/src/codec.rs:730-738 | Two well-formed replicas with equal catalogs between which no session ever succeeds, whatever the ordering and framing. |
| `SyncWitnesses.OrdinaryUseMayFail` | crates/engine-automerge/src/codec.rs:701-746 | A row goes over to a side that has nothing, that side changes it locally, and from then on no session between the two succeeds, whatever the ordering and framing. |
| `SyncWitnesses.IndexMayRefuse` | crates/engine/src/index.rs:205-241 | Two well-formed replicas with equal catalogs, a table with two key columns and an index, one row on one side: all that is sent is clear, and no session ever succeeds, whatever the ordering and framing. |
| `SyncWitnesses.OneSessionIsNotEnough` | crates/sync/src/session.rs:508-540 | Two well-formed replicas between which every session succeeds and leaves the row deleted on one side and visible on the other. |
| `SyncWitnesses.EntriesAreSwapped` | crates/sync/src/session.rs:101-114 | Two replicas that disagree on one catalog entry: every session succeeds and leaves them disagreeing the other way round. |
| `SyncEngine.Chunks` | crates/sync/src/session.rs:557-562 | Frames join to the list, all of the given size but the last. |
| `SyncEngine.Engine.ExportSyncState` | crates/sync/src/session.rs:174-278 | The export is exactly the catalog entries and the rows of active tables that have a state or metadata, each once. |
| `SyncEngine.Engine.ExportManifest` | crates/sync/src/session.rs:160-172 | The manifest that is sent, exported, sorted and rid of repeats, lists exactly the exported units with their digests. |
| `SyncEngine.ExportInventories` | crates/sync/src/session.rs:410-436 | The inventories of what is exported are the incrementals of exactly the exported rows. |
| `SyncEngine.Engine.LocalInventories` | crates/sync/src/session.rs:90-92 | The inventories a side sends are those of exactly the rows it exports. |
| `SyncEngine.Engine.ExportMissing` | crates/sync/src/session.rs:503-540 | Of a row both sides list, exactly the incrementals the other side lacks are exported, each once with its payload. |
| `SyncEngine.Engine.BuildOutbound` | crates/sync/src/session.rs:474-568 | What is sent is exactly the units the other side's manifest does not list with their digest, whole or as the changes it misses, none of them twice, units in key order and changes in hash order, framed by the configured size; a size of zero is refused. |
| `SyncEngine.Engine.RecoverySnapshots` | crates/sync/src/session.rs:606-662 | For the requested rows exactly those with a state or metadata are sent, as they stand. |
| `SyncEngine.Engine.ApplySyncState` | crates/sync/src/session.rs:280-347 | A unit is applied as the model function says, a row only if the indexes of its table take it, or refused with the replica unchanged. |
| `SyncEngine.Engine.ApplyIncrementalChanges` | crates/sync/src/session.rs:357-408 | A batch is applied whole as the model function says, only if the indexes take each of its rows, or refused with the replica unchanged. |
| `SyncEngine.Engine.ReceiveOutbound` | crates/sync/src/session.rs:706-786 | The receive loop leaves the replica, the requests, the ending and the abort message that the protocol's party has after the same messages. |
| `SyncEngine.Engine.ReceiveRecovery` | crates/sync/src/session.rs:664-704 | The recovery loop does so too, and takes no change batches. |
| `RowDatabase.WriteIsMerge` | crates/engine/src/change.rs:88-104 | The document a row write leaves visible is the one the codec's merge of the local change leaves, and the write is refused for want of a change exactly when the merge is. |
| `RowDatabase.DeletionIsTombstone` | crates/engine-automerge/src/codec.rs:510-530 | A row deletion is the codec's tombstone in both views, and whatever the codec is given afterwards leaves the row as it is. |
| `RowDatabase.UnitIsReceipt` | crates/engine/src/state_transfer.rs:122-162 | A unit of a row is accepted by the protocol's replica exactly when the engine with its indexes accepts the document it leaves, and afterwards both show the same rows, conflicts and deleted ids. |
| `RowDatabase.BatchIsReceipts` | crates/engine/src/state_transfer.rs:164-206 | So is a batch of changes, exactly when each change applies where it stands and the engine accepts the documents they leave. |

## Left out

- SQL parsing, SELECT, predicates and projections, redb, gRPC, wasm, macros, the command line and the test runners.
- Automerge itself, SHA-256 and postcard: a change stands for its hash, a digest for its content, and the row serializer is a parameter with an inverse. The values a document shows under its columns are a parameter of the codec.
- Async execution, streams and locks: a step between two awaits on the transport is atomic, and a stream is a sequence.
- Other writers during a session: a replica changes only through the session's own steps.
- `SyncMachine.Absorb`: no transport is modelled beyond two reliable FIFO channels; a send or receive that fails is a crash of that side, and messages behind it may stay unread.
- `SyncEngine.Engine.ExportSyncState`: the order of the export is not modelled; what is sent is sorted afterwards.
- `SyncState.MergeContentEffect`: a replica's metadata records are assumed to say "deleted", the only value the repository ever writes.
- `SyncConditions.SessionsSucceedExactly`: replicas whose catalogs differ are not covered; there a row's unit may also be refused because its table is dropped on the other side.
- `SyncCatalog.UpdateIndexes`: a visible row is assumed to show a UUID under its table's one key column, as every inserted row does; a row without one, which a received catalog entry that makes another column the key can leave, is refused as well.
- `RowDatabase.WriteIsMerge`: a local change is assumed to alter the document it is recorded for and no conflict in it, as `encode_row` produces it; a change that only resolves a conflict is not modelled.
- `SyncConvergence.TwoSessionsConverge`: rows of dropped tables are not exported and so not claimed; catalogs that differ are covered by `CatalogsAreExchanged` only.
- The counters of a session's result, and the text of abort messages.
- `Reconstruction.ReconstructedDocument.Apply`: the byte count kept for the compaction threshold is not modelled, nor is the threshold policy.
- `RowStore.RowCodec.ApplyChange`: an incremental's payload is assumed to hold the change it is keyed by and nothing but that change's history, as `export_change` sends it; a payload with other changes, part of which would stay queued, is not modelled.
- `RowStore.RowCodec.MergeRow`: a local change is assumed to rest on the document the codec read, as `encode_row` produces it; `put_row` is not modelled.
- Update of a missing document through the B-tree transaction, which writes an incremental without a snapshot; the codec never does it.
- `Kernel.EveryInterleavingIsSerial`: the revision is a natural number, so its overflow is not modelled.
- `PatchTree.Patch.Range`: the source's result is a map too; that a B-tree map is then read in key order is not modelled.
- `Catalog.RecordKey`: JSON values are compared by their rendered text, so number comparison inside JSON is not modelled.
- Names of tables, indexes and catalog storages share one kernel namespace; here they are kept apart.
- TombstoneColumn, which the executor never issues; malformed catalog entries, and the errors for them.
- `Changes.Engine.ReceiveRow`: a document received for a visible row is assumed to have its row's id under the primary key, and its table to have one; a document that names another id would put a record of that other id into the indexes. A received catalog entry, which does not rebuild the indexes of existing rows, is not among the operations that keep indexes in agreement. A unit with neither state nor metadata is never exported and not modelled.
- `Changes.Engine.ReceiveBatch`: the same is assumed of the documents its changes leave visible.
- `Changes.WriteRows`: so here; a change to a deleted row leaves no document visible and is covered.
- `Executor.InsertRow`: INSERT with named columns and RETURNING are not modelled; a local change is taken to put its values under its columns.
- `Executor.UpdateRows`: which error comes first when a row is refused in more than one way is left open, as it goes by the order of the row ids; resolving conflicts (`resolve_row`) is not modelled.
- CREATE TABLE with its indexes in one statement, which is CREATE TABLE and CREATE INDEX in a row.
- Generated UUIDs and timestamps.
