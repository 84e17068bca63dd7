// What a sync session exchanges and what a replica does with it: manifests, inventories, state units, change
// batches, and their effect on rows.
module SyncState {
  import opened Automerge
  import opened RowState
  import opened SyncCatalog
  import opened Wrappers
  import Catalog
  import Values

  datatype RowKey = RowKey(table: Catalog.Name, row: Values.Uuid)

  datatype Replica = Replica(catalog: Entries, rows: map<RowKey, RowState.Row>) {
    function RowAt(k: RowKey): RowState.Row {
      if k in rows then rows[k] else NO_ROW
    }

    predicate TableIs(table: Catalog.Name, deleted: bool) {
      TableEntry(table) in catalog && catalog[TableEntry(table)].deleted == deleted
    }
  }

  datatype SyncKey = OfCatalog(entry: CatalogKey) | OfRow(row: RowKey)

  // The exported bytes of a unit: a catalog value, or a row's saved document and metadata record.
  datatype Content =
    | CatalogContent(value: CatalogValue)
    | RowContent(state: Option<set<Change>>, meta: Option<bool>)

  // The digest of a content, symbolically: equal exactly for equal contents.
  datatype Digest = Digest(of: Content)

  datatype StateUnit = StateUnit(key: SyncKey, content: Content, digest: Digest)

  datatype RowChange = RowChange(row: RowKey, id: Change, payload: set<Change>)

  function NewUnit(key: SyncKey, content: Content): StateUnit {
    StateUnit(key, content, Digest(content))
  }

  // ---------------------------------------------------------------------------------------------
  // Export
  // ---------------------------------------------------------------------------------------------

  function ContentOf(r: RowState.Row): Content {
    RowContent(r.Visible(), r.meta)
  }

  /** A row exports a unit when it has a saved document or a metadata record. */
  predicate HasUnit(r: RowState.Row) {
    r.Visible().Some? || r.meta.Some?
  }

  /** The units of a replica: every catalog entry, and the rows of active tables. */
  function Exported(rep: Replica): map<SyncKey, Content> {
    CatalogUnits(rep) + RowUnits(rep)
  }

  function CatalogUnits(rep: Replica): map<SyncKey, Content> {
    map e | e in rep.catalog :: OfCatalog(e) := CatalogContent(rep.catalog[e])
  }

  function RowUnits(rep: Replica): map<SyncKey, Content> {
    map k | k in rep.rows && rep.TableIs(k.table, false) && HasUnit(rep.rows[k]) :: OfRow(k) := ContentOf(rep.rows[k])
  }

  lemma {:induction false} ExportedRow(rep: Replica, k: RowKey)
    ensures OfRow(k) in Exported(rep) <==> k in rep.rows && rep.TableIs(k.table, false) && HasUnit(rep.rows[k])
    ensures OfRow(k) in Exported(rep) ==> Exported(rep)[OfRow(k)] == ContentOf(rep.rows[k])
  {
    assert OfRow(k) !in CatalogUnits(rep);
    assert OfRow(k) in RowUnits(rep) <==> k in rep.rows && rep.TableIs(k.table, false) && HasUnit(rep.rows[k]);
  }

  lemma {:induction false} ExportedEntry(rep: Replica, e: CatalogKey)
    ensures OfCatalog(e) in Exported(rep) <==> e in rep.catalog
    ensures e in rep.catalog ==> Exported(rep)[OfCatalog(e)] == CatalogContent(rep.catalog[e])
  {
  }

  type Manifest = map<SyncKey, Digest>
  type Inventories = map<RowKey, set<Change>>

  function ManifestOf(rep: Replica): Manifest {
    map k | k in Exported(rep) :: Digest(Exported(rep)[k])
  }

  function InventoriesOf(rep: Replica): Inventories {
    map k | k in rep.rows && OfRow(k) in Exported(rep) :: rep.rows[k].incrementals.Keys
  }

  datatype Remote = Remote(manifest: Manifest, inventories: Inventories)

  function RemoteOf(rep: Replica): Remote {
    Remote(ManifestOf(rep), InventoriesOf(rep))
  }

  /** The remote manifest does not list the unit with its digest. */
  predicate Differs(rep: Replica, remote: Remote, key: SyncKey) {
    && key in Exported(rep)
    && !(key in remote.manifest && remote.manifest[key] == Digest(Exported(rep)[key]))
  }

  /** The incrementals of a row the remote side does not list. */
  function MissingChanges(rep: Replica, remote: Remote, k: RowKey): set<Change> {
    rep.RowAt(k).incrementals.Keys - (if k in remote.inventories then remote.inventories[k] else {})
  }

  /** A unit goes out whole unless it is a row the remote side lists too and misses some incrementals of. */
  predicate GoesWhole(rep: Replica, remote: Remote, key: SyncKey) {
    && Differs(rep, remote, key)
    && (key.OfRow? ==> key.row !in remote.inventories || MissingChanges(rep, remote, key.row) == {})
  }

  predicate GoesAsChange(rep: Replica, remote: Remote, k: RowKey, c: Change) {
    Differs(rep, remote, OfRow(k)) && k in remote.inventories && c in MissingChanges(rep, remote, k)
  }

  // What a side is to send, in frames.
  datatype Outbound = Outbound(states: seq<seq<StateUnit>>, changes: seq<seq<RowChange>>)

  ghost predicate InBatches<T>(x: T, batches: seq<seq<T>>) {
    exists i :: 0 <= i < |batches| && x in batches[i]
  }

  /** The outbound of a replica, in any order and cut into frames anyhow. */
  ghost predicate ValidOutbound(out: Outbound, rep: Replica, remote: Remote) {
    && (forall u :: InBatches(u, out.states) <==>
          GoesWhole(rep, remote, u.key) && u == NewUnit(u.key, Exported(rep)[u.key]))
    && (forall ch :: InBatches(ch, out.changes) <==>
          GoesAsChange(rep, remote, ch.row, ch.id) && ch.payload == rep.RowAt(ch.row).incrementals[ch.id])
  }

  /** The recovery units for a set of requested rows: each one's current state, if it has any. */
  ghost predicate ValidRecovery(states: seq<seq<StateUnit>>, rep: Replica, requests: set<RowKey>) {
    forall u :: InBatches(u, states) <==>
      u.key.OfRow? && u.key.row in requests && HasUnit(rep.RowAt(u.key.row))
      && u == NewUnit(u.key, ContentOf(rep.RowAt(u.key.row)))
  }

  // ---------------------------------------------------------------------------------------------
  // Applying what arrives
  // ---------------------------------------------------------------------------------------------

  function MergeContent(r: RowState.Row, state: Option<set<Change>>, meta: Option<bool>): RowState.Row {
    var marked := if meta.Some? then MergeMetadata(r, meta.value) else r;
    if state.Some? then MergeState(marked, state.value) else marked
  }

  /** The row is visible before or after a unit is merged into it, so its indexes have to take it. */
  predicate Touched(r: RowState.Row, state: Option<set<Change>>, meta: Option<bool>) {
    r.Visible().Some? || (state.Some? && !(if meta.Some? then meta.value else r.Deleted()))
  }

  /** One unit, in a transaction of its own. A row is refused when the indexes of its table cannot take it, as they
      cannot when the table is dropped. */
  function ApplyUnit(rep: Replica, u: StateUnit): Result<Replica, ApplyError> {
    if u.digest != Digest(u.content) then Err(EngineFailure)
    else match (u.key, u.content)
      case (OfCatalog(e), CatalogContent(value)) => Ok(rep.(catalog := rep.catalog[e := value]))
      case (OfRow(k), RowContent(state, meta)) =>
        if !TakesRow(rep.catalog, k.table, Touched(rep.RowAt(k), state, meta)) then Err(EngineFailure)
        else Ok(rep.(rows := rep.rows[k := MergeContent(rep.RowAt(k), state, meta)]))
      case _ => Err(EngineFailure)
  }

  /** A frame of units, one after another: the replica as far as it got, and whether all went in. */
  function ApplyUnits(rep: Replica, units: seq<StateUnit>): (Replica, bool)
    decreases units
  {
    if units == [] then (rep, true)
    else
      match ApplyUnit(rep, units[0])
      case Ok(next) => ApplyUnits(next, units[1..])
      case Err(_) => (rep, false)
  }

  function ApplyChanges(rep: Replica, batch: seq<RowChange>): Result<Replica, ApplyError>
    decreases batch
  {
    if batch == [] then Ok(rep)
    else
      match ApplyChange(rep.RowAt(batch[0].row), batch[0].id, batch[0].payload)
      case Ok(r) => ApplyChanges(rep.(rows := rep.rows[batch[0].row := r]), batch[1..])
      case Err(error) => Err(error)
  }

  /** The indexes of its table take the row: a change leaves a row visible or not as it was. */
  predicate TakesChange(rep: Replica, ch: RowChange) {
    TakesRow(rep.catalog, ch.row.table, rep.RowAt(ch.row).Visible().Some?)
  }

  /** A frame of changes, in one transaction: all of them or none. */
  function ApplyBatch(rep: Replica, batch: seq<RowChange>): Result<Replica, ApplyError> {
    if exists ch :: ch in batch && ch.payload == {} then Err(EngineFailure)
    else
      match ApplyChanges(rep, batch)
      case Err(error) => Err(error)
      case Ok(next) =>
        if exists ch :: ch in batch && !TakesChange(rep, ch) then Err(EngineFailure) else Ok(next)
  }

  // ---------------------------------------------------------------------------------------------
  // Well-formed replicas and messages
  // ---------------------------------------------------------------------------------------------

  /** Rows are well formed, and a metadata record always says deleted. */
  ghost predicate GoodReplica(rep: Replica) {
    forall k :: GoodRow(rep.RowAt(k)) && rep.RowAt(k).meta != Some(false)
  }

  ghost predicate GoodContent(content: Content) {
    content.RowContent? ==> (content.state.Some? ==> Closed(content.state.value)) && content.meta != Some(false)
  }

  ghost predicate GoodUnits(units: seq<StateUnit>) {
    forall u :: u in units ==> GoodContent(u.content)
  }

  ghost predicate GoodChanges(batch: seq<RowChange>) {
    forall ch :: ch in batch ==> GoodPayload(ch.id, ch.payload)
  }

  /** Nothing the first row has is missing from the second. */
  ghost predicate RowLe(a: RowState.Row, b: RowState.Row) {
    && a.Held() <= b.Held()
    && (a.doc.Some? ==> b.doc.Some?)
    && (a.Deleted() ==> b.Deleted())
  }

  /** What a row shows has arrived in another: a tombstone as a tombstone, and otherwise its changes, unless the
      other is deleted. */
  ghost predicate Delivered(source: RowState.Row, target: RowState.Row) {
    if source.Deleted() then target.Deleted()
    else source.doc.Some? ==> target.Deleted() || (target.doc.Some? && source.Held() <= target.Held())
  }

  lemma {:induction false} DeliveredThrough(a: RowState.Row, b: RowState.Row, c: RowState.Row, d: RowState.Row)
    requires RowLe(a, b) && Delivered(b, c) && RowLe(c, d)
    ensures Delivered(a, d)
  {
  }

  // ---------------------------------------------------------------------------------------------
  // Effect on one row
  // ---------------------------------------------------------------------------------------------

  /** A unit merged into a row: nothing is lost, the unit is delivered, and nothing but the unit is added. */
  lemma {:induction false} MergeContentEffect(r: RowState.Row, state: Option<set<Change>>, meta: Option<bool>)
    requires GoodRow(r) && r.meta != Some(false)
    requires GoodContent(RowContent(state, meta))
    ensures var next := MergeContent(r, state, meta);
            && GoodRow(next) && next.meta != Some(false)
            && RowLe(r, next)
            && (meta.Some? ==> next.Deleted() && next.doc == r.doc)
            && (meta.None? && state.Some? ==> next.Deleted() || (next.doc.Some? && state.value <= next.Held()))
            && next.Held() <= r.Held() + (if state.Some? then state.value else {})
            && (next.Deleted() ==> r.Deleted() || meta.Some?)
            && next.incrementals.Keys <= r.incrementals.Keys
  {
    if state.Some? { ClosedUnion(r.Held(), state.value); }
  }

  lemma {:induction false} ApplyChangeEffect(r: RowState.Row, c: Change, payload: set<Change>)
    requires GoodRow(r) && GoodPayload(c, payload) && ApplyChange(r, c, payload).Ok?
    ensures var next := ApplyChange(r, c, payload).value;
            && GoodRow(next) && next.meta == r.meta
            && RowLe(r, next)
            && next.Held() <= r.Held() + payload
            && next.incrementals.Keys == r.incrementals.Keys + {c}
  {
    if c !in r.incrementals { PayloadApplies(r.doc.value, c, payload); }
  }

  /** Frames of units, seen from one row. */
  lemma {:induction false} UnitsEffect(rep: Replica, units: seq<StateUnit>, k: RowKey)
    requires GoodReplica(rep) && GoodUnits(units)
    ensures var (next, ok) := ApplyUnits(rep, units);
            && GoodReplica(next)
            && RowLe(rep.RowAt(k), next.RowAt(k))
            && next.RowAt(k).incrementals.Keys <= rep.RowAt(k).incrementals.Keys
            && ((forall u :: u in units ==> u.key != OfRow(k)) ==> next.RowAt(k) == rep.RowAt(k))
            && ((forall u :: u in units ==> u.key.OfRow?) ==> next.catalog == rep.catalog)
    decreases units
  {
    if units != [] && ApplyUnit(rep, units[0]).Ok? {
      var u, mid := units[0], ApplyUnit(rep, units[0]).value;
      ApplyUnitEffect(rep, u, k);
      UnitsEffect(mid, units[1..], k);
    }
  }

  lemma {:induction false} ApplyUnitEffect(rep: Replica, u: StateUnit, k: RowKey)
    requires GoodReplica(rep) && GoodContent(u.content) && ApplyUnit(rep, u).Ok?
    ensures var next := ApplyUnit(rep, u).value;
            && GoodReplica(next)
            && RowLe(rep.RowAt(k), next.RowAt(k))
            && next.RowAt(k).incrementals.Keys <= rep.RowAt(k).incrementals.Keys
            && (u.key != OfRow(k) ==> next.RowAt(k) == rep.RowAt(k))
            && (u.key.OfRow? ==> next.catalog == rep.catalog)
  {
    var next := ApplyUnit(rep, u).value;
    if u.key.OfRow? {
      MergeContentEffect(rep.RowAt(u.key.row), u.content.state, u.content.meta);
      assert forall o :: o != u.key.row ==> next.RowAt(o) == rep.RowAt(o);
    } else {
      assert forall o :: next.RowAt(o) == rep.RowAt(o);
    }
  }

  /** A unit in a frame that went in whole is delivered. */
  lemma {:induction false} UnitDelivered(rep: Replica, units: seq<StateUnit>, u: StateUnit, source: RowState.Row)
    requires GoodReplica(rep) && GoodUnits(units) && ApplyUnits(rep, units).1
    requires u in units && u.key.OfRow? && u == NewUnit(u.key, ContentOf(source)) && source.meta != Some(false)
    ensures Delivered(source, ApplyUnits(rep, units).0.RowAt(u.key.row))
    decreases units
  {
    var k, mid := u.key.row, ApplyUnit(rep, units[0]).value;
    ApplyUnitEffect(rep, units[0], k);
    if units[0] == u {
      MergeContentEffect(rep.RowAt(k), u.content.state, u.content.meta);
      assert Delivered(source, mid.RowAt(k));
      UnitsEffect(mid, units[1..], k);
    } else {
      UnitDelivered(mid, units[1..], u, source);
    }
  }

  /** One change applied, seen from one row. */
  lemma {:induction false} ChangeEffect(rep: Replica, ch: RowChange, k: RowKey)
    requires GoodReplica(rep) && GoodPayload(ch.id, ch.payload)
    requires ApplyChange(rep.RowAt(ch.row), ch.id, ch.payload).Ok?
    ensures var next := rep.(rows := rep.rows[ch.row := ApplyChange(rep.RowAt(ch.row), ch.id, ch.payload).value]);
            && GoodReplica(next)
            && RowLe(rep.RowAt(k), next.RowAt(k))
            && next.RowAt(k).meta == rep.RowAt(k).meta
            && next.RowAt(k).incrementals.Keys == rep.RowAt(k).incrementals.Keys + (if ch.row == k then {ch.id} else {})
  {
    var next := rep.(rows := rep.rows[ch.row := ApplyChange(rep.RowAt(ch.row), ch.id, ch.payload).value]);
    ApplyChangeEffect(rep.RowAt(ch.row), ch.id, ch.payload);
    assert forall o :: o != ch.row ==> next.RowAt(o) == rep.RowAt(o);
  }

  ghost function BatchIds(batch: seq<RowChange>, k: RowKey): set<Change> {
    set ch | ch in batch && ch.row == k :: ch.id
  }

  lemma {:induction false} ChangesEffect(rep: Replica, batch: seq<RowChange>, k: RowKey)
    requires GoodReplica(rep) && GoodChanges(batch) && ApplyChanges(rep, batch).Ok?
    ensures var next := ApplyChanges(rep, batch).value;
            && GoodReplica(next) && next.catalog == rep.catalog
            && RowLe(rep.RowAt(k), next.RowAt(k))
            && next.RowAt(k).meta == rep.RowAt(k).meta
            && next.RowAt(k).incrementals.Keys == rep.RowAt(k).incrementals.Keys + BatchIds(batch, k)
    decreases batch
  {
    if batch != [] {
      var ch := batch[0];
      ChangeEffect(rep, ch, k);
      ChangesEffect(rep.(rows := rep.rows[ch.row := ApplyChange(rep.RowAt(ch.row), ch.id, ch.payload).value]),
                    batch[1..], k);
      BatchIdsSplit(batch, k);
    }
  }

  lemma {:induction false} BatchIdsSplit(batch: seq<RowChange>, k: RowKey)
    requires batch != []
    ensures BatchIds(batch, k) == (if batch[0].row == k then {batch[0].id} else {}) + BatchIds(batch[1..], k)
  {
    assert batch == [batch[0]] + batch[1..];
  }
}
