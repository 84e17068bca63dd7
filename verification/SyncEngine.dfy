// The session's own loops: exporting, building what to send, and applying what arrives, on a replica updated in place.
module SyncEngine {
  import opened Automerge
  import opened RowState
  import opened Sorting
  import opened SyncCatalog
  import opened SyncState
  import opened Wrappers
  import L = SyncManifest
  import M = SyncMachine
  import R = SyncRun

  datatype SessionError = InvalidConfiguration | Engine(error: ApplyError) | RemoteAbort | UnexpectedMessage

  // How a receive loop ends: its peer said Done, it failed (having sent Abort or not), or it still waits.
  datatype Ending = Completed | Failed(error: SessionError, aborted: bool) | Waiting

  /** `chunks`: frames of `size`, the last one shorter. */
  method Chunks<T>(items: seq<T>, size: nat) returns (frames: seq<seq<T>>)
    requires size > 0
    ensures Joined(frames) == items
    ensures forall i :: 0 <= i < |frames| ==> 0 < |frames[i]| <= size
    ensures forall i :: 0 <= i < |frames| - 1 ==> |frames[i]| == size
  {
    frames := [];
    var start := 0;
    while start < |items|
      invariant 0 <= start <= |items|
      invariant Joined(frames) == items[..start]
      invariant forall i :: 0 <= i < |frames| ==> 0 < |frames[i]| <= size
      invariant forall i :: 0 <= i < |frames| - 1 ==> |frames[i]| == size
      invariant start < |items| ==> forall i :: 0 <= i < |frames| ==> |frames[i]| == size
    {
      var end := if start + size <= |items| then start + size else |items|;
      JoinedSnoc(frames, items[start..end]);
      frames := frames + [items[start..end]];
      assert items[..end] == items[..start] + items[start..end];
      start := end;
    }
    assert items[..start] == items;
  }

  function Joined<T>(frames: seq<seq<T>>): seq<T> {
    if frames == [] then [] else frames[0] + Joined(frames[1..])
  }

  lemma {:induction false} JoinedSnoc<T>(frames: seq<seq<T>>, frame: seq<T>)
    ensures Joined(frames + [frame]) == Joined(frames) + frame
  {
    if frames == [] {
      assert frames + [frame] == [frame] && [frame][1..] == [];
    } else {
      JoinedSnoc(frames[1..], frame);
      assert (frames + [frame])[1..] == frames[1..] + [frame];
    }
  }

  lemma {:induction false} JoinedHolds<T>(frames: seq<seq<T>>, x: T)
    ensures InBatches(x, frames) <==> x in Joined(frames)
  {
    if frames != [] {
      JoinedHolds(frames[1..], x);
      if InBatches(x, frames) && x !in frames[0] {
        var i :| 0 <= i < |frames| && x in frames[i];
        assert frames[1..][i - 1] == frames[i];
      }
      if InBatches(x, frames[1..]) {
        var i :| 0 <= i < |frames[1..]| && x in frames[1..][i];
        assert frames[i + 1] == frames[1..][i];
      }
    }
  }

  class Engine {
    var rep: Replica

    constructor (rep: Replica)
      ensures this.rep == rep
    {
      this.rep := rep;
    }

    /** `export_sync_state_for`: the catalog entries, then table by table the rows that have a saved document or a
        metadata record. */
    method ExportSyncState() returns (units: seq<StateUnit>)
      ensures IsExport(units, rep) && DistinctUnits(units)
    {
      units := [];
      var entries := rep.catalog.Keys;
      while entries != {}
        invariant entries <= rep.catalog.Keys && DistinctUnits(units)
        invariant forall u :: u in units <==>
                    u.key.OfCatalog? && u.key.entry in rep.catalog.Keys - entries
                    && u == NewUnit(u.key, CatalogContent(rep.catalog[u.key.entry]))
        decreases entries
      {
        var e :| e in entries;
        assert forall j :: 0 <= j < |units| ==> units[j] in units;
        units := units + [NewUnit(OfCatalog(e), CatalogContent(rep.catalog[e]))];
        entries := entries - {e};
      }
      var rows := set k | k in rep.rows && rep.TableIs(k.table, false);
      ghost var all := rows;
      while rows != {}
        invariant rows <= all && DistinctUnits(units)
        invariant forall u :: u in units <==>
                    if u.key.OfCatalog? then
                      u.key.entry in rep.catalog && u == NewUnit(u.key, CatalogContent(rep.catalog[u.key.entry]))
                    else
                      u.key.row in all - rows && HasUnit(rep.rows[u.key.row])
                      && u == NewUnit(u.key, ContentOf(rep.rows[u.key.row]))
        decreases rows
      {
        var k :| k in rows;
        assert forall j :: 0 <= j < |units| ==> units[j] in units;
        var state, metadata := rep.rows[k].Visible(), rep.rows[k].meta;
        if state.Some? || metadata.Some? {
          units := units + [NewUnit(OfRow(k), RowContent(state, metadata))];
        }
        rows := rows - {k};
      }
      forall u
        ensures u in units <==> u.key in Exported(rep) && u == NewUnit(u.key, Exported(rep)[u.key])
      {
      }
    }

    /** `sync_manifest_for`: the manifest that is sent lists exactly the exported units with their digests, in order. */
    method ExportManifest(less: (SyncKey, SyncKey) -> bool) returns (manifest: seq<L.Entry>)
      requires TotalOrder(less)
      ensures L.Sorted(manifest, less) && L.Lists(manifest, ManifestOf(rep))
    {
      var units := ExportSyncState();
      var entries: seq<L.Entry> := [];
      for i := 0 to |units|
        invariant forall e :: e in entries <==> Listed(units[..i], e)
      {
        assert units[..i + 1] == units[..i] + [units[i]];
        entries := entries + [L.Entry(units[i].key, units[i].digest)];
      }
      assert units[..|units|] == units;
      manifest := L.New(entries, less);
      ManifestListsExport(units, rep, entries, manifest);
    }

    /** `inventories_for`: what each exported row has stored incrementally. */
    method InventoriesFor(units: seq<StateUnit>) returns (inventories: Inventories)
      requires forall u :: u in units && u.key.OfRow? ==> u.key.row in rep.rows
      ensures inventories
              == map k | k in rep.rows && ListsRow(units, k) :: rep.rows[k].incrementals.Keys
    {
      inventories := map[];
      for i := 0 to |units|
        invariant inventories == map k | k in rep.rows && ListsRow(units[..i], k) :: rep.rows[k].incrementals.Keys
      {
        assert units[..i + 1] == units[..i] + [units[i]];
        if units[i].key.OfRow? {
          var k := units[i].key.row;
          inventories := inventories[k := rep.rows[k].incrementals.Keys];
        }
      }
      assert units[..|units|] == units;
    }

    /** The inventories a side sends: those of all rows it exports. */
    method LocalInventories() returns (inventories: Inventories)
      ensures inventories == InventoriesOf(rep)
    {
      var units := ExportSyncState();
      inventories := InventoriesFor(units);
      ExportInventories(units, rep);
    }

    /** The changes of a row that the other side, which lists the row, does not list. */
    method ExportMissing(k: RowKey, inventories: Inventories) returns (exported: seq<RowChange>)
      requires k in inventories
      ensures DistinctChanges(exported)
      ensures forall ch :: ch in exported <==>
                ch.row == k && ch.id in rep.RowAt(k).incrementals.Keys - inventories[k]
                && ch.payload == rep.RowAt(k).incrementals[ch.id]
    {
      exported := [];
      var local := rep.RowAt(k).incrementals.Keys;
      while local != {}
        invariant local <= rep.RowAt(k).incrementals.Keys && DistinctChanges(exported)
        invariant forall ch :: ch in exported <==>
                    ch.row == k && ch.id in rep.RowAt(k).incrementals.Keys - inventories[k] - local
                    && ch.payload == rep.RowAt(k).incrementals[ch.id]
        decreases local
      {
        var c :| c in local;
        assert forall j :: 0 <= j < |exported| ==> exported[j] in exported;
        if c !in inventories[k] {
          exported := exported + [RowChange(k, c, rep.RowAt(k).incrementals[c])];
        }
        local := local - {c};
      }
    }

    /** `build_outbound`, framed as `send_outbound` sends it: of the exported units those the other side does not list
        with their digest, rows it lists too as the changes it misses, if there are any. Units go in the order of their
        keys, changes in that of their hashes. */
    method BuildOutbound(units: seq<StateUnit>, manifest: seq<L.Entry>, inventories: Inventories, size: nat,
                         less: (SyncKey, SyncKey) -> bool, lessHash: (Change, Change) -> bool, ghost listed: Manifest)
      returns (r: Result<Outbound, SessionError>)
      requires IsExport(units, rep) && DistinctUnits(units)
      requires TotalOrder(less) && TotalOrder(lessHash) && L.Sorted(manifest, less) && L.Lists(manifest, listed)
      ensures size == 0 <==> r == Err(InvalidConfiguration)
      ensures r.Ok? ==> ValidOutbound(r.value, rep, Remote(listed, inventories))
      ensures r.Ok? ==> DistinctUnits(Joined(r.value.states)) && DistinctChanges(Joined(r.value.changes))
      ensures r.Ok? ==> Ordered(Joined(r.value.states), UnitKey, less)
      ensures r.Ok? ==> Ordered(Joined(r.value.changes), ChangeHash, lessHash)
    {
      if size == 0 {
        return Err(InvalidConfiguration);
      }
      var snapshots, changes := SelectOutbound(units, manifest, inventories, less, listed);
      var sortedUnits := Sort(snapshots, UnitKey, less);
      var sortedChanges := Sort(changes, ChangeHash, lessHash);
      DistinctSorted(snapshots, sortedUnits, changes, sortedChanges);
      var states := Chunks(sortedUnits, size);
      var batches := Chunks(sortedChanges, size);
      r := Ok(Outbound(states, batches));
      OutboundIsValid(units, rep, Remote(listed, inventories), sortedUnits, sortedChanges, states, batches);
    }

    /** Whether the other side lists a unit, and else the changes to be sent in its place. */
    method SelectUnit(unit: StateUnit, manifest: seq<L.Entry>, inventories: Inventories,
                      less: (SyncKey, SyncKey) -> bool, ghost listed: Manifest)
      returns (there: bool, exported: seq<RowChange>)
      requires TotalOrder(less) && L.Sorted(manifest, less) && L.Lists(manifest, listed)
      ensures DistinctChanges(exported) && Exports(rep, Remote(listed, inventories), unit, there, exported)
    {
      there := L.Contains(manifest, unit.key, unit.digest, less);
      exported := [];
      if !there && unit.key.OfRow? && unit.key.row in inventories {
        exported := ExportMissing(unit.key.row, inventories);
      }
    }

    /** The units and the changes to be sent, in the order of the export. */
    method SelectOutbound(units: seq<StateUnit>, manifest: seq<L.Entry>, inventories: Inventories,
                          less: (SyncKey, SyncKey) -> bool, ghost listed: Manifest)
      returns (snapshots: seq<StateUnit>, changes: seq<RowChange>)
      requires IsExport(units, rep) && DistinctUnits(units)
      requires TotalOrder(less) && L.Sorted(manifest, less) && L.Lists(manifest, listed)
      ensures DistinctUnits(snapshots) && DistinctChanges(changes)
      ensures Selected(units, rep, Remote(listed, inventories), snapshots, changes)
    {
      snapshots, changes := [], [];
      ghost var remote := Remote(listed, inventories);
      for i := 0 to |units|
        invariant DistinctUnits(snapshots) && DistinctChanges(changes)
        invariant Selected(units[..i], rep, remote, snapshots, changes)
      {
        var unit := units[i];
        assert unit in units && units[..i + 1] == units[..i] + [unit];
        KeyIsNew(units, i, snapshots);
        var there, exported := SelectUnit(unit, manifest, inventories, less, listed);
        NewRowJoins(units[..i], rep, remote, snapshots, changes, unit, there, exported);
        SelectedOneMore(units[..i], rep, remote, snapshots, changes, unit, there, exported);
        if !there && exported == [] {
          snapshots := snapshots + [unit];
        }
        changes := changes + exported;
      }
      assert units[..|units|] == units;
    }

    /** `recovery_snapshots`: for each requested row its current state, if it has any. */
    method RecoverySnapshots(requests: set<RowKey>, size: nat) returns (states: seq<seq<StateUnit>>)
      requires size > 0
      ensures ValidRecovery(states, rep, requests)
    {
      var snapshots: seq<StateUnit> := [];
      var left := requests;
      while left != {}
        invariant left <= requests
        invariant forall u :: u in snapshots <==>
                    u.key.OfRow? && u.key.row in requests - left && HasUnit(rep.RowAt(u.key.row))
                    && u == NewUnit(u.key, ContentOf(rep.RowAt(u.key.row)))
        decreases left
      {
        var k :| k in left;
        var state, metadata := rep.RowAt(k).Visible(), rep.RowAt(k).meta;
        if state.Some? || metadata.Some? {
          snapshots := snapshots + [NewUnit(OfRow(k), RowContent(state, metadata))];
        }
        left := left - {k};
      }
      states := Chunks(snapshots, size);
      forall u
        ensures InBatches(u, states) <==> u in snapshots
      {
        JoinedHolds(states, u);
      }
    }

    /** `apply_sync_state_for`: one unit in a transaction of its own, which a refusal rolls back. */
    method ApplySyncState(unit: StateUnit) returns (r: Result<bool, ApplyError>)
      modifies this
      ensures match ApplyUnit(old(rep), unit)
              case Ok(next) => r == Ok(true) && rep == next
              case Err(error) => r == Err(error) && rep == old(rep)
    {
      if unit.digest != Digest(unit.content) {
        return Err(EngineFailure);
      }
      match unit {
        case StateUnit(OfRow(k), RowContent(state, meta), _) =>
          var row := rep.RowAt(k);
          if meta.Some? {
            row := MergeMetadata(row, meta.value);
          }
          if state.Some? {
            row := MergeState(row, state.value);
          }
          var taken := UpdateIndexes(rep.catalog, k.table, Touched(rep.RowAt(k), state, meta));
          if !taken {
            return Err(EngineFailure);
          }
          rep := rep.(rows := rep.rows[k := row]);
          return Ok(true);
        case StateUnit(OfCatalog(e), CatalogContent(value), _) =>
          rep := rep.(catalog := rep.catalog[e := value]);
          return Ok(true);
        case _ =>
          return Err(EngineFailure);
      }
    }

    /** `validate_change_batch`. */
    method ValidateChanges(batch: seq<RowChange>) returns (valid: bool)
      ensures valid <==> forall ch :: ch in batch ==> ch.payload != {}
    {
      for i := 0 to |batch|
        invariant forall ch :: ch in batch[..i] ==> ch.payload != {}
      {
        if batch[i].payload == {} {
          assert batch[i] in batch;
          return false;
        }
      }
      assert batch[..|batch|] == batch;
      valid := true;
    }

    /** The changes go into their rows one after another; for each it is recorded whether its row was visible before or
        is after it. */
    method ApplyEach(batch: seq<RowChange>) returns (r: Result<Replica, ApplyError>, touched: seq<bool>)
      ensures r == ApplyChanges(rep, batch)
      ensures r.Ok? ==> |touched| == |batch| && r.value.catalog == rep.catalog
      ensures r.Ok? ==> forall i :: 0 <= i < |batch| ==> touched[i] == rep.RowAt(batch[i].row).Visible().Some?
    {
      var transaction := rep;
      touched := [];
      for i := 0 to |batch|
        invariant transaction.catalog == rep.catalog && |touched| == i
        invariant forall k :: transaction.RowAt(k).Visible().Some? == rep.RowAt(k).Visible().Some?
        invariant forall j :: 0 <= j < i ==> touched[j] == rep.RowAt(batch[j].row).Visible().Some?
        invariant ApplyChanges(rep, batch) == ApplyChanges(transaction, batch[i..])
      {
        var ch := batch[i];
        var before := transaction.RowAt(ch.row);
        assert batch[i..][0] == ch && batch[i..][1..] == batch[i + 1..];
        match ApplyChange(before, ch.id, ch.payload) {
          case Err(error) =>
            return Err(error), [];
          case Ok(row) =>
            transaction := transaction.(rows := transaction.rows[ch.row := row]);
            touched := touched + [before.Visible().Some? || row.Visible().Some?];
        }
      }
      r := Ok(transaction);
    }

    /** The rows of a batch go into their indexes one after another. */
    method IndexEach(batch: seq<RowChange>, touched: seq<bool>) returns (taken: bool)
      requires |touched| == |batch|
      requires forall i :: 0 <= i < |batch| ==> touched[i] == rep.RowAt(batch[i].row).Visible().Some?
      ensures taken <==> forall ch :: ch in batch ==> TakesChange(rep, ch)
    {
      for i := 0 to |batch|
        invariant forall j :: 0 <= j < i ==> TakesChange(rep, batch[j])
      {
        taken := UpdateIndexes(rep.catalog, batch[i].row.table, touched[i]);
        if !taken {
          assert batch[i] in batch && !TakesChange(rep, batch[i]);
          return;
        }
      }
      taken := true;
    }

    /** `apply_incremental_changes_for`: a batch in one transaction, applied whole or not at all. */
    method ApplyIncrementalChanges(batch: seq<RowChange>) returns (r: Result<bool, ApplyError>)
      modifies this
      ensures match ApplyBatch(old(rep), batch)
              case Ok(next) => r == Ok(true) && rep == next
              case Err(error) => r == Err(error) && rep == old(rep)
    {
      var valid := ValidateChanges(batch);
      if !valid {
        return Err(EngineFailure);
      }
      var applied, touched := ApplyEach(batch);
      if applied.Err? {
        return Err(applied.error);
      }
      var taken := IndexEach(batch, touched);
      if !taken {
        return Err(EngineFailure);
      }
      rep := applied.value;
      r := Ok(true);
    }

    /** `validate_state_batch`. */
    method ValidateStates(units: seq<StateUnit>) returns (valid: bool)
      ensures valid <==> forall u :: u in units ==> u.digest == Digest(u.content)
    {
      for i := 0 to |units|
        invariant forall u :: u in units[..i] ==> u.digest == Digest(u.content)
      {
        if units[i].digest != Digest(units[i].content) {
          assert units[i] in units;
          return false;
        }
      }
      assert units[..|units|] == units;
      valid := true;
    }

    /** A frame of units: every digest first, then one unit after another up to the first refusal. */
    method ApplyStates(units: seq<StateUnit>) returns (r: Result<bool, ApplyError>)
      modifies this
      ensures if exists u :: u in units && u.digest != Digest(u.content) then r.Err? && rep == old(rep)
              else r.Ok? == ApplyUnits(old(rep), units).1 && rep == ApplyUnits(old(rep), units).0
    {
      var valid := ValidateStates(units);
      if !valid {
        return Err(EngineFailure);
      }
      for i := 0 to |units|
        invariant ApplyUnits(old(rep), units) == ApplyUnits(rep, units[i..])
      {
        UnitsStep(rep, units, i);
        var applied := ApplySyncState(units[i]);
        if applied.Err? {
          return applied;
        }
      }
      r := Ok(true);
    }

    /** One message of the outbound: the rows to be requested for it, and whether the loop goes on. */
    method ReceiveMessage(m: M.Message, ghost p: M.Party) returns (requests: set<RowKey>, ending: Ending)
      requires p.stage == M.OUTBOUND && p.rep == rep && !p.failed
      modifies this
      ensures var (q, reply) := M.Handle(p, m);
              && q.rep == rep
              && q.failed == ending.Failed?
              && (ending.Completed? ==> q == M.Turn(p) && requests == {})
              && (ending.Failed? ==> reply == if ending.aborted then [M.Abort] else [])
              && (ending.Waiting? ==> q == p.(rep := rep, requests := p.requests + requests))
      ensures ending == Failed(RemoteAbort, false) <==> m == M.Abort
      ensures ending == Completed <==> m == M.Done
    {
      requests, ending := {}, Waiting;
      match m {
        case StateMessage(units) =>
          var applied := ApplyStates(units);
          if applied.Err? {
            ending := Failed(Engine(applied.error), true);
          }
        case ChangesMessage(batch) =>
          var applied := ApplyIncrementalChanges(batch);
          match applied {
            case Ok(_) =>
            case Err(DependencyUnavailable) =>
              requests := set ch | ch in batch :: ch.row;
            case Err(error) =>
              ending := Failed(Engine(error), true);
          }
        case Done =>
          ending := Completed;
        case Abort =>
          ending := Failed(RemoteAbort, false);
        case _ =>
          ending := Failed(UnexpectedMessage, false);
      }
    }

    /** `receive_outbound`: takes frames until the other side is done, collecting the rows of the batches whose
        dependencies are missing. It does what the party `p` of the protocol does with the same messages. */
    method ReceiveOutbound(inbox: seq<M.Message>, ghost p: M.Party)
      returns (consumed: nat, requests: set<RowKey>, ending: Ending)
      requires p.stage == M.OUTBOUND && p.rep == rep && p.requests == {} && !p.failed
      modifies this
      ensures consumed <= |inbox|
      ensures var q := R.Receive(p, inbox[..consumed]);
              && q.rep == rep
              && q.failed == ending.Failed?
              && (ending.Completed? ==> q == M.Turn(p.(rep := rep, requests := requests)))
              && (ending.Failed? ==>
                    consumed > 0 && ReplyTo(p, inbox, consumed) == if ending.aborted then [M.Abort] else [])
              && (ending.Waiting? ==> consumed == |inbox| && q == p.(rep := rep, requests := requests))
      ensures M.Abort in inbox[..consumed] <==> ending == Failed(RemoteAbort, false)
      ensures M.Done in inbox[..consumed] <==> ending == Completed
    {
      consumed, requests, ending := 0, {}, Waiting;
      while consumed < |inbox|
        invariant consumed <= |inbox|
        invariant p.(rep := rep, requests := requests) == R.Receive(p, inbox[..consumed])
        invariant M.Abort !in inbox[..consumed] && M.Done !in inbox[..consumed]
      {
        OneMore(p, inbox, consumed);
        assert inbox[..consumed + 1] == inbox[..consumed] + [inbox[consumed]];
        var more, now := ReceiveMessage(inbox[consumed], p.(rep := rep, requests := requests));
        consumed := consumed + 1;
        if !now.Waiting? {
          return consumed, requests, now;
        }
        requests := requests + more;
      }
      assert inbox[..consumed] == inbox;
    }

    /** One message of the recovery. */
    method ReceiveRecoveryMessage(m: M.Message, ghost p: M.Party) returns (ending: Ending)
      requires p.stage == M.RECOVERY && p.rep == rep && !p.failed
      modifies this
      ensures var (q, reply) := M.Handle(p, m);
              && q.rep == rep
              && q.failed == ending.Failed?
              && (ending.Completed? ==> q == M.Turn(p))
              && (ending.Failed? ==> reply == if ending.aborted then [M.Abort] else [])
              && (ending.Waiting? ==> q == p.(rep := rep))
      ensures ending == Failed(RemoteAbort, false) <==> m == M.Abort
      ensures ending == Completed <==> m == M.Done
    {
      ending := Waiting;
      match m {
        case StateMessage(units) =>
          var applied := ApplyStates(units);
          if applied.Err? {
            ending := Failed(Engine(applied.error), true);
          }
        case Done =>
          ending := Completed;
        case Abort =>
          ending := Failed(RemoteAbort, false);
        case _ =>
          ending := Failed(UnexpectedMessage, false);
      }
    }

    /** `receive_recovery`: the same loop for recovery units, without change batches. */
    method ReceiveRecovery(inbox: seq<M.Message>, ghost p: M.Party) returns (consumed: nat, ending: Ending)
      requires p.stage == M.RECOVERY && p.rep == rep && !p.failed
      modifies this
      ensures consumed <= |inbox|
      ensures var q := R.Receive(p, inbox[..consumed]);
              && q.rep == rep
              && q.failed == ending.Failed?
              && (ending.Completed? ==> q == M.Turn(p.(rep := rep)))
              && (ending.Failed? ==>
                    consumed > 0 && ReplyTo(p, inbox, consumed) == if ending.aborted then [M.Abort] else [])
              && (ending.Waiting? ==> consumed == |inbox| && q == p.(rep := rep))
      ensures M.Abort in inbox[..consumed] <==> ending == Failed(RemoteAbort, false)
      ensures M.Done in inbox[..consumed] <==> ending == Completed
    {
      consumed, ending := 0, Waiting;
      while consumed < |inbox|
        invariant consumed <= |inbox|
        invariant p.(rep := rep) == R.Receive(p, inbox[..consumed])
        invariant M.Abort !in inbox[..consumed] && M.Done !in inbox[..consumed]
      {
        OneMore(p, inbox, consumed);
        assert inbox[..consumed + 1] == inbox[..consumed] + [inbox[consumed]];
        var now := ReceiveRecoveryMessage(inbox[consumed], p.(rep := rep));
        consumed := consumed + 1;
        if !now.Waiting? {
          return consumed, now;
        }
      }
      assert inbox[..consumed] == inbox;
    }
  }

  /** What the party of the protocol answers to the last of the messages it consumed. */
  function ReplyTo(p: M.Party, inbox: seq<M.Message>, consumed: nat): seq<M.Message>
    requires 0 < consumed <= |inbox|
  {
    M.Handle(R.Receive(p, inbox[..consumed - 1]), inbox[consumed - 1]).1
  }

  lemma {:induction false} OneMore(p: M.Party, inbox: seq<M.Message>, consumed: nat)
    requires consumed < |inbox| && !R.Receive(p, inbox[..consumed]).failed
    ensures (R.Receive(p, inbox[..consumed + 1]), ReplyTo(p, inbox, consumed + 1))
            == M.Handle(R.Receive(p, inbox[..consumed]), inbox[consumed])
  {
    R.ReceiveSnoc(p, inbox[..consumed], inbox[consumed]);
    assert inbox[..consumed + 1] == inbox[..consumed] + [inbox[consumed]];
  }

  function UnitKey(u: StateUnit): SyncKey {
    u.key
  }

  function ChangeHash(ch: RowChange): Change {
    ch.id
  }

  predicate DistinctUnits(units: seq<StateUnit>) {
    forall i, j :: 0 <= i < j < |units| ==> units[i].key != units[j].key
  }

  predicate DistinctChanges(changes: seq<RowChange>) {
    forall i, j :: 0 <= i < j < |changes| ==> (changes[i].row, changes[i].id) != (changes[j].row, changes[j].id)
  }

  lemma {:induction false} KeyIsNew(units: seq<StateUnit>, i: nat, snapshots: seq<StateUnit>)
    requires i < |units| && DistinctUnits(units) && DistinctUnits(snapshots)
    requires forall u :: u in snapshots ==> u in units[..i]
    ensures DistinctUnits(snapshots + [units[i]])
    ensures units[i].key.OfRow? ==> !ListsRow(units[..i], units[i].key.row)
  {
    forall u | u in units[..i]
      ensures u.key != units[i].key
    {
      var j :| 0 <= j < i && units[..i][j] == u;
    }
    assert forall j :: 0 <= j < |snapshots| ==> snapshots[j] in snapshots;
  }

  lemma {:induction false} DistinctJoin(changes: seq<RowChange>, exported: seq<RowChange>, k: RowKey)
    requires DistinctChanges(changes) && DistinctChanges(exported)
    requires (forall ch :: ch in changes ==> ch.row != k) && (forall ch :: ch in exported ==> ch.row == k)
    ensures DistinctChanges(changes + exported)
  {
    assert forall j :: 0 <= j < |changes| ==> changes[j] in changes;
    assert forall j :: 0 <= j < |exported| ==> exported[j] in exported;
  }

  ghost predicate IsOutboundChange(rep: Replica, remote: Remote, ch: RowChange) {
    GoesAsChange(rep, remote, ch.row, ch.id) && ch.payload == rep.RowAt(ch.row).incrementals[ch.id]
  }

  /** Of these units, what goes whole and what goes as changes. */
  ghost predicate Selected(units: seq<StateUnit>, rep: Replica, remote: Remote, snapshots: seq<StateUnit>,
                           changes: seq<RowChange>)
  {
    && (forall u :: u in snapshots <==> u in units && GoesWhole(rep, remote, u.key))
    && (forall ch :: ch in changes <==> ListsRow(units, ch.row) && IsOutboundChange(rep, remote, ch))
  }

  /** Whether a unit is listed, and the changes of its row that the other side, which has the row, does not list. */
  ghost predicate Exports(rep: Replica, remote: Remote, unit: StateUnit, listed: bool, exported: seq<RowChange>) {
    && (listed <==> unit.key in remote.manifest && remote.manifest[unit.key] == unit.digest)
    && forall ch :: ch in exported <==>
         && !listed && unit.key == OfRow(ch.row) && ch.row in remote.inventories
         && ch.id in rep.RowAt(ch.row).incrementals.Keys - remote.inventories[ch.row]
         && ch.payload == rep.RowAt(ch.row).incrementals[ch.id]
  }

  lemma {:induction false} NewRowJoins(units: seq<StateUnit>, rep: Replica, remote: Remote, snapshots: seq<StateUnit>,
                                       changes: seq<RowChange>, unit: StateUnit, listed: bool,
                                       exported: seq<RowChange>)
    requires Selected(units, rep, remote, snapshots, changes) && Exports(rep, remote, unit, listed, exported)
    requires DistinctChanges(changes) && DistinctChanges(exported)
    requires unit.key.OfRow? ==> !ListsRow(units, unit.key.row)
    ensures DistinctChanges(changes + exported)
  {
    if unit.key.OfRow? {
      assert forall ch :: ch in changes ==> ListsRow(units, ch.row);
      DistinctJoin(changes, exported, unit.key.row);
    } else {
      NothingIn(exported);
      assert changes + exported == changes;
    }
  }

  lemma {:induction false} SelectedOneMore(units: seq<StateUnit>, rep: Replica, remote: Remote,
                                           snapshots: seq<StateUnit>, changes: seq<RowChange>, unit: StateUnit,
                                           listed: bool, exported: seq<RowChange>)
    requires Selected(units, rep, remote, snapshots, changes)
    requires unit.key in Exported(rep) && unit == NewUnit(unit.key, Exported(rep)[unit.key])
    requires Exports(rep, remote, unit, listed, exported)
    ensures Selected(units + [unit], rep, remote, if !listed && exported == [] then snapshots + [unit] else snapshots,
                     changes + exported)
  {
    UnitGoes(rep, remote, unit, listed, exported);
    ListsOneMore(units, unit);
    forall u
      ensures u in (if !listed && exported == [] then snapshots + [unit] else snapshots) <==>
              u in units + [unit] && GoesWhole(rep, remote, u.key)
    {
      assert u in units + [unit] <==> u in units || u == unit;
    }
    forall ch
      ensures ch in changes + exported <==> ListsRow(units + [unit], ch.row) && IsOutboundChange(rep, remote, ch)
    {
      assert ListsRow(units + [unit], ch.row) <==> ListsRow(units, ch.row) || unit.key == OfRow(ch.row);
    }
  }

  lemma {:induction false} ListsOneMore(units: seq<StateUnit>, unit: StateUnit)
    ensures forall k :: ListsRow(units + [unit], k) <==> ListsRow(units, k) || unit.key == OfRow(k)
  {
    assert forall u :: u in units + [unit] <==> u in units || u == unit;
  }

  lemma {:induction false} NothingIn(changes: seq<RowChange>)
    ensures (forall ch :: ch !in changes) ==> changes == []
  {
    if changes != [] {
      assert changes[0] in changes;
    }
  }

  /** A unit that is not listed goes whole, or as the changes the other side misses. */
  lemma {:induction false} UnitGoes(rep: Replica, remote: Remote, unit: StateUnit, listed: bool,
                                    exported: seq<RowChange>)
    requires unit.key in Exported(rep) && unit == NewUnit(unit.key, Exported(rep)[unit.key])
    requires Exports(rep, remote, unit, listed, exported)
    ensures GoesWhole(rep, remote, unit.key) <==> !listed && exported == []
    ensures forall ch: RowChange :: unit.key == OfRow(ch.row) ==>
            (IsOutboundChange(rep, remote, ch) <==> ch in exported)
  {
    NothingIn(exported);
    assert forall i :: 0 <= i < |exported| ==> exported[i] in exported;
    if unit.key.OfRow? && !listed && unit.key.row in remote.inventories {
      var k := unit.key.row;
      if c :| c in MissingChanges(rep, remote, k) {
        assert RowChange(k, c, rep.RowAt(k).incrementals[c]) in exported;
      }
    }
  }

  /** Sorting lists nothing twice. */
  lemma {:induction false} DistinctSorted(units: seq<StateUnit>, sortedUnits: seq<StateUnit>, changes: seq<RowChange>,
                                          sortedChanges: seq<RowChange>)
    requires multiset(units) == multiset(sortedUnits) && multiset(changes) == multiset(sortedChanges)
    requires DistinctUnits(units) && DistinctChanges(changes)
    ensures DistinctUnits(sortedUnits) && DistinctChanges(sortedChanges)
    ensures (forall u :: u in sortedUnits <==> u in units) && (forall ch :: ch in sortedChanges <==> ch in changes)
  {
    DistinctPermuted(units, sortedUnits);
    DistinctPermuted(changes, sortedChanges);
    forall i, j | 0 <= i < j < |sortedUnits|
      ensures sortedUnits[i].key != sortedUnits[j].key
    {
      assert sortedUnits[i] in units && sortedUnits[j] in units;
    }
    forall i, j | 0 <= i < j < |sortedChanges|
      ensures (sortedChanges[i].row, sortedChanges[i].id) != (sortedChanges[j].row, sortedChanges[j].id)
    {
      assert sortedChanges[i] in changes && sortedChanges[j] in changes;
    }
  }

  lemma {:induction false} OutboundIsValid(units: seq<StateUnit>, rep: Replica, remote: Remote,
                                           snapshots: seq<StateUnit>, changes: seq<RowChange>,
                                           states: seq<seq<StateUnit>>, batches: seq<seq<RowChange>>)
    requires IsExport(units, rep) && Joined(states) == snapshots && Joined(batches) == changes
    requires Selected(units, rep, remote, snapshots, changes)
    ensures ValidOutbound(Outbound(states, batches), rep, remote)
  {
    forall u
      ensures InBatches(u, states) <==> GoesWhole(rep, remote, u.key) && u == NewUnit(u.key, Exported(rep)[u.key])
    {
      JoinedHolds(states, u);
    }
    forall ch
      ensures InBatches(ch, batches) <==> IsOutboundChange(rep, remote, ch)
    {
      JoinedHolds(batches, ch);
      if IsOutboundChange(rep, remote, ch) {
        assert NewUnit(OfRow(ch.row), Exported(rep)[OfRow(ch.row)]) in units;
      }
    }
  }

  predicate Listed(units: seq<StateUnit>, e: L.Entry) {
    exists u :: u in units && u.key == e.key && u.digest == e.digest
  }

  lemma {:induction false} ManifestListsExport(units: seq<StateUnit>, rep: Replica, entries: seq<L.Entry>,
                                               manifest: seq<L.Entry>)
    requires IsExport(units, rep) && forall e :: e in entries <==> Listed(units, e)
    requires forall e :: e in manifest ==> e in entries
    requires (forall d, e :: d in entries && e in entries && d.key == e.key ==> d == e) ==>
               forall e :: e in entries ==> e in manifest
    ensures L.Lists(manifest, ManifestOf(rep))
  {
    forall e
      ensures e in entries <==> e.key in Exported(rep) && e.digest == Digest(Exported(rep)[e.key])
    {
      if e.key in Exported(rep) {
        assert NewUnit(e.key, Exported(rep)[e.key]) in units;
      }
    }
    forall key, digest
      ensures L.Entry(key, digest) in manifest <==> key in ManifestOf(rep) && ManifestOf(rep)[key] == digest
    {
      assert L.Entry(key, digest) in manifest <==> L.Entry(key, digest) in entries;
    }
  }

  lemma {:induction false} UnitsStep(rep: Replica, units: seq<StateUnit>, i: nat)
    requires i < |units|
    ensures ApplyUnits(rep, units[i..])
            == match ApplyUnit(rep, units[i])
               case Ok(next) => ApplyUnits(next, units[i + 1..])
               case Err(_) => (rep, false)
  {
    assert units[i..][0] == units[i] && units[i..][1..] == units[i + 1..];
  }

  predicate ListsRow(units: seq<StateUnit>, k: RowKey) {
    exists u :: u in units && u.key == OfRow(k)
  }

  ghost predicate IsExport(units: seq<StateUnit>, rep: Replica) {
    forall u :: u in units <==> u.key in Exported(rep) && u == NewUnit(u.key, Exported(rep)[u.key])
  }

  /** The inventories of what a replica exports are those the protocol speaks of. */
  lemma {:induction false} ExportInventories(units: seq<StateUnit>, rep: Replica)
    requires IsExport(units, rep)
    ensures (map k | k in rep.rows && ListsRow(units, k) :: rep.rows[k].incrementals.Keys) == InventoriesOf(rep)
  {
    forall k | k in rep.rows
      ensures ListsRow(units, k) <==> OfRow(k) in Exported(rep)
    {
      if OfRow(k) in Exported(rep) {
        var u := NewUnit(OfRow(k), Exported(rep)[OfRow(k)]);
        assert u in units;
      }
    }
  }
}
