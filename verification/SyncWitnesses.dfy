// What sessions do not achieve, by pairs of replicas: success is not automatic, and one success is not enough.
module SyncWitnesses {
  import opened Automerge
  import opened RowState
  import opened SyncCatalog
  import opened SyncState
  import opened SyncRun
  import opened Wrappers
  import M = SyncMachine
  import S = SyncSafety
  import C = SyncConvergence
  import I = SyncIndexes
  import Q = SyncConditions
  import Catalog
  import opened Values

  const FIRST := Change(1, {})
  const SECOND := Change(2, {FIRST})
  const OTHER := Change(3, {})

  /** A replica with one row in one table. */
  function OneRow(k: RowKey, r: RowState.Row): Replica {
    Replica(map[TableEntry(k.table) := CatalogValue(false, [])], map[k := r])
  }

  lemma {:induction false} OneGoodRow(k: RowKey, r: RowState.Row)
    requires GoodRow(r) && r.meta != Some(false)
    ensures GoodReplica(OneRow(k, r))
  {
  }

  // ---------------------------------------------------------------------------------------------
  // What one row's replica sends another
  // ---------------------------------------------------------------------------------------------

  lemma {:induction false} EntryIsShared(a: Replica, b: Replica, e: CatalogKey)
    requires a.catalog == b.catalog
    ensures !Differs(a, RemoteOf(b), OfCatalog(e))
  {
    ExportedEntry(a, e);
    ExportedEntry(b, e);
    if e in a.catalog {
      assert OfCatalog(e) in ManifestOf(b);
    }
  }

  lemma {:induction false} RowDiffers(k: RowKey, a: RowState.Row, b: RowState.Row)
    requires HasUnit(a) && HasUnit(b) && ContentOf(a) != ContentOf(b)
    ensures Differs(OneRow(k, a), RemoteOf(OneRow(k, b)), OfRow(k))
    ensures k in RemoteOf(OneRow(k, b)).inventories
    ensures MissingChanges(OneRow(k, a), RemoteOf(OneRow(k, b)), k) == a.incrementals.Keys - b.incrementals.Keys
  {
    ExportedRow(OneRow(k, a), k);
    ExportedRow(OneRow(k, b), k);
    C.RemoteRow(OneRow(k, b), k);
    if OfRow(k) in ManifestOf(OneRow(k, b)) {
      assert ManifestOf(OneRow(k, b))[OfRow(k)] == Digest(ContentOf(b));
    }
  }

  lemma {:induction false} WhatGoesWhole(k: RowKey, a: RowState.Row, b: RowState.Row, key: SyncKey)
    requires HasUnit(a) && HasUnit(b) && ContentOf(a) != ContentOf(b)
    ensures GoesWhole(OneRow(k, a), RemoteOf(OneRow(k, b)), key) <==>
            key == OfRow(k) && a.incrementals.Keys - b.incrementals.Keys == {}
  {
    match key {
      case OfCatalog(e) => EntryIsShared(OneRow(k, a), OneRow(k, b), e);
      case OfRow(o) =>
        if o == k {
          RowGoesWhole(k, a, b);
        } else {
          OtherRowIsAbsent(k, a, b, o);
        }
    }
  }

  lemma {:induction false} RowGoesWhole(k: RowKey, a: RowState.Row, b: RowState.Row)
    requires HasUnit(a) && HasUnit(b) && ContentOf(a) != ContentOf(b)
    ensures GoesWhole(OneRow(k, a), RemoteOf(OneRow(k, b)), OfRow(k)) <==>
            a.incrementals.Keys - b.incrementals.Keys == {}
  {
    RowDiffers(k, a, b);
    WholeWithoutMissing(OneRow(k, a), RemoteOf(OneRow(k, b)), k, a.incrementals.Keys - b.incrementals.Keys);
  }

  lemma {:induction false} WholeWithoutMissing(rep: Replica, remote: Remote, k: RowKey, missing: set<Change>)
    requires Differs(rep, remote, OfRow(k)) && k in remote.inventories && MissingChanges(rep, remote, k) == missing
    ensures GoesWhole(rep, remote, OfRow(k)) <==> missing == {}
  {
  }

  lemma {:induction false} OtherRowIsAbsent(k: RowKey, a: RowState.Row, b: RowState.Row, o: RowKey)
    requires o != k
    ensures !Differs(OneRow(k, a), RemoteOf(OneRow(k, b)), OfRow(o))
  {
    ExportedRow(OneRow(k, a), o);
  }

  lemma {:induction false} WhatGoesAsChange(k: RowKey, a: RowState.Row, b: RowState.Row, o: RowKey, c: Change)
    requires HasUnit(a) && HasUnit(b) && ContentOf(a) != ContentOf(b)
    ensures GoesAsChange(OneRow(k, a), RemoteOf(OneRow(k, b)), o, c) <==>
            o == k && c in a.incrementals.Keys && c !in b.incrementals.Keys
  {
    if o == k {
      RowDiffers(k, a, b);
    } else {
      OtherRowIsAbsent(k, a, b, o);
    }
  }

  /** Frames that carry nothing but one unit and one change, any number of times. */
  ghost predicate CarryOnly(frames: seq<M.Message>, units: set<StateUnit>, changes: set<RowChange>) {
    forall m :: m in frames ==>
      || (m.StateMessage? && forall u :: u in m.units ==> u in units)
      || (m.ChangesMessage? && forall ch :: ch in m.batch ==> ch in changes)
  }

  lemma {:induction false} FramesCarryOnly(out: Outbound, units: set<StateUnit>, changes: set<RowChange>)
    requires forall u :: InBatches(u, out.states) ==> u in units
    requires forall ch :: InBatches(ch, out.changes) ==> ch in changes
    ensures CarryOnly(OutboundFrames(out), units, changes)
  {
    forall m | m in OutboundFrames(out)
      ensures || (m.StateMessage? && forall u :: u in m.units ==> u in units)
              || (m.ChangesMessage? && forall ch :: ch in m.batch ==> ch in changes)
    {
      if m.StateMessage? {
        assert exists i :: 0 <= i < |out.states| && m == M.StateMessage(out.states[i]);
        forall u | u in m.units
          ensures u in units
        {
          assert InBatches(u, out.states);
        }
      } else {
        assert exists i :: 0 <= i < |out.changes| && m == M.ChangesMessage(out.changes[i]);
        forall ch | ch in m.batch
          ensures ch in changes
        {
          assert InBatches(ch, out.changes);
        }
      }
    }
  }

  /** A unit that takes one replica to another, and leaves that one alone. */
  ghost predicate Settles(start: Replica, end: Replica, unit: StateUnit) {
    && unit.digest == Digest(unit.content)
    && ApplyUnit(start, unit) == Ok(end) && ApplyUnit(end, unit) == Ok(end)
  }

  lemma {:induction false} UnitRepeats(rep: Replica, units: seq<StateUnit>, unit: StateUnit, start: Replica,
                                       end: Replica)
    requires Settles(start, end, unit) && (rep == start || rep == end) && forall u :: u in units ==> u == unit
    ensures ApplyUnits(rep, units) == (if units == [] then rep else end, true)
    decreases units
  {
    if units != [] {
      assert units[0] in units && forall u :: u in units[1..] ==> u in units;
      UnitRepeats(end, units[1..], unit, start, end);
    }
  }

  /** Frames with nothing but that unit, any number of times. */
  lemma {:induction false} FramesSettle(x: Intake, frames: seq<M.Message>, unit: StateUnit, start: Replica,
                                        end: Replica)
    requires Settles(start, end, unit) && (x.rep == start || x.rep == end) && CarryOnly(frames, {unit}, {})
    ensures TakeFrames(x, frames) == Some(x.(rep := if C.CarriesUnit(frames, unit) then end else x.rep))
    decreases frames
  {
    if frames != [] {
      var m, rest := frames[0], frames[1..];
      assert m in frames && frames == [m] + rest;
      assert C.CarriesUnit(frames, unit) <==> (m.StateMessage? && unit in m.units) || C.CarriesUnit(rest, unit);
      if m.StateMessage? {
        UnitRepeats(x.rep, m.units, unit, start, end);
        assert m.units != [] ==> m.units[0] in m.units;
      } else {
        EmptyFrame(x, m);
      }
      FramesSettle(TakeFrame(x, m).value, rest, unit, start, end);
    }
  }

  lemma {:induction false} EmptyFrame(x: Intake, m: M.Message)
    requires (m.StateMessage? && forall u :: u !in m.units) || (m.ChangesMessage? && forall ch :: ch !in m.batch)
    ensures TakeFrame(x, m) == Some(x)
  {
    if m.StateMessage? {
      assert forall i :: 0 <= i < |m.units| ==> m.units[i] in m.units;
    } else {
      assert forall i :: 0 <= i < |m.batch| ==> m.batch[i] in m.batch;
    }
  }

  /** An outbound of just that unit. */
  lemma {:induction false} OutboundSettles(out: Outbound, unit: StateUnit, start: Replica, end: Replica)
    requires Settles(start, end, unit)
    requires (forall u :: InBatches(u, out.states) <==> u == unit) && forall ch :: !InBatches(ch, out.changes)
    ensures TakeFrames(Intake(start, {}), OutboundFrames(out)) == Some(Intake(end, {}))
  {
    FramesCarryOnly(out, {unit}, {});
    C.OutboundCarries(out, unit);
    FramesSettle(Intake(start, {}), OutboundFrames(out), unit, start, end);
  }

  /** A row with one incremental the other side misses sends that change and nothing else. */
  lemma {:induction false} OneChangeGoes(out: Outbound, k: RowKey, a: RowState.Row, b: RowState.Row, c: Change)
    requires HasUnit(a) && HasUnit(b) && ContentOf(a) != ContentOf(b)
    requires a.incrementals.Keys == {c} && c !in b.incrementals
    requires ValidOutbound(out, OneRow(k, a), RemoteOf(OneRow(k, b)))
    ensures CarryOnly(OutboundFrames(out), {}, {RowChange(k, c, a.incrementals[c])})
    ensures exists m :: m in OutboundFrames(out) && m.ChangesMessage? && m.batch != []
  {
    var change := RowChange(k, c, a.incrementals[c]);
    NoUnitGoes(out, k, a, b, c);
    forall ch | InBatches(ch, out.changes)
      ensures ch in {change}
    {
      WhatGoesAsChange(k, a, b, ch.row, ch.id);
    }
    FramesCarryOnly(out, {}, {change});
    WhatGoesAsChange(k, a, b, k, c);
    ChangeIsCarried(out, change);
  }

  lemma {:induction false} NoUnitGoes(out: Outbound, k: RowKey, a: RowState.Row, b: RowState.Row, c: Change)
    requires HasUnit(a) && HasUnit(b) && ContentOf(a) != ContentOf(b)
    requires c in a.incrementals.Keys && c !in b.incrementals
    requires ValidOutbound(out, OneRow(k, a), RemoteOf(OneRow(k, b)))
    ensures forall u :: !InBatches(u, out.states)
  {
    var rep, remote := OneRow(k, a), RemoteOf(OneRow(k, b));
    assert c in a.incrementals.Keys - b.incrementals.Keys;
    forall u: StateUnit
      ensures !GoesWhole(rep, remote, u.key)
    {
      WhatGoesWhole(k, a, b, u.key);
    }
    NothingInStates(out, rep, remote);
  }

  lemma {:induction false} NothingInStates(out: Outbound, rep: Replica, remote: Remote)
    requires ValidOutbound(out, rep, remote) && forall u: StateUnit :: !GoesWhole(rep, remote, u.key)
    ensures forall u :: !InBatches(u, out.states)
  {
  }

  lemma {:induction false} ChangeIsCarried(out: Outbound, change: RowChange)
    requires InBatches(change, out.changes)
    ensures exists m :: m in OutboundFrames(out) && m.ChangesMessage? && m.batch != []
  {
    var i :| 0 <= i < |out.changes| && change in out.changes[i];
    assert OutboundFrames(out)[|out.states| + i] == M.ChangesMessage(out.changes[i]);
  }

  /** A row without incrementals sends its unit and nothing else. */
  lemma {:induction false} OneUnitGoes(out: Outbound, k: RowKey, a: RowState.Row, b: RowState.Row)
    requires HasUnit(a) && HasUnit(b) && ContentOf(a) != ContentOf(b) && a.incrementals == map[]
    requires ValidOutbound(out, OneRow(k, a), RemoteOf(OneRow(k, b)))
    ensures CarryOnly(OutboundFrames(out), {NewUnit(OfRow(k), ContentOf(a))}, {})
  {
    ExportedRow(OneRow(k, a), k);
    forall u | InBatches(u, out.states)
      ensures u in {NewUnit(OfRow(k), ContentOf(a))}
    {
      WhatGoesWhole(k, a, b, u.key);
    }
    forall ch
      ensures !InBatches(ch, out.changes)
    {
      WhatGoesAsChange(k, a, b, ch.row, ch.id);
    }
    FramesCarryOnly(out, {NewUnit(OfRow(k), ContentOf(a))}, {});
  }

  // ---------------------------------------------------------------------------------------------
  // Success is not automatic
  // ---------------------------------------------------------------------------------------------

  /** One side stores a change as an incremental, and what it depends on only in its snapshot. */
  const AHEAD := Row(Some({FIRST, SECOND}), map[SECOND := {SECOND}], None)

  /** The other has the row without either. */
  const BEHIND := Row(Some({OTHER}), map[], None)

  lemma {:induction false} AheadAndBehindAreGood(k: RowKey)
    ensures GoodReplica(OneRow(k, AHEAD)) && GoodReplica(OneRow(k, BEHIND))
    ensures HasUnit(AHEAD) && HasUnit(BEHIND) && ContentOf(AHEAD) != ContentOf(BEHIND)
  {
    assert Within(SECOND, SECOND);
    OneGoodRow(k, AHEAD);
    OneGoodRow(k, BEHIND);
    assert OTHER !in {FIRST, SECOND};
  }

  /** A change that the row cannot apply, or has without listing it, is refused, and not with the error that makes the
      other side ask for the row. */
  lemma {:induction false} ChangeIsRefused(x: Intake, frames: seq<M.Message>, k: RowKey, r: RowState.Row,
                                           change: RowChange)
    requires x.rep == OneRow(k, r) && CarryOnly(frames, {}, {change}) && change.row == k && change.payload != {}
    requires exists m :: m in frames && m.ChangesMessage? && m.batch != []
    requires r.Visible().Some? && change.id !in r.incrementals
    requires change.id in r.Held() || change.id !in Closure(r.Held() + change.payload)
    ensures TakeFrames(x, frames) == None
    decreases frames
  {
    var m, rest := frames[0], frames[1..];
    assert m in frames && frames == [m] + rest;
    if m.ChangesMessage? && m.batch != [] {
      assert m.batch[0] in m.batch;
      assert ApplyChanges(x.rep, m.batch) == Err(HashMismatch);
    } else {
      EmptyFrame(x, m);
      ChangeIsRefused(x, rest, k, r, change);
    }
  }

  /** A row whose only incremental the other side misses, and cannot take in. */
  lemma {:induction false} OutboundIsRefused(policy: M.Policy, k: RowKey, a: RowState.Row, b: RowState.Row, c: Change)
    requires S.ValidPolicy(policy) && HasUnit(a) && b.Visible().Some? && ContentOf(a) != ContentOf(b)
    requires a.incrementals.Keys == {c} && c !in b.incrementals && a.incrementals[c] != {}
    requires c in b.Held() || c !in Closure(b.Held() + a.incrementals[c])
    ensures AfterOutbound(OneRow(k, a), policy, OneRow(k, b)) == None
  {
    var out := policy.outbound(OneRow(k, a), RemoteOf(OneRow(k, b)));
    assert ValidOutbound(out, OneRow(k, a), RemoteOf(OneRow(k, b)));
    OneChangeGoes(out, k, a, b, c);
    ChangeIsRefused(Intake(OneRow(k, b), {}), OutboundFrames(out), k, b, RowChange(k, c, a.incrementals[c]));
  }

  /** Between two well-formed replicas with the same catalog a session may always fail: for these two no run of a
      session succeeds on both sides, whatever the orders and framings. */
  lemma {:induction false} SessionMayAlwaysFail(version: nat, policyA: M.Policy, policyB: M.Policy, k: RowKey,
                                                run: seq<M.Side>)
    requires S.ValidPolicy(policyA) && S.ValidPolicy(policyB)
    requires M.Exec(Opening(version, policyA, OneRow(k, AHEAD), policyB, OneRow(k, BEHIND)), run).Some?
    ensures GoodReplica(OneRow(k, AHEAD)) && GoodReplica(OneRow(k, BEHIND))
    ensures var t := M.Exec(Opening(version, policyA, OneRow(k, AHEAD), policyB, OneRow(k, BEHIND)), run).value;
            !(t.a.Succeeded() && t.b.Succeeded())
  {
    var a, b := OneRow(k, AHEAD), OneRow(k, BEHIND);
    AheadAndBehindAreGood(k);
    SecondCannotApply();
    OutboundIsRefused(policyA, k, AHEAD, BEHIND, SECOND);
    var t := M.Exec(Opening(version, policyA, a, policyB, b), run).value;
    if t.a.Succeeded() && t.b.Succeeded() {
      SuccessIsResult(version, policyA, a, policyB, b, run);
    }
  }

  lemma {:induction false} SecondCannotApply()
    ensures SECOND !in Closure(BEHIND.Held() + {SECOND})
  {
    assert FIRST in SECOND.deps && !Supported(FIRST, BEHIND.Held() + {SECOND});
  }

  // ---------------------------------------------------------------------------------------------
  // Nor is it after a first session and ordinary use
  // ---------------------------------------------------------------------------------------------

  /** A row that was created and changed once. */
  const HOME := Row(Some({FIRST, SECOND}), map[SECOND := {SECOND}], None)

  /** The row as it arrives at a side that has nothing. */
  const COPY := Row(Some({FIRST, SECOND}), map[], None)

  const THIRD := Change(4, {SECOND})

  /** The copy after a local change. */
  const COPY_NEXT := Row(Some({FIRST, SECOND} + {THIRD}), map[THIRD := {THIRD}], None)

  /** A side that has the table and no row. */
  function NoRows(k: RowKey): Replica {
    Replica(map[TableEntry(k.table) := CatalogValue(false, [])], map[])
  }

  lemma {:induction false} HomeAndCopyAreGood(k: RowKey)
    ensures GoodReplica(OneRow(k, HOME)) && GoodReplica(NoRows(k)) && GoodReplica(OneRow(k, COPY_NEXT))
    ensures HasUnit(HOME) && HasUnit(COPY_NEXT) && ContentOf(HOME) != ContentOf(COPY_NEXT)
  {
    assert Within(SECOND, SECOND) && Within(THIRD, THIRD);
    OneGoodRow(k, HOME);
    OneGoodRow(k, COPY_NEXT);
    assert THIRD !in {FIRST, SECOND} && THIRD in {FIRST, SECOND} + {THIRD};
  }

  lemma {:induction false} ThirdIsLocal()
    ensures LocalChange(COPY, THIRD, {THIRD}) && MergeRow(COPY, THIRD, {THIRD}) == Ok(COPY_NEXT)
  {
    assert Within(THIRD, THIRD);
    assert THIRD !in {FIRST, SECOND};
  }

  lemma {:induction false} NoRowsExports(k: RowKey, key: SyncKey)
    ensures key in Exported(NoRows(k)) <==> key == OfCatalog(TableEntry(k.table))
    ensures !Differs(NoRows(k), RemoteOf(OneRow(k, HOME)), key)
  {
    match key {
      case OfCatalog(e) =>
        ExportedEntry(NoRows(k), e);
        EntryIsShared(NoRows(k), OneRow(k, HOME), e);
      case OfRow(o) => ExportedRow(NoRows(k), o);
    }
  }

  lemma {:induction false} NothingIsListed(k: RowKey)
    ensures RemoteOf(NoRows(k)).inventories == map[]
  {
    assert InventoriesOf(NoRows(k)) == map[];
  }

  lemma {:induction false} NotListed(rep: Replica, key: SyncKey)
    requires key !in Exported(rep)
    ensures key !in RemoteOf(rep).manifest
  {
    assert key !in ManifestOf(rep);
  }

  lemma {:induction false} HomeRowDiffers(k: RowKey, o: RowKey)
    ensures Differs(OneRow(k, HOME), RemoteOf(NoRows(k)), OfRow(o)) <==> o == k
  {
    ExportedRow(OneRow(k, HOME), o);
    ExportedRow(NoRows(k), o);
    NotListed(NoRows(k), OfRow(o));
    assert OneRow(k, HOME).TableIs(k.table, false) && HasUnit(HOME);
  }

  lemma {:induction false} HomeDiffers(k: RowKey, key: SyncKey)
    ensures Differs(OneRow(k, HOME), RemoteOf(NoRows(k)), key) <==> key == OfRow(k)
  {
    match key {
      case OfCatalog(e) =>
        EntryIsShared(OneRow(k, HOME), NoRows(k), e);
      case OfRow(o) =>
        HomeRowDiffers(k, o);
    }
  }

  lemma {:induction false} HomeUnit(k: RowKey, u: StateUnit)
    ensures GoesWhole(OneRow(k, HOME), RemoteOf(NoRows(k)), u.key)
            && u == NewUnit(u.key, Exported(OneRow(k, HOME))[u.key])
            <==> u == NewUnit(OfRow(k), ContentOf(HOME))
  {
    HomeDiffers(k, u.key);
    NothingIsListed(k);
    ExportedRow(OneRow(k, HOME), k);
  }

  lemma {:induction false} CopyArrives(policy: M.Policy, k: RowKey)
    requires S.ValidPolicy(policy)
    ensures AfterOutbound(OneRow(k, HOME), policy, NoRows(k)) == Some(Intake(OneRow(k, COPY), {}))
  {
    var out := policy.outbound(OneRow(k, HOME), RemoteOf(NoRows(k)));
    var unit := NewUnit(OfRow(k), ContentOf(HOME));
    assert ValidOutbound(out, OneRow(k, HOME), RemoteOf(NoRows(k)));
    forall u
      ensures InBatches(u, out.states) <==> u == unit
    {
      HomeUnit(k, u);
    }
    NothingIsListed(k);
    HomeIsCopied(k);
    OutboundSettles(out, unit, NoRows(k), OneRow(k, COPY));
  }

  lemma {:induction false} HomeIsCopied(k: RowKey)
    ensures Settles(NoRows(k), OneRow(k, COPY), NewUnit(OfRow(k), ContentOf(HOME)))
  {
    assert {FIRST, SECOND} + {FIRST, SECOND} == {FIRST, SECOND} == {} + {FIRST, SECOND};
    assert MergeState(NO_ROW, {FIRST, SECOND}) == COPY && MergeState(COPY, {FIRST, SECOND}) == COPY;
    assert NoRows(k).rows[k := COPY] == OneRow(k, COPY).rows[k := COPY] == map[k := COPY];
  }

  lemma {:induction false} NothingComesBack(policy: M.Policy, k: RowKey)
    requires S.ValidPolicy(policy)
    ensures AfterOutbound(NoRows(k), policy, OneRow(k, HOME)) == Some(Intake(OneRow(k, HOME), {}))
  {
    var out := policy.outbound(NoRows(k), RemoteOf(OneRow(k, HOME)));
    assert ValidOutbound(out, NoRows(k), RemoteOf(OneRow(k, HOME)));
    forall u
      ensures !InBatches(u, out.states)
    {
      NoRowsExports(k, u.key);
    }
    forall ch
      ensures !InBatches(ch, out.changes)
    {
      NoRowsExports(k, OfRow(ch.row));
    }
    FramesCarryOnly(out, {}, {});
    FramesOfNothing(Intake(OneRow(k, HOME), {}), OutboundFrames(out));
  }

  lemma {:induction false} FramesOfNothing(x: Intake, frames: seq<M.Message>)
    requires CarryOnly(frames, {}, {})
    ensures TakeFrames(x, frames) == Some(x)
    decreases frames
  {
    if frames != [] {
      assert frames[0] in frames && forall n :: n in frames[1..] ==> n in frames;
      EmptyFrame(x, frames[0]);
      FramesOfNothing(x, frames[1..]);
    }
  }

  /** A row goes over whole to a side that has nothing; that side makes a local change; and from then on no session
      between the two succeeds, whatever the orders and framings: the incremental the copy came without is sent, and
      refused because the copy holds its change. */
  lemma {:induction false} OrdinaryUseMayFail(policyA: M.Policy, policyB: M.Policy, k: RowKey)
    requires S.ValidPolicy(policyA) && S.ValidPolicy(policyB)
    ensures GoodReplica(OneRow(k, HOME)) && GoodReplica(NoRows(k))
    ensures SessionResult(OneRow(k, HOME), policyA, NoRows(k), policyB) == Some((OneRow(k, HOME), OneRow(k, COPY)))
    ensures LocalChange(COPY, THIRD, {THIRD}) && MergeRow(COPY, THIRD, {THIRD}) == Ok(COPY_NEXT)
    ensures SessionResult(OneRow(k, HOME), policyA, OneRow(k, COPY_NEXT), policyB) == None
  {
    HomeAndCopyAreGood(k);
    CopyArrives(policyA, k);
    NothingComesBack(policyB, k);
    SessionWithoutRequests(OneRow(k, HOME), policyA, NoRows(k), policyB, Intake(OneRow(k, HOME), {}),
                           Intake(OneRow(k, COPY), {}));
    ThirdIsLocal();
    OutboundIsRefused(policyA, k, HOME, COPY_NEXT, SECOND);
  }

  // ---------------------------------------------------------------------------------------------
  // Nor is it where an index cannot take a row
  // ---------------------------------------------------------------------------------------------

  const KEY_COLUMN := CatalogValue(false, [Type(UuidType), Null, Integer(0), Bool(true)])

  /** A table with two key columns, as one has that was dropped and created again with another key, and an index on
      it. */
  function TwoKeys(table: Catalog.Name): Entries {
    map[TableEntry(table) := CatalogValue(false, []),
        TableField(table, [97]) := KEY_COLUMN, TableField(table, [98]) := KEY_COLUMN,
        IndexEntry([105]) := CatalogValue(false, [Text(table), Bool(false)]),
        IndexField([105], 0) := CatalogValue(false, [Text([98])])]
  }

  lemma {:induction false} TwoKeysAreKeys(table: Catalog.Name)
    ensures Catalog.PrimaryNames(DefOf(TwoKeys(table), table)) == {[97], [98]}
  {
    var def := DefOf(TwoKeys(table), table);
    assert TableField(table, [97]) in TwoKeys(table) && TableField(table, [98]) in TwoKeys(table);
    assert [97] in def.fields && [98] in def.fields;
  }

  lemma {:induction false} TwoKeysTakeNoRow(table: Catalog.Name)
    ensures !TakesRow(TwoKeys(table), table, true)
  {
    TwoKeysAreKeys(table);
    var index := IndexEntry([105]);
    assert index in TwoKeys(table) && IndexOn(TwoKeys(table), index.name, table);
    assert [97] in {[97], [98]} && [98] in {[97], [98]} - {[97]};
    assert !IndexTakes(TwoKeys(table), index.name, table, true);
  }

  function KeyedRow(k: RowKey): Replica {
    Replica(TwoKeys(k.table), map[k := SHOWN])
  }

  function KeyedNoRows(k: RowKey): Replica {
    Replica(TwoKeys(k.table), map[])
  }

  lemma {:induction false} KeyedRowGoes(k: RowKey)
    ensures GoesWhole(KeyedRow(k), RemoteOf(KeyedNoRows(k)), OfRow(k))
    ensures !I.TakesUnit(KeyedRow(k), KeyedNoRows(k), k)
  {
    var a, b := KeyedRow(k), KeyedNoRows(k);
    TwoKeysTakeNoRow(k.table);
    ExportedRow(a, k);
    ExportedRow(b, k);
    NotListed(b, OfRow(k));
    assert a.TableIs(k.table, false) && HasUnit(a.RowAt(k));
    WholeWithoutIncrementals(a, RemoteOf(b), k);
    assert I.Touches(SHOWN, NO_ROW);
  }

  lemma {:induction false} WholeWithoutIncrementals(rep: Replica, remote: Remote, k: RowKey)
    requires Differs(rep, remote, OfRow(k)) && rep.RowAt(k).incrementals == map[]
    ensures GoesWhole(rep, remote, OfRow(k))
  {
  }

  lemma {:induction false} KeyedAreClear(k: RowKey)
    ensures GoodReplica(KeyedRow(k)) && GoodReplica(KeyedNoRows(k))
    ensures Q.Clear(KeyedRow(k), KeyedNoRows(k)) && Q.Clear(KeyedNoRows(k), KeyedRow(k))
  {
    assert GoodRow(SHOWN);
  }

  /** One side has a row of that table without incrementals, and the other has none: nothing that is sent is unclear,
      and still no session between the two succeeds, whatever the orders and framings, because the index on the other
      side cannot take the row. */
  lemma {:induction false} IndexMayRefuse(policyA: M.Policy, policyB: M.Policy, k: RowKey)
    requires S.ValidPolicy(policyA) && S.ValidPolicy(policyB)
    ensures GoodReplica(KeyedRow(k)) && GoodReplica(KeyedNoRows(k))
    ensures Q.Clear(KeyedRow(k), KeyedNoRows(k)) && Q.Clear(KeyedNoRows(k), KeyedRow(k))
    ensures SessionResult(KeyedRow(k), policyA, KeyedNoRows(k), policyB) == None
    ensures SessionResult(KeyedNoRows(k), policyB, KeyedRow(k), policyA) == None
  {
    KeyedAreClear(k);
    KeyedRowGoes(k);
    Q.WholeIsRefused(KeyedRow(k), policyA, KeyedNoRows(k), k);
    Q.RefusedEitherWay(KeyedRow(k), policyA, KeyedNoRows(k), policyB);
  }

  // ---------------------------------------------------------------------------------------------
  // One success is not enough
  // ---------------------------------------------------------------------------------------------

  /** One side has deleted the row, and holds an incremental of it. */
  const GONE := Row(Some({FIRST}), map[FIRST := {FIRST}], Some(true))

  /** The other still shows it, without that incremental. */
  const SHOWN := Row(Some({OTHER}), map[], None)

  const SHOWN_NEXT := Row(Some({OTHER} + {FIRST}), map[FIRST := {FIRST}], None)

  lemma {:induction false} GoneAndShownAreGood(k: RowKey)
    ensures GoodReplica(OneRow(k, GONE)) && GoodReplica(OneRow(k, SHOWN))
    ensures HasUnit(GONE) && HasUnit(SHOWN) && ContentOf(GONE) != ContentOf(SHOWN)
  {
    assert Within(FIRST, FIRST);
    OneGoodRow(k, GONE);
    OneGoodRow(k, SHOWN);
  }

  predicate StillShown(rep: Replica, k: RowKey) {
    rep == OneRow(k, SHOWN) || rep == OneRow(k, SHOWN_NEXT)
  }

  lemma {:induction false} ChangeIsTaken(rep: Replica, batch: seq<RowChange>, k: RowKey)
    requires StillShown(rep, k) && forall ch :: ch in batch ==> ch == RowChange(k, FIRST, {FIRST})
    ensures ApplyChanges(rep, batch).Ok? && StillShown(ApplyChanges(rep, batch).value, k)
    decreases batch
  {
    if batch != [] {
      assert batch[0] in batch;
      assert Supported(FIRST, {OTHER} + {FIRST});
      assert FIRST in Closure({OTHER} + {FIRST});
      var next := rep.(rows := rep.rows[k := ApplyChange(rep.RowAt(k), FIRST, {FIRST}).value]);
      assert next == OneRow(k, SHOWN_NEXT);
      assert forall ch :: ch in batch[1..] ==> ch in batch;
      ChangeIsTaken(next, batch[1..], k);
    }
  }

  /** The change alone goes in, without a request, and the row stays visible. */
  lemma {:induction false} FramesAreTaken(x: Intake, frames: seq<M.Message>, k: RowKey)
    requires StillShown(x.rep, k) && x.requests == {} && CarryOnly(frames, {}, {RowChange(k, FIRST, {FIRST})})
    ensures TakeFrames(x, frames).Some?
    ensures TakeFrames(x, frames).value.requests == {} && StillShown(TakeFrames(x, frames).value.rep, k)
    decreases frames
  {
    if frames != [] {
      var m, rest := frames[0], frames[1..];
      assert m in frames && forall n :: n in rest ==> n in frames;
      if m.StateMessage? {
        EmptyFrame(x, m);
        FramesAreTaken(x, rest, k);
      } else {
        ChangeIsTaken(x.rep, m.batch, k);
        FramesAreTaken(TakeFrame(x, m).value, rest, k);
      }
    }
  }

  /** Without requests recovery changes nothing. */
  lemma {:induction false} NothingToRecover(source: Replica, policy: M.Policy, target: Intake)
    requires S.ValidPolicy(policy) && target.requests == {}
    ensures AfterRecovery(source, policy, target) == Some(target)
  {
    var states := policy.recovery(source, {});
    assert ValidRecovery(states, source, {});
    forall i | 0 <= i < |states|
      ensures states[i] == []
    {
      assert |states[i]| > 0 ==> InBatches(states[i][0], states);
    }
    EmptyFrames(target, M.StateMessages(states));
  }

  lemma {:induction false} EmptyFrames(x: Intake, frames: seq<M.Message>)
    requires forall i :: 0 <= i < |frames| ==> frames[i] == M.StateMessage([])
    ensures TakeFrames(x, frames) == Some(x)
    decreases frames
  {
    if frames != [] {
      EmptyFrame(x, frames[0]);
      EmptyFrames(x, frames[1..]);
    }
  }

  lemma {:induction false} ShownTakesChange(policy: M.Policy, k: RowKey)
    requires S.ValidPolicy(policy)
    ensures var b := AfterOutbound(OneRow(k, GONE), policy, OneRow(k, SHOWN));
            b.Some? && b.value.requests == {} && StillShown(b.value.rep, k)
  {
    var a, b := OneRow(k, GONE), OneRow(k, SHOWN);
    GoneAndShownAreGood(k);
    OneChangeGoes(policy.outbound(a, RemoteOf(b)), k, GONE, SHOWN, FIRST);
    FramesAreTaken(Intake(b, {}), OutboundFrames(policy.outbound(a, RemoteOf(b))), k);
  }

  lemma {:induction false} GoneSettles(k: RowKey)
    ensures Settles(OneRow(k, GONE), OneRow(k, GONE), NewUnit(OfRow(k), ContentOf(SHOWN)))
  {
    assert OneRow(k, GONE).rows[k := GONE] == OneRow(k, GONE).rows;
  }

  /** A deleted row ignores the other side's document. */
  lemma {:induction false} GoneIgnoresUnit(policy: M.Policy, k: RowKey)
    requires S.ValidPolicy(policy)
    ensures AfterOutbound(OneRow(k, SHOWN), policy, OneRow(k, GONE)) == Some(Intake(OneRow(k, GONE), {}))
  {
    var a, b := OneRow(k, GONE), OneRow(k, SHOWN);
    GoneAndShownAreGood(k);
    OneUnitGoes(policy.outbound(b, RemoteOf(a)), k, SHOWN, GONE);
    GoneSettles(k);
    FramesSettle(Intake(a, {}), OutboundFrames(policy.outbound(b, RemoteOf(a))),
                 NewUnit(OfRow(k), ContentOf(SHOWN)), a, a);
  }

  /** One successful session does not bring a tombstone across: between these two every session succeeds, and leaves the
      row deleted on one side and visible on the other, because its side sends the change the other misses instead. */
  lemma {:induction false} OneSessionIsNotEnough(policyA: M.Policy, policyB: M.Policy, k: RowKey)
    requires S.ValidPolicy(policyA) && S.ValidPolicy(policyB)
    ensures GoodReplica(OneRow(k, GONE)) && GoodReplica(OneRow(k, SHOWN))
    ensures var result := SessionResult(OneRow(k, GONE), policyA, OneRow(k, SHOWN), policyB);
            && result.Some?
            && result.value.0.RowAt(k).Deleted()
            && result.value.1.RowAt(k).Visible().Some?
  {
    var a, b := OneRow(k, GONE), OneRow(k, SHOWN);
    GoneAndShownAreGood(k);
    ShownTakesChange(policyA, k);
    GoneIgnoresUnit(policyB, k);
    SessionWithoutRequests(a, policyA, b, policyB, Intake(a, {}), AfterOutbound(a, policyA, b).value);
  }

  lemma {:induction false} SessionWithoutRequests(a: Replica, policyA: M.Policy, b: Replica, policyB: M.Policy,
                                                  x: Intake, y: Intake)
    requires S.ValidPolicy(policyA) && S.ValidPolicy(policyB) && x.requests == {} && y.requests == {}
    requires AfterOutbound(b, policyB, a) == Some(x) && AfterOutbound(a, policyA, b) == Some(y)
    ensures SessionResult(a, policyA, b, policyB) == Some((x.rep, y.rep))
  {
    NothingToRecover(y.rep, policyB, x);
    NothingToRecover(x.rep, policyA, y);
  }

  // ---------------------------------------------------------------------------------------------
  // Catalog entries are swapped
  // ---------------------------------------------------------------------------------------------

  /** A catalog entry that is in use, and the same one dropped. */
  const IN_USE := CatalogValue(false, [])
  const DROPPED := CatalogValue(true, [])

  function OneEntry(e: CatalogKey, value: CatalogValue): Replica {
    Replica(map[e := value], map[])
  }

  lemma {:induction false} EntryUnit(e: CatalogKey, v: CatalogValue, w: CatalogValue, u: StateUnit)
    requires v != w
    ensures GoesWhole(OneEntry(e, v), RemoteOf(OneEntry(e, w)), u.key)
            && u == NewUnit(u.key, Exported(OneEntry(e, v))[u.key])
            <==> u == NewUnit(OfCatalog(e), CatalogContent(v))
  {
    ExportedEntry(OneEntry(e, v), e);
    ExportedEntry(OneEntry(e, w), e);
    match u.key {
      case OfCatalog(other) => ExportedEntry(OneEntry(e, v), other);
      case OfRow(k) => ExportedRow(OneEntry(e, v), k);
    }
    if OfCatalog(e) in ManifestOf(OneEntry(e, w)) {
      assert ManifestOf(OneEntry(e, w))[OfCatalog(e)] == Digest(CatalogContent(w));
    }
  }

  lemma {:induction false} EntryIsTaken(policy: M.Policy, e: CatalogKey, v: CatalogValue, w: CatalogValue)
    requires S.ValidPolicy(policy) && v != w
    ensures AfterOutbound(OneEntry(e, v), policy, OneEntry(e, w)) == Some(Intake(OneEntry(e, v), {}))
  {
    var a, b := OneEntry(e, v), OneEntry(e, w);
    var out, unit := policy.outbound(a, RemoteOf(b)), NewUnit(OfCatalog(e), CatalogContent(v));
    assert ValidOutbound(out, a, RemoteOf(b));
    forall u
      ensures InBatches(u, out.states) <==> u == unit
    {
      EntryUnit(e, v, w, u);
    }
    forall ch
      ensures !InBatches(ch, out.changes)
    {
      NoChangeGoes(e, v, RemoteOf(b), ch.row, ch.id);
    }
    EntrySettles(e, v, w);
    OutboundSettles(out, unit, b, a);
  }

  lemma {:induction false} NoChangeGoes(e: CatalogKey, v: CatalogValue, remote: Remote, k: RowKey, c: Change)
    ensures !GoesAsChange(OneEntry(e, v), remote, k, c)
  {
    ExportedRow(OneEntry(e, v), k);
  }

  lemma {:induction false} EntrySettles(e: CatalogKey, v: CatalogValue, w: CatalogValue)
    ensures Settles(OneEntry(e, w), OneEntry(e, v), NewUnit(OfCatalog(e), CatalogContent(v)))
  {
    assert map[e := w][e := v] == map[e := v] == map[e := v][e := v];
  }

  /** Two sides that disagree on one entry, a table in use here and dropped there: every session succeeds, and leaves
      them disagreeing the other way round. */
  lemma {:induction false} EntriesAreSwapped(policyA: M.Policy, policyB: M.Policy, e: CatalogKey)
    requires S.ValidPolicy(policyA) && S.ValidPolicy(policyB)
    ensures GoodReplica(OneEntry(e, IN_USE)) && GoodReplica(OneEntry(e, DROPPED))
    ensures SessionResult(OneEntry(e, IN_USE), policyA, OneEntry(e, DROPPED), policyB)
            == Some((OneEntry(e, DROPPED), OneEntry(e, IN_USE)))
  {
    EntryIsTaken(policyA, e, IN_USE, DROPPED);
    EntryIsTaken(policyB, e, DROPPED, IN_USE);
    SessionWithoutRequests(OneEntry(e, IN_USE), policyA, OneEntry(e, DROPPED), policyB,
                           Intake(OneEntry(e, DROPPED), {}),
                           Intake(OneEntry(e, IN_USE), {}));
  }
}
