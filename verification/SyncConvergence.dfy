// What successful sessions achieve: two of them in a row bring two replicas with the same catalog to the same rows.
module SyncConvergence {
  import opened RowState
  import opened SyncCatalog
  import opened SyncState
  import opened SyncRun
  import opened Automerge
  import opened Wrappers
  import M = SyncMachine
  import S = SyncSafety

  // ---------------------------------------------------------------------------------------------
  // Taking frames in, seen from one row
  // ---------------------------------------------------------------------------------------------

  ghost predicate GoodFrames(frames: seq<M.Message>) {
    forall m :: m in frames ==> (m.StateMessage? ==> GoodUnits(m.units)) && (m.ChangesMessage? ==> GoodChanges(m.batch))
  }

  ghost predicate CarriesUnit(frames: seq<M.Message>, u: StateUnit) {
    exists m :: m in frames && m.StateMessage? && u in m.units
  }

  ghost function FrameIds(frames: seq<M.Message>, k: RowKey): set<Change> {
    set m, ch | m in frames && m.ChangesMessage? && ch in m.batch && ch.row == k :: ch.id
  }

  lemma {:induction false} FrameIdsSplit(frames: seq<M.Message>, k: RowKey)
    requires frames != []
    ensures FrameIds(frames, k)
            == (if frames[0].ChangesMessage? then BatchIds(frames[0].batch, k) else {}) + FrameIds(frames[1..], k)
  {
    assert frames == [frames[0]] + frames[1..];
    forall c | c in FrameIds(frames, k)
      ensures c in (if frames[0].ChangesMessage? then BatchIds(frames[0].batch, k) else {}) + FrameIds(frames[1..], k)
    {
      var m, ch :| m in frames && m.ChangesMessage? && ch in m.batch && ch.row == k && ch.id == c;
      if m != frames[0] {
        assert m in frames[1..];
      }
    }
  }

  /** One frame: nothing is lost; incrementals are dropped only by a unit for the row, and come only from changes for
      it, which either all arrive or make the row requested. */
  lemma {:induction false} TakeFrameEffect(x: Intake, m: M.Message, k: RowKey)
    requires GoodReplica(x.rep) && GoodFrames([m]) && TakeFrame(x, m).Some?
    ensures var y := TakeFrame(x, m).value;
            var ids := if m.ChangesMessage? then BatchIds(m.batch, k) else {};
            && GoodReplica(y.rep)
            && x.requests <= y.requests
            && RowLe(x.rep.RowAt(k), y.rep.RowAt(k))
            && y.rep.RowAt(k).incrementals.Keys <= x.rep.RowAt(k).incrementals.Keys + ids
            && (k !in y.requests && !(m.StateMessage? && exists u :: u in m.units && u.key == OfRow(k)) ==>
                  y.rep.RowAt(k).incrementals.Keys == x.rep.RowAt(k).incrementals.Keys + ids)
  {
    assert m in [m];
    if m.StateMessage? {
      UnitsEffect(x.rep, m.units, k);
    } else if ApplyBatch(x.rep, m.batch).Ok? {
      ChangesEffect(x.rep, m.batch, k);
    } else if BatchIds(m.batch, k) != {} {
      assert k in TakeFrame(x, m).value.requests;
    }
  }

  lemma {:induction false} TakeFramesEffect(x: Intake, frames: seq<M.Message>, k: RowKey)
    requires GoodReplica(x.rep) && GoodFrames(frames) && TakeFrames(x, frames).Some?
    ensures var y := TakeFrames(x, frames).value;
            && GoodReplica(y.rep)
            && x.requests <= y.requests
            && RowLe(x.rep.RowAt(k), y.rep.RowAt(k))
            && y.rep.RowAt(k).incrementals.Keys <= x.rep.RowAt(k).incrementals.Keys + FrameIds(frames, k)
            && (k !in y.requests && (forall u :: CarriesUnit(frames, u) ==> u.key != OfRow(k)) ==>
                  y.rep.RowAt(k).incrementals.Keys == x.rep.RowAt(k).incrementals.Keys + FrameIds(frames, k))
    decreases frames
  {
    if frames != [] {
      var m, rest := frames[0], frames[1..];
      assert m in frames && forall n :: n in rest ==> n in frames;
      TakeFrameEffect(x, m, k);
      TakeFramesEffect(TakeFrame(x, m).value, rest, k);
      FrameIdsSplit(frames, k);
      assert m.StateMessage? ==> forall u :: u in m.units ==> CarriesUnit(frames, u);
      assert forall u :: CarriesUnit(rest, u) ==> CarriesUnit(frames, u);
    }
  }

  /** A row's unit that is among the frames has arrived at their end. */
  lemma {:induction false} UnitArrives(x: Intake, frames: seq<M.Message>, u: StateUnit, source: RowState.Row)
    requires GoodReplica(x.rep) && GoodFrames(frames) && TakeFrames(x, frames).Some?
    requires CarriesUnit(frames, u) && u.key.OfRow? && u == NewUnit(u.key, ContentOf(source))
             && source.meta != Some(false)
    ensures Delivered(source, TakeFrames(x, frames).value.rep.RowAt(u.key.row))
    decreases frames
  {
    var m, rest, k := frames[0], frames[1..], u.key.row;
    assert m in frames && forall n :: n in rest ==> n in frames;
    TakeFrameEffect(x, m, k);
    var y := TakeFrame(x, m).value;
    TakeFramesEffect(y, rest, k);
    if m.StateMessage? && u in m.units {
      UnitDelivered(x.rep, m.units, u, source);
    } else {
      var n :| n in frames && n.StateMessage? && u in n.units;
      assert n in rest;
      UnitArrives(y, rest, u, source);
    }
  }

  // ---------------------------------------------------------------------------------------------
  // A row that takes in single changes
  // ---------------------------------------------------------------------------------------------

  /** What these incrementals of a row carry. */
  ghost function Payloads(r: RowState.Row, ids: set<Change>): set<Change> {
    set c, a | c in ids && c in r.incrementals && a in r.incrementals[c] :: a
  }

  /** A row that was `target` and has taken in some incrementals of `source`: it holds what they carry and nothing else,
      and a row that was not visible has not changed. */
  ghost predicate Grown(source: RowState.Row, target: RowState.Row, r: RowState.Row) {
    && r.meta == target.meta && r.doc.Some? == target.doc.Some?
    && target.incrementals.Keys <= r.incrementals.Keys
    && r.Held() == target.Held() + Payloads(source, r.incrementals.Keys - target.incrementals.Keys)
    && (target.Visible().None? ==> r == target)
  }

  /** A change that is an incremental of the source and not of the target. */
  ghost predicate Missed(source: RowState.Row, target: RowState.Row, ch: RowChange) {
    && ch.id in source.incrementals && ch.payload == source.incrementals[ch.id]
    && ch.id !in target.incrementals
  }

  lemma {:induction false} ChangeGrows(source: RowState.Row, target: RowState.Row, r: RowState.Row, ch: RowChange)
    requires Grown(source, target, r) && Missed(source, target, ch) && ApplyChange(r, ch.id, ch.payload).Ok?
    ensures Grown(source, target, ApplyChange(r, ch.id, ch.payload).value)
  {
    if ch.id !in r.incrementals {
      var before := r.incrementals.Keys - target.incrementals.Keys;
      assert r.incrementals[ch.id := ch.payload].Keys - target.incrementals.Keys == before + {ch.id};
      assert Payloads(source, before + {ch.id}) == Payloads(source, before) + ch.payload;
    }
  }

  lemma {:induction false} BatchGrows(rep: Replica, batch: seq<RowChange>, k: RowKey, source: RowState.Row,
                                      target: RowState.Row)
    requires Grown(source, target, rep.RowAt(k)) && ApplyChanges(rep, batch).Ok?
    requires forall ch :: ch in batch && ch.row == k ==> Missed(source, target, ch)
    ensures Grown(source, target, ApplyChanges(rep, batch).value.RowAt(k))
    decreases batch
  {
    if batch != [] {
      var ch := batch[0];
      if ch.row == k { ChangeGrows(source, target, rep.RowAt(k), ch); }
      var r := ApplyChange(rep.RowAt(ch.row), ch.id, ch.payload).value;
      BatchGrows(rep.(rows := rep.rows[ch.row := r]), batch[1..], k, source, target);
    }
  }

  /** The frames carry no unit for the row, and only changes it misses. */
  ghost predicate OnlyMissed(frames: seq<M.Message>, k: RowKey, source: RowState.Row, target: RowState.Row) {
    forall m :: m in frames ==>
      && (m.StateMessage? ==> forall u :: u in m.units ==> u.key != OfRow(k))
      && (m.ChangesMessage? ==> forall ch :: ch in m.batch && ch.row == k ==> Missed(source, target, ch))
  }

  lemma {:induction false} FrameGrows(x: Intake, m: M.Message, k: RowKey, source: RowState.Row, target: RowState.Row)
    requires GoodReplica(x.rep) && GoodFrames([m]) && OnlyMissed([m], k, source, target)
    requires TakeFrame(x, m).Some? && Grown(source, target, x.rep.RowAt(k))
    ensures GoodReplica(TakeFrame(x, m).value.rep) && Grown(source, target, TakeFrame(x, m).value.rep.RowAt(k))
  {
    assert m in [m];
    TakeFrameEffect(x, m, k);
    if m.StateMessage? {
      UnitsEffect(x.rep, m.units, k);
    } else if ApplyBatch(x.rep, m.batch).Ok? {
      BatchGrows(x.rep, m.batch, k, source, target);
    }
  }

  lemma {:induction false} FramesGrow(x: Intake, frames: seq<M.Message>, k: RowKey, source: RowState.Row,
                                      target: RowState.Row)
    requires GoodReplica(x.rep) && GoodFrames(frames) && OnlyMissed(frames, k, source, target)
    requires TakeFrames(x, frames).Some? && Grown(source, target, x.rep.RowAt(k))
    ensures Grown(source, target, TakeFrames(x, frames).value.rep.RowAt(k))
    decreases frames
  {
    if frames != [] {
      var m, rest := frames[0], frames[1..];
      assert m in frames && forall n :: n in rest ==> n in frames;
      FrameGrows(x, m, k, source, target);
      FramesGrow(TakeFrame(x, m).value, rest, k, source, target);
    }
  }

  // ---------------------------------------------------------------------------------------------
  // What the frames of one side carry
  // ---------------------------------------------------------------------------------------------

  lemma {:induction false} OutboundCarries(out: Outbound, u: StateUnit)
    ensures CarriesUnit(OutboundFrames(out), u) <==> InBatches(u, out.states)
  {
    var frames := OutboundFrames(out);
    if CarriesUnit(frames, u) {
      var m :| m in frames && m.StateMessage? && u in m.units;
      assert exists i :: 0 <= i < |out.states| && m == M.StateMessage(out.states[i]);
    }
    if InBatches(u, out.states) {
      var i :| 0 <= i < |out.states| && u in out.states[i];
      assert frames[i] == M.StateMessage(out.states[i]);
    }
  }

  lemma {:induction false} RecoveryCarries(states: seq<seq<StateUnit>>, u: StateUnit)
    ensures CarriesUnit(M.StateMessages(states), u) <==> InBatches(u, states)
  {
    OutboundCarries(Outbound(states, []), u);
    assert M.StateMessages(states) + M.ChangesMessages([]) == M.StateMessages(states);
  }

  lemma {:induction false} OutboundIds(out: Outbound, rep: Replica, remote: Remote, k: RowKey)
    requires ValidOutbound(out, rep, remote)
    ensures forall c :: c in FrameIds(OutboundFrames(out), k) <==> GoesAsChange(rep, remote, k, c)
  {
    forall c
      ensures c in FrameIds(OutboundFrames(out), k) <==> GoesAsChange(rep, remote, k, c)
    {
      if c in FrameIds(OutboundFrames(out), k) {
        var ch := CarriedChange(out, k, c);
      }
      if GoesAsChange(rep, remote, k, c) {
        CarriesChange(out, RowChange(k, c, rep.RowAt(k).incrementals[c]));
      }
    }
  }

  lemma {:induction false} CarriedChange(out: Outbound, k: RowKey, c: Change) returns (ch: RowChange)
    requires c in FrameIds(OutboundFrames(out), k)
    ensures InBatches(ch, out.changes) && ch.row == k && ch.id == c
  {
    var m, found :| m in OutboundFrames(out) && m.ChangesMessage? && found in m.batch && found.row == k
        && found.id == c;
    assert exists i :: 0 <= i < |out.changes| && m == M.ChangesMessage(out.changes[i]);
    ch := found;
  }

  lemma {:induction false} CarriesChange(out: Outbound, ch: RowChange)
    requires InBatches(ch, out.changes)
    ensures ch.id in FrameIds(OutboundFrames(out), ch.row)
  {
    var i :| 0 <= i < |out.changes| && ch in out.changes[i];
    assert OutboundFrames(out)[|out.states| + i] == M.ChangesMessage(out.changes[i]);
  }

  /** The units and inventories of the other side, seen from one row of an active table. */
  lemma {:induction false} RemoteRow(target: Replica, k: RowKey)
    requires target.TableIs(k.table, false)
    ensures k in RemoteOf(target).inventories <==> HasUnit(target.RowAt(k))
    ensures k in RemoteOf(target).inventories ==> RemoteOf(target).inventories[k] == target.RowAt(k).incrementals.Keys
  {
    ExportedRow(target, k);
    assert RemoteOf(target).inventories == InventoriesOf(target);
    assert k in InventoriesOf(target) <==> k in target.rows && OfRow(k) in Exported(target);
  }

  lemma {:induction false} SentIsMissed(source: Replica, target: Replica, ch: RowChange)
    requires GoesAsChange(source, RemoteOf(target), ch.row, ch.id) && target.TableIs(ch.row.table, false)
    requires ch.payload == source.RowAt(ch.row).incrementals[ch.id]
    ensures Missed(source.RowAt(ch.row), target.RowAt(ch.row), ch)
  {
    RemoteRow(target, ch.row);
  }

  /** A row that is not sent as a unit is sent as changes, each an incremental the target misses. */
  lemma {:induction false} OutboundOnlyMissed(out: Outbound, source: Replica, target: Replica, k: RowKey)
    requires ValidOutbound(out, source, RemoteOf(target)) && target.TableIs(k.table, false)
    requires !GoesWhole(source, RemoteOf(target), OfRow(k))
    ensures OnlyMissed(OutboundFrames(out), k, source.RowAt(k), target.RowAt(k))
  {
    forall m | m in OutboundFrames(out)
      ensures m.StateMessage? ==> forall u :: u in m.units ==> u.key != OfRow(k)
      ensures m.ChangesMessage? ==>
                forall ch :: ch in m.batch && ch.row == k ==> Missed(source.RowAt(k), target.RowAt(k), ch)
    {
      if m.StateMessage? {
        assert exists i :: 0 <= i < |out.states| && m == M.StateMessage(out.states[i]);
        forall u | u in m.units
          ensures u.key != OfRow(k)
        {
          assert InBatches(u, out.states);
        }
      } else {
        assert exists i :: 0 <= i < |out.changes| && m == M.ChangesMessage(out.changes[i]);
        forall ch | ch in m.batch && ch.row == k
          ensures Missed(source.RowAt(k), target.RowAt(k), ch)
        {
          assert InBatches(ch, out.changes);
          SentIsMissed(source, target, ch);
        }
      }
    }
  }

  lemma {:induction false} OutboundGood(out: Outbound, rep: Replica, remote: Remote)
    requires GoodReplica(rep) && ValidOutbound(out, rep, remote)
    ensures GoodFrames(OutboundFrames(out))
  {
    forall m | m in OutboundFrames(out)
      ensures m.StateMessage? ==> GoodUnits(m.units)
      ensures m.ChangesMessage? ==> GoodChanges(m.batch)
    {
      if m.StateMessage? {
        assert exists i :: 0 <= i < |out.states| && m == M.StateMessage(out.states[i]);
        forall u | u in m.units
          ensures GoodContent(u.content)
        {
          assert InBatches(u, out.states);
          if u.key.OfRow? { assert GoodRow(rep.RowAt(u.key.row)); }
        }
      } else if m.ChangesMessage? {
        assert exists i :: 0 <= i < |out.changes| && m == M.ChangesMessage(out.changes[i]);
        forall ch | ch in m.batch
          ensures GoodPayload(ch.id, ch.payload)
        {
          assert InBatches(ch, out.changes) && GoodRow(rep.RowAt(ch.row));
        }
      }
    }
  }

  lemma {:induction false} RecoveryGood(states: seq<seq<StateUnit>>, rep: Replica, requests: set<RowKey>)
    requires GoodReplica(rep) && ValidRecovery(states, rep, requests)
    ensures GoodFrames(M.StateMessages(states))
    ensures forall u :: CarriesUnit(M.StateMessages(states), u) ==> u.key.OfRow? && u.key.row in requests
  {
    forall m | m in M.StateMessages(states)
      ensures m.StateMessage? && GoodUnits(m.units)
    {
      assert exists i :: 0 <= i < |states| && m == M.StateMessage(states[i]);
      forall u | u in m.units
        ensures GoodContent(u.content)
      {
        assert InBatches(u, states) && GoodRow(rep.RowAt(u.key.row));
      }
    }
    forall u | CarriesUnit(M.StateMessages(states), u)
      ensures u.key.OfRow? && u.key.row in requests
    {
      RecoveryCarries(states, u);
    }
  }

  // ---------------------------------------------------------------------------------------------
  // One direction of one session
  // ---------------------------------------------------------------------------------------------

  // The source's frames arrive at the target in two parts: its outbound, built at the start, and the recovery units,
  // built from `mid`, the source after it has taken the target's outbound in.
  datatype Transfer = Transfer(source: Replica, mid: Replica, policy: M.Policy, target: Replica) {
    function Out(): Outbound { policy.outbound(source, RemoteOf(target)) }

    function Arrived(): Option<Intake> { AfterOutbound(source, policy, target) }

    function Recovery(): seq<seq<StateUnit>>
      requires Arrived().Some?
    {
      policy.recovery(mid, Arrived().value.requests)
    }

    function Final(): Option<Intake>
      requires Arrived().Some?
    {
      AfterRecovery(mid, policy, Arrived().value)
    }

    ghost predicate Begun() {
      S.ValidPolicy(policy) && GoodReplica(source) && GoodReplica(target) && Arrived().Some?
    }

    ghost predicate Valid() {
      Begun() && GoodReplica(mid) && (forall k :: RowLe(source.RowAt(k), mid.RowAt(k))) && Final().Some?
    }
  }

  /** Two ways for a row to get across. */
  ghost predicate Across(source: RowState.Row, target: RowState.Row, final: RowState.Row) {
    || Delivered(source, final)
    || final.incrementals.Keys == source.incrementals.Keys + target.incrementals.Keys
  }

  lemma {:induction false} ArrivedEffect(x: Transfer, k: RowKey)
    requires x.Begun()
    ensures var y := x.Arrived().value;
            && GoodReplica(y.rep)
            && RowLe(x.target.RowAt(k), y.rep.RowAt(k))
            && y.rep.RowAt(k).incrementals.Keys
               <= x.target.RowAt(k).incrementals.Keys + x.source.RowAt(k).incrementals.Keys
            && (k !in y.requests && !GoesWhole(x.source, RemoteOf(x.target), OfRow(k)) ==>
                  y.rep.RowAt(k).incrementals.Keys
                  == x.target.RowAt(k).incrementals.Keys + FrameIds(OutboundFrames(x.Out()), k))
  {
    var frames, remote := OutboundFrames(x.Out()), RemoteOf(x.target);
    OutboundGood(x.Out(), x.source, remote);
    OutboundIds(x.Out(), x.source, remote, k);
    TakeFramesEffect(Intake(x.target, {}), frames, k);
    if !GoesWhole(x.source, remote, OfRow(k)) {
      forall u | CarriesUnit(frames, u)
        ensures u.key != OfRow(k)
      {
        OutboundCarries(x.Out(), u);
      }
    }
  }

  lemma {:induction false} FinalEffect(x: Transfer, k: RowKey)
    requires x.Valid()
    ensures var y, z := x.Arrived().value, x.Final().value;
            && GoodReplica(y.rep) && GoodReplica(z.rep)
            && RowLe(y.rep.RowAt(k), z.rep.RowAt(k))
            && z.rep.RowAt(k).incrementals.Keys <= y.rep.RowAt(k).incrementals.Keys
            && (k !in y.requests ==> z.rep.RowAt(k).incrementals.Keys == y.rep.RowAt(k).incrementals.Keys)
  {
    var y := x.Arrived().value;
    var frames := M.StateMessages(x.Recovery());
    ArrivedEffect(x, k);
    RecoveryGood(x.Recovery(), x.mid, y.requests);
    NoUnitNoEffect(y, x.Recovery(), k);
  }

  lemma {:induction false} NoUnitNoEffect(y: Intake, states: seq<seq<StateUnit>>, k: RowKey)
    requires var frames := M.StateMessages(states);
             GoodReplica(y.rep) && GoodFrames(frames) && TakeFrames(y, frames).Some?
    ensures var frames := M.StateMessages(states);
            var z := TakeFrames(y, frames).value;
            && GoodReplica(z.rep) && RowLe(y.rep.RowAt(k), z.rep.RowAt(k))
            && z.rep.RowAt(k).incrementals.Keys <= y.rep.RowAt(k).incrementals.Keys
            && ((forall u :: CarriesUnit(frames, u) ==> u.key != OfRow(k)) && k !in y.requests ==>
                  z.rep.RowAt(k).incrementals.Keys == y.rep.RowAt(k).incrementals.Keys)
  {
    var frames := M.StateMessages(states);
    assert FrameIds(frames, k) == {};
    RecoveryRequestsNothing(y, frames);
    TakeFramesEffect(y, frames, k);
  }

  /** Frames of units add no requests. */
  lemma {:induction false} RecoveryRequestsNothing(y: Intake, frames: seq<M.Message>)
    requires TakeFrames(y, frames).Some? && forall m :: m in frames ==> m.StateMessage?
    ensures TakeFrames(y, frames).value.requests == y.requests
    decreases frames
  {
    if frames != [] {
      assert frames[0] in frames;
      RecoveryRequestsNothing(TakeFrame(y, frames[0]).value, frames[1..]);
    }
  }

  lemma {:induction false} SameContentDelivered(source: RowState.Row, target: RowState.Row)
    requires ContentOf(source) == ContentOf(target) && source.meta != Some(false)
    ensures Delivered(source, target)
  {
    assert source.Visible() == target.Visible() && source.meta == target.meta;
    FlagValues(source.meta);
  }

  lemma {:induction false} SameContentIsThere(source: Replica, target: Replica, k: RowKey)
    requires HasUnit(source.RowAt(k)) && source.TableIs(k.table, false)
    requires !Differs(source, RemoteOf(target), OfRow(k))
    ensures ContentOf(target.RowAt(k)) == ContentOf(source.RowAt(k))
  {
    ExportedRow(source, k);
    var key := OfRow(k);
    assert key in ManifestOf(target) && ManifestOf(target)[key] == Digest(Exported(source)[key]);
    ExportedRow(target, k);
  }

  lemma {:induction false} WholeGetsAcross(x: Transfer, k: RowKey)
    requires x.Valid() && GoesWhole(x.source, RemoteOf(x.target), OfRow(k))
    ensures Delivered(x.source.RowAt(k), x.Arrived().value.rep.RowAt(k))
  {
    var u := NewUnit(OfRow(k), ContentOf(x.source.RowAt(k)));
    ExportedRow(x.source, k);
    assert InBatches(u, x.Out().states);
    OutboundCarries(x.Out(), u);
    OutboundGood(x.Out(), x.source, RemoteOf(x.target));
    assert GoodRow(x.source.RowAt(k));
    UnitArrives(Intake(x.target, {}), OutboundFrames(x.Out()), u, x.source.RowAt(k));
  }

  lemma {:induction false} UnitsStay(before: RowState.Row, after: RowState.Row)
    requires RowLe(before, after) && HasUnit(before) && before.meta != Some(false)
    ensures HasUnit(after)
  {
    FlagValues(before.meta);
  }

  lemma {:induction false} RequestedGetsAcross(x: Transfer, k: RowKey)
    requires x.Valid() && HasUnit(x.source.RowAt(k)) && k in x.Arrived().value.requests
    ensures Delivered(x.mid.RowAt(k), x.Final().value.rep.RowAt(k))
  {
    var mid := x.mid.RowAt(k);
    var u := NewUnit(OfRow(k), ContentOf(mid));
    assert RowLe(x.source.RowAt(k), mid) && GoodRow(x.source.RowAt(k)) && GoodRow(mid);
    UnitsStay(x.source.RowAt(k), mid);
    ArrivedEffect(x, k);
    RecoveryUnit(x.Recovery(), x.mid, x.Arrived().value.requests, k);
    RecoveryGood(x.Recovery(), x.mid, x.Arrived().value.requests);
    UnitArrives(x.Arrived().value, M.StateMessages(x.Recovery()), u, mid);
  }

  lemma {:induction false} RecoveryUnit(states: seq<seq<StateUnit>>, rep: Replica, requests: set<RowKey>, k: RowKey)
    requires ValidRecovery(states, rep, requests) && k in requests && HasUnit(rep.RowAt(k))
    ensures CarriesUnit(M.StateMessages(states), NewUnit(OfRow(k), ContentOf(rep.RowAt(k))))
  {
    var u := NewUnit(OfRow(k), ContentOf(rep.RowAt(k)));
    assert InBatches(u, states);
    RecoveryCarries(states, u);
  }

  /** A row that goes whole, or that the target asks for, is delivered. */
  lemma {:induction false} UnitGetsAcross(x: Transfer, k: RowKey)
    requires x.Valid()
    requires GoesWhole(x.source, RemoteOf(x.target), OfRow(k))
             || (HasUnit(x.source.RowAt(k)) && k in x.Arrived().value.requests)
    ensures Delivered(x.source.RowAt(k), x.Final().value.rep.RowAt(k))
  {
    FinalEffect(x, k);
    assert RowLe(x.source.RowAt(k), x.mid.RowAt(k));
    if GoesWhole(x.source, RemoteOf(x.target), OfRow(k)) {
      WholeGetsAcross(x, k);
    } else {
      RequestedGetsAcross(x, k);
    }
  }

  lemma {:induction false} SentOneByOne(source: Replica, target: Replica, k: RowKey)
    requires target.TableIs(k.table, false)
    requires Differs(source, RemoteOf(target), OfRow(k)) && !GoesWhole(source, RemoteOf(target), OfRow(k))
    ensures MissingChanges(source, RemoteOf(target), k) != {}
    ensures forall c :: GoesAsChange(source, RemoteOf(target), k, c) <==>
                        c in source.RowAt(k).incrementals.Keys && c !in target.RowAt(k).incrementals.Keys
  {
    RemoteRow(target, k);
  }

  /** A row sent as changes grows by them, and by nothing else before the recovery. */
  lemma {:induction false} ArrivedGrown(x: Transfer, k: RowKey)
    requires x.Begun() && x.target.TableIs(k.table, false) && !GoesWhole(x.source, RemoteOf(x.target), OfRow(k))
    ensures Grown(x.source.RowAt(k), x.target.RowAt(k), x.Arrived().value.rep.RowAt(k))
  {
    OutboundGood(x.Out(), x.source, RemoteOf(x.target));
    OutboundOnlyMissed(x.Out(), x.source, x.target, k);
    assert Payloads(x.source.RowAt(k), x.target.RowAt(k).incrementals.Keys - x.target.RowAt(k).incrementals.Keys) == {};
    FramesGrow(Intake(x.target, {}), OutboundFrames(x.Out()), k, x.source.RowAt(k), x.target.RowAt(k));
  }

  /** The row no recovery unit comes for is the one there was after the outbound. */
  lemma {:induction false} NotRecovered(x: Transfer, k: RowKey)
    requires x.Valid() && k !in x.Arrived().value.requests
    ensures x.Final().value.rep.RowAt(k) == x.Arrived().value.rep.RowAt(k)
  {
    ArrivedEffect(x, k);
    RecoveryGood(x.Recovery(), x.mid, x.Arrived().value.requests);
    RecoveryElsewhere(x.Recovery(), x.mid, x.Arrived().value.requests, k);
    UnitsElsewhere(x.Arrived().value, M.StateMessages(x.Recovery()), k);
  }

  lemma {:induction false} RecoveryElsewhere(states: seq<seq<StateUnit>>, rep: Replica, requests: set<RowKey>,
                                             k: RowKey)
    requires ValidRecovery(states, rep, requests) && k !in requests
    ensures AllElsewhere(M.StateMessages(states), k)
  {
    forall m | m in M.StateMessages(states)
      ensures m.StateMessage? && forall u :: u in m.units ==> u.key != OfRow(k)
    {
      assert exists i :: 0 <= i < |states| && m == M.StateMessage(states[i]);
      assert forall u :: u in m.units ==> InBatches(u, states);
    }
  }

  /** Frames of units, none of them for the row. */
  ghost predicate AllElsewhere(frames: seq<M.Message>, k: RowKey) {
    forall m :: m in frames ==> m.StateMessage? && forall u :: u in m.units ==> u.key != OfRow(k)
  }

  lemma {:induction false} UnitsElsewhere(x: Intake, frames: seq<M.Message>, k: RowKey)
    requires GoodReplica(x.rep) && GoodFrames(frames) && TakeFrames(x, frames).Some?
    requires AllElsewhere(frames, k)
    ensures TakeFrames(x, frames).value.rep.RowAt(k) == x.rep.RowAt(k)
    decreases frames
  {
    if frames != [] {
      var m, rest := frames[0], frames[1..];
      assert m in frames && forall n :: n in rest ==> n in frames;
      UnitsEffect(x.rep, m.units, k);
      UnitsElsewhere(TakeFrame(x, m).value, rest, k);
    }
  }

  /** A row whose changes went one by one, and that was not put off: the target was visible and has taken all of them
      in, with what they carry, and nothing else. */
  lemma {:induction false} ChangesGetAcross(x: Transfer, k: RowKey)
    requires x.Valid() && x.target.TableIs(k.table, false)
    requires Differs(x.source, RemoteOf(x.target), OfRow(k)) && !GoesWhole(x.source, RemoteOf(x.target), OfRow(k))
    requires k !in x.Arrived().value.requests
    ensures var source, target, final := x.source.RowAt(k), x.target.RowAt(k), x.Final().value.rep.RowAt(k);
            && target.Visible().Some? && final.doc.Some? && final.meta == None
            && final.incrementals.Keys == source.incrementals.Keys + target.incrementals.Keys
            && final.Held() == target.Held() + Payloads(source, MissingChanges(x.source, RemoteOf(x.target), k))
  {
    var source, target, final := x.source.RowAt(k), x.target.RowAt(k), x.Final().value.rep.RowAt(k);
    ArrivedIds(x, k);
    ArrivedGrown(x, k);
    MissingIds(x.source, x.target, k);
    GrownByAll(source, target, x.Arrived().value.rep.RowAt(k));
    NotRecovered(x, k);
  }

  lemma {:induction false} GrownByAll(source: RowState.Row, target: RowState.Row, r: RowState.Row)
    requires Grown(source, target, r) && r.incrementals.Keys == source.incrementals.Keys + target.incrementals.Keys
    requires source.incrementals.Keys - target.incrementals.Keys != {}
    ensures target.Visible().Some? && r.doc.Some? && r.meta == None
    ensures r.Held() == target.Held() + Payloads(source, source.incrementals.Keys - target.incrementals.Keys)
  {
    assert r.incrementals.Keys - target.incrementals.Keys == source.incrementals.Keys - target.incrementals.Keys;
  }

  lemma {:induction false} MissingIds(source: Replica, target: Replica, k: RowKey)
    requires target.TableIs(k.table, false)
    requires Differs(source, RemoteOf(target), OfRow(k)) && !GoesWhole(source, RemoteOf(target), OfRow(k))
    ensures MissingChanges(source, RemoteOf(target), k)
            == source.RowAt(k).incrementals.Keys - target.RowAt(k).incrementals.Keys
    ensures source.RowAt(k).incrementals.Keys - target.RowAt(k).incrementals.Keys != {}
  {
    RemoteRow(target, k);
  }

  lemma {:induction false} FramesBringMissing(x: Transfer, k: RowKey)
    requires x.Begun() && x.target.TableIs(k.table, false)
    requires Differs(x.source, RemoteOf(x.target), OfRow(k)) && !GoesWhole(x.source, RemoteOf(x.target), OfRow(k))
    ensures FrameIds(OutboundFrames(x.Out()), k)
            == x.source.RowAt(k).incrementals.Keys - x.target.RowAt(k).incrementals.Keys
  {
    OutboundIds(x.Out(), x.source, RemoteOf(x.target), k);
    SentOneByOne(x.source, x.target, k);
  }

  lemma {:induction false} ArrivedIds(x: Transfer, k: RowKey)
    requires x.Begun() && x.target.TableIs(k.table, false)
    requires Differs(x.source, RemoteOf(x.target), OfRow(k)) && !GoesWhole(x.source, RemoteOf(x.target), OfRow(k))
    requires k !in x.Arrived().value.requests
    ensures x.Arrived().value.rep.RowAt(k).incrementals.Keys
            == x.source.RowAt(k).incrementals.Keys + x.target.RowAt(k).incrementals.Keys
  {
    ArrivedEffect(x, k);
    FramesBringMissing(x, k);
    RestAdded(x.source.RowAt(k).incrementals.Keys, x.target.RowAt(k).incrementals.Keys);
  }

  lemma {:induction false} RestAdded<T>(a: set<T>, b: set<T>)
    ensures b + (a - b) == a + b
  {
  }

  /** One session: a row of an active table is delivered, unless all its incrementals the target misses went one by
      one, and then the target has them all. */
  lemma {:induction false} RowGetsAcross(x: Transfer, k: RowKey)
    requires x.Valid() && x.source.TableIs(k.table, false) && x.target.TableIs(k.table, false)
    ensures var final := x.Final().value.rep.RowAt(k);
            && RowLe(x.target.RowAt(k), final)
            && final.incrementals.Keys <= x.source.RowAt(k).incrementals.Keys + x.target.RowAt(k).incrementals.Keys
            && Across(x.source.RowAt(k), x.target.RowAt(k), final)
            && (MissingChanges(x.source, RemoteOf(x.target), k) == {} ==> Delivered(x.source.RowAt(k), final))
  {
    ArrivedEffect(x, k);
    FinalEffect(x, k);
    ExportedRow(x.source, k);
    assert GoodRow(x.source.RowAt(k));
    if !HasUnit(x.source.RowAt(k)) {
    } else if !Differs(x.source, RemoteOf(x.target), OfRow(k)) {
      SameContentIsThere(x.source, x.target, k);
      SameContentDelivered(x.source.RowAt(k), x.target.RowAt(k));
    } else if GoesWhole(x.source, RemoteOf(x.target), OfRow(k)) || k in x.Arrived().value.requests {
      UnitGetsAcross(x, k);
    } else {
      ChangesGetAcross(x, k);
      SentOneByOne(x.source, x.target, k);
    }
  }

  /** Whether one session delivers a row of the source, as seen beforehand. */
  ghost predicate Arrives(source: Replica, target: Replica, k: RowKey) {
    var s, t, missing := source.RowAt(k), target.RowAt(k), MissingChanges(source, RemoteOf(target), k);
    || !HasUnit(s) || ContentOf(s) == ContentOf(t) || missing == {} || t.Visible().None?
    || (!s.Deleted() && s.Held() <= t.Held() + Payloads(s, missing))
  }

  /** One session delivers a row that the target asks for; and one it does not ask for exactly when the source has
      nothing to deliver, the two agree, no incremental is missing, the target does not show the row, or what the
      target shows and the missing incrementals carry together are all the source shows. */
  lemma {:induction false} DeliveredExactly(x: Transfer, k: RowKey)
    requires x.Valid() && x.source.TableIs(k.table, false) && x.target.TableIs(k.table, false)
    ensures var source, final := x.source.RowAt(k), x.Final().value.rep.RowAt(k);
            && (k in x.Arrived().value.requests ==> Delivered(source, final))
            && (k !in x.Arrived().value.requests ==> (Delivered(source, final) <==> Arrives(x.source, x.target, k)))
  {
    var source, target := x.source.RowAt(k), x.target.RowAt(k);
    RowGetsAcross(x, k);
    ExportedRow(x.source, k);
    assert GoodRow(source) && source.meta != Some(false);
    FlagValues(source.meta);
    if HasUnit(source) {
      if k in x.Arrived().value.requests {
        UnitGetsAcross(x, k);
      } else if Differs(x.source, RemoteOf(x.target), OfRow(k)) && !GoesWhole(x.source, RemoteOf(x.target), OfRow(k)) {
        ChangesGetAcross(x, k);
        SentOneByOne(x.source, x.target, k);
        DifferentContent(x.source, x.target, k);
      } else {
        DeliveredAsUnit(x, k);
      }
    }
  }

  lemma {:induction false} DifferentContent(source: Replica, target: Replica, k: RowKey)
    requires Differs(source, RemoteOf(target), OfRow(k)) && target.TableIs(k.table, false) && HasUnit(target.RowAt(k))
    ensures ContentOf(source.RowAt(k)) != ContentOf(target.RowAt(k))
  {
    ExportedRow(source, k);
    ExportedRow(target, k);
    assert OfRow(k) in ManifestOf(target) && ManifestOf(target)[OfRow(k)] == Digest(ContentOf(target.RowAt(k)));
  }

  /** A row that the target has as it is, or that goes whole. */
  lemma {:induction false} DeliveredAsUnit(x: Transfer, k: RowKey)
    requires x.Valid() && x.source.TableIs(k.table, false) && x.target.TableIs(k.table, false)
             && HasUnit(x.source.RowAt(k))
    requires !Differs(x.source, RemoteOf(x.target), OfRow(k)) || GoesWhole(x.source, RemoteOf(x.target), OfRow(k))
    ensures Delivered(x.source.RowAt(k), x.Final().value.rep.RowAt(k)) && Arrives(x.source, x.target, k)
  {
    ExportedRow(x.source, k);
    RemoteRow(x.target, k);
    if !Differs(x.source, RemoteOf(x.target), OfRow(k)) {
      SameContentIsThere(x.source, x.target, k);
      SameContentDelivered(x.source.RowAt(k), x.target.RowAt(k));
      ArrivedEffect(x, k);
      FinalEffect(x, k);
    } else {
      UnitGetsAcross(x, k);
    }
  }

  // ---------------------------------------------------------------------------------------------
  // Catalogs
  // ---------------------------------------------------------------------------------------------

  /** Taken in, catalog entries overwrite those of the target. */
  lemma {:induction false} CatalogTaken(x: Intake, frames: seq<M.Message>, sent: map<CatalogKey, CatalogValue>)
    requires TakeFrames(x, frames).Some?
    requires forall u :: CarriesUnit(frames, u) && u.key.OfCatalog? ==>
                           u.key.entry in sent && u.content == CatalogContent(sent[u.key.entry])
    ensures var y := TakeFrames(x, frames).value;
            && (forall e :: e in y.rep.catalog ==> e in x.rep.catalog || e in sent)
            && (forall e :: e in x.rep.catalog ==>
                  e in y.rep.catalog && (y.rep.catalog[e] == x.rep.catalog[e]
                                         || (e in sent && y.rep.catalog[e] == sent[e])))
            && (forall e :: e in y.rep.catalog && e !in x.rep.catalog ==> y.rep.catalog[e] == sent[e])
            && (forall e, u :: CarriesUnit(frames, u) && u.key == OfCatalog(e) ==>
                  e in y.rep.catalog && y.rep.catalog[e] == sent[e])
    decreases frames
  {
    if frames != [] {
      var m, rest := frames[0], frames[1..];
      var mid := TakeFrame(x, m).value;
      assert frames == [m] + rest;
      assert forall u :: CarriesUnit(rest, u) ==> CarriesUnit(frames, u);
      if m.StateMessage? {
        assert forall u :: u in m.units ==> CarriesUnit(frames, u);
        CatalogUnitsTaken(x.rep, m.units, sent);
      } else {
        ChangesKeepCatalog(x.rep, m.batch);
      }
      CatalogTaken(mid, rest, sent);
      forall e, u | CarriesUnit(frames, u) && u.key == OfCatalog(e)
        ensures e in TakeFrames(x, frames).value.rep.catalog && TakeFrames(x, frames).value.rep.catalog[e] == sent[e]
      {
        var n :| n in frames && n.StateMessage? && u in n.units;
        if n in rest {
          assert CarriesUnit(rest, u);
        }
      }
    }
  }

  lemma {:induction false} ChangesKeepCatalog(rep: Replica, batch: seq<RowChange>)
    ensures ApplyChanges(rep, batch).Ok? ==> ApplyChanges(rep, batch).value.catalog == rep.catalog
    decreases batch
  {
    if batch != [] {
      match ApplyChange(rep.RowAt(batch[0].row), batch[0].id, batch[0].payload) {
        case Ok(r) => ChangesKeepCatalog(rep.(rows := rep.rows[batch[0].row := r]), batch[1..]);
        case Err(_) =>
      }
    }
  }

  lemma {:induction false} CatalogUnitsTaken(rep: Replica, units: seq<StateUnit>, sent: map<CatalogKey, CatalogValue>)
    requires ApplyUnits(rep, units).1
    requires forall u :: u in units && u.key.OfCatalog? ==>
                           u.key.entry in sent && u.content == CatalogContent(sent[u.key.entry])
    ensures var next := ApplyUnits(rep, units).0;
            && (forall e :: e in next.catalog ==> e in rep.catalog || e in sent)
            && (forall e :: e in rep.catalog ==>
                  e in next.catalog && (next.catalog[e] == rep.catalog[e] || (e in sent && next.catalog[e] == sent[e])))
            && (forall e :: e in next.catalog && e !in rep.catalog ==> next.catalog[e] == sent[e])
            && (forall u :: u in units && u.key.OfCatalog? ==>
                  u.key.entry in next.catalog && next.catalog[u.key.entry] == sent[u.key.entry])
    decreases units
  {
    if units != [] {
      CatalogUnitsTaken(ApplyUnit(rep, units[0]).value, units[1..], sent);
      assert units == [units[0]] + units[1..];
    }
  }

  lemma {:induction false} SameEntryIsThere(source: Replica, target: Replica, e: CatalogKey)
    requires e in source.catalog && !Differs(source, RemoteOf(target), OfCatalog(e))
    ensures e in target.catalog && target.catalog[e] == source.catalog[e]
  {
    ExportedEntry(source, e);
    ExportedEntry(target, e);
    var key := OfCatalog(e);
    assert key in ManifestOf(target) && ManifestOf(target)[key] == Digest(Exported(source)[key]);
  }

  lemma {:induction false} OtherEntryIsSent(out: Outbound, source: Replica, remote: Remote, e: CatalogKey)
    requires ValidOutbound(out, source, remote) && e in source.catalog && Differs(source, remote, OfCatalog(e))
    ensures CarriesUnit(OutboundFrames(out), NewUnit(OfCatalog(e), CatalogContent(source.catalog[e])))
  {
    ExportedEntry(source, e);
    var u := NewUnit(OfCatalog(e), CatalogContent(source.catalog[e]));
    assert InBatches(u, out.states);
    OutboundCarries(out, u);
  }

  /** An entry of the source is sent, or the target has it. */
  lemma {:induction false} EntryCarried(x: Transfer, e: CatalogKey)
    requires x.Begun() && e in x.source.catalog
    ensures || CarriesUnit(OutboundFrames(x.Out()), NewUnit(OfCatalog(e), CatalogContent(x.source.catalog[e])))
            || (e in x.target.catalog && x.target.catalog[e] == x.source.catalog[e])
  {
    if Differs(x.source, RemoteOf(x.target), OfCatalog(e)) {
      OtherEntryIsSent(x.Out(), x.source, RemoteOf(x.target), e);
    } else {
      SameEntryIsThere(x.source, x.target, e);
    }
  }

  lemma {:induction false} EntriesCarried(x: Transfer, u: StateUnit)
    requires x.Begun() && CarriesUnit(OutboundFrames(x.Out()), u) && u.key.OfCatalog?
    ensures u.key.entry in x.source.catalog && u.content == CatalogContent(x.source.catalog[u.key.entry])
  {
    OutboundCarries(x.Out(), u);
    ExportedEntry(x.source, u.key.entry);
  }

  lemma {:induction false} CatalogArrives(x: Transfer)
    requires x.Begun()
    ensures x.Arrived().value.rep.catalog == x.target.catalog + x.source.catalog
  {
    var frames := OutboundFrames(x.Out());
    forall u | CarriesUnit(frames, u) && u.key.OfCatalog?
      ensures u.key.entry in x.source.catalog && u.content == CatalogContent(x.source.catalog[u.key.entry])
    {
      EntriesCarried(x, u);
    }
    CatalogTaken(Intake(x.target, {}), frames, x.source.catalog);
    forall e | e in x.source.catalog
      ensures e in x.Arrived().value.rep.catalog && x.Arrived().value.rep.catalog[e] == x.source.catalog[e]
    {
      EntryCarried(x, e);
    }
  }

  /** The target's catalog once a transfer is over: its own entries, overwritten by the source's. */
  lemma {:induction false} CatalogGetsAcross(x: Transfer)
    requires x.Valid()
    ensures x.Final().value.rep.catalog == x.target.catalog + x.source.catalog
  {
    CatalogArrives(x);
    RecoveryGood(x.Recovery(), x.mid, x.Arrived().value.requests);
    CatalogTaken(x.Arrived().value, M.StateMessages(x.Recovery()), map[]);
    assert x.Final().value.rep.catalog == x.Arrived().value.rep.catalog;
  }

  // ---------------------------------------------------------------------------------------------
  // One session
  // ---------------------------------------------------------------------------------------------

  /** A session between two replicas, whoever begins and whatever the sides' orders and framings, that succeeded on both
      sides. It may have been run with faults; then there were none. */
  ghost predicate Synced(repA: Replica, repB: Replica, afterA: Replica, afterB: Replica) {
    Led(repA, repB, afterA, afterB) || Led(repB, repA, afterB, afterA)
  }

  ghost predicate Led(repA: Replica, repB: Replica, afterA: Replica, afterB: Replica) {
    exists version, policyA, policyB, events ::
      && S.ValidPolicy(policyA) && S.ValidPolicy(policyB)
      && var end := S.FaultyExec(Opening(version, policyA, repA, policyB, repB), events);
         end.Some? && end.value.a.Succeeded() && end.value.b.Succeeded()
         && end.value.a.rep == afterA && end.value.b.rep == afterB
  }

  // A session's outcome with the policies that led to it.
  datatype Outcome = Outcome(repA: Replica, policyA: M.Policy, repB: Replica, policyB: M.Policy, afterA: Replica,
                             afterB: Replica) {
    function AtoB(): Transfer {
      Transfer(repA, match AfterOutbound(repB, policyB, repA) case Some(a) => a.rep case None => repA, policyA, repB)
    }

    function Reversed(): Outcome { Outcome(repB, policyB, repA, policyA, afterB, afterA) }

    ghost predicate Valid() {
      && GoodReplica(repA) && GoodReplica(repB) && S.ValidPolicy(policyA) && S.ValidPolicy(policyB)
      && SessionResult(repA, policyA, repB, policyB) == Some((afterA, afterB))
    }
  }

  lemma {:induction false} OutcomeOf(repA: Replica, repB: Replica, afterA: Replica, afterB: Replica)
    returns (o: Outcome)
    requires GoodReplica(repA) && GoodReplica(repB) && Synced(repA, repB, afterA, afterB)
    ensures o.Valid() && o.repA == repA && o.repB == repB && o.afterA == afterA && o.afterB == afterB
    ensures S.Between(afterA, repA, repB) && S.Between(afterB, repB, repA)
  {
    if Led(repA, repB, afterA, afterB) {
      o := OutcomeOfLed(repA, repB, afterA, afterB);
    } else {
      o := OutcomeOfLed(repB, repA, afterB, afterA);
      o := o.Reversed();
    }
  }

  lemma {:induction false} OutcomeOfLed(repA: Replica, repB: Replica, afterA: Replica, afterB: Replica)
    returns (o: Outcome)
    requires GoodReplica(repA) && GoodReplica(repB) && Led(repA, repB, afterA, afterB)
    ensures o.Valid() && o.repA == repA && o.repB == repB && o.afterA == afterA && o.afterB == afterB
    ensures S.Between(afterA, repA, repB) && S.Between(afterB, repB, repA)
  {
    var version, policyA, policyB, events :|
      && S.ValidPolicy(policyA) && S.ValidPolicy(policyB)
      && var end := S.FaultyExec(Opening(version, policyA, repA, policyB, repB), events);
         end.Some? && end.value.a.Succeeded() && end.value.b.Succeeded()
         && end.value.a.rep == afterA && end.value.b.rep == afterB;
    S.FaultsShow(Opening(version, policyA, repA, policyB, repB), events);
    SuccessIsResult(version, policyA, repA, policyB, repB, S.Sides(events));
    S.NothingLostNothingInvented(version, policyA, repA, version, policyB, repB, events);
    o := Outcome(repA, policyA, repB, policyB, afterA, afterB);
  }

  lemma {:induction false} ForwardIsValid(o: Outcome)
    requires o.Valid()
    ensures o.AtoB().Valid() && o.AtoB().Final().value.rep == o.afterB
    ensures o.Reversed().Valid()
  {
    BackwardKeeps(Transfer(o.repB, o.repB, o.policyB, o.repA));
  }

  lemma {:induction false} BackwardKeeps(x: Transfer)
    requires x.Begun()
    ensures GoodReplica(x.Arrived().value.rep)
    ensures forall k :: RowLe(x.target.RowAt(k), x.Arrived().value.rep.RowAt(k))
  {
    forall k
      ensures RowLe(x.target.RowAt(k), x.Arrived().value.rep.RowAt(k))
    {
      ArrivedEffect(x, k);
    }
    var any: RowKey :| true;
    ArrivedEffect(x, any);
  }

  /** Catalog entries are exchanged and not merged: an entry both sides have comes out swapped. So after a session the
      catalogs agree exactly when the two sides agreed on every entry they shared. */
  lemma {:induction false} CatalogsAreExchanged(repA: Replica, repB: Replica, afterA: Replica, afterB: Replica)
    requires GoodReplica(repA) && GoodReplica(repB) && Synced(repA, repB, afterA, afterB)
    ensures afterA.catalog == repA.catalog + repB.catalog
    ensures afterB.catalog == repB.catalog + repA.catalog
    ensures afterA.catalog == afterB.catalog <==>
            forall e :: e in repA.catalog && e in repB.catalog ==> repA.catalog[e] == repB.catalog[e]
  {
    var o := OutcomeOf(repA, repB, afterA, afterB);
    ForwardIsValid(o);
    ForwardIsValid(o.Reversed());
    CatalogGetsAcross(o.AtoB());
    CatalogGetsAcross(o.Reversed().AtoB());
    OverwritesAgree(repA.catalog, repB.catalog);
  }

  lemma {:induction false} OverwritesAgree<K, V>(a: map<K, V>, b: map<K, V>)
    ensures a + b == b + a <==> forall k :: k in a && k in b ==> a[k] == b[k]
  {
    forall k | k in a && k in b
      ensures (a + b)[k] == b[k] && (b + a)[k] == a[k]
    {
    }
  }

  // ---------------------------------------------------------------------------------------------
  // Two sessions
  // ---------------------------------------------------------------------------------------------

  /** A row of an active table from one side to the other through two sessions. */
  lemma {:induction false} DeliveredInTwo(first: Outcome, second: Outcome, k: RowKey)
    requires first.Valid() && second.Valid() && second.repA == first.afterA && second.repB == first.afterB
    requires first.repA.catalog == first.repB.catalog
             && second.repA.catalog == second.repB.catalog == first.repA.catalog
    requires first.repA.TableIs(k.table, false)
    ensures Delivered(first.repA.RowAt(k), second.afterB.RowAt(k))
  {
    ForwardIsValid(first);
    ForwardIsValid(first.Reversed());
    ForwardIsValid(second);
    RowGetsAcross(first.AtoB(), k);
    RowGetsAcross(first.Reversed().AtoB(), k);
    RowGetsAcross(second.AtoB(), k);
    if !Delivered(first.repA.RowAt(k), first.afterB.RowAt(k)) {
      NothingMissing(second.repA, second.repB, k);
      DeliveredThrough(first.repA.RowAt(k), first.afterA.RowAt(k), second.afterB.RowAt(k), second.afterB.RowAt(k));
    }
  }

  lemma {:induction false} NothingMissing(source: Replica, target: Replica, k: RowKey)
    requires target.TableIs(k.table, false)
    requires source.RowAt(k).incrementals.Keys <= target.RowAt(k).incrementals.Keys
    requires GoodReplica(target) && target.RowAt(k).doc.Some?
    ensures MissingChanges(source, RemoteOf(target), k) == {}
  {
    RemoteRow(target, k);
  }

  /** What two starting rows come to: a tombstone if either had one, and otherwise the union of their changes. */
  ghost predicate Merged(x: RowState.Row, y: RowState.Row, r: RowState.Row) {
    if x.Deleted() || y.Deleted() then r.Deleted() && r.Visible() == None
    else r.meta == None && r.Visible() == if x.doc.Some? || y.doc.Some? then Some(x.Held() + y.Held()) else None
  }

  /** Two sessions in a row that succeed bring replicas with the same catalog together: every row of an active table is,
      on both sides, the merge of the two rows there were. */
  lemma {:induction false} TwoSessionsConverge(repA: Replica, repB: Replica, midA: Replica, midB: Replica,
                                               endA: Replica, endB: Replica)
    requires GoodReplica(repA) && GoodReplica(repB) && repA.catalog == repB.catalog
    requires Synced(repA, repB, midA, midB) && Synced(midA, midB, endA, endB)
    ensures endA.catalog == endB.catalog == repA.catalog
    ensures forall k: RowKey :: repA.TableIs(k.table, false) ==>
                          && Merged(repA.RowAt(k), repB.RowAt(k), endA.RowAt(k))
                          && Merged(repA.RowAt(k), repB.RowAt(k), endB.RowAt(k))
  {
    var first := OutcomeOf(repA, repB, midA, midB);
    SameCatalogStays(repA, repB, midA, midB);
    BetweenIsGood(midA, repA, repB);
    BetweenIsGood(midB, repB, repA);
    var second := OutcomeOf(midA, midB, endA, endB);
    SameCatalogStays(midA, midB, endA, endB);
    forall k: RowKey | repA.TableIs(k.table, false)
      ensures Merged(repA.RowAt(k), repB.RowAt(k), endA.RowAt(k))
      ensures Merged(repA.RowAt(k), repB.RowAt(k), endB.RowAt(k))
    {
      BothWays(first, second, k);
      RowConverges(repA, repB, midA, midB, endA, k);
      RowConverges(repB, repA, midB, midA, endB, k);
    }
  }

  lemma {:induction false} BothWays(first: Outcome, second: Outcome, k: RowKey)
    requires first.Valid() && second.Valid() && second.repA == first.afterA && second.repB == first.afterB
    requires first.repA.catalog == first.repB.catalog
             && second.repA.catalog == second.repB.catalog == first.repA.catalog
    requires first.repA.TableIs(k.table, false)
    ensures Delivered(first.repA.RowAt(k), second.afterB.RowAt(k))
    ensures Delivered(first.repB.RowAt(k), second.afterA.RowAt(k))
  {
    ForwardIsValid(first);
    ForwardIsValid(second);
    DeliveredInTwo(first, second, k);
    DeliveredInTwo(first.Reversed(), second.Reversed(), k);
  }

  lemma {:induction false} RowConverges(repA: Replica, repB: Replica, midA: Replica, midB: Replica, endA: Replica,
                                        k: RowKey)
    requires S.Between(midA, repA, repB) && S.Between(midB, repB, repA) && S.Between(endA, midA, midB)
    requires Delivered(repB.RowAt(k), endA.RowAt(k))
    ensures Merged(repA.RowAt(k), repB.RowAt(k), endA.RowAt(k)) && Merged(repB.RowAt(k), repA.RowAt(k), endA.RowAt(k))
  {
    BetweenTwice(repA.RowAt(k), repB.RowAt(k), midA.RowAt(k), midB.RowAt(k), endA.RowAt(k));
    DeliveredIsMerged(repA.RowAt(k), repB.RowAt(k), endA.RowAt(k));
  }

  lemma {:induction false} SameCatalogStays(repA: Replica, repB: Replica, afterA: Replica, afterB: Replica)
    requires GoodReplica(repA) && GoodReplica(repB) && Synced(repA, repB, afterA, afterB)
             && repA.catalog == repB.catalog
    ensures afterA.catalog == afterB.catalog == repA.catalog
  {
    CatalogsAreExchanged(repA, repB, afterA, afterB);
  }

  lemma {:induction false} BetweenIsGood(rep: Replica, own: Replica, other: Replica)
    requires S.Between(rep, own, other)
    ensures GoodReplica(rep)
  {
    forall k
      ensures GoodRow(rep.RowAt(k)) && rep.RowAt(k).meta != Some(false)
    {
      assert S.RowBetween(rep.RowAt(k), own.RowAt(k), other.RowAt(k));
    }
  }

  lemma {:induction false} BetweenTwice(x: RowState.Row, y: RowState.Row, midX: RowState.Row, midY: RowState.Row,
                                        end: RowState.Row)
    requires S.RowBetween(midX, x, y) && S.RowBetween(midY, y, x) && S.RowBetween(end, midX, midY)
    ensures S.RowBetween(end, x, y)
  {
  }

  lemma {:induction false} DeliveredIsMerged(x: RowState.Row, y: RowState.Row, end: RowState.Row)
    requires S.RowBetween(end, x, y) && Delivered(y, end)
    ensures Merged(x, y, end) && Merged(y, x, end)
  {
    FlagValues(end.meta);
    assert x.Held() + y.Held() == y.Held() + x.Held();
    if end.doc.Some? && !end.Deleted() {
      assert end.Held() == x.Held() + y.Held();
    }
  }
}
