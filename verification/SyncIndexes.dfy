// Received rows and the indexes of their tables: when a row that is sent is taken, and that it stays so on the way.
module SyncIndexes {
  import opened RowState
  import opened SyncCatalog
  import opened SyncState
  import opened SyncRun
  import opened SyncConvergence
  import opened Wrappers
  import Catalog
  import M = SyncMachine

  /** The source's row, merged whole into the target's, is visible before or after. */
  predicate Touches(s: RowState.Row, t: RowState.Row) {
    Touched(t, s.Visible(), s.meta)
  }

  function RowUnit(source: Replica, k: RowKey): StateUnit {
    NewUnit(OfRow(k), ContentOf(source.RowAt(k)))
  }

  predicate TakesUnit(source: Replica, rep: Replica, k: RowKey) {
    TakesRow(rep.catalog, k.table, Touches(source.RowAt(k), rep.RowAt(k)))
  }

  /** The target's indexes take every row in which the source differs from it. */
  ghost predicate Taken(source: Replica, target: Replica) {
    forall k :: Differs(source, RemoteOf(target), OfRow(k)) ==> TakesUnit(source, target, k)
  }

  lemma {:induction false} TakesLess(catalog: Entries, table: Catalog.Name, more: bool, less: bool)
    requires TakesRow(catalog, table, more) && (less ==> more)
    ensures TakesRow(catalog, table, less)
  {
    if more != less {
      TakesUntouched(catalog, table);
    }
  }

  lemma {:induction false} UnitAccepted(source: Replica, rep: Replica, k: RowKey)
    ensures ApplyUnit(rep, RowUnit(source, k)).Ok? <==> TakesUnit(source, rep, k)
  {
  }

  /** A row that did not become visible does not when the same content comes again. */
  lemma {:induction false} UntouchedStays(s: RowState.Row, r: RowState.Row)
    requires !Touches(s, r)
    ensures !Touches(s, MergeContent(r, s.Visible(), s.meta))
  {
  }

  lemma {:induction false} UnitKeepsTaking(source: Replica, rep: Replica, j: RowKey, k: RowKey)
    requires ApplyUnit(rep, RowUnit(source, j)).Ok? && TakesUnit(source, rep, k)
    ensures var next := ApplyUnit(rep, RowUnit(source, j)).value;
            next.catalog == rep.catalog && TakesUnit(source, next, k)
  {
    var s, r, next := source.RowAt(k), rep.RowAt(k), ApplyUnit(rep, RowUnit(source, j)).value;
    if j == k {
      assert next.RowAt(k) == MergeContent(r, s.Visible(), s.meta);
      if !Touches(s, r) {
        UntouchedStays(s, r);
      }
      TakesLess(rep.catalog, k.table, Touches(s, r), Touches(s, next.RowAt(k)));
    } else {
      assert next.RowAt(k) == r;
    }
  }

  /** Units of rows as they are in one replica. */
  ghost predicate UnitsOf(source: Replica, units: seq<StateUnit>) {
    forall u :: u in units ==> u.key.OfRow? && u == RowUnit(source, u.key.row)
  }

  lemma {:induction false} UnitsKeepTaking(source: Replica, rep: Replica, units: seq<StateUnit>, k: RowKey)
    requires UnitsOf(source, units) && TakesUnit(source, rep, k)
    ensures TakesUnit(source, ApplyUnits(rep, units).0, k)
    decreases units
  {
    if units != [] && ApplyUnit(rep, units[0]).Ok? {
      assert units[0] in units;
      UnitKeepsTaking(source, rep, units[0].key.row, k);
      UnitsKeepTaking(source, ApplyUnit(rep, units[0]).value, units[1..], k);
    }
  }

  lemma {:induction false} UnitsAccepted(source: Replica, rep: Replica, units: seq<StateUnit>)
    requires UnitsOf(source, units) && forall u :: u in units ==> TakesUnit(source, rep, u.key.row)
    ensures ApplyUnits(rep, units).1 && ApplyUnits(rep, units).0.catalog == rep.catalog
    decreases units
  {
    if units != [] {
      var u := units[0];
      assert u in units;
      UnitAccepted(source, rep, u.key.row);
      UnitKeepsTaking(source, rep, u.key.row, u.key.row);
      forall v | v in units[1..]
        ensures TakesUnit(source, ApplyUnit(rep, u).value, v.key.row)
      {
        UnitKeepsTaking(source, rep, u.key.row, v.key.row);
      }
      UnitsAccepted(source, ApplyUnit(rep, u).value, units[1..]);
    }
  }

  /** Frames of such units. */
  ghost predicate FramesOf(source: Replica, frames: seq<M.Message>) {
    forall m :: m in frames ==> m.StateMessage? && UnitsOf(source, m.units)
  }

  lemma {:induction false} UnitFramesTaken(source: Replica, x: Intake, frames: seq<M.Message>)
    requires FramesOf(source, frames)
    requires forall u :: CarriesUnit(frames, u) ==> TakesUnit(source, x.rep, u.key.row)
    ensures TakeFrames(x, frames).Some?
    decreases frames
  {
    if frames != [] {
      var m, rest := frames[0], frames[1..];
      assert m in frames && forall n :: n in rest ==> n in frames;
      assert forall u :: u in m.units ==> CarriesUnit(frames, u);
      FrameTaken(source, x, m);
      var y := TakeFrame(x, m).value;
      forall u | CarriesUnit(rest, u)
        ensures TakesUnit(source, y.rep, u.key.row)
      {
        assert CarriesUnit(frames, u);
        UnitsKeepTaking(source, x.rep, m.units, u.key.row);
      }
      UnitFramesTaken(source, y, rest);
    }
  }

  lemma {:induction false} FrameTaken(source: Replica, x: Intake, m: M.Message)
    requires m.StateMessage? && UnitsOf(source, m.units)
    requires forall u :: u in m.units ==> TakesUnit(source, x.rep, u.key.row)
    ensures TakeFrame(x, m) == Some(x.(rep := ApplyUnits(x.rep, m.units).0))
  {
    UnitsAccepted(source, x.rep, m.units);
  }

  /** A unit for a row that is not taken is refused wherever it comes among units. */
  lemma {:induction false} UnitsRefused(source: Replica, rep: Replica, units: seq<StateUnit>, k: RowKey)
    requires UnitsOf(source, units) && RowUnit(source, k) in units && !TakesUnit(source, rep, k)
    requires GoodReplica(rep) && GoodUnits(units)
    ensures !ApplyUnits(rep, units).1
    decreases units
  {
    assert units[0] in units;
    var j := units[0].key.row;
    UnitAccepted(source, rep, j);
    if j != k && ApplyUnit(rep, units[0]).Ok? {
      ApplyUnitEffect(rep, units[0], k);
      UnitsRefused(source, ApplyUnit(rep, units[0]).value, units[1..], k);
    }
  }

  lemma {:induction false} UnitFramesRefused(source: Replica, x: Intake, frames: seq<M.Message>, k: RowKey)
    requires FramesOf(source, frames) && CarriesUnit(frames, RowUnit(source, k)) && !TakesUnit(source, x.rep, k)
    requires GoodReplica(x.rep) && GoodFrames(frames)
    ensures TakeFrames(x, frames).None?
    decreases frames
  {
    var m, rest := frames[0], frames[1..];
    assert m in frames && forall n :: n in rest ==> n in frames;
    if RowUnit(source, k) in m.units {
      UnitsRefused(source, x.rep, m.units, k);
    } else if TakeFrame(x, m).Some? {
      UnitsEffect(x.rep, m.units, k);
      var n :| n in frames && n.StateMessage? && RowUnit(source, k) in n.units;
      assert n in rest;
      UnitFramesRefused(source, TakeFrame(x, m).value, rest, k);
    }
  }

  /** A change leaves every row visible or not, deleted or not, as it was. */
  lemma {:induction false} ChangesKeepSight(rep: Replica, batch: seq<RowChange>, k: RowKey)
    requires ApplyChanges(rep, batch).Ok?
    ensures var next := ApplyChanges(rep, batch).value;
            && next.catalog == rep.catalog && next.RowAt(k).meta == rep.RowAt(k).meta
            && next.RowAt(k).Visible().Some? == rep.RowAt(k).Visible().Some?
    decreases batch
  {
    if batch != [] {
      var ch := batch[0];
      var next := rep.(rows := rep.rows[ch.row := ApplyChange(rep.RowAt(ch.row), ch.id, ch.payload).value]);
      assert k != ch.row ==> next.RowAt(k) == rep.RowAt(k);
      ChangesKeepSight(next, batch[1..], k);
    }
  }

  lemma {:induction false} ChangesKeepTaking(source: Replica, rep: Replica, batch: seq<RowChange>, k: RowKey)
    requires ApplyChanges(rep, batch).Ok? && TakesUnit(source, rep, k)
    ensures TakesUnit(source, ApplyChanges(rep, batch).value, k)
  {
    ChangesKeepSight(rep, batch, k);
  }
}
