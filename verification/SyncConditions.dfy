// When sessions succeed, and when one is enough: conditions on the two replicas that can be checked before a session.
module SyncConditions {
  import opened Automerge
  import opened RowState
  import opened SyncCatalog
  import opened SyncState
  import opened SyncRun
  import opened SyncConvergence
  import opened SyncIndexes
  import opened Wrappers
  import Catalog
  import E = SyncEngine
  import M = SyncMachine
  import S = SyncSafety

  /** The incrementals of a row that are sent as such, the target having the row but not them. */
  function SentIds(source: Replica, target: Replica, k: RowKey): set<Change> {
    set c | c in source.RowAt(k).incrementals && GoesAsChange(source, RemoteOf(target), k, c)
  }

  /** A change the target can take in whatever has come before it: it does not hold it yet, all that the change rests
      on is in the target's document or comes along, and no other change sent for the row brings it. */
  ghost predicate ClearChange(s: RowState.Row, t: RowState.Row, sent: set<Change>, c: Change)
    requires c in s.incrementals
  {
    && c !in t.Held() && c in Closure(t.Held() + s.incrementals[c])
    && forall d :: d in sent && d in s.incrementals && d != c ==> c !in s.incrementals[d]
  }

  /** So is every change sent for a row the target shows. */
  ghost predicate Clear(source: Replica, target: Replica) {
    forall k, c :: c in SentIds(source, target, k) && target.RowAt(k).Visible().Some? ==>
                     ClearChange(source.RowAt(k), target.RowAt(k), SentIds(source, target, k), c)
  }

  /** The target can take in all the source sends: the changes are clear, and its indexes take the rows. */
  ghost predicate Acceptable(source: Replica, target: Replica) {
    Clear(source, target) && Taken(source, target)
  }

  // ---------------------------------------------------------------------------------------------
  // Sufficient
  // ---------------------------------------------------------------------------------------------

  /** The row has taken in nothing but changes sent for it. */
  ghost predicate Underway(s: RowState.Row, t: RowState.Row, sent: set<Change>, r: RowState.Row) {
    Grown(s, t, r) && r.incrementals.Keys <= t.incrementals.Keys + sent
  }

  ghost predicate AllUnderway(source: Replica, target: Replica, rep: Replica) {
    forall k :: SentIds(source, target, k) != {} ==>
                  Underway(source.RowAt(k), target.RowAt(k), SentIds(source, target, k), rep.RowAt(k))
  }

  /** A clear change is accepted in whatever order the changes arrive. */
  lemma {:induction false} ClearApplies(s: RowState.Row, t: RowState.Row, sent: set<Change>, c: Change, r: RowState.Row)
    requires c in s.incrementals && t.Visible().Some? && ClearChange(s, t, sent, c) && Underway(s, t, sent, r)
    ensures ApplyChange(r, c, s.incrementals[c]).Ok?
  {
    if c !in r.incrementals {
      assert c !in Payloads(s, r.incrementals.Keys - t.incrementals.Keys);
      ClosureMonotone(t.Held() + s.incrementals[c], r.Held() + s.incrementals[c]);
    }
  }

  /** What the source sends of a row it lists. */
  ghost predicate SentChange(source: Replica, target: Replica, ch: RowChange) {
    && ch.id in SentIds(source, target, ch.row) && ch.payload == source.RowAt(ch.row).incrementals[ch.id]
  }

  lemma {:induction false} SentTable(source: Replica, target: Replica, k: RowKey, c: Change)
    requires source.catalog == target.catalog && c in SentIds(source, target, k)
    ensures target.TableIs(k.table, false)
  {
    ExportedRow(source, k);
  }

  /** A change taken in, or put off because the row is not shown. */
  lemma {:induction false} ChangeTaken(s: RowState.Row, t: RowState.Row, sent: set<Change>, ch: RowChange,
                                       r: RowState.Row)
    requires Missed(s, t, ch) && ch.id in sent && Underway(s, t, sent, r)
    requires t.Visible().Some? ==> ClearChange(s, t, sent, ch.id)
    ensures var next := ApplyChange(r, ch.id, ch.payload);
            if t.Visible().Some? then next.Ok? && Underway(s, t, sent, next.value)
            else next == Err(DependencyUnavailable)
  {
    if t.Visible().Some? {
      ClearApplies(s, t, sent, ch.id, r);
      ChangeGrows(s, t, r, ch);
    }
  }

  lemma {:induction false} RowReplaced(source: Replica, target: Replica, rep: Replica, k: RowKey, r: RowState.Row)
    requires AllUnderway(source, target, rep)
    requires Underway(source.RowAt(k), target.RowAt(k), SentIds(source, target, k), r)
    ensures AllUnderway(source, target, rep.(rows := rep.rows[k := r]))
  {
  }

  /** A batch is taken in, or put off as a whole for want of a dependency. */
  lemma {:induction false} SentBatchTaken(source: Replica, target: Replica, rep: Replica, batch: seq<RowChange>)
    requires source.catalog == target.catalog && Clear(source, target) && AllUnderway(source, target, rep)
    requires forall ch :: ch in batch ==> SentChange(source, target, ch)
    ensures match ApplyChanges(rep, batch)
            case Ok(next) => AllUnderway(source, target, next) && next.catalog == rep.catalog
            case Err(error) => error == DependencyUnavailable
    decreases batch
  {
    if batch != [] {
      var ch := batch[0];
      assert SentChange(source, target, ch);
      SentTable(source, target, ch.row, ch.id);
      SentIsMissed(source, target, ch);
      ChangeTaken(source.RowAt(ch.row), target.RowAt(ch.row), SentIds(source, target, ch.row), ch, rep.RowAt(ch.row));
      if target.RowAt(ch.row).Visible().Some? {
        var r := ApplyChange(rep.RowAt(ch.row), ch.id, ch.payload).value;
        RowReplaced(source, target, rep, ch.row, r);
        SentBatchTaken(source, target, rep.(rows := rep.rows[ch.row := r]), batch[1..]);
      }
    }
  }

  /** A frame of the source's outbound. */
  ghost predicate OutboundFrame(source: Replica, target: Replica, m: M.Message) {
    match m
    case StateMessage(units) =>
      UnitsOf(source, units) && forall u :: u in units ==> GoesWhole(source, RemoteOf(target), u.key)
    case ChangesMessage(batch) => forall ch :: ch in batch ==> SentChange(source, target, ch)
    case _ => false
  }

  ghost predicate OutboundFramesOnly(source: Replica, target: Replica, frames: seq<M.Message>) {
    forall m :: m in frames ==> OutboundFrame(source, target, m)
  }

  lemma {:induction false} SentUnit(source: Replica, target: Replica, u: StateUnit)
    requires source.catalog == target.catalog
    requires GoesWhole(source, RemoteOf(target), u.key) && u == NewUnit(u.key, Exported(source)[u.key])
    ensures u.key.OfRow? && u == RowUnit(source, u.key.row)
  {
    match u.key {
      case OfCatalog(e) =>
        ExportedEntry(source, e);
        ExportedEntry(target, e);
      case OfRow(k) => ExportedRow(source, k);
    }
  }

  lemma {:induction false} OutboundIsFrames(out: Outbound, source: Replica, target: Replica)
    requires source.catalog == target.catalog && ValidOutbound(out, source, RemoteOf(target))
    ensures OutboundFramesOnly(source, target, OutboundFrames(out))
  {
    forall m | m in OutboundFrames(out)
      ensures OutboundFrame(source, target, m)
    {
      if m.StateMessage? {
        assert exists i :: 0 <= i < |out.states| && m == M.StateMessage(out.states[i]);
        forall u | u in m.units
          ensures u.key.OfRow? && u == RowUnit(source, u.key.row) && GoesWhole(source, RemoteOf(target), u.key)
        {
          assert InBatches(u, out.states);
          SentUnit(source, target, u);
        }
      } else {
        assert exists i :: 0 <= i < |out.changes| && m == M.ChangesMessage(out.changes[i]);
        assert forall ch :: ch in m.batch ==> InBatches(ch, out.changes);
      }
    }
  }

  /** What the target has come to while it takes in the source's outbound. */
  ghost predicate Receiving(source: Replica, target: Replica, x: Intake) {
    && GoodReplica(x.rep) && x.rep.catalog == target.catalog && AllUnderway(source, target, x.rep)
    && (forall k :: GoesWhole(source, RemoteOf(target), OfRow(k)) ==> TakesUnit(source, x.rep, k))
    && forall k :: k in x.requests ==> SentIds(source, target, k) != {}
  }

  lemma {:induction false} SentNotWhole(source: Replica, target: Replica, k: RowKey)
    requires SentIds(source, target, k) != {}
    ensures !GoesWhole(source, RemoteOf(target), OfRow(k))
  {
  }

  lemma {:induction false} UnitsKeepUnderway(source: Replica, target: Replica, rep: Replica, units: seq<StateUnit>)
    requires GoodReplica(rep) && GoodUnits(units) && AllUnderway(source, target, rep)
    requires forall u :: u in units ==> GoesWhole(source, RemoteOf(target), u.key)
    ensures GoodReplica(ApplyUnits(rep, units).0) && AllUnderway(source, target, ApplyUnits(rep, units).0)
  {
    forall k | SentIds(source, target, k) != {}
      ensures ApplyUnits(rep, units).0.RowAt(k) == rep.RowAt(k)
    {
      SentNotWhole(source, target, k);
      UnitsEffect(rep, units, k);
    }
    var any: RowKey :| true;
    UnitsEffect(rep, units, any);
  }

  lemma {:induction false} StatesTaken(source: Replica, target: Replica, x: Intake, m: M.Message)
    requires Receiving(source, target, x) && m.StateMessage? && OutboundFrame(source, target, m) && GoodUnits(m.units)
    ensures TakeFrame(x, m).Some? && Receiving(source, target, TakeFrame(x, m).value)
  {
    UnitsAccepted(source, x.rep, m.units);
    UnitsKeepUnderway(source, target, x.rep, m.units);
    forall k | GoesWhole(source, RemoteOf(target), OfRow(k))
      ensures TakesUnit(source, ApplyUnits(x.rep, m.units).0, k)
    {
      UnitsKeepTaking(source, x.rep, m.units, k);
    }
  }

  /** The indexes take a row that is sent as changes: it is shown only if the target shows it. */
  lemma {:induction false} ChangeIndexed(source: Replica, target: Replica, rep: Replica, ch: RowChange)
    requires Taken(source, target) && AllUnderway(source, target, rep) && rep.catalog == target.catalog
    requires SentChange(source, target, ch)
    ensures TakesChange(rep, ch)
  {
    var s, t := source.RowAt(ch.row), target.RowAt(ch.row);
    assert Underway(s, t, SentIds(source, target, ch.row), rep.RowAt(ch.row));
    TakesLess(rep.catalog, ch.row.table, Touches(s, t), rep.RowAt(ch.row).Visible().Some?);
  }

  lemma {:induction false} BatchResult(rep: Replica, batch: seq<RowChange>)
    requires GoodChanges(batch) && forall ch :: ch in batch ==> TakesChange(rep, ch)
    ensures ApplyBatch(rep, batch) == ApplyChanges(rep, batch)
  {
    assert forall ch :: ch in batch ==> GoodPayload(ch.id, ch.payload);
  }

  lemma {:induction false} BatchTaken(source: Replica, target: Replica, x: Intake, m: M.Message)
    requires source.catalog == target.catalog && Acceptable(source, target) && Receiving(source, target, x)
    requires m.ChangesMessage? && OutboundFrame(source, target, m) && GoodChanges(m.batch)
    ensures TakeFrame(x, m).Some? && Receiving(source, target, TakeFrame(x, m).value)
  {
    SentBatchTaken(source, target, x.rep, m.batch);
    forall ch | ch in m.batch
      ensures TakesChange(x.rep, ch)
    {
      ChangeIndexed(source, target, x.rep, ch);
    }
    BatchResult(x.rep, m.batch);
    if ApplyChanges(x.rep, m.batch).Ok? {
      var any: RowKey :| true;
      ChangesEffect(x.rep, m.batch, any);
      forall k | GoesWhole(source, RemoteOf(target), OfRow(k))
        ensures TakesUnit(source, ApplyChanges(x.rep, m.batch).value, k)
      {
        ChangesKeepTaking(source, x.rep, m.batch, k);
      }
    }
  }

  lemma {:induction false} FramesTaken(source: Replica, target: Replica, x: Intake, frames: seq<M.Message>)
    requires source.catalog == target.catalog && Acceptable(source, target) && Receiving(source, target, x)
    requires OutboundFramesOnly(source, target, frames) && GoodFrames(frames)
    ensures TakeFrames(x, frames).Some? && Receiving(source, target, TakeFrames(x, frames).value)
    decreases frames
  {
    if frames != [] {
      var m, rest := frames[0], frames[1..];
      assert m in frames && forall n :: n in rest ==> n in frames;
      if m.StateMessage? {
        StatesTaken(source, target, x, m);
      } else {
        BatchTaken(source, target, x, m);
      }
      FramesTaken(source, target, TakeFrame(x, m).value, rest);
    }
  }

  lemma {:induction false} BeginsReceiving(source: Replica, target: Replica)
    requires GoodReplica(target) && Taken(source, target)
    ensures Receiving(source, target, Intake(target, {}))
  {
    forall s: RowState.Row, t: RowState.Row
      ensures Grown(s, t, t)
    {
      assert Payloads(s, t.incrementals.Keys - t.incrementals.Keys) == {};
    }
  }

  lemma {:induction false} OutboundAccepted(source: Replica, policy: M.Policy, target: Replica)
    requires GoodReplica(source) && GoodReplica(target) && source.catalog == target.catalog
    requires S.ValidPolicy(policy) && Acceptable(source, target)
    ensures AfterOutbound(source, policy, target).Some?
    ensures Receiving(source, target, AfterOutbound(source, policy, target).value)
  {
    var out := policy.outbound(source, RemoteOf(target));
    OutboundIsFrames(out, source, target);
    OutboundGood(out, source, RemoteOf(target));
    BeginsReceiving(source, target);
    FramesTaken(source, target, Intake(target, {}), OutboundFrames(out));
  }

  /** A row that is asked for is taken: the target shows it, or it is deleted there and stays so. */
  lemma {:induction false} RequestedIsTaken(source: Replica, target: Replica, mid: Replica, x: Intake, k: RowKey)
    requires GoodReplica(target) && source.catalog == target.catalog && Taken(source, target)
    requires Receiving(source, target, x) && k in x.requests
    ensures TakesUnit(mid, x.rep, k)
  {
    var c :| c in SentIds(source, target, k);
    SentTable(source, target, k, c);
    RemoteRow(target, k);
    var t := target.RowAt(k);
    assert HasUnit(t) && Underway(source.RowAt(k), t, SentIds(source, target, k), x.rep.RowAt(k));
    FlagValues(t.meta);
    TakesLess(target.catalog, k.table, Touches(source.RowAt(k), t), Touches(mid.RowAt(k), x.rep.RowAt(k)));
  }

  lemma {:induction false} RecoveryFramesOf(source: Replica, states: seq<seq<StateUnit>>, requests: set<RowKey>)
    requires ValidRecovery(states, source, requests)
    ensures FramesOf(source, M.StateMessages(states))
  {
    forall m | m in M.StateMessages(states)
      ensures m.StateMessage? && UnitsOf(source, m.units)
    {
      assert exists i :: 0 <= i < |states| && m == M.StateMessage(states[i]);
      assert forall u :: u in m.units ==> InBatches(u, states);
    }
  }

  lemma {:induction false} RecoveryAccepted(source: Replica, target: Replica, mid: Replica, policy: M.Policy,
                                            x: Intake)
    requires GoodReplica(target) && source.catalog == target.catalog && Taken(source, target)
    requires Receiving(source, target, x) && S.ValidPolicy(policy)
    ensures AfterRecovery(mid, policy, x).Some?
  {
    var states := policy.recovery(mid, x.requests);
    assert ValidRecovery(states, mid, x.requests);
    RecoveryFramesOf(mid, states, x.requests);
    forall u | CarriesUnit(M.StateMessages(states), u)
      ensures TakesUnit(mid, x.rep, u.key.row)
    {
      RecoveryCarries(states, u);
      RequestedIsTaken(source, target, mid, x, u.key.row);
    }
    UnitFramesTaken(mid, x, M.StateMessages(states));
  }

  lemma {:induction false} AcceptableSucceeds(repA: Replica, policyA: M.Policy, repB: Replica, policyB: M.Policy)
    requires GoodReplica(repA) && GoodReplica(repB) && repA.catalog == repB.catalog
    requires S.ValidPolicy(policyA) && S.ValidPolicy(policyB) && Acceptable(repA, repB) && Acceptable(repB, repA)
    ensures SessionResult(repA, policyA, repB, policyB).Some?
  {
    OutboundAccepted(repA, policyA, repB);
    OutboundAccepted(repB, policyB, repA);
    var a, b := AfterOutbound(repB, policyB, repA).value, AfterOutbound(repA, policyA, repB).value;
    RecoveryAccepted(repB, repA, b.rep, policyB, a);
    RecoveryAccepted(repA, repB, a.rep, policyA, b);
  }

  // ---------------------------------------------------------------------------------------------
  // Policies
  // ---------------------------------------------------------------------------------------------

  function Singles(changes: seq<RowChange>): seq<seq<RowChange>> {
    seq(|changes|, i requires 0 <= i < |changes| => [changes[i]])
  }

  /** Nothing is sent twice, as nothing is by the code (`SyncEngine.Engine.BuildOutbound`). */
  ghost predicate NoRepeats(out: Outbound) {
    E.DistinctUnits(E.Joined(out.states)) && E.DistinctChanges(E.Joined(out.changes))
  }

  /** A policy of that kind. */
  ghost predicate PlainPolicy(policy: M.Policy) {
    S.ValidPolicy(policy) && forall rep, remote :: NoRepeats(policy.outbound(rep, remote))
  }

  lemma {:induction false} JoinedSingles(changes: seq<RowChange>)
    ensures E.Joined(Singles(changes)) == changes
  {
    if changes != [] {
      assert Singles(changes)[1..] == Singles(changes[1..]);
      JoinedSingles(changes[1..]);
    }
  }

  /** All that is sent as changes. */
  ghost function SentChanges(rep: Replica, remote: Remote): set<RowChange> {
    set k, c | k in rep.rows && c in rep.rows[k].incrementals && GoesAsChange(rep, remote, k, c) ::
      RowChange(k, c, rep.rows[k].incrementals[c])
  }

  lemma {:induction false} SentChangesAre(rep: Replica, remote: Remote, ch: RowChange)
    ensures ch in SentChanges(rep, remote) <==>
            GoesAsChange(rep, remote, ch.row, ch.id) && ch.payload == rep.RowAt(ch.row).incrementals[ch.id]
  {
  }

  /** There is an outbound that sends every change in a frame of its own, some chosen ones first. */
  lemma {:induction false} OutboundLedBy(rep: Replica, remote: Remote, first: seq<RowChange>)
    returns (out: Outbound, changes: seq<RowChange>)
    requires forall ch :: ch in first ==> ch in SentChanges(rep, remote)
    requires forall i, j :: 0 <= i < j < |first| ==> first[i] != first[j]
    ensures ValidOutbound(out, rep, remote) && NoRepeats(out)
    ensures out.changes == Singles(changes) && first <= changes
  {
    var units := WholeUnits(rep, remote);
    var rest := S.Listing(SentChanges(rep, remote) - set ch | ch in first);
    changes := first + rest;
    out := Outbound([units], Singles(changes));
    assert E.Joined([units]) == units + E.Joined([]) by { assert [units][1..] == []; }
    JoinedSingles(changes);
    assert forall ch :: ch in changes <==> ch in SentChanges(rep, remote);
    LedByIsValid(out, rep, remote, units, changes);
    LedByIsDistinct(rep, remote, units, first, rest);
  }

  /** All that goes whole, in some order. */
  lemma {:induction false} WholeUnits(rep: Replica, remote: Remote) returns (units: seq<StateUnit>)
    ensures forall i, j :: 0 <= i < j < |units| ==> units[i] != units[j]
    ensures forall u :: u in units <==>
              exists key :: key in Exported(rep) && GoesWhole(rep, remote, key)
                && u == NewUnit(key, Exported(rep)[key])
  {
    units := S.Listing(set key | key in Exported(rep) && GoesWhole(rep, remote, key) ::
                         NewUnit(key, Exported(rep)[key]));
  }

  lemma {:induction false} LedByIsValid(out: Outbound, rep: Replica, remote: Remote, units: seq<StateUnit>,
                                        changes: seq<RowChange>)
    requires out == Outbound([units], Singles(changes))
    requires forall u :: u in units <==>
               exists key :: key in Exported(rep) && GoesWhole(rep, remote, key)
                 && u == NewUnit(key, Exported(rep)[key])
    requires forall ch :: ch in changes <==> ch in SentChanges(rep, remote)
    ensures ValidOutbound(out, rep, remote)
  {
    forall u
      ensures InBatches(u, out.states) <==> GoesWhole(rep, remote, u.key) && u == NewUnit(u.key, Exported(rep)[u.key])
    {
      assert InBatches(u, [units]) <==> u in [units][0];
    }
    forall ch
      ensures InBatches(ch, out.changes) <==>
              GoesAsChange(rep, remote, ch.row, ch.id) && ch.payload == rep.RowAt(ch.row).incrementals[ch.id]
    {
      SentChangesAre(rep, remote, ch);
      if ch in changes {
        var i :| 0 <= i < |changes| && changes[i] == ch;
        assert ch in out.changes[i];
      }
    }
  }

  lemma {:induction false} LedByIsDistinct(rep: Replica, remote: Remote, units: seq<StateUnit>, first: seq<RowChange>,
                                           rest: seq<RowChange>)
    requires forall i, j :: 0 <= i < j < |units| ==> units[i] != units[j]
    requires forall u :: u in units ==> u.key in Exported(rep) && u == NewUnit(u.key, Exported(rep)[u.key])
    requires forall i, j :: 0 <= i < j < |first| ==> first[i] != first[j]
    requires forall i, j :: 0 <= i < j < |rest| ==> rest[i] != rest[j]
    requires forall ch :: ch in rest ==> ch !in first
    requires forall ch :: ch in first + rest ==> ch in SentChanges(rep, remote)
    ensures E.DistinctUnits(units) && E.DistinctChanges(first + rest)
  {
    assert forall i :: 0 <= i < |units| ==> units[i] in units;
    assert forall i :: 0 <= i < |first| ==> first[i] in first;
    assert forall i :: 0 <= i < |rest| ==> rest[i] in rest;
    forall i, j | 0 <= i < j < |first + rest|
      ensures ((first + rest)[i].row, (first + rest)[i].id) != ((first + rest)[j].row, (first + rest)[j].id)
    {
      var x, y := (first + rest)[i], (first + rest)[j];
      assert x in first + rest && y in first + rest;
      SentChangesAre(rep, remote, x);
      SentChangesAre(rep, remote, y);
      assert x != y;
    }
  }

  ghost function PlainOutbound(rep: Replica, remote: Remote): (out: Outbound)
    ensures ValidOutbound(out, rep, remote) && NoRepeats(out)
  {
    assert exists out :: ValidOutbound(out, rep, remote) && NoRepeats(out) by {
      var out, changes := OutboundLedBy(rep, remote, []);
    }
    var out :| ValidOutbound(out, rep, remote) && NoRepeats(out);
    out
  }

  /** A policy that sends what is given to the given target. */
  lemma {:induction false} PolicyWith(source: Replica, target: Replica, out: Outbound) returns (policy: M.Policy)
    requires ValidOutbound(out, source, RemoteOf(target)) && NoRepeats(out)
    ensures PlainPolicy(policy) && policy.outbound(source, RemoteOf(target)) == out
  {
    var to := RemoteOf(target);
    policy := M.Policy(
      (rep: Replica, remote: Remote) => if rep == source && remote == to then out else PlainOutbound(rep, remote),
      (rep: Replica, requests: set<RowKey>) => S.AnyRecovery(rep, requests));
  }

  // ---------------------------------------------------------------------------------------------
  // Necessary
  // ---------------------------------------------------------------------------------------------

  lemma {:induction false} TakeFramesConcat(x: Intake, first: seq<M.Message>, second: seq<M.Message>)
    ensures TakeFrames(x, first + second)
            == match TakeFrames(x, first) case None => None case Some(y) => TakeFrames(y, second)
    decreases first
  {
    if first == [] {
      assert first + second == second;
    } else {
      assert (first + second)[0] == first[0] && (first + second)[1..] == first[1..] + second;
      if TakeFrame(x, first[0]).Some? { TakeFramesConcat(TakeFrame(x, first[0]).value, first[1..], second); }
    }
  }

  /** A change on its own to a row that is shown, and that has it already or cannot apply it. */
  lemma {:induction false} ChangeRefused(x: Intake, ch: RowChange, rest: seq<M.Message>)
    requires GoodPayload(ch.id, ch.payload)
    requires var r := x.rep.RowAt(ch.row);
             && r.Visible().Some? && ch.id !in r.incrementals
             && (ch.id in r.Held() || ch.id !in Closure(r.Held() + ch.payload))
    ensures TakeFrames(x, [M.ChangesMessage([ch])] + rest).None?
  {
    assert ([M.ChangesMessage([ch])] + rest)[0] == M.ChangesMessage([ch]);
    assert ch in [ch] && [ch][0] == ch;
    assert ApplyChanges(x.rep, [ch]) == Err(HashMismatch);
  }

  lemma {:induction false} SingleBatch(rep: Replica, ch: RowChange)
    ensures ApplyChanges(rep, [ch])
            == match ApplyChange(rep.RowAt(ch.row), ch.id, ch.payload)
               case Ok(r) => Ok(rep.(rows := rep.rows[ch.row := r]))
               case Err(error) => Err(error)
  {
    assert [ch][0] == ch && [ch][1..] == [];
  }

  /** Two changes of a row that is shown, the first of which brings the second. */
  lemma {:induction false} SecondRefused(x: Intake, d: RowChange, ch: RowChange, rest: seq<M.Message>)
    requires GoodPayload(ch.id, ch.payload) && GoodPayload(d.id, d.payload) && ch.id in d.payload && d.id != ch.id
    requires d.row == ch.row && x.rep.RowAt(d.row).Visible().Some?
    requires d.id !in x.rep.RowAt(d.row).incrementals && ch.id !in x.rep.RowAt(d.row).incrementals
    ensures TakeFrames(x, [M.ChangesMessage([d]), M.ChangesMessage([ch])] + rest).None?
  {
    var frames := [M.ChangesMessage([d]), M.ChangesMessage([ch])] + rest;
    assert frames[0] == M.ChangesMessage([d]) && frames[1..] == [M.ChangesMessage([ch])] + rest;
    assert d in [d];
    SingleBatch(x.rep, d);
    var r := ApplyChange(x.rep.RowAt(d.row), d.id, d.payload);
    if r.Ok? && TakeFrame(x, frames[0]).Some? {
      assert TakeFrame(x, frames[0]).value.rep.RowAt(ch.row) == r.value;
      ChangeRefused(TakeFrame(x, frames[0]).value, ch, rest);
    }
  }

  lemma {:induction false} StatesElsewhere(out: Outbound, rep: Replica, remote: Remote, k: RowKey)
    requires ValidOutbound(out, rep, remote) && !GoesWhole(rep, remote, OfRow(k))
    ensures AllElsewhere(M.StateMessages(out.states), k)
  {
    forall m | m in M.StateMessages(out.states)
      ensures m.StateMessage? && forall u :: u in m.units ==> u.key != OfRow(k)
    {
      assert exists i :: 0 <= i < |out.states| && m == M.StateMessage(out.states[i]);
      assert forall u :: u in m.units ==> InBatches(u, out.states);
    }
  }

  /** Before any change arrives, a row that is sent as changes is as it was. */
  lemma {:induction false} StatesLeaveRow(source: Replica, target: Replica, out: Outbound, k: RowKey, c: Change)
    requires GoodReplica(source) && GoodReplica(target) && ValidOutbound(out, source, RemoteOf(target))
    requires c in SentIds(source, target, k)
    ensures var x := TakeFrames(Intake(target, {}), M.StateMessages(out.states));
            x.Some? ==> x.value.rep.RowAt(k) == target.RowAt(k)
  {
    var frames := M.StateMessages(out.states);
    if TakeFrames(Intake(target, {}), frames).Some? {
      SentNotWhole(source, target, k);
      StatesElsewhere(out, source, RemoteOf(target), k);
      OutboundGood(out, source, RemoteOf(target));
      assert GoodFrames(frames) by { assert forall m :: m in frames ==> m in OutboundFrames(out); }
      UnitsElsewhere(Intake(target, {}), frames, k);
    }
  }

  lemma {:induction false} SinglesBegin(changes: seq<RowChange>, first: seq<RowChange>)
    requires first <= changes
    ensures M.ChangesMessages(Singles(changes))
            == M.ChangesMessages(Singles(first)) + M.ChangesMessages(Singles(changes[|first|..]))
  {
  }

  /** Changes no replica with this row takes in: one it has or cannot apply, or two of which the first brings the
      second. */
  ghost predicate Blocks(r: RowState.Row, k: RowKey, first: seq<RowChange>) {
    && r.Visible().Some? && 1 <= |first| <= 2
    && (forall ch :: ch in first ==> ch.row == k && GoodPayload(ch.id, ch.payload) && ch.id !in r.incrementals)
    && var ch := first[|first| - 1];
       if |first| == 1 then ch.id in r.Held() || ch.id !in Closure(r.Held() + ch.payload)
       else first[0].id != ch.id && ch.id in first[0].payload
  }

  lemma {:induction false} BlockedFrames(x: Intake, k: RowKey, first: seq<RowChange>, rest: seq<M.Message>)
    requires Blocks(x.rep.RowAt(k), k, first)
    ensures TakeFrames(x, M.ChangesMessages(Singles(first)) + rest).None?
  {
    var ch := first[|first| - 1];
    assert ch in first && first[0] in first;
    if |first| == 1 {
      assert M.ChangesMessages(Singles(first)) == [M.ChangesMessage([ch])];
      ChangeRefused(x, ch, rest);
    } else {
      assert M.ChangesMessages(Singles(first)) == [M.ChangesMessage([first[0]]), M.ChangesMessage([ch])];
      SecondRefused(x, first[0], ch, rest);
    }
  }

  lemma {:induction false} BlockedOutbound(target: Replica, out: Outbound, changes: seq<RowChange>, k: RowKey,
                                           first: seq<RowChange>)
    requires out.changes == Singles(changes) && first <= changes && Blocks(target.RowAt(k), k, first)
    requires var x := TakeFrames(Intake(target, {}), M.StateMessages(out.states));
             x.Some? ==> x.value.rep.RowAt(k) == target.RowAt(k)
    ensures TakeFrames(Intake(target, {}), OutboundFrames(out)).None?
  {
    SinglesBegin(changes, first);
    TakeFramesConcat(Intake(target, {}), M.StateMessages(out.states), M.ChangesMessages(out.changes));
    var x := TakeFrames(Intake(target, {}), M.StateMessages(out.states));
    if x.Some? {
      BlockedFrames(x.value, k, first, M.ChangesMessages(Singles(changes[|first|..])));
    }
  }

  lemma {:induction false} UnclearBlocks(s: RowState.Row, t: RowState.Row, k: RowKey, sent: set<Change>, c: Change)
    returns (first: seq<RowChange>)
    requires GoodRow(s) && sent <= s.incrementals.Keys && c in sent && forall d :: d in sent ==> d !in t.incrementals
    requires t.Visible().Some? && !ClearChange(s, t, sent, c)
    ensures Blocks(t, k, first)
    ensures forall ch :: ch in first ==> ch.id in sent && ch.payload == s.incrementals[ch.id]
    ensures forall i, j :: 0 <= i < j < |first| ==> first[i] != first[j]
  {
    if d :| d in sent && d in s.incrementals && d != c && c in s.incrementals[d] {
      first := [RowChange(k, d, s.incrementals[d]), RowChange(k, c, s.incrementals[c])];
    } else {
      first := [RowChange(k, c, s.incrementals[c])];
    }
  }

  lemma {:induction false} SentMissing(source: Replica, target: Replica, k: RowKey)
    requires source.catalog == target.catalog
    ensures forall c :: c in SentIds(source, target, k) ==> c !in target.RowAt(k).incrementals
  {
    forall c | c in SentIds(source, target, k)
      ensures c !in target.RowAt(k).incrementals
    {
      SentTable(source, target, k, c);
      SentIsMissed(source, target, RowChange(k, c, source.RowAt(k).incrementals[c]));
    }
  }

  /** For a change that is not clear there is a policy under which the target refuses the source's outbound: the change
      comes first, or right after one that brings it. */
  lemma {:induction false} UnclearIsRefused(source: Replica, target: Replica, k: RowKey, c: Change)
    returns (policy: M.Policy)
    requires GoodReplica(source) && GoodReplica(target) && source.catalog == target.catalog
    requires c in SentIds(source, target, k) && target.RowAt(k).Visible().Some?
    requires !ClearChange(source.RowAt(k), target.RowAt(k), SentIds(source, target, k), c)
    ensures PlainPolicy(policy) && AfterOutbound(source, policy, target).None?
  {
    assert GoodRow(source.RowAt(k));
    SentMissing(source, target, k);
    var first := UnclearBlocks(source.RowAt(k), target.RowAt(k), k, SentIds(source, target, k), c);
    forall ch | ch in first
      ensures ch in SentChanges(source, RemoteOf(target))
    {
      SentChangesAre(source, RemoteOf(target), ch);
    }
    var out, changes := OutboundLedBy(source, RemoteOf(target), first);
    policy := PolicyWith(source, target, out);
    StatesLeaveRow(source, target, out, k, c);
    BlockedOutbound(target, out, changes, k, first);
  }

  /** Where the target refuses something under a policy of the source, no session succeeds. */
  lemma {:induction false} RefusedEitherWay(repA: Replica, policyA: M.Policy, repB: Replica, policyB: M.Policy)
    requires AfterOutbound(repA, policyA, repB).None?
    ensures SessionResult(repA, policyA, repB, policyB).None? && SessionResult(repB, policyB, repA, policyA).None?
  {
  }

  /** Under this policy of the source no session with the target succeeds. */
  ghost predicate Fails(source: Replica, policy: M.Policy, target: Replica) {
    && PlainPolicy(policy)
    && forall other :: PlainPolicy(other) ==>
         SessionResult(source, policy, target, other).None? && SessionResult(target, other, source, policy).None?
  }

  lemma {:induction false} RefusedFails(source: Replica, policy: M.Policy, target: Replica)
    requires PlainPolicy(policy) && AfterOutbound(source, policy, target).None?
    ensures Fails(source, policy, target)
  {
    forall other | PlainPolicy(other)
      ensures SessionResult(source, policy, target, other).None? && SessionResult(target, other, source, policy).None?
    {
      RefusedEitherWay(source, policy, target, other);
    }
  }

  // ---------------------------------------------------------------------------------------------
  // Rows the indexes do not take
  // ---------------------------------------------------------------------------------------------

  lemma {:induction false} OutboundUnitsOf(out: Outbound, source: Replica, target: Replica)
    requires source.catalog == target.catalog && ValidOutbound(out, source, RemoteOf(target))
    ensures FramesOf(source, M.StateMessages(out.states))
  {
    OutboundIsFrames(out, source, target);
    forall m | m in M.StateMessages(out.states)
      ensures m.StateMessage? && UnitsOf(source, m.units)
    {
      assert m in OutboundFrames(out);
    }
  }

  /** A row that goes whole and is not taken is refused. */
  lemma {:induction false} WholeIsRefused(source: Replica, policy: M.Policy, target: Replica, k: RowKey)
    requires GoodReplica(source) && GoodReplica(target) && source.catalog == target.catalog
    requires S.ValidPolicy(policy) && GoesWhole(source, RemoteOf(target), OfRow(k)) && !TakesUnit(source, target, k)
    ensures AfterOutbound(source, policy, target).None?
  {
    var out := policy.outbound(source, RemoteOf(target));
    var frames := M.StateMessages(out.states);
    OutboundUnitsOf(out, source, target);
    OutboundGood(out, source, RemoteOf(target));
    assert GoodFrames(frames) by { assert forall m :: m in frames ==> m in OutboundFrames(out); }
    ExportedRow(source, k);
    assert InBatches(RowUnit(source, k), out.states);
    RecoveryCarries(out.states, RowUnit(source, k));
    UnitFramesRefused(source, Intake(target, {}), frames, k);
    TakeFramesConcat(Intake(target, {}), frames, M.ChangesMessages(out.changes));
  }

  /** A change on its own to a row that is shown, whose indexes do not take it. */
  lemma {:induction false} ChangeUnindexed(x: Intake, ch: RowChange, rest: seq<M.Message>)
    requires GoodPayload(ch.id, ch.payload) && ch.id !in x.rep.RowAt(ch.row).incrementals
    requires x.rep.RowAt(ch.row).Visible().Some? && !TakesRow(x.rep.catalog, ch.row.table, true)
    ensures TakeFrames(x, [M.ChangesMessage([ch])] + rest).None?
  {
    assert ([M.ChangesMessage([ch])] + rest)[0] == M.ChangesMessage([ch]);
    assert ch in [ch] && !TakesChange(x.rep, ch);
    SingleBatch(x.rep, ch);
  }

  /** Frames without a catalog entry. */
  ghost predicate RowFrames(source: Replica, frames: seq<M.Message>) {
    forall m :: m in frames ==> m.StateMessage? ==> UnitsOf(source, m.units)
  }

  lemma {:induction false} RowsKeepCatalog(source: Replica, x: Intake, frames: seq<M.Message>)
    requires RowFrames(source, frames) && TakeFrames(x, frames).Some? && GoodReplica(x.rep) && GoodFrames(frames)
    ensures TakeFrames(x, frames).value.rep.catalog == x.rep.catalog
    decreases frames
  {
    if frames != [] {
      var m, rest := frames[0], frames[1..];
      assert m in frames && forall n :: n in rest ==> n in frames;
      var any: RowKey :| true;
      TakeFrameEffect(x, m, any);
      if m.StateMessage? {
        UnitsEffect(x.rep, m.units, any);
      } else {
        ChangesKeepCatalog(x.rep, m.batch);
      }
      RowsKeepCatalog(source, TakeFrame(x, m).value, rest);
    }
  }

  /** A row that is shown, sent as changes and not taken: one of the changes comes first, and is refused. */
  lemma {:induction false} ShownIsRefused(source: Replica, target: Replica, k: RowKey, c: Change)
    returns (policy: M.Policy)
    requires GoodReplica(source) && GoodReplica(target) && source.catalog == target.catalog
    requires c in SentIds(source, target, k) && target.RowAt(k).Visible().Some? && !TakesUnit(source, target, k)
    ensures PlainPolicy(policy) && AfterOutbound(source, policy, target).None?
  {
    var ch := RowChange(k, c, source.RowAt(k).incrementals[c]);
    assert GoodRow(source.RowAt(k));
    SentMissing(source, target, k);
    SentChangesAre(source, RemoteOf(target), ch);
    var out, changes := OutboundLedBy(source, RemoteOf(target), [ch]);
    policy := PolicyWith(source, target, out);
    StatesLeaveRow(source, target, out, k, c);
    LedIsUnindexed(source, target, out, changes, ch);
  }

  lemma {:induction false} LedIsUnindexed(source: Replica, target: Replica, out: Outbound, changes: seq<RowChange>,
                                          ch: RowChange)
    requires GoodReplica(source) && GoodReplica(target) && source.catalog == target.catalog
    requires ValidOutbound(out, source, RemoteOf(target)) && out.changes == Singles(changes) && [ch] <= changes
    requires GoodPayload(ch.id, ch.payload) && ch.id !in target.RowAt(ch.row).incrementals
    requires target.RowAt(ch.row).Visible().Some? && !TakesRow(target.catalog, ch.row.table, true)
    requires var x := TakeFrames(Intake(target, {}), M.StateMessages(out.states));
             x.Some? ==> x.value.rep.RowAt(ch.row) == target.RowAt(ch.row)
    ensures TakeFrames(Intake(target, {}), OutboundFrames(out)).None?
  {
    var states := M.StateMessages(out.states);
    SinglesBegin(changes, [ch]);
    assert M.ChangesMessages(Singles([ch])) == [M.ChangesMessage([ch])];
    TakeFramesConcat(Intake(target, {}), states, M.ChangesMessages(out.changes));
    var x := TakeFrames(Intake(target, {}), states);
    if x.Some? {
      OutboundUnitsOf(out, source, target);
      OutboundGood(out, source, RemoteOf(target));
      assert GoodFrames(states) by { assert forall m :: m in states ==> m in OutboundFrames(out); }
      RowsKeepCatalog(source, Intake(target, {}), states);
      ChangeUnindexed(x.value, ch, M.ChangesMessages(Singles(changes[1..])));
    }
  }

  /** A deleted row that is sent as changes is asked for, and what then comes is not taken either. */
  lemma {:induction false} DeletedIsRefused(repA: Replica, policyA: M.Policy, repB: Replica, policyB: M.Policy,
                                            k: RowKey)
    requires GoodReplica(repA) && GoodReplica(repB) && repA.catalog == repB.catalog
    requires S.ValidPolicy(policyA) && S.ValidPolicy(policyB)
    requires SentIds(repA, repB, k) != {} && repB.RowAt(k).Visible().None? && !TakesUnit(repA, repB, k)
    ensures SessionResult(repA, policyA, repB, policyB).None? && SessionResult(repB, policyB, repA, policyA).None?
  {
    var result := SessionResult(repA, policyA, repB, policyB);
    if result.Some? {
      var x := Outcome(repA, policyA, repB, policyB, result.value.0, result.value.1).AtoB();
      ForwardIsValid(Outcome(repA, policyA, repB, policyB, result.value.0, result.value.1));
      DeletedIsRequested(x, k);
      RecoveredIsRefused(x, k);
    }
  }

  lemma {:induction false} DeletedIsRequested(x: Transfer, k: RowKey)
    requires x.Valid() && x.source.catalog == x.target.catalog
    requires SentIds(x.source, x.target, k) != {} && x.target.RowAt(k).Visible().None?
    ensures k in x.Arrived().value.requests
  {
    var c :| c in SentIds(x.source, x.target, k);
    SentTable(x.source, x.target, k, c);
    if k !in x.Arrived().value.requests {
      ChangesGetAcross(x, k);
    }
  }

  lemma {:induction false} RecoveredIsRefused(x: Transfer, k: RowKey)
    requires x.Begun() && GoodReplica(x.mid) && RowLe(x.source.RowAt(k), x.mid.RowAt(k))
    requires x.source.catalog == x.target.catalog && k in x.Arrived().value.requests
    requires SentIds(x.source, x.target, k) != {} && x.target.RowAt(k).Visible().None?
    requires !TakesUnit(x.source, x.target, k)
    ensures x.Final().None?
  {
    ArrivedDeleted(x, k);
    DeletedUntaken(x.source, x.target, x.mid, x.Arrived().value.rep, k);
    SentStays(x.source, x.target, x.mid, k);
    RecoveryIsRefused(x, k);
  }

  lemma {:induction false} ArrivedDeleted(x: Transfer, k: RowKey)
    requires x.Begun() && x.source.catalog == x.target.catalog
    requires SentIds(x.source, x.target, k) != {} && x.target.RowAt(k).Visible().None?
    ensures var rep := x.Arrived().value.rep;
            GoodReplica(rep) && rep.catalog == x.target.catalog && rep.RowAt(k) == x.target.RowAt(k)
    ensures HasUnit(x.target.RowAt(k))
  {
    var c :| c in SentIds(x.source, x.target, k);
    SentTable(x.source, x.target, k, c);
    RemoteRow(x.target, k);
    ArrivedHidden(x, k);
    ArrivedEffect(x, k);
    ArrivedKeepsCatalog(x);
  }

  lemma {:induction false} ArrivedHidden(x: Transfer, k: RowKey)
    requires x.Begun() && x.target.TableIs(k.table, false) && x.target.RowAt(k).Visible().None?
    requires SentIds(x.source, x.target, k) != {}
    ensures x.Arrived().value.rep.RowAt(k) == x.target.RowAt(k)
  {
    SentNotWhole(x.source, x.target, k);
    ArrivedGrown(x, k);
  }

  lemma {:induction false} SentStays(source: Replica, target: Replica, mid: Replica, k: RowKey)
    requires GoodReplica(source) && SentIds(source, target, k) != {} && RowLe(source.RowAt(k), mid.RowAt(k))
    ensures HasUnit(mid.RowAt(k))
  {
    assert GoodRow(source.RowAt(k));
    ExportedRow(source, k);
    UnitsStay(source.RowAt(k), mid.RowAt(k));
  }

  lemma {:induction false} ArrivedKeepsCatalog(x: Transfer)
    requires x.Begun() && x.source.catalog == x.target.catalog
    ensures x.Arrived().value.rep.catalog == x.target.catalog
  {
    OutboundIsFrames(x.Out(), x.source, x.target);
    OutboundGood(x.Out(), x.source, RemoteOf(x.target));
    forall m | m in OutboundFrames(x.Out()) && m.StateMessage?
      ensures UnitsOf(x.source, m.units)
    {
      assert OutboundFrame(x.source, x.target, m);
    }
    RowsKeepCatalog(x.source, Intake(x.target, {}), OutboundFrames(x.Out()));
  }

  /** To a row that is deleted, and still as it was, nothing of it is visible. */
  lemma {:induction false} DeletedUntaken(source: Replica, target: Replica, mid: Replica, rep: Replica, k: RowKey)
    requires target.RowAt(k).Visible().None? && HasUnit(target.RowAt(k)) && target.RowAt(k).meta != Some(false)
    requires rep.RowAt(k) == target.RowAt(k) && rep.catalog == target.catalog && !TakesUnit(source, target, k)
    ensures !TakesUnit(mid, rep, k)
  {
    FlagValues(target.RowAt(k).meta);
    TakesLessNot(target.catalog, k.table, Touches(source.RowAt(k), target.RowAt(k)));
  }

  lemma {:induction false} TakesLessNot(catalog: Entries, table: Catalog.Name, touched: bool)
    requires !TakesRow(catalog, table, touched)
    ensures !TakesRow(catalog, table, true)
  {
    if TakesRow(catalog, table, true) {
      TakesLess(catalog, table, true, touched);
    }
  }

  lemma {:induction false} RecoveryIsRefused(x: Transfer, k: RowKey)
    requires x.Begun() && GoodReplica(x.mid) && k in x.Arrived().value.requests && HasUnit(x.mid.RowAt(k))
    requires GoodReplica(x.Arrived().value.rep) && !TakesUnit(x.mid, x.Arrived().value.rep, k)
    ensures x.Final().None?
  {
    var y := x.Arrived().value;
    RecoveryUnit(x.Recovery(), x.mid, y.requests, k);
    RecoveryGood(x.Recovery(), x.mid, y.requests);
    RecoveryFramesOf(x.mid, x.Recovery(), y.requests);
    UnitFramesRefused(x.mid, y, M.StateMessages(x.Recovery()), k);
  }

  lemma {:induction false} DeletedAlwaysFails(source: Replica, policy: M.Policy, target: Replica, k: RowKey)
    requires GoodReplica(source) && GoodReplica(target) && source.catalog == target.catalog && PlainPolicy(policy)
    requires SentIds(source, target, k) != {} && target.RowAt(k).Visible().None? && !TakesUnit(source, target, k)
    ensures Fails(source, policy, target)
  {
    forall other | PlainPolicy(other)
      ensures SessionResult(source, policy, target, other).None? && SessionResult(target, other, source, policy).None?
    {
      DeletedIsRefused(source, policy, target, other, k);
    }
  }

  /** For a row that differs and is not taken there is a policy under which every session fails. */
  lemma {:induction false} UntakenFails(source: Replica, target: Replica, k: RowKey) returns (policy: M.Policy)
    requires GoodReplica(source) && GoodReplica(target) && source.catalog == target.catalog
    requires Differs(source, RemoteOf(target), OfRow(k)) && !TakesUnit(source, target, k)
    ensures Fails(source, policy, target)
  {
    policy := SomePlainPolicy();
    if GoesWhole(source, RemoteOf(target), OfRow(k)) {
      WholeIsRefused(source, policy, target, k);
      RefusedFails(source, policy, target);
    } else {
      var c :| c in MissingChanges(source, RemoteOf(target), k);
      assert c in SentIds(source, target, k);
      if target.RowAt(k).Visible().Some? {
        policy := ShownIsRefused(source, target, k, c);
        RefusedFails(source, policy, target);
      } else {
        DeletedAlwaysFails(source, policy, target, k);
      }
    }
  }

  lemma {:induction false} UnclearFails(source: Replica, target: Replica) returns (policy: M.Policy)
    requires GoodReplica(source) && GoodReplica(target) && source.catalog == target.catalog && !Clear(source, target)
    ensures Fails(source, policy, target)
  {
    var k, c :| c in SentIds(source, target, k) && target.RowAt(k).Visible().Some?
                && !ClearChange(source.RowAt(k), target.RowAt(k), SentIds(source, target, k), c);
    policy := UnclearIsRefused(source, target, k, c);
    RefusedFails(source, policy, target);
  }

  /** The changes either side sends are clear and its rows are taken, or some policies make the session fail. */
  lemma {:induction false} UnacceptableFails(source: Replica, target: Replica) returns (policy: M.Policy)
    requires GoodReplica(source) && GoodReplica(target) && source.catalog == target.catalog
    requires !Acceptable(source, target)
    ensures Fails(source, policy, target)
  {
    if !Clear(source, target) {
      policy := UnclearFails(source, target);
    } else {
      var k :| Differs(source, RemoteOf(target), OfRow(k)) && !TakesUnit(source, target, k);
      policy := UntakenFails(source, target, k);
    }
  }

  /** Between two well-formed replicas with the same catalog every session succeeds, whatever the sides' orders and
      framings, exactly when what either side sends is acceptable to the other: its changes are clear, and the other's
      indexes take its rows. (Where it is not, it is an order without repeats that fails.) */
  lemma {:induction false} SessionsSucceedExactly(repA: Replica, repB: Replica)
    requires GoodReplica(repA) && GoodReplica(repB) && repA.catalog == repB.catalog
    ensures Acceptable(repA, repB) && Acceptable(repB, repA) <==>
            forall policyA, policyB :: S.ValidPolicy(policyA) && S.ValidPolicy(policyB) ==>
                                         SessionResult(repA, policyA, repB, policyB).Some?
    ensures Acceptable(repA, repB) && Acceptable(repB, repA) <==>
            forall policyA, policyB :: PlainPolicy(policyA) && PlainPolicy(policyB) ==>
                                         SessionResult(repA, policyA, repB, policyB).Some?
  {
    if Acceptable(repA, repB) && Acceptable(repB, repA) {
      forall policyA, policyB | S.ValidPolicy(policyA) && S.ValidPolicy(policyB)
        ensures SessionResult(repA, policyA, repB, policyB).Some?
      {
        AcceptableSucceeds(repA, policyA, repB, policyB);
      }
    } else {
      var policyA := SomePlainPolicy();
      var policyB := policyA;
      if !Acceptable(repA, repB) {
        policyA := UnacceptableFails(repA, repB);
      } else {
        policyB := UnacceptableFails(repB, repA);
      }
      assert SessionResult(repA, policyA, repB, policyB).None?;
    }
  }

  lemma {:induction false} SomePlainPolicy() returns (policy: M.Policy)
    ensures PlainPolicy(policy)
  {
    var empty := Replica(map[], map[]);
    policy := PolicyWith(empty, empty, PlainOutbound(empty, RemoteOf(empty)));
  }

  // ---------------------------------------------------------------------------------------------
  // When one session is enough
  // ---------------------------------------------------------------------------------------------

  /** Where every change comes in a frame of its own, a row that is shown is not asked for. */
  lemma {:induction false} ShownIsNotRequested(x: Intake, frames: seq<M.Message>, k: RowKey, s: RowState.Row,
                                               t: RowState.Row)
    requires GoodReplica(x.rep) && GoodFrames(frames) && OnlyMissed(frames, k, s, t) && t.Visible().Some?
    requires TakeFrames(x, frames).Some? && Grown(s, t, x.rep.RowAt(k)) && k !in x.requests
    requires forall m :: m in frames ==> m.StateMessage? || (m.ChangesMessage? && |m.batch| == 1)
    ensures k !in TakeFrames(x, frames).value.requests
    decreases frames
  {
    if frames != [] {
      var m, rest := frames[0], frames[1..];
      assert m in frames && forall n :: n in rest ==> n in frames;
      FrameGrows(x, m, k, s, t);
      if m.ChangesMessage? {
        assert m.batch == [m.batch[0]] && m.batch[0] in m.batch;
        SingleBatch(x.rep, m.batch[0]);
      }
      ShownIsNotRequested(TakeFrame(x, m).value, rest, k, s, t);
    }
  }

  lemma {:induction false} SinglesAreSingle(out: Outbound, changes: seq<RowChange>)
    requires out.changes == Singles(changes)
    ensures forall m :: m in OutboundFrames(out) ==> m.StateMessage? || (m.ChangesMessage? && |m.batch| == 1)
  {
  }

  /** A row that is shown and would not arrive, under a policy that sends every change on its own. */
  lemma {:induction false} NotArriving(source: Replica, target: Replica, k: RowKey) returns (policy: M.Policy)
    requires GoodReplica(source) && GoodReplica(target) && source.TableIs(k.table, false)
    requires target.TableIs(k.table, false) && !Arrives(source, target, k)
    ensures PlainPolicy(policy)
    ensures AfterOutbound(source, policy, target).Some? ==> k !in AfterOutbound(source, policy, target).value.requests
  {
    var out, changes := OutboundLedBy(source, RemoteOf(target), []);
    policy := PolicyWith(source, target, out);
    if AfterOutbound(source, policy, target).Some? {
      var s, t := source.RowAt(k), target.RowAt(k);
      NotWhole(source, target, k);
      OutboundOnlyMissed(out, source, target, k);
      OutboundGood(out, source, RemoteOf(target));
      SinglesAreSingle(out, changes);
      assert Payloads(s, t.incrementals.Keys - t.incrementals.Keys) == {};
      ShownIsNotRequested(Intake(target, {}), OutboundFrames(out), k, s, t);
    }
  }

  lemma {:induction false} NotWhole(source: Replica, target: Replica, k: RowKey)
    requires target.TableIs(k.table, false) && !Arrives(source, target, k)
    ensures !GoesWhole(source, RemoteOf(target), OfRow(k))
  {
    RemoteRow(target, k);
  }

  /** Between replicas whose sessions succeed, every session delivers a row to the other side if and only if it
      arrives. */
  lemma {:induction false} OneSessionDelivers(repA: Replica, repB: Replica, k: RowKey)
    requires GoodReplica(repA) && GoodReplica(repB) && repA.catalog == repB.catalog && repA.TableIs(k.table, false)
    requires Acceptable(repA, repB) && Acceptable(repB, repA)
    ensures Arrives(repA, repB, k) <==>
            forall policyA, policyB :: S.ValidPolicy(policyA) && S.ValidPolicy(policyB) ==>
              DeliversTo(repA, policyA, repB, policyB, k)
  {
    forall policyA, policyB | S.ValidPolicy(policyA) && S.ValidPolicy(policyB) && Arrives(repA, repB, k)
      ensures DeliversTo(repA, policyA, repB, policyB, k)
    {
      DeliversExactly(repA, policyA, repB, policyB, k);
    }
    if !Arrives(repA, repB, k) {
      var policy := NotArriving(repA, repB, k);
      DeliversExactly(repA, policy, repB, policy, k);
      assert !DeliversTo(repA, policy, repB, policy, k);
    }
  }

  ghost predicate DeliversTo(repA: Replica, policyA: M.Policy, repB: Replica, policyB: M.Policy, k: RowKey) {
    var result := SessionResult(repA, policyA, repB, policyB);
    result.Some? && Delivered(repA.RowAt(k), result.value.1.RowAt(k))
  }

  lemma {:induction false} DeliversExactly(repA: Replica, policyA: M.Policy, repB: Replica, policyB: M.Policy,
                                           k: RowKey)
    requires GoodReplica(repA) && GoodReplica(repB) && repA.catalog == repB.catalog && repA.TableIs(k.table, false)
    requires Acceptable(repA, repB) && Acceptable(repB, repA) && S.ValidPolicy(policyA) && S.ValidPolicy(policyB)
    ensures AfterOutbound(repA, policyA, repB).Some?
    ensures var asked := k in AfterOutbound(repA, policyA, repB).value.requests;
            DeliversTo(repA, policyA, repB, policyB, k) <==> asked || Arrives(repA, repB, k)
  {
    AcceptableSucceeds(repA, policyA, repB, policyB);
    var result := SessionResult(repA, policyA, repB, policyB).value;
    var o := Outcome(repA, policyA, repB, policyB, result.0, result.1);
    ForwardIsValid(o);
    DeliveredExactly(o.AtoB(), k);
  }

  lemma {:induction false} ResultIsBetween(o: Outcome)
    requires o.Valid()
    ensures S.Between(o.afterA, o.repA, o.repB) && S.Between(o.afterB, o.repB, o.repA)
  {
    var run := RunSession(0, o.policyA, o.repA, o.policyB, o.repB);
    var s := Opening(0, o.policyA, o.repA, o.policyB, o.repB);
    S.FaultlessExec(s, run);
    S.NothingLostNothingInvented(0, o.policyA, o.repA, 0, o.policyB, o.repB, S.Faultless(run));
  }

  lemma {:induction false} MergedIsDelivered(x: RowState.Row, y: RowState.Row, r: RowState.Row)
    requires x.meta != Some(false) && y.meta != Some(false) && Merged(x, y, r)
    ensures Delivered(x, r) && Delivered(y, r)
  {
    FlagValues(x.meta);
    FlagValues(y.meta);
  }

  /** The rows of all active tables are merged on both sides. */
  ghost predicate AllMerged(repA: Replica, policyA: M.Policy, repB: Replica, policyB: M.Policy) {
    var result := SessionResult(repA, policyA, repB, policyB);
    && result.Some?
    && forall k: RowKey :: repA.TableIs(k.table, false) ==>
         && Merged(repA.RowAt(k), repB.RowAt(k), result.value.0.RowAt(k))
         && Merged(repA.RowAt(k), repB.RowAt(k), result.value.1.RowAt(k))
  }

  lemma {:induction false} DeliveredBothWays(repA: Replica, policyA: M.Policy, repB: Replica, policyB: M.Policy,
                                             k: RowKey)
    requires GoodReplica(repA) && GoodReplica(repB) && S.ValidPolicy(policyA) && S.ValidPolicy(policyB)
    requires DeliversTo(repA, policyA, repB, policyB, k) && DeliversTo(repB, policyB, repA, policyA, k)
    ensures var result := SessionResult(repA, policyA, repB, policyB).value;
            && Merged(repA.RowAt(k), repB.RowAt(k), result.0.RowAt(k))
            && Merged(repA.RowAt(k), repB.RowAt(k), result.1.RowAt(k))
  {
    var result := SessionResult(repA, policyA, repB, policyB).value;
    var o := Outcome(repA, policyA, repB, policyB, result.0, result.1);
    ForwardIsValid(o);
    ResultIsBetween(o);
    DeliveredIsMerged(repA.RowAt(k), repB.RowAt(k), result.0.RowAt(k));
    DeliveredIsMerged(repB.RowAt(k), repA.RowAt(k), result.1.RowAt(k));
  }

  /** Merged on both sides, a row is delivered to both. */
  lemma {:induction false} AllMergedDelivers(repA: Replica, policyA: M.Policy, repB: Replica, policyB: M.Policy,
                                             k: RowKey)
    requires GoodReplica(repA) && GoodReplica(repB) && S.ValidPolicy(policyA) && S.ValidPolicy(policyB)
    requires AllMerged(repA, policyA, repB, policyB) && repA.TableIs(k.table, false)
    ensures DeliversTo(repA, policyA, repB, policyB, k) && DeliversTo(repB, policyB, repA, policyA, k)
  {
    var result := SessionResult(repA, policyA, repB, policyB).value;
    ForwardIsValid(Outcome(repA, policyA, repB, policyB, result.0, result.1));
    MergedIsDelivered(repA.RowAt(k), repB.RowAt(k), result.0.RowAt(k));
    MergedIsDelivered(repA.RowAt(k), repB.RowAt(k), result.1.RowAt(k));
  }

  ghost predicate AllArrive(source: Replica, target: Replica) {
    forall k: RowKey :: source.TableIs(k.table, false) ==> Arrives(source, target, k)
  }

  /** Between replicas whose sessions succeed, one session always brings them together, as two do, if and only if
      every row arrives either way. */
  lemma {:induction false} OneSessionSuffices(repA: Replica, repB: Replica)
    requires GoodReplica(repA) && GoodReplica(repB) && repA.catalog == repB.catalog
    requires Acceptable(repA, repB) && Acceptable(repB, repA)
    ensures AllArrive(repA, repB) && AllArrive(repB, repA) <==>
            forall policyA, policyB :: S.ValidPolicy(policyA) && S.ValidPolicy(policyB) ==>
                                         AllMerged(repA, policyA, repB, policyB)
  {
    if AllArrive(repA, repB) && AllArrive(repB, repA) {
      forall policyA, policyB | S.ValidPolicy(policyA) && S.ValidPolicy(policyB)
        ensures AllMerged(repA, policyA, repB, policyB)
      {
        ArriveIsMerged(repA, policyA, repB, policyB);
      }
    }
    if forall policyA, policyB :: S.ValidPolicy(policyA) && S.ValidPolicy(policyB) ==>
                                    AllMerged(repA, policyA, repB, policyB)
    {
      forall k: RowKey | repA.TableIs(k.table, false)
        ensures Arrives(repA, repB, k) && Arrives(repB, repA, k)
      {
        forall policyA, policyB | S.ValidPolicy(policyA) && S.ValidPolicy(policyB)
          ensures DeliversTo(repA, policyA, repB, policyB, k) && DeliversTo(repB, policyB, repA, policyA, k)
        {
          AllMergedDelivers(repA, policyA, repB, policyB, k);
        }
        OneSessionDelivers(repA, repB, k);
        OneSessionDelivers(repB, repA, k);
      }
    }
  }

  lemma {:induction false} ArriveIsMerged(repA: Replica, policyA: M.Policy, repB: Replica, policyB: M.Policy)
    requires GoodReplica(repA) && GoodReplica(repB) && repA.catalog == repB.catalog
    requires Acceptable(repA, repB) && Acceptable(repB, repA) && AllArrive(repA, repB) && AllArrive(repB, repA)
    requires S.ValidPolicy(policyA) && S.ValidPolicy(policyB)
    ensures AllMerged(repA, policyA, repB, policyB)
  {
    AcceptableSucceeds(repA, policyA, repB, policyB);
    forall k: RowKey | repA.TableIs(k.table, false)
      ensures var result := SessionResult(repA, policyA, repB, policyB).value;
              && Merged(repA.RowAt(k), repB.RowAt(k), result.0.RowAt(k))
              && Merged(repA.RowAt(k), repB.RowAt(k), result.1.RowAt(k))
    {
      DeliversExactly(repA, policyA, repB, policyB, k);
      DeliversExactly(repB, policyB, repA, policyA, k);
      DeliveredBothWays(repA, policyA, repB, policyB, k);
    }
  }
}
