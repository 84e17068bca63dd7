// Sessions that break: whatever fails and whenever, no row loses a change or a tombstone, and none gains anything that
// neither side had.
module SyncSafety {
  import opened RowState
  import opened SyncCatalog
  import opened SyncState
  import M = SyncMachine
  import opened Automerge
  import opened Wrappers

  // What can go wrong in a step of a party: the transport or a read fails and the session ends where it stands, or the
  // engine refuses the frame just received, having applied the first `units` of a frame of states.
  datatype Fault = NoFault | Crash | EngineFails(units: nat)

  datatype Event = Event(side: M.Side, fault: Fault)

  function Least(a: nat, b: nat): nat {
    if a <= b then a else b
  }

  /** A party that receives a frame its engine fails on: of states the first few are applied, of changes none is. */
  function FailOn(p: M.Party, m: M.Message, units: nat): M.Party {
    if m.StateMessage? then M.Fail(p.(rep := ApplyUnits(p.rep, m.units[..Least(units, |m.units|)]).0)) else M.Fail(p)
  }

  function FaultyStepA(s: M.System, fault: Fault): Option<M.System> {
    match fault
    case NoFault => M.StepA(s)
    case Crash => if s.a.Halted() then None else Some(s.(a := M.Fail(s.a)))
    case EngineFails(units) =>
      if s.a.Halted() || s.a.Sending() || s.toA == [] || !(s.a.stage == M.OUTBOUND || s.a.stage == M.RECOVERY) then None
      else Some(M.System(FailOn(s.a, s.toA[0], units), s.b, s.toA[1..], s.toB + [M.Abort]))
  }

  function FaultyStep(s: M.System, event: Event): Option<M.System> {
    if event.side.A? then FaultyStepA(s, event.fault)
    else match FaultyStepA(M.Mirror(s), event.fault) case None => None case Some(t) => Some(M.Mirror(t))
  }

  function FaultyExec(s: M.System, events: seq<Event>): Option<M.System>
    decreases events
  {
    if events == [] then Some(s)
    else match FaultyStep(s, events[0]) case None => None case Some(t) => FaultyExec(t, events[1..])
  }

  // ---------------------------------------------------------------------------------------------
  // Between what a side had and what both had
  // ---------------------------------------------------------------------------------------------

  /** A row holds all its side started with, and nothing neither side started with. */
  ghost predicate RowBetween(r: RowState.Row, own: RowState.Row, other: RowState.Row) {
    && GoodRow(r) && r.meta != Some(false)
    && RowLe(own, r)
    && r.Held() <= own.Held() + other.Held()
    && (r.Deleted() ==> own.Deleted() || other.Deleted())
    && (r.doc.Some? ==> own.doc.Some? || other.doc.Some?)
  }

  /** So does every row; and every catalog entry is one of the two sides'. */
  ghost predicate Between(rep: Replica, own: Replica, other: Replica) {
    && (forall k :: RowBetween(rep.RowAt(k), own.RowAt(k), other.RowAt(k)))
    && own.catalog.Keys <= rep.catalog.Keys
    && (forall e :: e in rep.catalog ==> EntryOf(e, rep.catalog[e], own) || EntryOf(e, rep.catalog[e], other))
  }

  predicate EntryOf(e: CatalogKey, value: CatalogValue, rep: Replica) {
    e in rep.catalog && rep.catalog[e] == value
  }

  ghost predicate UnitWithin(u: StateUnit, x: Replica, y: Replica) {
    match (u.key, u.content)
    case (OfCatalog(e), CatalogContent(value)) => EntryOf(e, value, x) || EntryOf(e, value, y)
    case (OfRow(k), RowContent(_, _)) => ContentWithin(u.content, x.RowAt(k), y.RowAt(k))
    case _ => true
  }

  ghost predicate ContentWithin(content: Content, x: RowState.Row, y: RowState.Row)
    requires content.RowContent?
  {
    && (content.state.Some? ==>
          && Closed(content.state.value)
          && content.state.value <= x.Held() + y.Held()
          && (x.doc.Some? || y.doc.Some?))
    && (content.meta.Some? ==> content.meta.value && (x.Deleted() || y.Deleted()))
  }

  ghost predicate ChangeWithin(ch: RowChange, x: Replica, y: Replica) {
    && GoodPayload(ch.id, ch.payload)
    && ch.payload <= x.RowAt(ch.row).Held() + y.RowAt(ch.row).Held()
  }

  ghost predicate MessageWithin(m: M.Message, x: Replica, y: Replica) {
    && (m.StateMessage? ==> forall u :: u in m.units ==> UnitWithin(u, x, y))
    && (m.ChangesMessage? ==> forall ch :: ch in m.batch ==> ChangeWithin(ch, x, y))
  }

  ghost predicate MessagesWithin(messages: seq<M.Message>, x: Replica, y: Replica) {
    forall m :: m in messages ==> MessageWithin(m, x, y)
  }

  /** A policy sends what the protocol prescribes, in some order and framing. */
  ghost predicate ValidPolicy(policy: M.Policy) {
    && (forall rep, remote :: ValidOutbound(policy.outbound(rep, remote), rep, remote))
    && (forall rep, requests :: ValidRecovery(policy.recovery(rep, requests), rep, requests))
  }

  ghost predicate PartyBetween(p: M.Party, own: Replica, other: Replica) {
    ValidPolicy(p.policy) && Between(p.rep, own, other) && MessagesWithin(p.queue, own, other)
  }

  ghost predicate SystemBetween(s: M.System, repA: Replica, repB: Replica) {
    && PartyBetween(s.a, repA, repB) && PartyBetween(s.b, repB, repA)
    && MessagesWithin(s.toA, repA, repB) && MessagesWithin(s.toB, repA, repB)
  }

  // ---------------------------------------------------------------------------------------------
  // What is received
  // ---------------------------------------------------------------------------------------------

  lemma {:induction false} UnitKeepsBetween(rep: Replica, u: StateUnit, own: Replica, other: Replica)
    requires Between(rep, own, other) && UnitWithin(u, own, other) && ApplyUnit(rep, u).Ok?
    ensures Between(ApplyUnit(rep, u).value, own, other)
  {
    var next := ApplyUnit(rep, u).value;
    if u.key.OfRow? {
      var k := u.key.row;
      assert RowBetween(rep.RowAt(k), own.RowAt(k), other.RowAt(k));
      ContentKeepsBetween(rep.RowAt(k), u.content, own.RowAt(k), other.RowAt(k));
      assert next.RowAt(k) == MergeContent(rep.RowAt(k), u.content.state, u.content.meta);
      assert forall o :: o != k ==> next.RowAt(o) == rep.RowAt(o);
    } else {
      assert forall o :: next.RowAt(o) == rep.RowAt(o);
    }
  }

  lemma {:induction false} ContentKeepsBetween(r: RowState.Row, content: Content, own: RowState.Row,
                                               other: RowState.Row)
    requires RowBetween(r, own, other) && content.RowContent? && ContentWithin(content, own, other)
    ensures RowBetween(MergeContent(r, content.state, content.meta), own, other)
  {
    MergeContentEffect(r, content.state, content.meta);
  }

  lemma {:induction false} UnitsKeepBetween(rep: Replica, units: seq<StateUnit>, own: Replica, other: Replica)
    requires Between(rep, own, other) && forall u :: u in units ==> UnitWithin(u, own, other)
    ensures Between(ApplyUnits(rep, units).0, own, other)
    decreases units
  {
    if units != [] && ApplyUnit(rep, units[0]).Ok? {
      UnitKeepsBetween(rep, units[0], own, other);
      UnitsKeepBetween(ApplyUnit(rep, units[0]).value, units[1..], own, other);
    }
  }

  lemma {:induction false} ChangesKeepBetween(rep: Replica, batch: seq<RowChange>, own: Replica, other: Replica)
    requires Between(rep, own, other) && forall ch :: ch in batch ==> ChangeWithin(ch, own, other)
    requires ApplyChanges(rep, batch).Ok?
    ensures Between(ApplyChanges(rep, batch).value, own, other)
    decreases batch
  {
    if batch != [] {
      var ch := batch[0];
      var k := ch.row;
      var next := rep.(rows := rep.rows[k := ApplyChange(rep.RowAt(k), ch.id, ch.payload).value]);
      assert ChangeWithin(ch, own, other) && RowBetween(rep.RowAt(k), own.RowAt(k), other.RowAt(k));
      ApplyChangeEffect(rep.RowAt(k), ch.id, ch.payload);
      assert RowBetween(next.RowAt(k), own.RowAt(k), other.RowAt(k));
      assert forall o :: o != k ==> next.RowAt(o) == rep.RowAt(o);
      ChangesKeepBetween(next, batch[1..], own, other);
    }
  }

  // ---------------------------------------------------------------------------------------------
  // What is sent
  // ---------------------------------------------------------------------------------------------

  lemma {:induction false} SentUnitWithin(rep: Replica, u: StateUnit, own: Replica, other: Replica)
    requires Between(rep, own, other)
    requires u.key.OfRow? ==> u.content == ContentOf(rep.RowAt(u.key.row))
    requires u.key.OfCatalog? ==> u.key.entry in rep.catalog && u.content == CatalogContent(rep.catalog[u.key.entry])
    ensures UnitWithin(u, own, other)
  {
    if u.key.OfRow? {
      var k := u.key.row;
      assert RowBetween(rep.RowAt(k), own.RowAt(k), other.RowAt(k));
    }
  }

  lemma {:induction false} OutboundWithin(rep: Replica, remote: Remote, out: Outbound, own: Replica, other: Replica)
    requires Between(rep, own, other) && ValidOutbound(out, rep, remote)
    ensures MessagesWithin(M.OutboundMessages(out), own, other)
  {
    forall m | m in M.OutboundMessages(out)
      ensures MessageWithin(m, own, other)
    {
      if m.StateMessage? {
        assert exists i :: 0 <= i < |out.states| && m == M.StateMessage(out.states[i]);
        forall u | u in m.units
          ensures UnitWithin(u, own, other)
        {
          assert InBatches(u, out.states);
          SentUnitWithin(rep, u, own, other);
        }
      }
      if m.ChangesMessage? {
        assert exists i :: 0 <= i < |out.changes| && m == M.ChangesMessage(out.changes[i]);
        forall ch | ch in m.batch
          ensures ChangeWithin(ch, own, other)
        {
          assert InBatches(ch, out.changes);
          SentChangeWithin(rep, ch, own, other);
        }
      }
    }
  }

  /** A stored incremental's payload is part of the row. */
  lemma {:induction false} SentChangeWithin(rep: Replica, ch: RowChange, own: Replica, other: Replica)
    requires Between(rep, own, other)
    requires ch.id in rep.RowAt(ch.row).incrementals && ch.payload == rep.RowAt(ch.row).incrementals[ch.id]
    ensures ChangeWithin(ch, own, other)
  {
    var r := rep.RowAt(ch.row);
    assert RowBetween(r, own.RowAt(ch.row), other.RowAt(ch.row));
    forall a | a in ch.payload
      ensures a in r.Held()
    {
      ClosedUnderWithin(a, ch.id, r.Held());
    }
  }

  lemma {:induction false} RecoveryWithin(rep: Replica, requests: set<RowKey>, states: seq<seq<StateUnit>>,
                                          own: Replica, other: Replica)
    requires Between(rep, own, other) && ValidRecovery(states, rep, requests)
    ensures MessagesWithin(M.RecoveryMessages(states), own, other)
  {
    forall m | m in M.RecoveryMessages(states)
      ensures MessageWithin(m, own, other)
    {
      if m.StateMessage? {
        assert exists i :: 0 <= i < |states| && m == M.StateMessage(states[i]);
        forall u | u in m.units
          ensures UnitWithin(u, own, other)
        {
          assert InBatches(u, states);
          SentUnitWithin(rep, u, own, other);
        }
      }
    }
  }

  lemma {:induction false} EnterBetween(p: M.Party, stage: nat, own: Replica, other: Replica)
    requires ValidPolicy(p.policy) && Between(p.rep, own, other)
    ensures PartyBetween(M.Enter(p, stage), own, other)
  {
    if stage == M.OUTBOUND {
      OutboundWithin(p.rep, p.remote, p.policy.outbound(p.rep, p.remote), own, other);
    } else if stage == M.RECOVERY {
      RecoveryWithin(p.rep, p.remoteRequests, p.policy.recovery(p.rep, p.remoteRequests), own, other);
    }
  }

  lemma {:induction false} TurnBetween(p: M.Party, own: Replica, other: Replica)
    requires PartyBetween(p, own, other)
    ensures PartyBetween(M.Turn(p), own, other)
  {
    EnterBetween(p, p.stage + 1, own, other);
  }

  // ---------------------------------------------------------------------------------------------
  // Steps and runs
  // ---------------------------------------------------------------------------------------------

  lemma {:induction false} HandleBetween(p: M.Party, m: M.Message, own: Replica, other: Replica)
    requires PartyBetween(p, own, other) && MessageWithin(m, own, other)
    ensures PartyBetween(M.Handle(p, m).0, own, other) && MessagesWithin(M.Handle(p, m).1, own, other)
  {
    if p.stage == M.HELLO || p.stage == M.MANIFEST || p.stage == M.INVENTORY || p.stage == M.REQUESTS {
      PlainBetween(p, m, own, other);
    } else if m.StateMessage? {
      UnitsBetween(p, m.units, own, other);
    } else if m.ChangesMessage? {
      BatchBetween(p, m.batch, own, other);
    } else {
      TurnBetween(p, own, other);
    }
  }

  /** The exchanges of single messages change what a party knows, and not its replica. */
  lemma {:induction false} PlainBetween(p: M.Party, m: M.Message, own: Replica, other: Replica)
    requires p.stage == M.HELLO || p.stage == M.MANIFEST || p.stage == M.INVENTORY || p.stage == M.REQUESTS
    requires PartyBetween(p, own, other)
    ensures PartyBetween(M.Handle(p, m).0, own, other) && M.Handle(p, m).1 == []
  {
    var knows := M.Handle(p, m).0.remote;
    var asked := M.Handle(p, m).0.remoteRequests;
    TurnBetween(p.(remote := knows, remoteRequests := asked), own, other);
  }

  lemma {:induction false} UnitsBetween(p: M.Party, units: seq<StateUnit>, own: Replica, other: Replica)
    requires PartyBetween(p, own, other) && MessageWithin(M.StateMessage(units), own, other)
    ensures PartyBetween(M.HandleUnits(p, units).0, own, other) && MessagesWithin(M.HandleUnits(p, units).1, own, other)
  {
    UnitsKeepBetween(p.rep, units, own, other);
  }

  lemma {:induction false} BatchBetween(p: M.Party, batch: seq<RowChange>, own: Replica, other: Replica)
    requires PartyBetween(p, own, other) && MessageWithin(M.ChangesMessage(batch), own, other)
    ensures PartyBetween(M.HandleChanges(p, batch).0, own, other)
    ensures MessagesWithin(M.HandleChanges(p, batch).1, own, other)
  {
    match ApplyBatch(p.rep, batch) {
      case Ok(rep) =>
        ChangesKeepBetween(p.rep, batch, own, other);
        assert M.HandleChanges(p, batch) == (p.(rep := rep), []);
      case Err(DependencyUnavailable) => assert M.HandleChanges(p, batch).1 == [];
      case Err(_) => assert M.HandleChanges(p, batch) == (M.Fail(p), [M.Abort]);
    }
  }

  lemma {:induction false} StepABetween(s: M.System, fault: Fault, repA: Replica, repB: Replica)
    requires SystemBetween(s, repA, repB) && FaultyStepA(s, fault).Some?
    ensures SystemBetween(FaultyStepA(s, fault).value, repA, repB)
  {
    match fault {
      case NoFault =>
        if s.a.Sending() {
          var rest := s.a.(queue := s.a.queue[1..]);
          assert PartyBetween(rest, repA, repB);
          TurnBetween(rest, repA, repB);
        } else {
          HandleBetween(s.a, s.toA[0], repA, repB);
        }
      case Crash =>
      case EngineFails(units) =>
        var m := s.toA[0];
        if m.StateMessage? {
          assert MessageWithin(m, repA, repB);
          UnitsKeepBetween(s.a.rep, m.units[..Least(units, |m.units|)], repA, repB);
        }
    }
  }

  lemma {:induction false} MirrorBetween(s: M.System, repA: Replica, repB: Replica)
    requires SystemBetween(s, repA, repB)
    ensures SystemBetween(M.Mirror(s), repB, repA)
  {
    SwapWithin(s.toA, repA, repB);
    SwapWithin(s.toB, repA, repB);
  }

  lemma {:induction false} SwapWithin(messages: seq<M.Message>, x: Replica, y: Replica)
    requires MessagesWithin(messages, x, y)
    ensures MessagesWithin(messages, y, x)
  {
    forall m | m in messages
      ensures MessageWithin(m, y, x)
    {
      assert MessageWithin(m, x, y);
    }
  }

  lemma {:induction false} RunBetween(s: M.System, events: seq<Event>, repA: Replica, repB: Replica)
    requires SystemBetween(s, repA, repB) && FaultyExec(s, events).Some?
    ensures SystemBetween(FaultyExec(s, events).value, repA, repB)
    decreases events
  {
    if events != [] {
      var event := events[0];
      if event.side.A? {
        StepABetween(s, event.fault, repA, repB);
      } else {
        MirrorBetween(s, repA, repB);
        StepABetween(M.Mirror(s), event.fault, repB, repA);
        MirrorBetween(FaultyStepA(M.Mirror(s), event.fault).value, repB, repA);
      }
      RunBetween(FaultyStep(s, event).value, events[1..], repA, repB);
    }
  }

  lemma {:induction false} StartBetween(version: nat, role: M.Role, policy: M.Policy, rep: Replica, other: Replica)
    requires GoodReplica(rep) && ValidPolicy(policy)
    ensures PartyBetween(M.Start(role, version, policy, rep), rep, other)
  {
    assert Between(rep, rep, other);
  }

  /** After any prefix of a session, whatever has failed in it, each side still holds every change and every tombstone
      it started with, and holds no change, no tombstone and no catalog entry that neither side started with. */
  lemma {:induction false} NothingLostNothingInvented(versionA: nat, policyA: M.Policy, repA: Replica, versionB: nat,
                                                      policyB: M.Policy, repB: Replica, events: seq<Event>)
    requires GoodReplica(repA) && GoodReplica(repB) && ValidPolicy(policyA) && ValidPolicy(policyB)
    requires var s := M.System(M.Start(M.Initiator, versionA, policyA, repA),
                               M.Start(M.Responder, versionB, policyB, repB), [], []);
             FaultyExec(s, events).Some?
    ensures var s := M.System(M.Start(M.Initiator, versionA, policyA, repA),
                              M.Start(M.Responder, versionB, policyB, repB), [], []);
            var t := FaultyExec(s, events).value;
            Between(t.a.rep, repA, repB) && Between(t.b.rep, repB, repA)
  {
    StartBetween(versionA, M.Initiator, policyA, repA, repB);
    StartBetween(versionB, M.Responder, policyB, repB, repA);
    var s := M.System(M.Start(M.Initiator, versionA, policyA, repA),
                      M.Start(M.Responder, versionB, policyB, repB), [], []);
    RunBetween(s, events, repA, repB);
  }

  // ---------------------------------------------------------------------------------------------
  // Faults and success
  // ---------------------------------------------------------------------------------------------

  function Faultless(run: seq<M.Side>): seq<Event> {
    seq(|run|, i requires 0 <= i < |run| => Event(run[i], NoFault))
  }

  function Sides(events: seq<Event>): seq<M.Side> {
    seq(|events|, i requires 0 <= i < |events| => events[i].side)
  }

  lemma {:induction false} FaultlessExec(s: M.System, run: seq<M.Side>)
    ensures FaultyExec(s, Faultless(run)) == M.Exec(s, run)
    decreases run
  {
    if run != [] && M.Step(s, run[0]).Some? {
      assert Faultless(run)[1..] == Faultless(run[1..]);
      FaultlessExec(M.Step(s, run[0]).value, run[1..]);
    }
  }

  lemma {:induction false} FaultyFailureStays(s: M.System, events: seq<Event>)
    requires FaultyExec(s, events).Some?
    ensures s.a.failed ==> FaultyExec(s, events).value.a.failed
    ensures s.b.failed ==> FaultyExec(s, events).value.b.failed
    decreases events
  {
    if events != [] {
      FaultyFailureStays(FaultyStep(s, events[0]).value, events[1..]);
    }
  }

  /** A step with a fault fails its side. */
  lemma {:induction false} FaultShows(s: M.System, event: Event)
    requires FaultyStep(s, event).Some? && !FaultyStep(s, event).value.a.failed && !FaultyStep(s, event).value.b.failed
    ensures event.fault == NoFault && M.Step(s, event.side) == FaultyStep(s, event)
  {
  }

  /** No fault goes unnoticed: a run that fails on neither side had none. */
  lemma {:induction false} FaultsShow(s: M.System, events: seq<Event>)
    requires FaultyExec(s, events).Some?
    requires !FaultyExec(s, events).value.a.failed && !FaultyExec(s, events).value.b.failed
    ensures (forall event :: event in events ==> event.fault == NoFault)
            && M.Exec(s, Sides(events)) == FaultyExec(s, events)
    decreases events
  {
    if events != [] {
      var event, rest := events[0], events[1..];
      var t := FaultyStep(s, event).value;
      FaultyFailureStays(t, rest);
      FaultShows(s, event);
      FaultsShow(t, rest);
      NoFaultFirst(s, event, rest);
      assert events == [event] + rest;
    }
  }

  lemma {:induction false} NoFaultFirst(s: M.System, event: Event, rest: seq<Event>)
    requires event.fault == NoFault && FaultyStep(s, event).Some?
    requires M.Exec(FaultyStep(s, event).value, Sides(rest)) == FaultyExec(FaultyStep(s, event).value, rest)
    ensures M.Exec(s, Sides([event] + rest)) == FaultyExec(s, [event] + rest)
  {
    var all := [event] + rest;
    assert all[0] == event && all[1..] == rest;
    assert Sides(all)[0] == event.side && Sides(all)[1..] == Sides(rest);
  }

  // ---------------------------------------------------------------------------------------------
  // There are policies
  // ---------------------------------------------------------------------------------------------

  lemma {:induction false} Listing<T>(items: set<T>) returns (list: seq<T>)
    ensures forall x :: x in list <==> x in items
    ensures forall i, j :: 0 <= i < j < |list| ==> list[i] != list[j]
    decreases items
  {
    if items == {} {
      list := [];
    } else {
      var x :| x in items;
      var rest := Listing(items - {x});
      assert forall i :: 0 <= i < |rest| ==> rest[i] in rest;
      list := [x] + rest;
    }
  }

  lemma {:induction false} SomeOutbound(rep: Replica, remote: Remote) returns (out: Outbound)
    ensures ValidOutbound(out, rep, remote)
  {
    var units := Listing(set key | key in Exported(rep) && GoesWhole(rep, remote, key) ::
                           NewUnit(key, Exported(rep)[key]));
    var changes := Listing(
      set k, c | k in rep.rows && c in rep.rows[k].incrementals && GoesAsChange(rep, remote, k, c) ::
        RowChange(k, c, rep.rows[k].incrementals[c]));
    out := Outbound([units], [changes]);
    forall u
      ensures InBatches(u, out.states) <==> GoesWhole(rep, remote, u.key) && u == NewUnit(u.key, Exported(rep)[u.key])
    {
      assert InBatches(u, [units]) <==> u in [units][0];
    }
    forall ch
      ensures InBatches(ch, out.changes) <==>
              GoesAsChange(rep, remote, ch.row, ch.id) && ch.payload == rep.RowAt(ch.row).incrementals[ch.id]
    {
      assert InBatches(ch, [changes]) <==> ch in [changes][0];
    }
  }

  lemma {:induction false} SomeRecovery(rep: Replica, requests: set<RowKey>) returns (states: seq<seq<StateUnit>>)
    ensures ValidRecovery(states, rep, requests)
  {
    var units := Listing(set k | k in requests && HasUnit(rep.RowAt(k)) :: NewUnit(OfRow(k), ContentOf(rep.RowAt(k))));
    states := [units];
    forall u
      ensures InBatches(u, states) <==>
              u.key.OfRow? && u.key.row in requests && HasUnit(rep.RowAt(u.key.row))
              && u == NewUnit(u.key, ContentOf(rep.RowAt(u.key.row)))
    {
      assert InBatches(u, [units]) <==> u in [units][0];
    }
  }

  ghost function AnyOutbound(rep: Replica, remote: Remote): (out: Outbound)
    ensures ValidOutbound(out, rep, remote)
  {
    assert exists out :: ValidOutbound(out, rep, remote) by { var out := SomeOutbound(rep, remote); }
    var out :| ValidOutbound(out, rep, remote);
    out
  }

  ghost function AnyRecovery(rep: Replica, requests: set<RowKey>): (states: seq<seq<StateUnit>>)
    ensures ValidRecovery(states, rep, requests)
  {
    assert exists states :: ValidRecovery(states, rep, requests) by { var states := SomeRecovery(rep, requests); }
    var states :| ValidRecovery(states, rep, requests);
    states
  }

  /** What is proved for every valid policy is proved for something. */
  lemma {:induction false} PoliciesExist() returns (policy: M.Policy)
    ensures ValidPolicy(policy)
  {
    policy := M.Policy((rep: Replica, remote: Remote) => AnyOutbound(rep, remote),
                       (rep: Replica, requests: set<RowKey>) => AnyRecovery(rep, requests));
  }
}
