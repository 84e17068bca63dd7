// A sync session as a machine: two parties that take turns through six exchanges over FIFO channels.
module SyncMachine {
  import opened SyncState
  import opened Wrappers

  datatype Role = Initiator | Responder

  datatype Message =
    | Hello(version: nat, offered: Manifest)
    | ManifestMessage(manifest: Manifest)
    | InventoryMessage(inventories: Inventories)
    | StateMessage(units: seq<StateUnit>)
    | ChangesMessage(batch: seq<RowChange>)
    | RequestMessage(rows: set<RowKey>)
    | Abort
    | Done

  // How a side orders and frames what it sends.
  datatype Policy = Policy(
    outbound: (Replica, Remote) -> Outbound,
    recovery: (Replica, set<RowKey>) -> seq<seq<StateUnit>>)

  // The exchanges of a session: hello, manifest, inventory, outbound, snapshot requests, recovery. In each the
  // initiator first sends and then receives, the responder the other way round.
  const HELLO: nat := 0
  const MANIFEST: nat := 1
  const INVENTORY: nat := 2
  const OUTBOUND: nat := 3
  const REQUESTS: nat := 4
  const RECOVERY: nat := 5
  const FINISHED: nat := 6

  datatype Party = Party(
    role: Role, version: nat, policy: Policy, rep: Replica,
    stage: nat, turned: bool, failed: bool, queue: seq<Message>,
    remote: Remote, requests: set<RowKey>, remoteRequests: set<RowKey>)
  {
    predicate Sending() {
      role.Initiator? <==> !turned
    }

    predicate Halted() {
      failed || stage >= FINISHED
    }

    predicate Succeeded() {
      !failed && stage == FINISHED
    }
  }

  function StateMessages(batches: seq<seq<StateUnit>>): seq<Message> {
    seq(|batches|, i requires 0 <= i < |batches| => StateMessage(batches[i]))
  }

  function ChangesMessages(batches: seq<seq<RowChange>>): seq<Message> {
    seq(|batches|, i requires 0 <= i < |batches| => ChangesMessage(batches[i]))
  }

  function OutboundMessages(out: Outbound): seq<Message> {
    StateMessages(out.states) + ChangesMessages(out.changes) + [Done]
  }

  function RecoveryMessages(states: seq<seq<StateUnit>>): seq<Message> {
    StateMessages(states) + [Done]
  }

  /** What a party has to send in an exchange, as it stands when it enters it. */
  function QueueFor(p: Party, stage: nat): seq<Message> {
    if stage == HELLO then [Hello(p.version, ManifestOf(p.rep))]
    else if stage == MANIFEST then [ManifestMessage(ManifestOf(p.rep))]
    else if stage == INVENTORY then [InventoryMessage(InventoriesOf(p.rep))]
    else if stage == OUTBOUND then OutboundMessages(p.policy.outbound(p.rep, p.remote))
    else if stage == REQUESTS then [RequestMessage(p.requests)]
    else if stage == RECOVERY then RecoveryMessages(p.policy.recovery(p.rep, p.remoteRequests))
    else []
  }

  function Enter(p: Party, stage: nat): Party {
    p.(stage := stage, turned := false, queue := QueueFor(p, stage))
  }

  function Turn(p: Party): Party {
    if p.turned then Enter(p, p.stage + 1) else p.(turned := true)
  }

  function Start(role: Role, version: nat, policy: Policy, rep: Replica): Party {
    Enter(Party(role, version, policy, rep, HELLO, false, false, [], Remote(map[], map[]), {}, {}), HELLO)
  }

  function Fail(p: Party): Party {
    p.(failed := true)
  }

  // ---------------------------------------------------------------------------------------------
  // One party's steps
  // ---------------------------------------------------------------------------------------------

  // The party after a step, how many messages it took from its inbox, and what it sent.
  datatype Local = Local(party: Party, consumed: nat, sent: seq<Message>)

  function HandleUnits(p: Party, units: seq<StateUnit>): (Party, seq<Message>) {
    if exists u :: u in units && u.digest != Digest(u.content) then (Fail(p), [Abort])
    else
      var (rep, ok) := ApplyUnits(p.rep, units);
      if ok then (p.(rep := rep), []) else (Fail(p.(rep := rep)), [Abort])
  }

  function HandleChanges(p: Party, batch: seq<RowChange>): (Party, seq<Message>) {
    match ApplyBatch(p.rep, batch)
    case Ok(rep) => (p.(rep := rep), [])
    case Err(DependencyUnavailable) => (p.(requests := p.requests + set ch | ch in batch :: ch.row), [])
    case Err(_) => (Fail(p), [Abort])
  }

  function Handle(p: Party, m: Message): (Party, seq<Message>) {
    if p.stage == HELLO then
      if m.Hello? && m.version == p.version then (Turn(p), []) else (Fail(p), [])
    else if p.stage == MANIFEST then
      if m.ManifestMessage? then (Turn(p.(remote := p.remote.(manifest := m.manifest))), []) else (Fail(p), [])
    else if p.stage == INVENTORY then
      if m.InventoryMessage? then (Turn(p.(remote := p.remote.(inventories := m.inventories))), []) else (Fail(p), [])
    else if p.stage == REQUESTS then
      if m.RequestMessage? then (Turn(p.(remoteRequests := m.rows)), []) else (Fail(p), [])
    else
      match m
      case StateMessage(units) => HandleUnits(p, units)
      case ChangesMessage(batch) => if p.stage == OUTBOUND then HandleChanges(p, batch) else (Fail(p), [])
      case Done => (Turn(p), [])
      case _ => (Fail(p), [])
  }

  /** A frame with a unit that does not match its digest, or a batch with an empty change, is refused whole: nothing of
      it goes in, and the other side is told. */
  lemma {:induction false} BadFrameRefused(p: Party, m: Message)
    requires p.stage == OUTBOUND
    requires (m.StateMessage? && exists u :: u in m.units && u.digest != Digest(u.content))
             || (m.ChangesMessage? && exists ch :: ch in m.batch && ch.payload == {})
    ensures Handle(p, m) == (Fail(p), [Abort]) && Handle(p, m).0.rep == p.rep
  {
  }

  /** The next step of a party, if it can take one: it has not halted, and does not wait on an empty inbox. */
  function LocalStep(p: Party, inbox: seq<Message>): Option<Local> {
    if p.Halted() then None
    else if p.Sending() then
      if p.queue == [] then None
      else
        var rest := p.(queue := p.queue[1..]);
        Some(Local(if rest.queue == [] then Turn(rest) else rest, 0, [p.queue[0]]))
    else if inbox == [] then None
    else
      var (next, reply) := Handle(p, inbox[0]);
      Some(Local(next, 1, reply))
  }

  // ---------------------------------------------------------------------------------------------
  // The two parties and their channels
  // ---------------------------------------------------------------------------------------------

  datatype Side = A | B

  datatype System = System(a: Party, b: Party, toA: seq<Message>, toB: seq<Message>)

  function Mirror(s: System): System {
    System(s.b, s.a, s.toB, s.toA)
  }

  function StepA(s: System): Option<System> {
    match LocalStep(s.a, s.toA)
    case None => None
    case Some(l) =>
      if l.consumed > |s.toA| then None else Some(System(l.party, s.b, s.toA[l.consumed..], s.toB + l.sent))
  }

  function Step(s: System, side: Side): Option<System> {
    if side.A? then StepA(s)
    else match StepA(Mirror(s)) case None => None case Some(t) => Some(Mirror(t))
  }

  function Exec(s: System, schedule: seq<Side>): Option<System>
    decreases schedule
  {
    if schedule == [] then Some(s)
    else match Step(s, schedule[0]) case None => None case Some(t) => Exec(t, schedule[1..])
  }

  ghost predicate Stuck(s: System) {
    Step(s, A).None? && Step(s, B).None?
  }

  lemma {:induction false} ExecConcat(s: System, first: seq<Side>, second: seq<Side>)
    requires Exec(s, first).Some?
    ensures Exec(s, first + second) == Exec(Exec(s, first).value, second)
    decreases first
  {
    if first == [] {
      assert first + second == second;
    } else {
      assert (first + second)[1..] == first[1..] + second;
      ExecConcat(Step(s, first[0]).value, first[1..], second);
    }
  }

  /** A step a party can take stays the same when more arrives. */
  lemma {:induction false} MoreArrives(p: Party, inbox: seq<Message>, more: seq<Message>)
    requires LocalStep(p, inbox).Some?
    ensures LocalStep(p, inbox + more) == LocalStep(p, inbox) && LocalStep(p, inbox).value.consumed <= |inbox|
  {
    assert inbox != [] ==> (inbox + more)[0] == inbox[0];
  }

  /** Steps of the two sides commute. */
  lemma {:induction false} Commute(s: System)
    requires Step(s, A).Some? && Step(s, B).Some?
    ensures Step(Step(s, A).value, B).Some?
    ensures Step(Step(s, A).value, B) == Step(Step(s, B).value, A)
  {
    var la, lb := LocalStep(s.a, s.toA).value, LocalStep(s.b, s.toB).value;
    MoreArrives(s.a, s.toA, lb.sent);
    MoreArrives(s.b, s.toB, la.sent);
    assert (s.toA + lb.sent)[la.consumed..] == s.toA[la.consumed..] + lb.sent;
    assert (s.toB + la.sent)[lb.consumed..] == s.toB[lb.consumed..] + la.sent;
  }

  /** A side that can step now and cannot at the end steps in between, and its first step can come first. */
  lemma {:induction false} StepFirst(s: System, schedule: seq<Side>, side: Side) returns (rest: seq<Side>)
    requires Exec(s, schedule).Some? && Step(s, side).Some?
    requires Step(Exec(s, schedule).value, side).None?
    ensures |rest| + 1 == |schedule|
    ensures Exec(Step(s, side).value, rest) == Exec(s, schedule)
    decreases schedule
  {
    if schedule[0] == side {
      rest := schedule[1..];
    } else {
      Commute(s);
      var other := schedule[0];
      var after := StepFirst(Step(s, other).value, schedule[1..], side);
      rest := [other] + after;
      assert rest[1..] == after;
    }
  }

  /** A run into a stuck state can be begun with any other possible steps: what remains leads to the same state, in
      that many steps fewer. */
  lemma {:induction false} Absorb(s: System, prefix: seq<Side>, schedule: seq<Side>) returns (rest: seq<Side>)
    requires Exec(s, prefix).Some? && Exec(s, schedule).Some? && Stuck(Exec(s, schedule).value)
    ensures |rest| + |prefix| == |schedule|
    ensures Exec(Exec(s, prefix).value, rest) == Exec(s, schedule)
    decreases prefix
  {
    if prefix == [] {
      rest := schedule;
    } else {
      var after := StepFirst(s, schedule, prefix[0]);
      rest := Absorb(Step(s, prefix[0]).value, prefix[1..], after);
    }
  }

  lemma {:induction false} FailureStays(s: System, schedule: seq<Side>)
    requires Exec(s, schedule).Some?
    ensures s.a.failed ==> Exec(s, schedule).value.a.failed
    ensures s.b.failed ==> Exec(s, schedule).value.b.failed
    decreases schedule
  {
    if schedule != [] {
      FailureStays(Step(s, schedule[0]).value, schedule[1..]);
    }
  }

  function Flip(side: Side): Side {
    if side.A? then B else A
  }

  function Flipped(schedule: seq<Side>): seq<Side> {
    seq(|schedule|, i requires 0 <= i < |schedule| => Flip(schedule[i]))
  }

  lemma {:induction false} ExecMirrored(s: System, schedule: seq<Side>)
    ensures Exec(Mirror(s), Flipped(schedule)) ==
            match Exec(s, schedule) case None => None case Some(t) => Some(Mirror(t))
    decreases schedule
  {
    if schedule != [] {
      assert Flipped(schedule)[1..] == Flipped(schedule[1..]);
      assert Mirror(Mirror(s)) == s;
      if Step(s, schedule[0]).Some? {
        ExecMirrored(Step(s, schedule[0]).value, schedule[1..]);
      }
    }
  }
}
