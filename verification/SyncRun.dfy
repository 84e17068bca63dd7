// Whole sessions: every run ends, whatever the two sides do, and what a successful one leaves behind is a function of
// the two replicas it started from.
module SyncRun {
  import opened SyncState
  import opened SyncMachine
  import opened Wrappers

  // ---------------------------------------------------------------------------------------------
  // Every run ends
  // ---------------------------------------------------------------------------------------------

  function Alive(p: Party): nat {
    if p.Halted() then 0 else 1
  }

  function TurnsLeft(p: Party): nat {
    if p.stage >= FINISHED then 0 else 2 * (FINISHED - p.stage) - (if p.turned then 1 else 0)
  }

  function Pending(s: System): nat {
    2 * (|s.a.queue| + |s.b.queue|) + |s.toA| + |s.toB|
  }

  /** A party's own step halts it, brings it a turn further, or sends or takes a message. */
  lemma {:induction false} LocalDecreases(p: Party, inbox: seq<Message>)
    requires LocalStep(p, inbox).Some?
    ensures var l := LocalStep(p, inbox).value;
            && l.consumed <= |inbox| && Alive(l.party) <= Alive(p)
            && (Alive(l.party) == Alive(p) ==>
                  || TurnsLeft(l.party) < TurnsLeft(p)
                  || (TurnsLeft(l.party) == TurnsLeft(p)
                      && 2 * |l.party.queue| + |l.sent| < 2 * |p.queue| + l.consumed))
  {
  }

  lemma {:induction false} StepDecreases(s: System, side: Side)
    requires Step(s, side).Some?
    ensures var t := Step(s, side).value;
            && Alive(t.a) + Alive(t.b) <= Alive(s.a) + Alive(s.b)
            && (Alive(t.a) + Alive(t.b) == Alive(s.a) + Alive(s.b) ==>
                  || TurnsLeft(t.a) + TurnsLeft(t.b) < TurnsLeft(s.a) + TurnsLeft(s.b)
                  || (TurnsLeft(t.a) + TurnsLeft(t.b) == TurnsLeft(s.a) + TurnsLeft(s.b) && Pending(t) < Pending(s)))
  {
    if side.A? {
      LocalDecreases(s.a, s.toA);
    } else {
      LocalDecreases(s.b, s.toB);
    }
  }

  /** Any two parties, in any state, come to a halt: no schedule is longer than `most` steps, and all that cannot be
      continued end in one and the same state. */
  lemma {:induction false} EveryRunEnds(s: System) returns (schedule: seq<Side>)
    ensures Exec(s, schedule).Some? && Stuck(Exec(s, schedule).value)
    ensures forall other :: Exec(s, other).Some? ==> |other| <= |schedule|
    ensures forall other :: Exec(s, other).Some? && Stuck(Exec(s, other).value) ==>
                              |other| == |schedule| && Exec(s, other) == Exec(s, schedule)
    decreases Alive(s.a) + Alive(s.b), TurnsLeft(s.a) + TurnsLeft(s.b), Pending(s)
  {
    if Stuck(s) {
      schedule := [];
    } else {
      var side := if Step(s, A).Some? then A else B;
      StepDecreases(s, side);
      var rest := EveryRunEnds(Step(s, side).value);
      schedule := [side] + rest;
      assert schedule[1..] == rest;
    }
    forall other | Exec(s, other).Some?
      ensures |other| <= |schedule|
      ensures Stuck(Exec(s, other).value) ==> |other| == |schedule| && Exec(s, other) == Exec(s, schedule)
    {
      var rest := Absorb(s, other, schedule);
    }
  }

  // ---------------------------------------------------------------------------------------------
  // What a session computes
  // ---------------------------------------------------------------------------------------------

  // A replica and the rows it is going to request, part way through the frames of the other side.
  datatype Intake = Intake(rep: Replica, requests: set<RowKey>)

  /** One frame taken in, None when the engine refuses it. */
  function TakeFrame(x: Intake, frame: Message): Option<Intake> {
    match frame
    case StateMessage(units) =>
      if (exists u :: u in units && u.digest != Digest(u.content)) || !ApplyUnits(x.rep, units).1 then None
      else Some(x.(rep := ApplyUnits(x.rep, units).0))
    case ChangesMessage(batch) => (
      match ApplyBatch(x.rep, batch)
      case Ok(rep) => Some(x.(rep := rep))
      case Err(DependencyUnavailable) => Some(x.(requests := x.requests + set ch | ch in batch :: ch.row))
      case Err(_) => None)
    case _ => None
  }

  function TakeFrames(x: Intake, frames: seq<Message>): Option<Intake>
    decreases frames
  {
    if frames == [] then Some(x)
    else match TakeFrame(x, frames[0]) case None => None case Some(y) => TakeFrames(y, frames[1..])
  }

  function OutboundFrames(out: Outbound): seq<Message> {
    StateMessages(out.states) + ChangesMessages(out.changes)
  }

  /** The outbound of `source` for `target`, taken in by `target`. */
  function AfterOutbound(source: Replica, policy: Policy, target: Replica): Option<Intake> {
    TakeFrames(Intake(target, {}), OutboundFrames(policy.outbound(source, RemoteOf(target))))
  }

  /** The recovery units of `source` for the rows `target` requests, taken in by `target`. */
  function AfterRecovery(source: Replica, policy: Policy, target: Intake): Option<Intake> {
    TakeFrames(target, StateMessages(policy.recovery(source, target.requests)))
  }

  /** The two replicas after a session: both take in the outbound the other had at the start, and then the rows they
      asked for, None when either refuses something. The roles make no difference. */
  function SessionResult(repA: Replica, policyA: Policy, repB: Replica, policyB: Policy): Option<(Replica, Replica)> {
    match (AfterOutbound(repB, policyB, repA), AfterOutbound(repA, policyA, repB))
    case (Some(a), Some(b)) => (
      match (AfterRecovery(b.rep, policyB, a), AfterRecovery(a.rep, policyA, b))
      case (Some(a2), Some(b2)) => Some((a2.rep, b2.rep))
      case _ => None)
    case _ => None
  }

  // ---------------------------------------------------------------------------------------------
  // One exchange, run one side after the other
  // ---------------------------------------------------------------------------------------------

  /** The messages of an exchange: one, or frames closed by Done. */
  predicate Expected(stage: nat, messages: seq<Message>) {
    && messages != []
    && var last := messages[|messages| - 1];
       if stage == HELLO then messages == [last] && last.Hello?
       else if stage == MANIFEST then messages == [last] && last.ManifestMessage?
       else if stage == INVENTORY then messages == [last] && last.InventoryMessage?
       else if stage == REQUESTS then messages == [last] && last.RequestMessage?
       else
         && last.Done?
         && forall i :: 0 <= i < |messages| - 1 ==>
                          messages[i].StateMessage? || (stage == OUTBOUND && messages[i].ChangesMessage?)
  }

  /** A party that receives these messages, up to a failure. */
  function Receive(p: Party, messages: seq<Message>): Party
    decreases messages
  {
    if messages == [] || p.failed then p else Receive(Handle(p, messages[0]).0, messages[1..])
  }

  lemma {:induction false} ReceiveSnoc(p: Party, messages: seq<Message>, m: Message)
    ensures Receive(p, messages + [m])
            == (if Receive(p, messages).failed then Receive(p, messages) else Handle(Receive(p, messages), m).0)
    decreases messages
  {
    if messages == [] || p.failed {
      assert (messages + [m])[0] == if messages == [] then m else messages[0];
      assert messages == [] ==> (messages + [m])[1..] == [];
    } else {
      assert (messages + [m])[1..] == messages[1..] + [m];
      ReceiveSnoc(Handle(p, messages[0]).0, messages[1..], m);
    }
  }

  lemma {:induction false} SendAll(s: System) returns (schedule: seq<Side>)
    requires !s.a.Halted() && s.a.Sending() && s.a.queue != []
    ensures Exec(s, schedule) == Some(System(Turn(s.a.(queue := [])), s.b, s.toA, s.toB + s.a.queue))
    decreases s.a.queue
  {
    var t := Step(s, A).value;
    if |s.a.queue| == 1 {
      schedule := [A];
      assert s.a.queue == [s.a.queue[0]];
      assert Exec(t, schedule[1..]) == Some(t);
    } else {
      var rest := SendAll(t);
      schedule := [A] + rest;
      assert schedule[1..] == rest;
      assert s.toB + s.a.queue == t.toB + t.a.queue;
    }
  }

  lemma {:induction false} ReceiveAll(s: System) returns (schedule: seq<Side>)
    requires !s.a.Halted() && !s.a.Sending() && Expected(s.a.stage, s.toA)
    ensures Exec(s, schedule).Some?
    ensures var t := Exec(s, schedule).value;
            && t.a.failed == Receive(s.a, s.toA).failed
            && (!t.a.failed ==> t == System(Receive(s.a, s.toA), s.b, [], s.toB))
    decreases s.toA
  {
    var t := Step(s, A).value;
    assert Exec(t, []) == Some(t);
    if |s.toA| == 1 || t.a.failed {
      schedule := [A];
      assert Receive(s.a, s.toA) == t.a;
    } else {
      var rest := ReceiveAll(t);
      schedule := [A] + rest;
      assert schedule[1..] == rest;
    }
  }

  lemma {:induction false} Reflected(s: System, schedule: seq<Side>)
    requires Exec(Mirror(s), schedule).Some?
    ensures Exec(s, Flipped(schedule)) == Some(Mirror(Exec(Mirror(s), schedule).value))
  {
    ExecMirrored(Mirror(s), schedule);
    assert Mirror(Mirror(s)) == s;
  }

  predicate Entered(p: Party) {
    p.stage < FINISHED && !p.turned && !p.failed && Expected(p.stage, p.queue)
  }

  /** Both parties at the start of the same exchange. */
  predicate Aligned(s: System) {
    && s.a.role == Initiator && s.b.role == Responder && s.a.stage == s.b.stage
    && Entered(s.a) && Entered(s.b) && s.toA == [] && s.toB == []
  }

  /** An exchange in which the initiator sends all, the responder receives and sends all, and the initiator receives. */
  lemma {:induction false} RunExchange(s: System) returns (schedule: seq<Side>)
    requires Aligned(s)
    ensures Exec(s, schedule).Some?
    ensures var t := Exec(s, schedule).value;
            var b := Receive(s.b, s.a.queue);
            var a := Receive(Turn(s.a.(queue := [])), s.b.queue);
            if a.failed || b.failed then t.a.failed || t.b.failed
            else t == System(a, Turn(b.(queue := [])), [], [])
  {
    var sends := SendAll(s);
    var s1 := Exec(s, sends).value;
    assert s1.toB == s.a.queue;
    var receives := ReceiveAll(Mirror(s1));
    Reflected(s1, receives);
    ExecConcat(s, sends, Flipped(receives));
    schedule := sends + Flipped(receives);
    var s2 := Exec(s, schedule).value;
    if !s2.b.failed {
      ReceiveKeeps(s.b, s.a.queue);
      var replies := SendAll(Mirror(s2));
      Reflected(s2, replies);
      ExecConcat(s, schedule, Flipped(replies));
      schedule := schedule + Flipped(replies);
      var s3 := Exec(s, schedule).value;
      assert s3.toA == s.b.queue;
      var takes := ReceiveAll(s3);
      ExecConcat(s, schedule, takes);
      schedule := schedule + takes;
    }
  }

  /** Receiving a whole exchange turns the receiver, and leaves what it has to send alone. */
  lemma {:induction false} ReceiveKeeps(p: Party, messages: seq<Message>)
    requires p.stage < FINISHED && !p.turned && Expected(p.stage, messages) && !Receive(p, messages).failed
    ensures var q := Receive(p, messages);
            q.turned && q.stage == p.stage && q.queue == p.queue && q.role == p.role && q.policy == p.policy
    decreases messages
  {
    if |messages| > 1 {
      ReceiveKeeps(Handle(p, messages[0]).0, messages[1..]);
    } else {
      assert messages[1..] == [];
    }
  }

  predicate FramesFor(stage: nat, frames: seq<Message>) {
    forall m :: m in frames ==> m.StateMessage? || (stage == OUTBOUND && m.ChangesMessage?)
  }

  /** Receiving frames and Done is taking the frames in, and turning. */
  lemma {:induction false} ReceiveFrames(p: Party, frames: seq<Message>)
    requires (p.stage == OUTBOUND || p.stage == RECOVERY) && !p.failed && FramesFor(p.stage, frames)
    ensures Expected(p.stage, frames + [Done])
    ensures match TakeFrames(Intake(p.rep, p.requests), frames)
            case None => Receive(p, frames + [Done]).failed
            case Some(x) => Receive(p, frames + [Done]) == Turn(p.(rep := x.rep, requests := x.requests))
    decreases frames
  {
    if frames == [] {
      assert ([] + [Done])[1..] == [];
    } else {
      assert (frames + [Done])[0] == frames[0] && (frames + [Done])[1..] == frames[1..] + [Done];
      HandleTakesFrame(p, frames[0]);
      var q := Handle(p, frames[0]).0;
      if !q.failed {
        ReceiveFrames(q, frames[1..]);
      }
    }
  }

  lemma {:induction false} HandleTakesFrame(p: Party, frame: Message)
    requires (p.stage == OUTBOUND || p.stage == RECOVERY) && !p.failed && FramesFor(p.stage, [frame])
    ensures match TakeFrame(Intake(p.rep, p.requests), frame)
            case None => Handle(p, frame).0.failed
            case Some(x) => Handle(p, frame).0 == p.(rep := x.rep, requests := x.requests)
  {
    assert frame in [frame];
  }

  // ---------------------------------------------------------------------------------------------
  // The six exchanges
  // ---------------------------------------------------------------------------------------------

  // What a party has learnt so far.
  datatype Progress = Progress(rep: Replica, remote: Remote, requests: set<RowKey>, remoteRequests: set<RowKey>)

  function At(role: Role, version: nat, policy: Policy, stage: nat, x: Progress): Party {
    Enter(Party(role, version, policy, x.rep, stage, false, false, [], x.remote, x.requests, x.remoteRequests), stage)
  }

  function Pair(version: nat, policyA: Policy, policyB: Policy, stage: nat, x: Progress, y: Progress): System {
    System(At(Initiator, version, policyA, stage, x), At(Responder, version, policyB, stage, y), [], [])
  }

  function Opening(version: nat, policyA: Policy, repA: Replica, policyB: Policy, repB: Replica): System {
    System(Start(Initiator, version, policyA, repA), Start(Responder, version, policyB, repB), [], [])
  }

  lemma {:induction false} ReceiveOne(p: Party, m: Message)
    requires !p.failed
    ensures Receive(p, [m]) == Handle(p, m).0
  {
    assert [m][1..] == [];
  }

  predicate Plain(stage: nat) {
    stage == HELLO || stage == MANIFEST || stage == INVENTORY || stage == REQUESTS
  }

  /** What a party with progress `x` learns from one with progress `y` in an exchange of one message each. */
  function Learn(stage: nat, x: Progress, y: Progress): Progress {
    if stage == MANIFEST then x.(remote := x.remote.(manifest := ManifestOf(y.rep)))
    else if stage == INVENTORY then x.(remote := x.remote.(inventories := InventoriesOf(y.rep)))
    else if stage == REQUESTS then x.(remoteRequests := y.requests)
    else x
  }

  lemma {:induction false} PlainMessage(role: Role, version: nat, policy: Policy, stage: nat, y: Progress)
    requires Plain(stage)
    ensures var queue := At(role, version, policy, stage, y).queue;
            |queue| == 1 && queue == [queue[0]] && Expected(stage, queue)
  {
  }

  lemma {:induction false} InitiatorLearns(version: nat, policyA: Policy, policyB: Policy, stage: nat, x: Progress,
                                           y: Progress)
    requires Plain(stage)
    ensures var p := Turn(At(Initiator, version, policyA, stage, x).(queue := []));
            Receive(p, At(Responder, version, policyB, stage, y).queue)
            == At(Initiator, version, policyA, stage + 1, Learn(stage, x, y))
  {
    var m := At(Responder, version, policyB, stage, y).queue[0];
    PlainMessage(Responder, version, policyB, stage, y);
    ReceiveOne(Turn(At(Initiator, version, policyA, stage, x).(queue := [])), m);
  }

  lemma {:induction false} ResponderLearns(version: nat, policyA: Policy, policyB: Policy, stage: nat, x: Progress,
                                           y: Progress)
    requires Plain(stage)
    ensures var q := Receive(At(Responder, version, policyB, stage, y),
                             At(Initiator, version, policyA, stage, x).queue);
            !q.failed && Turn(q.(queue := [])) == At(Responder, version, policyB, stage + 1, Learn(stage, y, x))
  {
    var m := At(Initiator, version, policyA, stage, x).queue[0];
    PlainMessage(Initiator, version, policyA, stage, x);
    ReceiveOne(At(Responder, version, policyB, stage, y), m);
  }

  /** The exchanges of one message each. */
  lemma {:induction false} RunPlain(version: nat, policyA: Policy, policyB: Policy, stage: nat, x: Progress,
                                    y: Progress)
    returns (schedule: seq<Side>)
    requires Plain(stage)
    ensures Exec(Pair(version, policyA, policyB, stage, x, y), schedule)
            == Some(Pair(version, policyA, policyB, stage + 1, Learn(stage, x, y), Learn(stage, y, x)))
  {
    PlainMessage(Initiator, version, policyA, stage, x);
    PlainMessage(Responder, version, policyB, stage, y);
    InitiatorLearns(version, policyA, policyB, stage, x, y);
    ResponderLearns(version, policyA, policyB, stage, x, y);
    schedule := RunExchange(Pair(version, policyA, policyB, stage, x, y));
  }

  /** The exchanges of frames: outbound, and recovery. */
  lemma {:induction false} RunFrames(version: nat, policyA: Policy, policyB: Policy, stage: nat, x: Progress,
                                     y: Progress, framesA: seq<Message>, framesB: seq<Message>)
    returns (schedule: seq<Side>)
    requires stage == OUTBOUND || stage == RECOVERY
    requires FramesFor(stage, framesA) && FramesFor(stage, framesB)
    requires var s := Pair(version, policyA, policyB, stage, x, y);
             s.a.queue == framesA + [Done] && s.b.queue == framesB + [Done]
    ensures var s := Pair(version, policyA, policyB, stage, x, y);
            var x1 := TakeFrames(Intake(x.rep, x.requests), framesB);
            var y1 := TakeFrames(Intake(y.rep, y.requests), framesA);
            && Exec(s, schedule).Some?
            && var t := Exec(s, schedule).value;
               if x1.None? || y1.None? then t.a.failed || t.b.failed
               else
                 t == Pair(version, policyA, policyB, stage + 1,
                           x.(rep := x1.value.rep, requests := x1.value.requests),
                           y.(rep := y1.value.rep, requests := y1.value.requests))
  {
    var s := Pair(version, policyA, policyB, stage, x, y);
    ReceiveFrames(s.b, framesA);
    ReceiveFrames(Turn(s.a.(queue := [])), framesB);
    schedule := RunExchange(s);
  }

  lemma {:induction false} RunOpening(version: nat, policyA: Policy, repA: Replica, policyB: Policy, repB: Replica)
    returns (schedule: seq<Side>)
    ensures Exec(Opening(version, policyA, repA, policyB, repB), schedule)
            == Some(Pair(version, policyA, policyB, OUTBOUND, Progress(repA, RemoteOf(repB), {}, {}),
                         Progress(repB, RemoteOf(repA), {}, {})))
  {
    var s := Opening(version, policyA, repA, policyB, repB);
    var x, y := Progress(repA, Remote(map[], map[]), {}, {}), Progress(repB, Remote(map[], map[]), {}, {});
    schedule := RunPlain(version, policyA, policyB, HELLO, x, y);
    var more := RunPlain(version, policyA, policyB, MANIFEST, x, y);
    ExecConcat(s, schedule, more);
    schedule := schedule + more;
    x := x.(remote := x.remote.(manifest := ManifestOf(repB)));
    y := y.(remote := y.remote.(manifest := ManifestOf(repA)));
    more := RunPlain(version, policyA, policyB, INVENTORY, x, y);
    ExecConcat(s, schedule, more);
    schedule := schedule + more;
  }

  /** The last two exchanges: the requests, and the recovery units for them. */
  lemma {:induction false} RunRecovery(version: nat, policyA: Policy, policyB: Policy, x: Progress, y: Progress)
    returns (schedule: seq<Side>)
    ensures var s := Pair(version, policyA, policyB, REQUESTS, x, y);
            var a := AfterRecovery(y.rep, policyB, Intake(x.rep, x.requests));
            var b := AfterRecovery(x.rep, policyA, Intake(y.rep, y.requests));
            && Exec(s, schedule).Some?
            && var t := Exec(s, schedule).value;
               if a.None? || b.None? then t.a.failed || t.b.failed
               else t.a.Succeeded() && t.b.Succeeded() && t.toA == [] && t.toB == []
                    && t.a.rep == a.value.rep && t.b.rep == b.value.rep
  {
    schedule := RunPlain(version, policyA, policyB, REQUESTS, x, y);
    var more := RunFrames(version, policyA, policyB, RECOVERY,
                          x.(remoteRequests := y.requests), y.(remoteRequests := x.requests),
                          StateMessages(policyA.recovery(x.rep, y.requests)),
                          StateMessages(policyB.recovery(y.rep, x.requests)));
    ExecConcat(Pair(version, policyA, policyB, REQUESTS, x, y), schedule, more);
    schedule := schedule + more;
  }

  /** One run of a whole session: it computes `SessionResult`, and fails where that is None. */
  lemma {:induction false} RunSession(version: nat, policyA: Policy, repA: Replica, policyB: Policy, repB: Replica)
    returns (schedule: seq<Side>)
    ensures var s := Opening(version, policyA, repA, policyB, repB);
            var result := SessionResult(repA, policyA, repB, policyB);
            && Exec(s, schedule).Some?
            && var t := Exec(s, schedule).value;
               if result.None? then t.a.failed || t.b.failed
               else t.a.Succeeded() && t.b.Succeeded() && t.toA == [] && t.toB == []
                    && (t.a.rep, t.b.rep) == result.value
  {
    var s := Opening(version, policyA, repA, policyB, repB);
    var x, y := Progress(repA, RemoteOf(repB), {}, {}), Progress(repB, RemoteOf(repA), {}, {});
    schedule := RunOpening(version, policyA, repA, policyB, repB);
    var more := RunFrames(version, policyA, policyB, OUTBOUND, x, y,
                          OutboundFrames(policyA.outbound(repA, RemoteOf(repB))),
                          OutboundFrames(policyB.outbound(repB, RemoteOf(repA))));
    ExecConcat(s, schedule, more);
    schedule := schedule + more;
    if AfterOutbound(repB, policyB, repA).Some? && AfterOutbound(repA, policyA, repB).Some? {
      var a1, b1 := AfterOutbound(repB, policyB, repA).value, AfterOutbound(repA, policyA, repB).value;
      more := RunRecovery(version, policyA, policyB, x.(rep := a1.rep, requests := a1.requests),
                          y.(rep := b1.rep, requests := b1.requests));
      ExecConcat(s, schedule, more);
      schedule := schedule + more;
    }
  }

  // ---------------------------------------------------------------------------------------------
  // All runs of a session
  // ---------------------------------------------------------------------------------------------

  /** When the engines refuse nothing, every run of a session can be continued to the one result: at no point do both
      sides wait on empty channels, or does either meet a message it does not expect; and every run that cannot be
      continued has succeeded on both sides, with both channels empty. */
  lemma {:induction false} SessionSucceeds(version: nat, policyA: Policy, repA: Replica, policyB: Policy, repB: Replica,
                                           run: seq<Side>)
    requires SessionResult(repA, policyA, repB, policyB).Some?
    requires Exec(Opening(version, policyA, repA, policyB, repB), run).Some?
    ensures var t := Exec(Opening(version, policyA, repA, policyB, repB), run).value;
            && !t.a.failed && !t.b.failed
            && (t.a.Succeeded() && t.b.Succeeded() <==> Stuck(t))
            && (Stuck(t) ==>
                  && t.toA == [] && t.toB == []
                  && (t.a.rep, t.b.rep) == SessionResult(repA, policyA, repB, policyB).value)
  {
    var s := Opening(version, policyA, repA, policyB, repB);
    var full := RunSession(version, policyA, repA, policyB, repB);
    var rest := Absorb(s, run, full);
    OnTheWay(Exec(s, run).value, rest, Exec(s, full).value);
  }

  /** A state that leads to one where both sides have succeeded. */
  lemma {:induction false} OnTheWay(t: System, rest: seq<Side>, end: System)
    requires Exec(t, rest) == Some(end) && end.a.Succeeded() && end.b.Succeeded()
    ensures !t.a.failed && !t.b.failed
    ensures t.a.Succeeded() && t.b.Succeeded() <==> Stuck(t)
    ensures Stuck(t) ==> t == end
  {
    FailureStays(t, rest);
  }

  /** A session that succeeds on both sides has that result: success depends on the replicas and policies alone. */
  lemma {:induction false} SuccessIsResult(version: nat, policyA: Policy, repA: Replica, policyB: Policy, repB: Replica,
                                           run: seq<Side>)
    requires Exec(Opening(version, policyA, repA, policyB, repB), run).Some?
    requires var t := Exec(Opening(version, policyA, repA, policyB, repB), run).value;
             t.a.Succeeded() && t.b.Succeeded()
    ensures var t := Exec(Opening(version, policyA, repA, policyB, repB), run).value;
            SessionResult(repA, policyA, repB, policyB) == Some((t.a.rep, t.b.rep))
  {
    var s := Opening(version, policyA, repA, policyB, repB);
    var full := RunSession(version, policyA, repA, policyB, repB);
    var rest := Absorb(s, full, run);
    FailureStays(Exec(s, full).value, rest);
    if SessionResult(repA, policyA, repB, policyB).Some? {
      SessionSucceeds(version, policyA, repA, policyB, repB, run);
    }
  }

  /** Sides that speak different versions of the protocol never succeed, and neither touches its replica. */
  lemma {:induction false} VersionsMustAgree(versionA: nat, policyA: Policy, repA: Replica, versionB: nat,
                                             policyB: Policy, repB: Replica, run: seq<Side>)
    requires versionA != versionB
    requires var s := System(Start(Initiator, versionA, policyA, repA),
                             Start(Responder, versionB, policyB, repB), [], []);
             Exec(s, run).Some?
    ensures var s := System(Start(Initiator, versionA, policyA, repA),
                            Start(Responder, versionB, policyB, repB), [], []);
            var t := Exec(s, run).value;
            t.a.rep == repA && t.b.rep == repB && !t.a.Succeeded() && !t.b.Succeeded() && (Stuck(t) ==> t.b.failed)
  {
    var s := System(Start(Initiator, versionA, policyA, repA), Start(Responder, versionB, policyB, repB), [], []);
    if run != [] {
      var s1 := Step(s, A).value;
      assert run[0] == A && Step(s, B).None?;
      if run[1..] != [] {
        assert s1.toB == [Hello(versionA, ManifestOf(repA))];
        var s2 := Step(s1, B).value;
        assert s2.b == Fail(s.b) && s2.a == s1.a && s2.toA == [];
        assert run[1] == B && Exec(s, run) == Exec(s2, run[1..][1..]);
        assert Stuck(s2) && forall side :: Step(s2, side).None?;
      }
    }
  }
}
