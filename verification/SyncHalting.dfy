// How sessions end: no side is left waiting for ever, a refusal reaches the other side, and the initiator succeeds only
// where the responder has.
module SyncHalting {
  import opened SyncState
  import opened SyncMachine
  import opened SyncRun
  import opened SyncSafety
  import opened Wrappers

  // ---------------------------------------------------------------------------------------------
  // Where two parties that have come as far stand to each other
  // ---------------------------------------------------------------------------------------------

  /** The rest of what a party of this version sends in an exchange, up to the message that closes it. */
  predicate Closing(stage: nat, version: nat, messages: seq<Message>) {
    Expected(stage, messages) && forall m :: m in messages && m.Hello? ==> m.version == version
  }

  /** A party that is to receive, and has what it sends next at hand if that is still in the same exchange. */
  predicate Receiving(p: Party) {
    && !p.failed && !p.Sending() && p.stage < FINISHED
    && (!p.turned ==> Closing(p.stage, p.version, p.queue))
  }

  predicate Opposite(p: Party, q: Party) {
    p.role != q.role && p.version == q.version
  }

  /** The sender is in the exchange the receiver is in, with the rest of it to send. */
  predicate StillSending(sender: Party, receiver: Party, toReceiver: seq<Message>) {
    && !sender.failed && sender.stage == receiver.stage && sender.turned == receiver.turned && sender.queue != []
    && Closing(receiver.stage, receiver.version, toReceiver + sender.queue)
  }

  /** The sender has sent all, and is one turn ahead. */
  predicate HasSent(sender: Party, receiver: Party, toReceiver: seq<Message>) {
    && !sender.failed && Closing(receiver.stage, receiver.version, toReceiver)
    && if !receiver.turned then sender.stage == receiver.stage && sender.turned
       else
         && sender.stage == receiver.stage + 1 && !sender.turned
         && (sender.stage < FINISHED ==> Receiving(sender))
  }

  /** Nothing has failed, and one side is on its way to the other. */
  predicate Flowing(sender: Party, receiver: Party, toReceiver: seq<Message>, toSender: seq<Message>) {
    && Opposite(sender, receiver) && Receiving(receiver) && toSender == []
    && (StillSending(sender, receiver, toReceiver) || HasSent(sender, receiver, toReceiver))
  }

  /** The receiver has refused something: the other side sends on, and will meet the abort or has finished. */
  predicate Refused(sender: Party, receiver: Party, toSender: seq<Message>) {
    && Opposite(sender, receiver) && receiver.failed && !sender.failed && toSender == [Abort]
    && (sender.Sending() && sender.stage < FINISHED ==> sender.queue != [])
    && (sender.role.Initiator? ==> sender.stage < FINISHED)
  }

  predicate AllDone(s: System) {
    s.a.Succeeded() && s.b.Succeeded() && Opposite(s.a, s.b)
  }

  predicate Lockstep(s: System) {
    || Flowing(s.a, s.b, s.toB, s.toA) || Flowing(s.b, s.a, s.toA, s.toB)
    || Refused(s.a, s.b, s.toA) || Refused(s.b, s.a, s.toB)
    || AllDone(s) || (s.a.failed && s.b.failed && Opposite(s.a, s.b))
  }

  // ---------------------------------------------------------------------------------------------
  // Steps
  // ---------------------------------------------------------------------------------------------

  lemma {:induction false} QueueCloses(p: Party, stage: nat)
    requires stage < FINISHED
    ensures Closing(stage, p.version, QueueFor(p, stage))
  {
  }

  lemma {:induction false} EntersReceiving(p: Party)
    requires p.turned && !p.failed && p.stage < FINISHED && p.role.Responder?
    ensures p.stage + 1 < FINISHED ==> Receiving(Turn(p))
  {
    if p.stage + 1 < FINISHED { QueueCloses(p, p.stage + 1); }
  }

  lemma {:induction false} OneMoreSent(stage: nat, version: nat, sent: seq<Message>, queue: seq<Message>)
    requires queue != [] && Closing(stage, version, sent + queue)
    ensures sent + queue == (sent + [queue[0]]) + queue[1..]
  {
  }

  lemma {:induction false} SenderSteps(sender: Party, receiver: Party, toReceiver: seq<Message>)
    requires Opposite(sender, receiver) && Receiving(receiver) && StillSending(sender, receiver, toReceiver)
    ensures var l := LocalStep(sender, []);
            && l.Some? && l.value.consumed == 0
            && Flowing(l.value.party, receiver, toReceiver + l.value.sent, [])
  {
    OneMoreSent(receiver.stage, receiver.version, toReceiver, sender.queue);
    var rest := sender.(queue := sender.queue[1..]);
    if rest.queue == [] {
      assert (toReceiver + [sender.queue[0]]) + [] == toReceiver + [sender.queue[0]];
      if sender.turned { EntersReceiving(rest); }
    }
  }

  /** The first message of what closes an exchange, when more follow, is a frame; alone, it closes it. */
  lemma {:induction false} RestCloses(stage: nat, version: nat, messages: seq<Message>)
    requires Closing(stage, version, messages)
    ensures |messages| > 1 ==> Closing(stage, version, messages[1..])
    ensures |messages| > 1 ==> messages[0].StateMessage? || (stage == OUTBOUND && messages[0].ChangesMessage?)
  {
    if |messages| > 1 {
      assert messages[1..][|messages| - 2] == messages[|messages| - 1];
    }
  }

  /** A frame leaves the party where it is, or is refused with an abort. */
  lemma {:induction false} FrameHandled(p: Party, m: Message)
    requires p.stage == OUTBOUND || p.stage == RECOVERY
    requires m.StateMessage? || (p.stage == OUTBOUND && m.ChangesMessage?)
    requires Receiving(p)
    ensures var (q, reply) := Handle(p, m);
            && q.role == p.role && q.version == p.version && q.stage == p.stage && q.turned == p.turned
            && q.queue == p.queue
            && reply == if q.failed then [Abort] else []
  {
  }

  /** The message that closes an exchange turns the receiver. */
  lemma {:induction false} ClosingHandled(p: Party, m: Message)
    requires Receiving(p) && Closing(p.stage, p.version, [m])
    ensures var (q, reply) := Handle(p, m);
            && reply == [] && !q.failed && q.role == p.role && q.version == p.version
            && if !p.turned then q.stage == p.stage && q.turned && q.queue == p.queue
               else
                 && q.stage == p.stage + 1 && !q.turned
                 && (q.stage < FINISHED ==> Closing(q.stage, q.version, q.queue))
  {
    assert m in [m] && [m][|[m]| - 1] == m;
    QueueClosesLater(p);
  }

  lemma {:induction false} QueueClosesLater(p: Party)
    ensures forall q: Party :: q.version == p.version && p.stage + 1 < FINISHED ==>
              Closing(p.stage + 1, p.version, QueueFor(q, p.stage + 1))
  {
    forall q: Party | q.version == p.version && p.stage + 1 < FINISHED
      ensures Closing(p.stage + 1, p.version, QueueFor(q, p.stage + 1))
    {
      QueueCloses(q, p.stage + 1);
    }
  }

  /** The closing message turns the two around, or ends the session. */
  lemma {:induction false} TurnsAround(sender: Party, receiver: Party, m: Message)
    requires Opposite(sender, receiver) && Receiving(receiver) && HasSent(sender, receiver, [m])
    ensures var (q, reply) := Handle(receiver, m);
            && reply == [] && !q.failed
            && (Flowing(q, sender, [], []) || (q.Succeeded() && sender.Succeeded() && Opposite(sender, q)))
  {
    ClosingHandled(receiver, m);
    var q := Handle(receiver, m).0;
    assert [] + q.queue == q.queue;
  }

  /** A frame is taken, or refused. */
  lemma {:induction false} TakesOne(sender: Party, receiver: Party, toReceiver: seq<Message>)
    requires Opposite(sender, receiver) && Receiving(receiver) && toReceiver != []
    requires StillSending(sender, receiver, toReceiver) || (HasSent(sender, receiver, toReceiver) && |toReceiver| > 1)
    ensures var (q, reply) := Handle(receiver, toReceiver[0]);
            if q.failed then Refused(sender, q, reply) else Flowing(sender, q, toReceiver[1..], reply)
  {
    var all := if HasSent(sender, receiver, toReceiver) then toReceiver else toReceiver + sender.queue;
    RestCloses(receiver.stage, receiver.version, all);
    assert all[0] == toReceiver[0];
    assert all == toReceiver + sender.queue ==> all[1..] == toReceiver[1..] + sender.queue;
    FrameHandled(receiver, toReceiver[0]);
  }

  lemma {:induction false} ReceiverSteps(sender: Party, receiver: Party, toReceiver: seq<Message>)
    requires Flowing(sender, receiver, toReceiver, []) && toReceiver != []
    ensures var (q, reply) := Handle(receiver, toReceiver[0]);
            Lockstep(System(q, sender, toReceiver[1..], reply))
  {
    if HasSent(sender, receiver, toReceiver) && |toReceiver| == 1 {
      assert toReceiver == [toReceiver[0]] && toReceiver[1..] == [];
      TurnsAround(sender, receiver, toReceiver[0]);
    } else {
      TakesOne(sender, receiver, toReceiver);
    }
  }

  /** The engine fails on what a receiver has just got. */
  lemma {:induction false} ReceiverFails(sender: Party, receiver: Party, toReceiver: seq<Message>, units: nat)
    requires Flowing(sender, receiver, toReceiver, []) && toReceiver != []
    ensures Refused(sender, FailOn(receiver, toReceiver[0], units), [Abort])
  {
  }

  /** A side whose message was refused sends on until its turn to receive, and then fails. */
  lemma {:induction false} RefusedSteps(sender: Party, receiver: Party)
    requires Refused(sender, receiver, [Abort]) && LocalStep(sender, [Abort]).Some?
    ensures var l := LocalStep(sender, [Abort]).value;
            if l.consumed == 0 then Refused(l.party, receiver, [Abort])
            else l.consumed == 1 && l.party.failed && Opposite(l.party, receiver)
  {
  }

  /** No step, and no failure of an engine, brings the two out of step. */
  lemma {:induction false} StepKeepsLockstep(s: System, fault: Fault)
    requires Lockstep(s) && fault != Crash && FaultyStepA(s, fault).Some?
    ensures Lockstep(FaultyStepA(s, fault).value)
  {
    if Flowing(s.a, s.b, s.toB, s.toA) {
      SenderSteps(s.a, s.b, s.toB);
      assert s.toA[0..] == s.toA;
    } else if Flowing(s.b, s.a, s.toA, s.toB) {
      if s.toA != [] {
        assert s.toB + Handle(s.a, s.toA[0]).1 == Handle(s.a, s.toA[0]).1;
        ReceiverSteps(s.b, s.a, s.toA);
        if fault.EngineFails? { ReceiverFails(s.b, s.a, s.toA, fault.units); }
      }
    } else if Refused(s.a, s.b, s.toA) {
      if fault.NoFault? { RefusedSteps(s.a, s.b); }
    }
  }

  lemma {:induction false} RunKeepsLockstep(s: System, events: seq<Event>)
    requires Lockstep(s) && FaultyExec(s, events).Some? && forall event :: event in events ==> event.fault != Crash
    ensures Lockstep(FaultyExec(s, events).value)
    decreases events
  {
    if events != [] {
      var event := events[0];
      assert event in events && forall e :: e in events[1..] ==> e in events;
      if event.side.A? {
        StepKeepsLockstep(s, event.fault);
      } else {
        StepKeepsLockstep(Mirror(s), event.fault);
      }
      RunKeepsLockstep(FaultyStep(s, event).value, events[1..]);
    }
  }

  lemma {:induction false} OpensInLockstep(version: nat, policyA: Policy, repA: Replica, policyB: Policy, repB: Replica)
    ensures Lockstep(Opening(version, policyA, repA, policyB, repB))
  {
    var s := Opening(version, policyA, repA, policyB, repB);
    QueueCloses(s.a, HELLO);
    QueueCloses(s.b, HELLO);
    assert [] + s.a.queue == s.a.queue;
  }

  lemma {:induction false} HandleKeepsRole(p: Party, m: Message)
    ensures Handle(p, m).0.role == p.role
  {
  }

  lemma {:induction false} StepKeepsRoles(s: System, fault: Fault)
    requires FaultyStepA(s, fault).Some?
    ensures FaultyStepA(s, fault).value.a.role == s.a.role && FaultyStepA(s, fault).value.b.role == s.b.role
  {
    if s.toA != [] { HandleKeepsRole(s.a, s.toA[0]); }
  }

  lemma {:induction false} RolesStay(s: System, events: seq<Event>)
    requires FaultyExec(s, events).Some?
    ensures FaultyExec(s, events).value.a.role == s.a.role && FaultyExec(s, events).value.b.role == s.b.role
    decreases events
  {
    if events != [] {
      var event := events[0];
      StepKeepsRoles(if event.side.A? then s else Mirror(s), event.fault);
      RolesStay(FaultyStep(s, event).value, events[1..]);
    }
  }

  lemma {:induction false} LockstepEnds(s: System)
    requires Lockstep(s) && s.a.role.Initiator?
    ensures Stuck(s) ==> s.a.Halted() && s.b.Halted()
    ensures s.a.Succeeded() ==> s.b.Succeeded()
  {
    if Flowing(s.a, s.b, s.toB, s.toA) && StillSending(s.a, s.b, s.toB) {
      SenderSteps(s.a, s.b, s.toB);
    } else if Flowing(s.b, s.a, s.toA, s.toB) && StillSending(s.b, s.a, s.toA) {
      SenderSteps(s.b, s.a, s.toA);
      assert Step(s, B).Some?;
    }
  }

  /** In every run of a session, with engines that refuse whatever they like (but no side that vanishes): when neither
      side can go on, both have ended; and the initiator has succeeded only where the responder has. */
  lemma {:induction false} EverySessionEnds(version: nat, policyA: Policy, repA: Replica, policyB: Policy,
                                            repB: Replica, events: seq<Event>)
    requires forall event :: event in events ==> event.fault != Crash
    requires FaultyExec(Opening(version, policyA, repA, policyB, repB), events).Some?
    ensures var t := FaultyExec(Opening(version, policyA, repA, policyB, repB), events).value;
            && (Stuck(t) ==> t.a.Halted() && t.b.Halted())
            && (t.a.Succeeded() ==> t.b.Succeeded())
  {
    var s := Opening(version, policyA, repA, policyB, repB);
    OpensInLockstep(version, policyA, repA, policyB, repB);
    RunKeepsLockstep(s, events);
    RolesStay(s, events);
    LockstepEnds(FaultyExec(s, events).value);
  }

  /** In a run that cannot be continued both sides have ended, and the initiator knows how: it has succeeded exactly
      where the session has a result, and is not told of success where either engine refused something. */
  lemma {:induction false} InitiatorKnows(version: nat, policyA: Policy, repA: Replica, policyB: Policy, repB: Replica,
                                          run: seq<Side>)
    requires Exec(Opening(version, policyA, repA, policyB, repB), run).Some?
    ensures var t := Exec(Opening(version, policyA, repA, policyB, repB), run).value;
            Stuck(t) ==>
              && t.a.Halted() && t.b.Halted()
              && (t.a.Succeeded() <==> SessionResult(repA, policyA, repB, policyB).Some?)
  {
    var s := Opening(version, policyA, repA, policyB, repB);
    var t := Exec(s, run).value;
    FaultlessExec(s, run);
    assert forall event :: event in Faultless(run) ==> event.fault == NoFault;
    EverySessionEnds(version, policyA, repA, policyB, repB, Faultless(run));
    if Stuck(t) {
      if SessionResult(repA, policyA, repB, policyB).Some? {
        SessionSucceeds(version, policyA, repA, policyB, repB, run);
      } else if t.a.Succeeded() {
        SuccessIsResult(version, policyA, repA, policyB, repB, run);
      }
    }
  }
}
