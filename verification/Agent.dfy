/**
  Commands to the on-device agent in internal/agent/agent.go: `SendCommand` registers a
  one-slot channel under a fresh id and waits; `handleIncomingEvent` looks the id up,
  removes it, and then sends without blocking. Lookup and send are separate steps, and
  replies may be duplicated, late, or for unknown ids.
 */
module Agent {
  import opened Common

  type Id = nat

  /** The payload of a reply names the command it answers. */
  datatype Payload = Payload(id: Id, body: nat)

  datatype Stage = InFlight | GivenUp | Answered(payload: Payload) | Gone

  /** A caller: where it stands and its reply channel of capacity 1. */
  datatype Caller = Caller(stage: Stage, channel: Option<Payload>)

  /**
    `deliveries` are replies between lookup and send; `drops` counts sends that found the
    channel full; `taken` are the ids whose reply was ever looked up successfully.
   */
  datatype State = State(pending: set<Id>, callers: map<Id, Caller>, deliveries: map<Id, Payload>,
                         taken: set<Id>, drops: nat)

  datatype Step =
    | Send(id: Id)
    | Reply(payload: Payload)
    | Deliver(id: Id)
    | Receive(id: Id)
    | GiveUp(id: Id)
    | Leave(id: Id)

  /** One step; a step that is not possible in `s` changes nothing. */
  function Apply(s: State, step: Step): State {
    match step
    case Send(id) =>
      if id in s.callers then s
      else s.(pending := s.pending + {id}, callers := s.callers[id := Caller(InFlight, None)])
    case Reply(p) =>
      if p.id !in s.pending then s
      else s.(pending := s.pending - {p.id}, deliveries := s.deliveries[p.id := p], taken := s.taken + {p.id})
    case Deliver(id) =>
      if id !in s.deliveries || id !in s.callers then s
      else
        var c := s.callers[id];
        var s1 := s.(deliveries := s.deliveries - {id});
        if c.channel.None? then s1.(callers := s.callers[id := c.(channel := Some(s.deliveries[id]))])
        else s1.(drops := s.drops + 1)
    case Receive(id) =>
      if id !in s.callers || s.callers[id].stage != InFlight || s.callers[id].channel.None? then s
      else s.(callers := s.callers[id := Caller(Answered(s.callers[id].channel.value), None)])
    case GiveUp(id) =>
      if id !in s.callers || s.callers[id].stage != InFlight then s
      else s.(callers := s.callers[id := s.callers[id].(stage := GivenUp)])
    case Leave(id) =>
      if id !in s.callers || (s.callers[id].stage != GivenUp && !s.callers[id].stage.Answered?) then s
      else
        s.(pending := s.pending - {id},
           callers := if s.callers[id].stage == GivenUp
                      then s.callers[id := s.callers[id].(stage := Gone)] else s.callers)
  }

  function Run(s: State, steps: seq<Step>): State
    decreases |steps|
  {
    if steps == [] then s else Apply(Run(s, steps[..|steps| - 1]), steps[|steps| - 1])
  }

  const IDLE: State := State({}, map[], map[], {}, 0)

  // ---------------------------------------------------------------- every run

  ghost predicate CallerInv(s: State, id: Id)
    requires id in s.callers
  {
    var c := s.callers[id];
    && (id in s.pending <==> id !in s.taken && (c.stage == InFlight || c.stage == GivenUp))
    && (id in s.deliveries ==> id in s.taken && c.channel.None? && s.deliveries[id].id == id && !c.stage.Answered?)
    && (c.channel.Some? ==> id in s.taken && c.channel.value.id == id)
    && (id in s.taken && (c.stage == InFlight || c.stage == GivenUp) ==> id in s.deliveries || c.channel.Some?)
    && (c.stage.Answered? ==> id in s.taken && c.stage.payload.id == id)
  }

  ghost predicate Inv(s: State) {
    && s.drops == 0
    && s.pending <= s.callers.Keys
    && s.deliveries.Keys <= s.callers.Keys
    && s.taken <= s.callers.Keys
    && (forall id :: id in s.callers ==> CallerInv(s, id))
  }

  lemma StepInv(s: State, step: Step)
    requires Inv(s)
    ensures Inv(Apply(s, step))
  {
    var s' := Apply(s, step);
    forall id | id in s'.callers
      ensures CallerInv(s', id)
    {
      assert id in s.callers ==> CallerInv(s, id);
    }
    if step.Deliver? && step.id in s.deliveries && step.id in s.callers {
      assert CallerInv(s, step.id);
    }
  }

  lemma {:induction false} RunInv(steps: seq<Step>)
    ensures Inv(Run(IDLE, steps))
  {
    hide Inv, Apply;
    if steps == [] {
      IdleInv();
    } else {
      RunInv(steps[..|steps| - 1]);
      StepInv(Run(IDLE, steps[..|steps| - 1]), steps[|steps| - 1]);
    }
  }

  lemma IdleInv()
    ensures Inv(IDLE)
  {
  }

  /** A caller that got an answer got one with its own id, and no reply send ever found a full channel. */
  lemma AnswersMatch(steps: seq<Step>, id: Id)
    requires id in Run(IDLE, steps).callers
    ensures var s := Run(IDLE, steps);
            && (s.callers[id].stage.Answered? ==> s.callers[id].stage.payload.id == id)
            && s.drops == 0
  {
    hide Apply;
    RunInv(steps);
    assert CallerInv(Run(IDLE, steps), id);
  }

  /** `pending` holds exactly the commands still waited for whose reply has not been looked up. */
  lemma PendingIsUnanswered(steps: seq<Step>)
    ensures var s := Run(IDLE, steps);
            forall id :: id in s.pending <==>
              id in s.callers && (s.callers[id].stage == InFlight || s.callers[id].stage == GivenUp) && id !in s.taken
  {
    hide Apply;
    RunInv(steps);
    var s := Run(IDLE, steps);
    forall id | id in s.callers
      ensures CallerInv(s, id)
    {
    }
  }

  /** An answer is final: whatever replies still arrive, it stays the one payload received. */
  lemma {:induction false} AnsweredOnce(s: State, steps: seq<Step>, id: Id)
    requires id in s.callers && s.callers[id].stage.Answered?
    ensures id in Run(s, steps).callers && Run(s, steps).callers[id].stage == s.callers[id].stage
    decreases |steps|
  {
    if steps == [] {
    } else {
      AnsweredOnce(s, steps[..|steps| - 1], id);
    }
  }

  // ---------------------------------------------------------------- replies reach their callers

  /** The payload came in a reply, to a command still pending then. */
  ghost predicate Heard(steps: seq<Step>, p: Payload) {
    exists k :: 0 <= k < |steps| && steps[k] == Reply(p) && p.id in Run(IDLE, steps[..k]).pending
  }

  /** Every payload on its way, in a channel or with a caller was heard. */
  ghost predicate AllHeard(steps: seq<Step>, s: State) {
    && (forall id :: id in s.deliveries ==> Heard(steps, s.deliveries[id]))
    && (forall id :: id in s.callers && s.callers[id].channel.Some? ==> Heard(steps, s.callers[id].channel.value))
    && (forall id :: id in s.callers && s.callers[id].stage.Answered? ==> Heard(steps, s.callers[id].stage.payload))
  }

  lemma HeardLater(steps: seq<Step>, step: Step, p: Payload)
    requires Heard(steps, p)
    ensures Heard(steps + [step], p)
  {
    hide Run;
    var k :| 0 <= k < |steps| && steps[k] == Reply(p) && p.id in Run(IDLE, steps[..k]).pending;
    assert (steps + [step])[..k] == steps[..k];
  }

  lemma HeardNow(steps: seq<Step>, p: Payload)
    requires p.id in Run(IDLE, steps).pending
    ensures Heard(steps + [Reply(p)], p)
  {
    hide Run;
    var after := steps + [Reply(p)];
    assert after[..|steps|] == steps && after[|steps|] == Reply(p);
  }

  lemma {:induction false} RunHeard(steps: seq<Step>)
    ensures AllHeard(steps, Run(IDLE, steps))
    decreases |steps|
  {
    hide Heard;
    if steps == [] {
    } else {
      var pre, last := steps[..|steps| - 1], steps[|steps| - 1];
      RunHeard(pre);
      assert steps == pre + [last];
      var s := Run(IDLE, pre);
      forall p: Payload | Heard(pre, p)
        ensures Heard(steps, p)
      {
        HeardLater(pre, last, p);
      }
      if last.Reply? && last.payload.id in s.pending {
        HeardNow(pre, last.payload);
      }
    }
  }

  /** A caller is only ever answered by a reply that came in while its command was pending. */
  lemma AnswerWasHeard(steps: seq<Step>, id: Id)
    requires id in Run(IDLE, steps).callers && Run(IDLE, steps).callers[id].stage.Answered?
    ensures var p := Run(IDLE, steps).callers[id].stage.payload;
            p.id == id && Heard(steps, p)
  {
    hide Heard, Run;
    RunHeard(steps);
    AnswersMatch(steps, id);
  }

  /** A command that is sent is in flight and pending. */
  lemma SendWaits(s: State, id: Id)
    requires id !in s.callers
    ensures var t := Apply(s, Send(id));
            id in t.pending && id in t.callers && t.callers[id] == Caller(InFlight, None)
  {
  }

  /** In every run, the reply to a pending command, once delivered, is what its caller receives. */
  lemma ReplyReaches(steps: seq<Step>, p: Payload)
    requires var s := Run(IDLE, steps); p.id in s.pending && p.id in s.callers && s.callers[p.id].stage == InFlight
    ensures var s := Run(IDLE, steps);
            var t := Apply(Apply(Apply(s, Reply(p)), Deliver(p.id)), Receive(p.id));
            t.callers[p.id].stage == Answered(p) && p.id !in t.pending
  {
    hide Run;
    RunInv(steps);
    var s := Run(IDLE, steps);
    assert CallerInv(s, p.id);
    if s.callers[p.id].channel.Some? {
      assert false;
    }
  }

  /** In every run, a caller whose reply was looked up can still be answered, in at most two steps. */
  lemma NoReplyLost(steps: seq<Step>, id: Id)
    requires var s := Run(IDLE, steps); id in s.taken && id in s.callers && s.callers[id].stage == InFlight
    ensures var s := Run(IDLE, steps);
            Apply(Apply(s, Deliver(id)), Receive(id)).callers[id].stage.Answered?
  {
    hide Run;
    RunInv(steps);
    assert CallerInv(Run(IDLE, steps), id);
  }

  /** A caller can always give up, and then is no longer pending nor answered. */
  lemma GiveUpLeaves(steps: seq<Step>, id: Id)
    requires var s := Run(IDLE, steps); id in s.callers && s.callers[id].stage == InFlight
    ensures var t := Apply(Apply(Run(IDLE, steps), GiveUp(id)), Leave(id));
            id in t.callers && t.callers[id].stage == Gone && id !in t.pending
  {
  }
}
