/**
  Claiming and releasing a device across the coordinator and the provider.

  The coordinator's HTTP actions (internal/coordinator_server/http.go) are sequences of
  database transactions and provider calls with no lock around them, so every transaction,
  every locked supervisor method and every message is a step of its own and the steps of
  all actions interleave. A call the coordinator has given up on may still arrive later.
 */
module ClaimProtocol {
  import opened Common
  import opened SessionTables
  import opened ProviderDaemon
  import PortAllocator

  /** Where an HTTP action stands. */
  datatype Action =
    | ClaimLookup(serial: Serial)
    | ClaimReady(serial: Serial)
    | ClaimWaiting(serial: Serial)
    | ClaimRollback(serial: Serial)
    | ClaimAccepted(serial: Serial, port: int)
    | ClaimSucceeded(serial: Serial)
    | ClaimFailed(serial: Serial)
    | ReleaseLooked(serial: Serial, known: bool)
    | ReleaseReady(serial: Serial)
    | ReleaseWaiting(serial: Serial)
    | ReleaseDone(serial: Serial)

  /** Requests on their way to the provider, and the replies to claims (None: rejected). */
  datatype Wire = Wire(claims: map<ActionId, Serial>, replies: map<ActionId, Option<int>>,
                       releases: map<ActionId, Serial>)

  datatype State = State(tables: Tables, actions: map<ActionId, Action>, wire: Wire, provider: Provider)

  /** Steps of claim actions; `ArriveClaim` is the request reaching the provider. */
  datatype ClaimStep =
    | BeginClaim(action: ActionId, serial: Serial, session: SessionId, commits: bool)
    | LookUp(action: ActionId, connected: bool)
    | SendClaim(action: ActionId)
    | ArriveClaim(action: ActionId, captures: bool, port: int)
    | ReceiveReply(action: ActionId)
    | GiveUp(action: ActionId)
    | RollBack(action: ActionId, commits: bool)
    | StorePort(action: ActionId, commits: bool)

  datatype ReleaseStep =
    | BeginRelease(action: ActionId, serial: Serial)
    | CloseForRelease(action: ActionId, commits: bool)
    | SendRelease(action: ActionId, connected: bool)
    | ArriveRelease(action: ActionId)
    | FinishRelease(action: ActionId)

  /** Registrations, disconnect notices, heartbeat pings and lost heartbeat streams. */
  datatype StatusStep =
    | Register(provider: string, serial: Serial)
    | Vanish(serial: Serial)
    | Ping(serial: Serial)
    | StreamLoss(provider: string)

  datatype Step =
    | OfClaim(claim: ClaimStep)
    | OfRelease(release: ReleaseStep)
    | OfDevice(device: DeviceStep)
    | OfStatus(status: StatusStep)

  // ---------------------------------------------------------------- steps

  function At(s: State, a: ActionId, next: Action): State {
    s.(actions := s.actions[a := next])
  }

  // A step that is not possible in `s` changes nothing.

  function ApplyClaim(s: State, step: ClaimStep): State {
    match step
    case BeginClaim(a, serial, id, commits) =>
      if a in s.actions then s
      else if commits && CanCreate(s.tables, id, serial)
      then At(s.(tables := AfterCreate(s.tables, id, serial)), a, ClaimLookup(serial))
      else At(s, a, ClaimFailed(serial))
    case LookUp(a, connected) =>
      if a !in s.actions || !s.actions[a].ClaimLookup? then s
      else At(s, a, if connected then ClaimReady(s.actions[a].serial) else ClaimRollback(s.actions[a].serial))
    case SendClaim(a) =>
      if a !in s.actions || !s.actions[a].ClaimReady? then s
      else
        At(s.(wire := s.wire.(claims := s.wire.claims[a := s.actions[a].serial])), a, ClaimWaiting(s.actions[a].serial))
    case ArriveClaim(a, captures, port) =>
      if a !in s.wire.claims then s
      else
        var serial := s.wire.claims[a];
        var ok := s.provider.Claimable(serial, captures);
        s.(wire := s.wire.(claims := s.wire.claims - {a},
                           replies := s.wire.replies[a := if ok then Some(port) else None]),
           provider := if ok then s.provider.Claim(a, serial) else s.provider)
    case ReceiveReply(a) =>
      if a !in s.actions || !s.actions[a].ClaimWaiting? || a !in s.wire.replies then s
      else
        At(s, a, match s.wire.replies[a]
                 case Some(port) => ClaimAccepted(s.actions[a].serial, port)
                 case None => ClaimRollback(s.actions[a].serial))
    case GiveUp(a) =>
      if a !in s.actions || !s.actions[a].ClaimWaiting? then s
      else At(s, a, ClaimRollback(s.actions[a].serial))
    case RollBack(a, commits) =>
      if a !in s.actions || !s.actions[a].ClaimRollback? then s
      else
        var s1 := if commits then s.(tables := AfterClose(s.tables, s.actions[a].serial)) else s;
        At(s1, a, ClaimFailed(s.actions[a].serial))
    case StorePort(a, commits) =>
      if a !in s.actions || !s.actions[a].ClaimAccepted? then s
      else
        var c := s.actions[a];
        var s1 := if commits then s.(tables := AfterStreamPort(s.tables, c.serial, c.port)) else s;
        At(s1, a, ClaimSucceeded(c.serial))
  }

  function ApplyRelease(s: State, step: ReleaseStep): State {
    match step
    case BeginRelease(a, serial) =>
      if a in s.actions then s else At(s, a, ReleaseLooked(serial, serial in s.tables.devices))
    case CloseForRelease(a, commits) =>
      if a !in s.actions || !s.actions[a].ReleaseLooked? then s
      else
        var r := s.actions[a];
        if commits
        then At(s.(tables := AfterClose(s.tables, r.serial)), a,
                if r.known then ReleaseReady(r.serial) else ReleaseDone(r.serial))
        else At(s, a, ReleaseDone(r.serial))
    case SendRelease(a, connected) =>
      if a !in s.actions || !s.actions[a].ReleaseReady? then s
      else if connected
      then At(s.(wire := s.wire.(releases := s.wire.releases[a := s.actions[a].serial])), a,
              ReleaseWaiting(s.actions[a].serial))
      else At(s, a, ReleaseDone(s.actions[a].serial))
    case ArriveRelease(a) =>
      if a !in s.wire.releases then s
      else s.(wire := s.wire.(releases := s.wire.releases - {a}), provider := s.provider.Release(s.wire.releases[a]))
    case FinishRelease(a) =>
      if a !in s.actions || !s.actions[a].ReleaseWaiting? then s
      else At(s, a, ReleaseDone(s.actions[a].serial))
  }

  function TablesAfter(t: Tables, step: StatusStep): Tables {
    match step
    case Register(provider, serial) => AfterRegister(t, provider, serial)
    case Vanish(serial) => AfterRelease(t, serial)
    case Ping(serial) => AfterHeartbeat(t, serial)
    case StreamLoss(provider) => AfterLoss(t, provider)
  }

  function Apply(s: State, step: Step): State {
    match step
    case OfClaim(c) => ApplyClaim(s, c)
    case OfRelease(r) => ApplyRelease(s, r)
    case OfDevice(d) => s.(provider := After(s.provider, d))
    case OfStatus(t) => s.(tables := TablesAfter(s.tables, t))
  }

  /** Empty tables, and a provider without devices and with the given range of ports. */
  function Start(minPort: int, maxPort: int): State {
    State(Tables(map[], map[]), map[], Wire(map[], map[], map[]),
          Provider(map[], PortAllocator.Fresh(minPort, maxPort), {}, []))
  }

  function Run(s: State, steps: seq<Step>): State
    decreases |steps|
  {
    if steps == [] then s else Run(Apply(s, steps[0]), steps[1..])
  }

  lemma {:induction false} RunConcat(s: State, a: seq<Step>, b: seq<Step>)
    ensures Run(s, a + b) == Run(Run(s, a), b)
    decreases |a|
  {
    hide Apply;
    if a == [] {
      assert a + b == b;
    } else {
      RunConcat(Apply(s, a[0]), a[1..], b);
      assert (a + b)[1..] == a[1..] + b;
    }
  }

  lemma RunFirst(s: State, step: Step, rest: seq<Step>)
    ensures Run(s, [step] + rest) == Run(Apply(s, step), rest)
  {
    hide Apply;
    assert ([step] + rest)[1..] == rest;
  }

  lemma RunOne(s: State, step: Step)
    ensures Run(s, [step]) == Apply(s, step)
  {
    hide Apply;
    assert [step][1..] == [];
  }

  // ---------------------------------------------------------------- each success is one provider claim

  predicate ClaimedBy(e: Event, a: ActionId) {
    e.ProviderClaimed? && e.action == a
  }

  predicate ClaimFor(e: Event, a: ActionId, serial: Serial) {
    ClaimedBy(e, a) && e.serial == serial
  }

  /** Which provider claims an action may have, by where it stands. */
  ghost predicate ActionInv(s: State, a: ActionId)
    requires a in s.actions
  {
    var act := s.actions[a];
    && (a in s.wire.claims ==> s.wire.claims[a] == act.serial && a !in s.wire.replies)
    && (act.ClaimLookup? || act.ClaimReady? || act.ReleaseLooked? ==> a !in s.wire.claims && a !in s.wire.replies)
    && (act.ClaimAccepted? || act.ClaimSucceeded? ==> a in s.wire.replies && s.wire.replies[a].Some?)
    && (a in s.wire.replies && s.wire.replies[a].Some? ==>
          exists i :: 0 <= i < |s.provider.trace| && ClaimFor(s.provider.trace[i], a, act.serial))
    && (a !in s.wire.replies || s.wire.replies[a].None? ==>
          forall i :: 0 <= i < |s.provider.trace| ==> !ClaimedBy(s.provider.trace[i], a))
  }

  ghost predicate ActionsInv(s: State) {
    && (forall a :: a in s.actions ==> ActionInv(s, a))
    && s.wire.claims.Keys <= s.actions.Keys
    && s.wire.replies.Keys <= s.actions.Keys
    && var trace := s.provider.trace;
       && (forall i :: 0 <= i < |trace| && trace[i].ProviderClaimed? ==> trace[i].action in s.wire.replies)
       && (forall i, j :: 0 <= i < j < |trace| && trace[i].ProviderClaimed? ==> !ClaimedBy(trace[j], trace[i].action))
  }

  ghost predicate SameCalls(s: State, s': State) {
    && s'.wire.claims == s.wire.claims && s'.wire.replies == s.wire.replies
    && s'.provider.trace == s.provider.trace
  }

  /** Steps that move one action without touching calls, replies or the trace. */
  lemma ActionsInvMove(s: State, s': State, a: ActionId)
    requires ActionsInv(s) && a in s.actions && a in s'.actions
    requires SameCalls(s, s')
    requires s'.actions == s.actions[a := s'.actions[a]] && s'.actions[a].serial == s.actions[a].serial
    requires s'.actions[a].ClaimAccepted? || s'.actions[a].ClaimSucceeded? ==>
               a in s.wire.replies && s.wire.replies[a].Some?
    requires s'.actions[a].ClaimLookup? || s'.actions[a].ClaimReady? || s'.actions[a].ReleaseLooked? ==>
               s.actions[a].ClaimLookup?
    ensures ActionsInv(s')
  {
    forall b | b in s'.actions
      ensures ActionInv(s', b)
    {
      assert ActionInv(s, b);
    }
  }

  lemma ActionsInvFresh(s: State, s': State, a: ActionId)
    requires ActionsInv(s) && a !in s.actions && a in s'.actions
    requires SameCalls(s, s')
    requires s'.actions == s.actions[a := s'.actions[a]]
    requires s'.actions[a].ClaimLookup? || s'.actions[a].ClaimFailed? || s'.actions[a].ReleaseLooked?
    ensures ActionsInv(s')
  {
    forall b | b in s'.actions
      ensures ActionInv(s', b)
    {
      if b != a {
        assert ActionInv(s, b);
      }
    }
  }

  lemma ActionsInvSend(s: State, a: ActionId)
    requires ActionsInv(s) && a in s.actions && s.actions[a].ClaimReady?
    ensures ActionsInv(ApplyClaim(s, SendClaim(a)))
  {
    var s' := ApplyClaim(s, SendClaim(a));
    forall b | b in s'.actions
      ensures ActionInv(s', b)
    {
      assert ActionInv(s, b);
    }
  }

  lemma ActionsInvArrive(s: State, s': State, a: ActionId, reply: Option<int>)
    requires ActionsInv(s) && a in s.wire.claims
    requires s'.actions == s.actions && s'.wire.claims == s.wire.claims - {a}
    requires s'.wire.replies == s.wire.replies[a := reply]
    requires if reply.None? then s'.provider.trace == s.provider.trace
             else
               exists resumed :: s'.provider.trace == s.provider.trace + [ProviderClaimed(a, s.wire.claims[a], resumed)]
    ensures ActionsInv(s')
  {
    hide ActionInv;
    OnItsWay(s, a);
    var n := |s.provider.trace|;
    assert forall i :: 0 <= i < n ==> s'.provider.trace[i] == s.provider.trace[i];
    forall b | b in s'.actions
      ensures ActionInv(s', b)
    {
      ActionInvArrive(s, s', a, b);
    }
  }

  lemma OnItsWay(s: State, a: ActionId)
    requires ActionsInv(s) && a in s.wire.claims
    ensures a in s.actions && s.wire.claims[a] == s.actions[a].serial && a !in s.wire.replies
  {
    assert ActionInv(s, a);
  }

  /** One action when the claim of `a` was answered. */
  lemma ActionInvArrive(s: State, s': State, a: ActionId, b: ActionId)
    requires b in s.actions && ActionInv(s, b) && a in s.wire.claims
    requires b == a ==> s.wire.claims[a] == s.actions[a].serial
    requires s'.actions == s.actions && s'.wire.claims == s.wire.claims - {a}
    requires a in s'.wire.replies && s'.wire.replies == s.wire.replies[a := s'.wire.replies[a]]
    requires s.provider.trace <= s'.provider.trace
    requires if s'.wire.replies[a].None? then s'.provider.trace == s.provider.trace
             else
               && |s'.provider.trace| == |s.provider.trace| + 1
               && ClaimFor(s'.provider.trace[|s.provider.trace|], a, s.wire.claims[a])
    ensures ActionInv(s', b)
  {
    assert forall i :: 0 <= i < |s.provider.trace| ==> s'.provider.trace[i] == s.provider.trace[i];
  }

  lemma ActionsInvTrace(s: State, s': State, e: Event)
    requires ActionsInv(s) && !e.ProviderClaimed?
    requires s'.actions == s.actions && s'.wire.claims == s.wire.claims && s'.wire.replies == s.wire.replies
    requires s'.provider.trace == s.provider.trace + [e]
    ensures ActionsInv(s')
  {
    forall b | b in s'.actions
      ensures ActionInv(s', b)
    {
      assert ActionInv(s, b);
      assert forall i :: 0 <= i < |s.provider.trace| ==> s'.provider.trace[i] == s.provider.trace[i];
    }
  }

  lemma ActionsInvClaim(s: State, step: ClaimStep)
    requires ActionsInv(s)
    ensures ActionsInv(ApplyClaim(s, step))
  {
    hide CanCreate, AfterCreate, AfterClose, AfterStreamPort, ActionsInv;
    var s' := ApplyClaim(s, step);
    var a := step.action;
    match step
    case BeginClaim(_, _, _, _) =>
      if a !in s.actions {
        ActionsInvFresh(s, s', a);
      }
    case SendClaim(_) =>
      if a in s.actions && s.actions[a].ClaimReady? {
        ActionsInvSend(s, a);
      }
    case ArriveClaim(_, captures, port) =>
      if a in s.wire.claims {
        var x := s.wire.claims[a];
        assert s.provider.Claimable(x, captures) ==>
            s'.provider.trace == s.provider.trace + [ProviderClaimed(a, x, x in s.provider.capturing)];
        ActionsInvArrive(s, s', a, s'.wire.replies[a]);
      }
    case StorePort(_, _) => StoreInv(s, s', a);
    case LookUp(_, _) => MoveIfChanged(s, s', a);
    case ReceiveReply(_) => MoveIfChanged(s, s', a);
    case GiveUp(_) => MoveIfChanged(s, s', a);
    case RollBack(_, _) => MoveIfChanged(s, s', a);
  }

  lemma ActionsInvRelease(s: State, step: ReleaseStep)
    requires ActionsInv(s)
    ensures ActionsInv(ApplyRelease(s, step))
  {
    hide AfterClose, ActionsInv;
    var s' := ApplyRelease(s, step);
    var a := step.action;
    match step
    case BeginRelease(_, _) =>
      if a !in s.actions {
        ActionsInvFresh(s, s', a);
      }
    case ArriveRelease(_) =>
      if s'.provider.trace != s.provider.trace {
        ActionsInvTrace(s, s', ProviderReleased(s.wire.releases[a]));
      } else {
        ActionsInvSame(s, s');
      }
    case CloseForRelease(_, _) => MoveIfChanged(s, s', a);
    case SendRelease(_, _) => MoveIfChanged(s, s', a);
    case FinishRelease(_) => MoveIfChanged(s, s', a);
  }

  lemma ActionsInvDevice(s: State, step: DeviceStep)
    requires ActionsInv(s)
    ensures ActionsInv(s.(provider := After(s.provider, step)))
  {
    hide ActionsInv;
    var s' := s.(provider := After(s.provider, step));
    if s'.provider.trace != s.provider.trace {
      ActionsInvTrace(s, s', TornDown(step.serial));
    } else {
      ActionsInvSame(s, s');
    }
  }

  lemma ActionsInvSame(s: State, s': State)
    requires ActionsInv(s)
    requires s'.actions == s.actions && s'.wire.claims == s.wire.claims && s'.wire.replies == s.wire.replies
    requires s'.provider.trace == s.provider.trace
    ensures ActionsInv(s')
  {
    forall b | b in s'.actions
      ensures ActionInv(s', b)
    {
      assert ActionInv(s, b);
    }
  }

  lemma StoreInv(s: State, s': State, a: ActionId)
    requires ActionsInv(s)
    requires s' == s || (a in s.actions && s.actions[a].ClaimAccepted? && a in s'.actions
                         && s'.actions == s.actions[a := ClaimSucceeded(s.actions[a].serial)]
                         && SameCalls(s, s'))
    ensures ActionsInv(s')
  {
    if s' != s {
      assert ActionInv(s, a);
      ActionsInvMove(s, s', a);
    }
  }

  lemma MoveIfChanged(s: State, s': State, a: ActionId)
    requires ActionsInv(s)
    requires SameCalls(s, s')
    requires s'.actions == s.actions
             || (a in s.actions && a in s'.actions && s'.actions == s.actions[a := s'.actions[a]]
                 && s'.actions[a].serial == s.actions[a].serial
                 && (s'.actions[a].ClaimAccepted? ==> a in s.wire.replies && s.wire.replies[a].Some?)
                 && !s'.actions[a].ClaimSucceeded? && !s'.actions[a].ClaimLookup? && !s'.actions[a].ReleaseLooked?
                 && (s'.actions[a].ClaimReady? ==> s.actions[a].ClaimLookup?))
    ensures ActionsInv(s')
  {
    if s'.actions == s.actions {
      ActionsInvSame(s, s');
    } else {
      ActionsInvMove(s, s', a);
    }
  }

  // ---------------------------------------------------------------- every run

  ghost predicate Inv(s: State) {
    ProviderInv(s.provider) && ActionsInv(s) && ClaimedHasSession(s.tables)
  }

  lemma TablesClaim(s: State, step: ClaimStep)
    requires ClaimedHasSession(s.tables)
    ensures ClaimedHasSession(ApplyClaim(s, step).tables)
  {
    hide ClaimedHasSession, AfterStreamPort, AfterClose, AfterCreate, CanCreate, ActiveIds;
    var t := s.tables;
    if step.BeginClaim? && CanCreate(t, step.session, step.serial) {
      CreateAddsSession(t, step.session, step.serial);
    } else if step.action in s.actions {
      var act := s.actions[step.action];
      CloseEndsSessions(t, act.serial);
      if act.ClaimAccepted? {
        TransactionsKeepSession(t, act.serial, "", act.port);
      }
    }
  }

  lemma TablesRelease(s: State, step: ReleaseStep)
    requires ClaimedHasSession(s.tables)
    ensures ClaimedHasSession(ApplyRelease(s, step).tables)
  {
    hide ClaimedHasSession, AfterClose, ActiveIds;
    if step.action in s.actions {
      CloseEndsSessions(s.tables, s.actions[step.action].serial);
    }
  }

  lemma TablesStatus(t: Tables, step: StatusStep)
    requires ClaimedHasSession(t)
    ensures ClaimedHasSession(TablesAfter(t, step))
  {
    hide ClaimedHasSession;
    match step
    case Register(provider, serial) => TransactionsKeepSession(t, serial, provider, 0);
    case Vanish(serial) => TransactionsKeepSession(t, serial, "", 0);
    case Ping(serial) => TransactionsKeepSession(t, serial, "", 0);
    case StreamLoss(provider) => TransactionsKeepSession(t, "", provider, 0);
  }

  lemma ProviderOnClaim(s: State, step: ClaimStep)
    requires ProviderInv(s.provider)
    ensures ProviderInv(ApplyClaim(s, step).provider)
  {
    hide ProviderInv, CanCreate, AfterCreate, AfterClose, AfterStreamPort;
    if step.ArriveClaim? && step.action in s.wire.claims {
      var x := s.wire.claims[step.action];
      if s.provider.Claimable(x, step.captures) {
        ClaimInv(s.provider, step.action, x);
      }
    }
  }

  lemma ProviderOnRelease(s: State, step: ReleaseStep)
    requires ProviderInv(s.provider)
    ensures ProviderInv(ApplyRelease(s, step).provider)
  {
    hide ProviderInv, AfterClose;
    if step.ArriveRelease? && step.action in s.wire.releases {
      ReleaseInv(s.provider, s.wire.releases[step.action]);
    }
  }

  lemma {:induction false} StepInv(s: State, step: Step)
    requires Inv(s)
    ensures Inv(Apply(s, step))
  {
    hide ProviderInv, ActionsInv, ClaimedHasSession, After, TablesAfter;
    match step
    case OfClaim(c) =>
      ActionsInvClaim(s, c);
      TablesClaim(s, c);
      ProviderOnClaim(s, c);
    case OfRelease(r) =>
      ActionsInvRelease(s, r);
      TablesRelease(s, r);
      ProviderOnRelease(s, r);
    case OfDevice(d) =>
      AfterInv(s.provider, d);
      ActionsInvDevice(s, d);
    case OfStatus(t) =>
      ActionsInvSame(s, Apply(s, step));
      TablesStatus(s.tables, t);
  }

  lemma {:induction false} RunFromInv(s: State, steps: seq<Step>)
    requires Inv(s)
    ensures Inv(Run(s, steps))
    decreases |steps|
  {
    hide Inv, Apply;
    if steps == [] {
    } else {
      StepInv(s, steps[0]);
      RunFromInv(Apply(s, steps[0]), steps[1..]);
    }
  }

  lemma StartInv(minPort: int, maxPort: int)
    ensures Inv(Start(minPort, maxPort))
  {
  }

  /** Every interleaving keeps the invariants of both sides. */
  lemma RunInv(minPort: int, maxPort: int, steps: seq<Step>)
    ensures Inv(Run(Start(minPort, maxPort), steps))
  {
    hide Inv, Run, Start;
    StartInv(minPort, maxPort);
    RunFromInv(Start(minPort, maxPort), steps);
  }
}
