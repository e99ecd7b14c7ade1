/**
  What claims and releases leave behind: rollbacks, releases, and how long the session row
  of a claim stays active.
 */
module ClaimCleanup {
  import opened Common
  import opened SessionTables
  import opened ProviderDaemon
  import opened ClaimProtocol

  // ---------------------------------------------------------------- failures and releases

  /** Nothing in the database says that the device is in use. */
  ghost predicate Quiet(t: Tables, serial: Serial) {
    && ActiveIds(t, serial) == {}
    && (serial in t.devices ==> t.devices[serial].status != Claimed && t.devices[serial].streamPort == 0)
  }

  predicate Held(p: Provider, serial: Serial) {
    p.SupervisorOf(serial).Up? && p.SupervisorOf(serial).use.Held?
  }

  /** The provider neither holds nor captures the device. */
  ghost predicate Freed(p: Provider, serial: Serial) {
    !Held(p, serial) && serial !in p.capturing
  }

  /** A failed claim leaves no session of its device active once its rollback commits. */
  lemma RollBackLeavesNone(s: State, a: ActionId)
    requires a in s.actions && s.actions[a].ClaimRollback?
    ensures var s' := Apply(s, OfClaim(RollBack(a, true)));
            s'.actions[a].ClaimFailed? && Quiet(s'.tables, s.actions[a].serial)
  {
    hide AfterClose, ActiveIds;
    CloseEndsSessions(s.tables, s.actions[a].serial);
  }

  /** Whether the step belongs to a claim of the device. */
  predicate ClaimOn(s: State, step: Step, serial: Serial) {
    step.OfClaim? &&
    var c := step.claim;
    if c.BeginClaim? then c.serial == serial
    else if c.ArriveClaim? then c.action in s.wire.claims && s.wire.claims[c.action] == serial
    else c.action in s.actions && s.actions[c.action].serial == serial
  }

  lemma QuietOther(t: Tables, serial: Serial, other: Serial)
    requires Quiet(t, serial)
    ensures Quiet(AfterClose(t, other), serial)
  {
    hide ActiveIds;
    CloseEndsSessions(t, other);
  }

  lemma QuietClaim(s: State, step: ClaimStep, serial: Serial)
    requires Quiet(s.tables, serial) && !ClaimOn(s, OfClaim(step), serial)
    ensures Quiet(ApplyClaim(s, step).tables, serial)
  {
    hide ActiveIds, AfterClose;
    var t := s.tables;
    if step.BeginClaim? {
      if CanCreate(t, step.session, step.serial) {
        CreateAddsSession(t, step.session, step.serial);
      }
    } else if step.action in s.actions {
      var act := s.actions[step.action];
      QuietOther(t, serial, act.serial);
      if act.ClaimAccepted? && step.StorePort? {
        PortOther(t, serial, act.serial, act.port);
      }
    }
  }

  lemma PortOther(t: Tables, serial: Serial, other: Serial, port: int)
    requires Quiet(t, serial) && other != serial
    ensures Quiet(AfterStreamPort(t, other, port), serial)
  {
    assert ActiveIds(AfterStreamPort(t, other, port), serial) == ActiveIds(t, serial);
  }

  lemma QuietRelease(s: State, step: ReleaseStep, serial: Serial)
    requires Quiet(s.tables, serial)
    ensures Quiet(ApplyRelease(s, step).tables, serial)
  {
    hide Quiet, AfterClose;
    if step.action in s.actions {
      QuietOther(s.tables, serial, s.actions[step.action].serial);
    }
  }

  lemma QuietStatus(t: Tables, step: StatusStep, serial: Serial)
    requires Quiet(t, serial)
    ensures Quiet(TablesAfter(t, step), serial)
  {
    assert ActiveIds(TablesAfter(t, step), serial) == ActiveIds(t, serial);
  }

  lemma FreedDevice(p: Provider, step: DeviceStep, serial: Serial)
    requires Freed(p, serial)
    ensures Freed(After(p, step), serial)
  {
  }

  /** No step outside claims of the device brings it back into use. */
  lemma StaysReleased(s: State, step: Step, serial: Serial)
    requires !ClaimOn(s, step, serial)
    ensures Quiet(s.tables, serial) ==> Quiet(Apply(s, step).tables, serial)
    ensures Freed(s.provider, serial) ==> Freed(Apply(s, step).provider, serial)
  {
    hide Quiet, TablesAfter, After, AfterClose, AfterCreate, AfterStreamPort, CanCreate;
    if Quiet(s.tables, serial) {
      match step
      case OfClaim(c) => QuietClaim(s, c, serial);
      case OfRelease(r) => QuietRelease(s, r, serial);
      case OfDevice(_) =>
      case OfStatus(t) => QuietStatus(s.tables, t, serial);
    }
    if Freed(s.provider, serial) && step.OfDevice? {
      FreedDevice(s.provider, step.device, serial);
    }
  }

  /** A run from `s` in which no claim of the device takes a step. */
  predicate NoClaimIn(s: State, steps: seq<Step>, serial: Serial)
    decreases |steps|
  {
    steps == [] || (!ClaimOn(s, steps[0], serial) && NoClaimIn(Apply(s, steps[0]), steps[1..], serial))
  }

  lemma {:induction false} RunReleased(s: State, steps: seq<Step>, serial: Serial)
    requires Inv(s) && NoClaimIn(s, steps, serial)
    ensures Inv(Run(s, steps))
    ensures Quiet(s.tables, serial) ==> Quiet(Run(s, steps).tables, serial)
    ensures Freed(s.provider, serial) ==> Freed(Run(s, steps).provider, serial)
    decreases |steps|
  {
    hide Inv, Quiet, Freed, Apply, ClaimOn;
    if steps == [] {
    } else {
      StaysReleased(s, steps[0], serial);
      StepInv(s, steps[0]);
      RunReleased(Apply(s, steps[0]), steps[1..], serial);
    }
  }

  /**
    From any reachable state, a release whose transaction commits and whose call reaches a
    supervisor leaves no active session and stream port 0, whatever other steps run in
    between, as long as no claim of the device does. It leaves the provider idle and not
    capturing, and this stays so, exactly unless it finds the device idle with a capture
    left over by a supervisor without a port.
   */
  lemma ReleaseCleansUp(minPort: int, maxPort: int, pre: seq<Step>, a: ActionId, mid: seq<Step>, post: seq<Step>)
    requires var s0 := Run(Start(minPort, maxPort), pre);
             && a in s0.actions && s0.actions[a].ReleaseLooked?
             && var serial := s0.actions[a].serial;
                var s1 := Apply(s0, OfRelease(CloseForRelease(a, true)));
                && NoClaimIn(s1, mid, serial)
                && var s2 := Run(s1, mid);
                   && a in s2.wire.releases && s2.wire.releases[a] == serial
                   && s2.provider.SupervisorOf(serial).Up?
                   && NoClaimIn(Apply(s2, OfRelease(ArriveRelease(a))), post, serial)
    ensures var s0 := Run(Start(minPort, maxPort), pre);
            var serial := s0.actions[a].serial;
            var s2 := Run(Apply(s0, OfRelease(CloseForRelease(a, true))), mid);
            var s3 := Apply(s2, OfRelease(ArriveRelease(a)));
            var s := Run(s3, post);
            && Quiet(s.tables, serial)
            && s3.provider.SupervisorOf(serial).Up? && s3.provider.SupervisorOf(serial).use.Free?
            && (Freed(s3.provider, serial) <==> !(serial in s2.provider.capturing && !Held(s2.provider, serial)))
            && (Freed(s3.provider, serial) ==> Freed(s.provider, serial))
            && (NoneStranded(s2.provider) ==> Freed(s3.provider, serial))
  {
    var s0 := Run(Start(minPort, maxPort), pre);
    var serial := s0.actions[a].serial;
    var s1 := Apply(s0, OfRelease(CloseForRelease(a, true)));
    RunInv(minPort, maxPort, pre);
    StepInv(s0, OfRelease(CloseForRelease(a, true)));
    CloseQuiets(s0, a);
    hide Inv, Quiet, Freed, Apply, ClaimOn, NoClaimIn, Run, Start;
    RunReleased(s1, mid, serial);
    var s2 := Run(s1, mid);
    var s3 := Apply(s2, OfRelease(ArriveRelease(a)));
    StepInv(s2, OfRelease(ArriveRelease(a)));
    ArrivalFrees(s2, a);
    if NoneStranded(s2.provider) {
      assert !Stranded(s2.provider, serial);
    }
    RunReleased(s3, post, serial);
  }

  lemma CloseQuiets(s: State, a: ActionId)
    requires a in s.actions && s.actions[a].ReleaseLooked?
    ensures Quiet(Apply(s, OfRelease(CloseForRelease(a, true))).tables, s.actions[a].serial)
  {
    hide AfterClose, ActiveIds;
    CloseEndsSessions(s.tables, s.actions[a].serial);
  }

  lemma ArrivalFrees(s: State, a: ActionId)
    requires a in s.wire.releases && s.provider.SupervisorOf(s.wire.releases[a]).Up?
    ensures var s' := Apply(s, OfRelease(ArriveRelease(a)));
            var serial := s.wire.releases[a];
            && (Freed(s'.provider, serial) <==> !(serial in s.provider.capturing && !Held(s.provider, serial)))
            && s'.provider.SupervisorOf(serial).Up? && s'.provider.SupervisorOf(serial).use.Free?
            && (Quiet(s.tables, serial) ==> Quiet(s'.tables, serial))
  {
    hide Quiet;
  }

  // ---------------------------------------------------------------- the session table is not exclusive

  /**
    "At most one active row" is not kept: from any state in which a device is claimed, a
    lost heartbeat stream and one ping let the next claim add a row beside the active
    one, while the provider still holds the device for the first.
   */
  lemma SecondActiveRow(s: State, serial: Serial, b: ActionId, id: SessionId)
    requires ClaimedHasSession(s.tables) && b !in s.actions && id !in s.tables.sessions
    requires serial in s.tables.devices && s.tables.devices[serial].status == Claimed
    ensures var lost := Apply(s, OfStatus(StreamLoss(s.tables.devices[serial].provider)));
            var s' := Apply(Apply(lost, OfStatus(Ping(serial))), OfClaim(BeginClaim(b, serial, id, true)));
            && ActiveIds(s'.tables, serial) == ActiveIds(s.tables, serial) + {id}
            && |ActiveIds(s'.tables, serial)| >= 2
            && s'.provider == s.provider
  {
    var lost := Apply(s, OfStatus(StreamLoss(s.tables.devices[serial].provider)));
    var back := Apply(lost, OfStatus(Ping(serial)));
    assert ActiveIds(back.tables, serial) == ActiveIds(s.tables, serial);
    assert CanCreate(back.tables, id, serial);
    CreateAddsSession(back.tables, id, serial);
    assert |ActiveIds(s.tables, serial)| > 0;
  }

  // ---------------------------------------------------------------- how long a session row stays active

  /** A claim of the device that may still roll back. */
  predicate Open(act: Action, serial: Serial) {
    act.serial == serial && (act.ClaimLookup? || act.ClaimReady? || act.ClaimWaiting? || act.ClaimRollback?)
  }

  predicate ActiveRow(t: Tables, id: SessionId, serial: Serial) {
    id in t.sessions && t.sessions[id] == SessionRow(serial, true)
  }

  /** A committed release of the device, its going offline, or the rollback of claim `a` itself. */
  predicate Interrupts(s: State, step: Step, a: ActionId, serial: Serial) {
    match step
    case OfRelease(CloseForRelease(r, commits)) =>
      commits && r in s.actions && s.actions[r].ReleaseLooked? && s.actions[r].serial == serial
    case OfStatus(Vanish(x)) => x == serial
    case OfStatus(StreamLoss(provider)) =>
      serial in s.tables.devices && s.tables.devices[serial].provider == provider
    case OfClaim(RollBack(b, _)) => b == a
    case _ => false
  }

  predicate Undisturbed(s: State, steps: seq<Step>, a: ActionId, serial: Serial)
    decreases |steps|
  {
    steps == [] || (!Interrupts(s, steps[0], a, serial) && Undisturbed(Apply(s, steps[0]), steps[1..], a, serial))
  }

  ghost predicate SoleClaim(s: State, a: ActionId, id: SessionId, serial: Serial) {
    && serial in s.tables.devices && s.tables.devices[serial].status == Claimed
    && ActiveRow(s.tables, id, serial)
    && forall b :: b in s.actions && b != a ==> !Open(s.actions[b], serial)
  }

  lemma SoleClaimStep(s: State, step: ClaimStep, a: ActionId, id: SessionId, serial: Serial)
    requires SoleClaim(s, a, id, serial) && a in s.actions && !Interrupts(s, OfClaim(step), a, serial)
    ensures SoleClaim(ApplyClaim(s, step), a, id, serial) && a in ApplyClaim(s, step).actions
  {
    var s' := ApplyClaim(s, step);
    forall b | b in s'.actions && b != a
      ensures !Open(s'.actions[b], serial)
    {
      assert b in s.actions ==> !Open(s.actions[b], serial);
    }
  }

  lemma SoleReleaseStep(s: State, step: ReleaseStep, a: ActionId, id: SessionId, serial: Serial)
    requires SoleClaim(s, a, id, serial) && a in s.actions && !Interrupts(s, OfRelease(step), a, serial)
    ensures SoleClaim(ApplyRelease(s, step), a, id, serial) && a in ApplyRelease(s, step).actions
  {
    var s' := ApplyRelease(s, step);
    forall b | b in s'.actions && b != a
      ensures !Open(s'.actions[b], serial)
    {
      assert b in s.actions ==> !Open(s.actions[b], serial);
    }
  }

  lemma {:induction false} SoleClaimRun(s: State, steps: seq<Step>, a: ActionId, id: SessionId, serial: Serial)
    requires SoleClaim(s, a, id, serial) && a in s.actions && Undisturbed(s, steps, a, serial)
    ensures SoleClaim(Run(s, steps), a, id, serial)
    decreases |steps|
  {
    if steps == [] {
    } else {
      var s' := Apply(s, steps[0]);
      assert SoleClaim(s', a, id, serial) && a in s'.actions by {
        match steps[0]
        case OfClaim(c) => SoleClaimStep(s, c, a, id, serial);
        case OfRelease(r) => SoleReleaseStep(s, r, a, id, serial);
        case OfDevice(_) =>
        case OfStatus(_) =>
      }
      hide SoleClaim, Apply, Interrupts;
      SoleClaimRun(s', steps[1..], a, id, serial);
    }
  }

  /** How an open claim comes to roll back although nothing happens to the device. */
  function Abandoning(b: ActionId, act: Action): seq<Step> {
    var roll := [OfClaim(RollBack(b, true))];
    if act.ClaimLookup? then [OfClaim(LookUp(b, false))] + roll
    else if act.ClaimReady? then [OfClaim(SendClaim(b))] + ([OfClaim(GiveUp(b))] + roll)
    else if act.ClaimWaiting? then [OfClaim(GiveUp(b))] + roll
    else roll
  }

  lemma {:induction false} UndisturbedPlain(s: State, steps: seq<Step>, a: ActionId, serial: Serial)
    requires forall i :: 0 <= i < |steps| ==> steps[i].OfClaim? && steps[i].claim.action != a
    ensures Undisturbed(s, steps, a, serial)
    decreases |steps|
  {
    hide Apply;
    if steps == [] {
    } else {
      UndisturbedPlain(Apply(s, steps[0]), steps[1..], a, serial);
    }
  }

  lemma AbandonedCloses(s: State, b: ActionId, serial: Serial)
    requires b in s.actions && Open(s.actions[b], serial)
    ensures var t := Run(s, Abandoning(b, s.actions[b]));
            ActiveIds(t.tables, serial) == {} && t.provider == s.provider
            && forall c :: c in s.actions && c != b ==> c in t.actions && t.actions[c] == s.actions[c]
  {
    var act := s.actions[b];
    var roll := [OfClaim(RollBack(b, true))];
    CloseEndsSessions(s.tables, serial);
    hide AfterClose, ActiveIds, CanCreate, AfterCreate, AfterStreamPort, Run;
    if act.ClaimLookup? {
      var s1 := Apply(s, OfClaim(LookUp(b, false)));
      RunFirst(s, OfClaim(LookUp(b, false)), roll);
      RunOne(s1, OfClaim(RollBack(b, true)));
    } else if act.ClaimReady? {
      var s1 := Apply(s, OfClaim(SendClaim(b)));
      var s2 := Apply(s1, OfClaim(GiveUp(b)));
      RunFirst(s, OfClaim(SendClaim(b)), [OfClaim(GiveUp(b))] + roll);
      RunFirst(s1, OfClaim(GiveUp(b)), roll);
      RunOne(s2, OfClaim(RollBack(b, true)));
    } else if act.ClaimWaiting? {
      var s1 := Apply(s, OfClaim(GiveUp(b)));
      RunFirst(s, OfClaim(GiveUp(b)), roll);
      RunOne(s1, OfClaim(RollBack(b, true)));
    } else {
      RunOne(s, OfClaim(RollBack(b, true)));
    }
  }

  /**
    The session row of a claim that begins stays active in every run without a release of
    the device, without its going offline and without a rollback of the claim itself,
    exactly if no other claim of the device is open when it begins: the rollback of
    another claim closes all rows of the device.
   */
  lemma RowKeptExact(s: State, a: ActionId, serial: Serial, id: SessionId)
    requires a !in s.actions && CanCreate(s.tables, id, serial)
    ensures var s' := Apply(s, OfClaim(BeginClaim(a, serial, id, true)));
            (forall steps :: Undisturbed(s', steps, a, serial) ==> ActiveRow(Run(s', steps).tables, id, serial))
            <==> forall b :: b in s.actions ==> !Open(s.actions[b], serial)
  {
    var s' := Apply(s, OfClaim(BeginClaim(a, serial, id, true)));
    assert s'.actions == s.actions[a := ClaimLookup(serial)];
    if b :| b in s.actions && Open(s.actions[b], serial) {
      var steps := Abandoning(b, s'.actions[b]);
      UndisturbedPlain(s', steps, a, serial);
      AbandonedCloses(s', b, serial);
      assert id !in ActiveIds(Run(s', steps).tables, serial);
      assert Undisturbed(s', steps, a, serial) && !ActiveRow(Run(s', steps).tables, id, serial);
    } else {
      assert SoleClaim(s', a, id, serial);
      hide Apply, Undisturbed;
      forall steps | Undisturbed(s', steps, a, serial)
        ensures ActiveRow(Run(s', steps).tables, id, serial)
      {
        SoleClaimRun(s', steps, a, id, serial);
      }
    }
  }

  /**
    A holder loses its row while the provider still holds the device for it: from any
    state in which the device is claimed, after a lost heartbeat stream and a ping a
    second claim begins, finds no provider and rolls back.
   */
  lemma RollbackClosesHolder(s: State, serial: Serial, b: ActionId, id: SessionId)
    requires b !in s.actions && id !in s.tables.sessions
    requires serial in s.tables.devices && s.tables.devices[serial].status == Claimed
    ensures var lost := Apply(s, OfStatus(StreamLoss(s.tables.devices[serial].provider)));
            var begun := Apply(Apply(lost, OfStatus(Ping(serial))), OfClaim(BeginClaim(b, serial, id, true)));
            && b in begun.actions && begun.actions[b] == ClaimLookup(serial)
            && var s' := Run(begun, Abandoning(b, ClaimLookup(serial)));
               && ActiveIds(s'.tables, serial) == {}
               && s'.provider == s.provider
               && forall c :: c in s.actions ==> c in s'.actions && s'.actions[c] == s.actions[c]
  {
    var lost := Apply(s, OfStatus(StreamLoss(s.tables.devices[serial].provider)));
    var back := Apply(lost, OfStatus(Ping(serial)));
    assert CanCreate(back.tables, id, serial);
    var begun := Apply(back, OfClaim(BeginClaim(b, serial, id, true)));
    assert begun.actions == s.actions[b := ClaimLookup(serial)] && begun.provider == s.provider;
    hide Apply, Run, ActiveIds;
    AbandonedCloses(begun, b, serial);
  }
}
