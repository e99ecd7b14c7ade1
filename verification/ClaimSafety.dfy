/**
  When two claims of a device are separated by a release or a teardown: exactly as long as
  no capture is left over, which in turn is exactly a matter of having enough ports.
 */
module ClaimSafety {
  import opened Common
  import opened SessionTables
  import opened ProviderDaemon
  import opened ClaimProtocol
  import DeviceSupervisor
  import PortAllocator

  // ---------------------------------------------------------------- run by run

  /**
    In every run the provider claims of each device are separated by its releases and
    teardowns exactly when no claim resumed a capture left over by an earlier one.
   */
  lemma ProviderClaimsSeparated(minPort: int, maxPort: int, steps: seq<Step>)
    ensures var trace := Run(Start(minPort, maxPort), steps).provider.trace;
            Separated(trace) <==> NoneResumed(trace)
    ensures ClaimedHasSession(Run(Start(minPort, maxPort), steps).tables)
  {
    hide Run, Start, Separated, NoneResumed, ClaimedHasSession, ActionsInv, Holding, PortAllocator.Valid;
    RunInv(minPort, maxPort, steps);
    SeparatedExact(Run(Start(minPort, maxPort), steps).provider.trace);
  }

  /**
    Two successful claims of one device are two provider claims, and a release or teardown
    lies between these exactly when a claim after the first and up to the second started
    a capture of its own.
   */
  lemma SuccessesSeparated(minPort: int, maxPort: int, steps: seq<Step>, a: ActionId, b: ActionId)
    returns (i: nat, j: nat)
    requires var acts := Run(Start(minPort, maxPort), steps).actions;
             && a in acts && b in acts && a != b
             && acts[a].ClaimSucceeded? && acts[b].ClaimSucceeded? && acts[a].serial == acts[b].serial
    ensures var s := Run(Start(minPort, maxPort), steps);
            var trace, x := s.provider.trace, s.actions[a].serial;
            && i < |trace| && j < |trace| && i != j
            && ClaimFor(trace[i], a, x) && ClaimFor(trace[j], b, x)
            && var first, second := if i < j then i else j, if i < j then j else i;
               (exists k :: first < k < second && Ends(trace[k], x))
               <==> exists k :: first < k <= second && IsClaim(trace[k], x) && !trace[k].resumed
  {
    hide Run, Start, Holding, Marked, PortAllocator.Valid, ClaimedHasSession;
    RunInv(minPort, maxPort, steps);
    var s := Run(Start(minPort, maxPort), steps);
    var trace, x := s.provider.trace, s.actions[a].serial;
    assert ActionInv(s, a) && ActionInv(s, b);
    i :| 0 <= i < |trace| && ClaimFor(trace[i], a, x);
    j :| 0 <= j < |trace| && ClaimFor(trace[j], b, x);
    EndBetweenExact(trace, if i < j then i else j, if i < j then j else i, x);
  }

  // ---------------------------------------------------------------- runs with ports

  /** A device is in use although `Run` gave up on it: it is claimed then, or gets no port while in use. */
  predicate Strands(s: State, step: Step) {
    match step
    case OfDevice(d) => RefusesPort(s.provider, d)
    case OfClaim(ArriveClaim(a, captures, _)) =>
      a in s.wire.claims
      && s.provider.Claimable(s.wire.claims[a], captures)
      && s.provider.SupervisorOf(s.wire.claims[a]).phase == DeviceSupervisor.GaveUp
    case _ => false
  }

  /** No step of the run strands a device. */
  predicate Supplied(s: State, steps: seq<Step>)
    decreases |steps|
  {
    steps == [] || (!Strands(s, steps[0]) && Supplied(Apply(s, steps[0]), steps[1..]))
  }

  ghost predicate Safe(p: Provider) {
    ProviderInv(p) && NoneStranded(p) && NoneResumed(p.trace)
  }

  lemma AppendNotResumed(trace: seq<Event>, e: Event)
    requires NoneResumed(trace) && (e.ProviderClaimed? ==> !e.resumed)
    ensures NoneResumed(trace + [e])
  {
  }

  lemma SafeStep(s: State, step: Step)
    requires Inv(s) && Safe(s.provider) && !Strands(s, step)
    ensures Safe(Apply(s, step).provider)
  {
    hide ProviderInv, ActionsInv, NoneStranded, NoneResumed, After, RefusesPort,
         TablesAfter, CanCreate, AfterCreate, AfterClose;
    StepInv(s, step);
    var p := s.provider;
    match step
    case OfDevice(d) =>
      AfterStrandsNone(p, d);
      AppendNotResumed(p.trace, TornDown(d.serial));
    case OfClaim(c) =>
      if c.ArriveClaim? && c.action in s.wire.claims && p.Claimable(s.wire.claims[c.action], c.captures) {
        var x := s.wire.claims[c.action];
        ClaimStrandsNone(p, c.action, x);
        AppendNotResumed(p.trace, ProviderClaimed(c.action, x, false));
      }
    case OfRelease(r) =>
      if r.ArriveRelease? && r.action in s.wire.releases {
        ReleaseStrandsNone(p, s.wire.releases[r.action]);
        AppendNotResumed(p.trace, ProviderReleased(s.wire.releases[r.action]));
      }
    case OfStatus(_) =>
  }

  /** With ports, devices stay un-stranded and claims separated. */
  lemma {:induction false} SafeRun(s: State, steps: seq<Step>)
    requires Inv(s) && Safe(s.provider) && Supplied(s, steps)
    ensures Inv(Run(s, steps)) && Safe(Run(s, steps).provider)
    decreases |steps|
  {
    hide Inv, Safe, Apply, Strands;
    if steps == [] {
    } else {
      StepInv(s, steps[0]);
      SafeStep(s, steps[0]);
      SafeRun(Apply(s, steps[0]), steps[1..]);
    }
  }

  // ---------------------------------------------------------------- a claim from any state

  /** Makes the device known and unclaimed. */
  function Reviving(x: Serial): seq<Step> {
    [OfStatus(Register("", x))] + ([OfStatus(Vanish(x))] + [OfStatus(Ping(x))])
  }

  function Requesting(a: ActionId, x: Serial, id: SessionId): seq<Step> {
    [OfClaim(BeginClaim(a, x, id, true))] + ([OfClaim(LookUp(a, true))] + [OfClaim(SendClaim(a))])
  }

  function Answering(a: ActionId): seq<Step> {
    [OfClaim(ArriveClaim(a, true, 0))] + ([OfClaim(ReceiveReply(a))] + [OfClaim(StorePort(a, true))])
  }

  function ClaimSteps(a: ActionId, x: Serial, id: SessionId): seq<Step> {
    Reviving(x) + (Requesting(a, x, id) + Answering(a))
  }

  /** An action id, session id and device that a new claim can use. */
  predicate Ready(s: State, a: ActionId, x: Serial, id: SessionId) {
    && a !in s.actions && a !in s.wire.claims && a !in s.wire.replies && id !in s.tables.sessions
    && s.provider.SupervisorOf(x).Up? && s.provider.SupervisorOf(x).use.Free?
  }

  lemma RevivingFacts(s: State, x: Serial)
    ensures var t := Run(s, Reviving(x));
            && t.actions == s.actions && t.wire == s.wire && t.provider == s.provider
            && t.tables.sessions == s.tables.sessions
            && x in t.tables.devices && t.tables.devices[x].status == Idle
  {
    hide Run;
    RunThree(s, OfStatus(Register("", x)), OfStatus(Vanish(x)), OfStatus(Ping(x)));
  }

  lemma RequestingFacts(s: State, a: ActionId, x: Serial, id: SessionId)
    requires Ready(s, a, x, id) && x in s.tables.devices && s.tables.devices[x].status == Idle
    ensures var t := Run(s, Requesting(a, x, id));
            && t.actions == s.actions[a := ClaimWaiting(x)] && t.wire == s.wire.(claims := s.wire.claims[a := x])
            && t.provider == s.provider && t.tables.sessions == s.tables.sessions[id := SessionRow(x, true)]
  {
    hide Run, AfterClose, AfterStreamPort;
    RunThree(s, OfClaim(BeginClaim(a, x, id, true)), OfClaim(LookUp(a, true)), OfClaim(SendClaim(a)));
    assert CanCreate(s.tables, id, x);
    var s1 := Apply(s, OfClaim(BeginClaim(a, x, id, true)));
    assert s1.actions == s.actions[a := ClaimLookup(x)] && s1.wire == s.wire && s1.provider == s.provider;
    var s2 := Apply(s1, OfClaim(LookUp(a, true)));
    assert s2.actions == s.actions[a := ClaimReady(x)] && s2.wire == s.wire && s2.provider == s.provider;
  }

  lemma AnsweringFacts(s: State, a: ActionId, x: Serial)
    requires a in s.actions && s.actions[a] == ClaimWaiting(x) && a in s.wire.claims && s.wire.claims[a] == x
    requires s.provider.SupervisorOf(x).Up? && s.provider.SupervisorOf(x).use.Free?
    ensures var t := Run(s, Answering(a));
            && t.actions == s.actions[a := ClaimSucceeded(x)] && t.provider == s.provider.Claim(a, x)
            && t.tables.sessions == s.tables.sessions
  {
    hide Run, AfterClose, CanCreate, AfterCreate;
    RunThree(s, OfClaim(ArriveClaim(a, true, 0)), OfClaim(ReceiveReply(a)), OfClaim(StorePort(a, true)));
    var s1 := Apply(s, OfClaim(ArriveClaim(a, true, 0)));
    assert s1.actions == s.actions && s1.provider == s.provider.Claim(a, x) && s1.wire.replies[a] == Some(0);
    var s2 := Apply(s1, OfClaim(ReceiveReply(a)));
    assert s2.actions == s.actions[a := ClaimAccepted(x, 0)] && s2.provider == s1.provider && s2.wire == s1.wire;
  }

  lemma RunThree(s: State, a: Step, b: Step, c: Step)
    ensures Run(s, [a] + ([b] + [c])) == Apply(Apply(Apply(s, a), b), c)
  {
    hide Apply, Run;
    RunFirst(s, a, [b] + [c]);
    RunFirst(Apply(s, a), b, [c]);
    RunOne(Apply(Apply(s, a), b), c);
  }

  /** From any state a claim of an idle device can succeed. */
  lemma ClaimSucceeds(s: State, a: ActionId, x: Serial, id: SessionId)
    requires Ready(s, a, x, id)
    ensures var t := Run(s, ClaimSteps(a, x, id));
            && t.actions == s.actions[a := ClaimSucceeded(x)] && t.provider == s.provider.Claim(a, x)
            && t.tables.sessions == s.tables.sessions[id := SessionRow(x, true)]
  {
    hide Run, Reviving, Requesting, Answering;
    var s1 := Run(s, Reviving(x));
    RevivingFacts(s, x);
    var s2 := Run(s1, Requesting(a, x, id));
    RequestingFacts(s1, a, x, id);
    AnsweringFacts(s2, a, x);
    RunConcat(s, Reviving(x), Requesting(a, x, id) + Answering(a));
    RunConcat(s1, Requesting(a, x, id), Answering(a));
  }

  // ---------------------------------------------------------------- stranded devices are the danger

  lemma SuppliedFirst(s: State, step: Step, rest: seq<Step>)
    requires !Strands(s, step) && Supplied(Apply(s, step), rest)
    ensures Supplied(s, [step] + rest)
  {
    hide Apply, Strands;
    assert ([step] + rest)[1..] == rest;
  }

  /** Steps that are neither device steps nor the arrival of a claim strand nothing. */
  lemma {:induction false} SuppliedPlain(s: State, steps: seq<Step>)
    requires forall i :: 0 <= i < |steps| ==>
               !steps[i].OfDevice? && (steps[i].OfClaim? ==> !steps[i].claim.ArriveClaim?)
    ensures Supplied(s, steps)
    decreases |steps|
  {
    hide Apply;
    if steps == [] {
    } else {
      assert !Strands(s, steps[0]);
      SuppliedPlain(Apply(s, steps[0]), steps[1..]);
    }
  }

  lemma {:induction false} SuppliedConcat(s: State, a: seq<Step>, b: seq<Step>)
    requires Supplied(s, a) && Supplied(Run(s, a), b)
    ensures Supplied(s, a + b)
    decreases |a|
  {
    hide Apply, Strands;
    if a == [] {
      assert a + b == b;
    } else {
      assert (a + b)[1..] == a[1..] + b;
      SuppliedConcat(Apply(s, a[0]), a[1..], b);
    }
  }

  lemma ClaimStepsSupplied(s: State, a: ActionId, x: Serial, id: SessionId)
    requires Ready(s, a, x, id) && s.provider.SupervisorOf(x).phase != DeviceSupervisor.GaveUp
    ensures Supplied(s, ClaimSteps(a, x, id))
  {
    hide Apply, Run, Supplied;
    var s1 := Run(s, Reviving(x));
    RevivingFacts(s, x);
    var s2 := Run(s1, Requesting(a, x, id));
    RequestingFacts(s1, a, x, id);
    var rest := [OfClaim(ReceiveReply(a))] + [OfClaim(StorePort(a, true))];
    SuppliedPlain(Apply(s2, OfClaim(ArriveClaim(a, true, 0))), rest);
    SuppliedFirst(s2, OfClaim(ArriveClaim(a, true, 0)), rest);
    SuppliedPlain(s1, Requesting(a, x, id));
    SuppliedConcat(s1, Requesting(a, x, id), Answering(a));
    SuppliedPlain(s, Reviving(x));
    SuppliedConcat(s, Reviving(x), Requesting(a, x, id) + Answering(a));
  }

  lemma {:induction false} FreshNumber(used: set<nat>) returns (n: nat)
    ensures forall k :: k in used ==> k < n
    decreases |used|
  {
    if used == {} {
      n := 0;
    } else {
      var m :| m in used;
      var rest := FreshNumber(used - {m});
      n := if m < rest then rest else m + 1;
      assert forall k :: k in used ==> k == m || k in used - {m};
    }
  }

  lemma ReadyIds(s: State, x: Serial) returns (a: ActionId, id: SessionId)
    requires ActionsInv(s) && s.provider.SupervisorOf(x).Up? && s.provider.SupervisorOf(x).use.Free?
    ensures Ready(s, a, x, id)
  {
    hide ActionInv;
    a := FreshNumber(s.actions.Keys);
    id := FreshNumber(s.tables.sessions.Keys);
  }

  /** Brings an idle supervisor that can get a port in front of a stranded device. */
  function Reconnecting(p: Provider, x: Serial): seq<Step> {
    match p.SupervisorOf(x)
    case Absent => [OfDevice(Connect(x))]
    case Up(phase, _) =>
      if phase == DeviceSupervisor.GaveUp then [OfDevice(Disconnect(x))] + [OfDevice(Connect(x))] else []
    case Stopping(_) => []
  }

  lemma Reconnected(s: State, x: Serial)
    requires Stranded(s.provider, x)
    ensures Supplied(s, Reconnecting(s.provider, x))
    ensures var t := Run(s, Reconnecting(s.provider, x));
            && t.actions == s.actions && t.wire == s.wire && t.tables == s.tables
            && t.provider.trace == s.provider.trace && t.provider.capturing == s.provider.capturing
            && t.provider.SupervisorOf(x).Up? && t.provider.SupervisorOf(x).use.Free?
            && t.provider.SupervisorOf(x).phase != DeviceSupervisor.GaveUp
  {
    var steps := Reconnecting(s.provider, x);
    assert forall s: State :: !Strands(s, OfDevice(Connect(x))) && !Strands(s, OfDevice(Disconnect(x)));
    if |steps| == 2 {
      var s1 := Apply(s, OfDevice(Disconnect(x)));
      hide Run, Supplied, Strands;
      RunFirst(s, OfDevice(Disconnect(x)), [OfDevice(Connect(x))]);
      RunOne(s1, OfDevice(Connect(x)));
      SuppliedOne(s1, OfDevice(Connect(x)));
      SuppliedFirst(s, OfDevice(Disconnect(x)), [OfDevice(Connect(x))]);
    } else if |steps| == 1 {
      hide Run, Supplied, Strands;
      RunOne(s, OfDevice(Connect(x)));
      SuppliedOne(s, OfDevice(Connect(x)));
    }
  }

  lemma SuppliedOne(s: State, step: Step)
    requires !Strands(s, step)
    ensures Supplied(s, [step])
  {
    hide Apply, Strands;
    assert [step][1..] == [];
  }

  /** A stranded device can be claimed again without a release, by steps that strand nothing. */
  lemma StrandedBreaks(s: State, x: Serial) returns (steps: seq<Step>)
    requires Inv(s) && Stranded(s.provider, x)
    ensures Supplied(s, steps) && !NoneResumed(Run(s, steps).provider.trace)
  {
    hide Run, Supplied, Apply, ActionInv, ProviderInv, Stranded;
    var back := Reconnecting(s.provider, x);
    var t := Run(s, back);
    Reconnected(s, x);
    RunFromInv(s, back);
    var a, id := ReadyIds(t, x);
    ClaimStepsSupplied(t, a, x, id);
    ClaimSucceeds(t, a, x, id);
    steps := back + ClaimSteps(a, x, id);
    SuppliedConcat(s, back, ClaimSteps(a, x, id));
    RunConcat(s, back, ClaimSteps(a, x, id));
    assert x in t.provider.capturing by {
      StrandedIsCaptured(s.provider, x);
    }
    var trace := Run(s, steps).provider.trace;
    assert trace[|trace| - 1] == ProviderClaimed(a, x, true);
  }

  lemma StrandedIsCaptured(p: Provider, x: Serial)
    requires Stranded(p, x)
    ensures x in p.capturing
  {
  }

  /**
    As long as claims are separated, a run in which no device without a port is in use can
    still break this exactly if some device is stranded already.
   */
  lemma StrandedExact(minPort: int, maxPort: int, pre: seq<Step>)
    requires Separated(Run(Start(minPort, maxPort), pre).provider.trace)
    ensures var s := Run(Start(minPort, maxPort), pre);
            (exists steps :: Supplied(s, steps) && !Separated(Run(s, steps).provider.trace))
            <==> exists x :: Stranded(s.provider, x)
  {
    hide Run, Start, Supplied, Apply, ActionsInv, Separated, NoneResumed, Stranded, Holding, PortAllocator.Valid;
    var s := Run(Start(minPort, maxPort), pre);
    RunInv(minPort, maxPort, pre);
    SeparatedExact(s.provider.trace);
    if x :| Stranded(s.provider, x) {
      var steps := StrandedBreaks(s, x);
      RunFromInv(s, steps);
      SeparatedExact(Run(s, steps).provider.trace);
    } else {
      forall steps | Supplied(s, steps)
        ensures Separated(Run(s, steps).provider.trace)
      {
        SafeRun(s, steps);
        SeparatedExact(Run(s, steps).provider.trace);
      }
    }
  }

  // ---------------------------------------------------------------- how many ports are enough

  /** At most `n` devices are supervised at any moment of the run. */
  ghost predicate AtMost(s: State, steps: seq<Step>, n: nat)
    decreases |steps|
  {
    |Present(s.provider)| <= n && (steps == [] || AtMost(Apply(s, steps[0]), steps[1..], n))
  }

  ghost predicate NoneGaveUp(p: Provider) {
    forall x: Serial :: p.SupervisorOf(x).Up? ==> p.SupervisorOf(x).phase != DeviceSupervisor.GaveUp
  }

  lemma NoneGaveUpAfter(p: Provider, step: DeviceStep)
    requires ProviderInv(p) && NoneGaveUp(p) && |Present(p)| <= PortAllocator.Slots(p.pool)
    ensures NoneGaveUp(After(p, step)) && !RefusesPort(p, step)
    ensures PortAllocator.Slots(After(p, step).pool) == PortAllocator.Slots(p.pool)
  {
    var x := step.serial;
    if step.TakePort? && !p.SupervisorOf(x).Absent? && p.SupervisorOf(x).phase == DeviceSupervisor.Starting {
      RoomGrants(p, x);
    }
    AllocateKeys(p.pool, x);
    FreeKeys(p.pool, x);
    hide ProviderInv, PortAllocator.AfterAllocate, PortAllocator.AfterFree, PortAllocator.Valid, Present;
    var q := After(p, step);
    forall y: Serial | q.SupervisorOf(y).Up?
      ensures q.SupervisorOf(y).phase != DeviceSupervisor.GaveUp
    {
      assert y != x ==> q.SupervisorOf(y) == p.SupervisorOf(y);
    }
  }

  lemma NoneGaveUpStep(s: State, step: Step)
    requires ProviderInv(s.provider) && NoneGaveUp(s.provider)
    requires |Present(s.provider)| <= PortAllocator.Slots(s.provider.pool)
    ensures NoneGaveUp(Apply(s, step).provider) && !Strands(s, step)
    ensures PortAllocator.Slots(Apply(s, step).provider.pool) == PortAllocator.Slots(s.provider.pool)
  {
    hide ProviderInv, After, RefusesPort, Present, TablesAfter, CanCreate, AfterCreate, AfterClose, AfterStreamPort;
    if step.OfDevice? {
      NoneGaveUpAfter(s.provider, step.device);
    } else {
      var p, q := s.provider, Apply(s, step).provider;
      assert forall y: Serial :: q.SupervisorOf(y).Up? ==>
          p.SupervisorOf(y).Up? && q.SupervisorOf(y).phase == p.SupervisorOf(y).phase;
    }
  }

  /** With a block of ports for every device, no step strands a device. */
  lemma {:induction false} RoomSupplies(s: State, steps: seq<Step>)
    requires Inv(s) && NoneGaveUp(s.provider) && AtMost(s, steps, PortAllocator.Slots(s.provider.pool))
    ensures Supplied(s, steps)
    decreases |steps|
  {
    hide ProviderInv, ActionsInv, ClaimedHasSession, NoneGaveUp, Apply, Strands, Present, PortAllocator.Slots;
    if steps == [] {
    } else {
      NoneGaveUpStep(s, steps[0]);
      StepInv(s, steps[0]);
      RoomSupplies(Apply(s, steps[0]), steps[1..]);
    }
  }

  lemma {:induction false} AtMostConcat(s: State, a: seq<Step>, b: seq<Step>, n: nat)
    requires AtMost(s, a, n) && AtMost(Run(s, a), b, n)
    ensures AtMost(s, a + b, n)
    decreases |a|
  {
    hide Apply, Present;
    if a == [] {
      assert a + b == b;
    } else {
      assert (a + b)[1..] == a[1..] + b;
      AtMostConcat(Apply(s, a[0]), a[1..], b, n);
    }
  }

  lemma PresentKept(s: State, step: Step)
    requires !step.OfDevice?
    ensures Present(Apply(s, step).provider) == Present(s.provider)
  {
    hide TablesAfter, CanCreate, AfterCreate, AfterClose, AfterStreamPort;
    var p, q := s.provider, Apply(s, step).provider;
    assert forall x: Serial :: q.SupervisorOf(x).Absent? <==> p.SupervisorOf(x).Absent?;
    forall x: Serial
      ensures x in Present(p) <==> !p.SupervisorOf(x).Absent?
      ensures x in Present(q) <==> !q.SupervisorOf(x).Absent?
    {
    }
  }

  lemma {:induction false} AtMostKept(s: State, steps: seq<Step>, n: nat)
    requires |Present(s.provider)| <= n && forall i :: 0 <= i < |steps| ==> !steps[i].OfDevice?
    ensures AtMost(s, steps, n)
    decreases |steps|
  {
    hide Apply, Present;
    if steps == [] {
    } else {
      PresentKept(s, steps[0]);
      AtMostKept(Apply(s, steps[0]), steps[1..], n);
    }
  }

  lemma AtMostFirst(s: State, step: Step, rest: seq<Step>, n: nat)
    requires |Present(s.provider)| <= n && AtMost(Apply(s, step), rest, n)
    ensures AtMost(s, [step] + rest, n)
  {
    hide Apply, Present;
    assert ([step] + rest)[1..] == rest;
  }

  // ---------------------------------------------------------------- one device too many

  function Names(n: nat): set<Serial> {
    if n == 0 then {} else Names(n - 1) + {PortAllocator.Name(n - 1)}
  }

  lemma {:induction false} NamesSize(n: nat)
    ensures |Names(n)| == n && forall x :: x in Names(n) ==> |x| < n
  {
    if n == 0 {
    } else {
      NamesSize(n - 1);
      assert |PortAllocator.Name(n - 1)| == n - 1;
    }
  }

  function Joining(x: Serial): seq<Step> {
    [OfDevice(Connect(x))] + [OfDevice(TakePort(x))]
  }

  function Filling(n: nat): seq<Step> {
    if n == 0 then [] else Filling(n - 1) + Joining(PortAllocator.Name(n - 1))
  }

  /** Nothing but idle supervisors of the devices `xs`, all with a port. */
  ghost predicate Idling(s: State, xs: set<Serial>) {
    && s.actions == map[] && s.wire == Wire(map[], map[], map[]) && s.tables.sessions == map[]
    && s.provider.trace == [] && s.provider.capturing == {}
    && s.provider.supervisors.Keys == xs
    && forall x :: x in xs ==> s.provider.supervisors[x] == Up(DeviceSupervisor.Running, Free)
  }

  lemma IdlingPresent(s: State, xs: set<Serial>)
    requires Inv(s) && Idling(s, xs)
    ensures Present(s.provider) == xs && s.provider.pool.bySerial.Keys == xs
  {
    hide ActionsInv, Holding, Marked, PortAllocator.Valid, ClaimedHasSession;
    forall x: Serial
      ensures x in s.provider.pool.bySerial.Keys <==> x in xs
      ensures x in Present(s.provider) <==> x in xs
    {
    }
  }

  lemma Joined(s: State, xs: set<Serial>, x: Serial)
    requires Idling(s, xs) && x !in xs
    ensures var p := s.provider;
            var t := Run(s, Joining(x));
            && (p.Grants(x) ==> Idling(t, xs + {x}))
            && (!p.Grants(x) ==> t == s.(provider := p.Move(x, Up(DeviceSupervisor.GaveUp, Free))))
            && Present(t.provider) == xs + {x}
            && Present(Apply(s, OfDevice(Connect(x))).provider) == xs + {x}
  {
    hide PortAllocator.AfterAllocate;
    var p := s.provider;
    var s1 := Apply(s, OfDevice(Connect(x)));
    assert s1.provider == p.Move(x, Up(DeviceSupervisor.Starting, Free));
    assert p.supervisors[x := Up(DeviceSupervisor.Starting, Free)][x := Up(DeviceSupervisor.GaveUp, Free)]
        == p.supervisors[x := Up(DeviceSupervisor.GaveUp, Free)];
    RunFirst(s, OfDevice(Connect(x)), [OfDevice(TakePort(x))]);
    RunOne(s1, OfDevice(TakePort(x)));
    hide Run;
    assert Present(s1.provider) == xs + {x};
    assert Present(Apply(s1, OfDevice(TakePort(x))).provider) == xs + {x};
  }

  lemma JoiningCount(s: State, xs: set<Serial>, x: Serial)
    requires Idling(s, xs) && Present(s.provider) == xs && x !in xs
    ensures AtMost(s, Joining(x), |xs| + 1)
  {
    Joined(s, xs, x);
    hide Idling, Present, Apply, Run;
    var s1 := Apply(s, OfDevice(Connect(x)));
    RunFirst(s, OfDevice(Connect(x)), [OfDevice(TakePort(x))]);
    RunOne(s1, OfDevice(TakePort(x)));
    AtMostKept(Apply(s1, OfDevice(TakePort(x))), [], |xs| + 1);
    AtMostFirst(s1, OfDevice(TakePort(x)), [], |xs| + 1);
    assert [OfDevice(TakePort(x))] + [] == [OfDevice(TakePort(x))];
    AtMostFirst(s, OfDevice(Connect(x)), [OfDevice(TakePort(x))], |xs| + 1);
  }

  /** On an idle provider a new device is granted a port exactly if not all blocks are taken. */
  lemma IdlingGrants(s: State, xs: set<Serial>, x: Serial)
    requires Inv(s) && Idling(s, xs) && x !in xs
    ensures s.provider.Grants(x) <==> |xs| < PortAllocator.Slots(s.provider.pool)
  {
    hide ActionsInv, Holding, Marked, PortAllocator.Valid, PortAllocator.Search, ClaimedHasSession;
    IdlingPresent(s, xs);
    PortAllocator.ExhaustedExact(s.provider.pool);
  }

  /** A device that joins an idle provider gets a port, or `Run` gives up on it. */
  lemma JoiningFacts(s: State, xs: set<Serial>, x: Serial)
    requires Inv(s) && Idling(s, xs) && x !in xs
    ensures var t := Run(s, Joining(x));
            && Inv(t) && Present(t.provider) == xs + {x}
            && (|xs| < PortAllocator.Slots(s.provider.pool) ==> Idling(t, xs + {x}))
            && (|xs| >= PortAllocator.Slots(s.provider.pool) ==>
                  t == s.(provider := s.provider.Move(x, Up(DeviceSupervisor.GaveUp, Free))))
    ensures AtMost(s, Joining(x), |xs| + 1)
  {
    hide Inv, Idling, Run, Joining, AtMost, Present;
    RunFromInv(s, Joining(x));
    IdlingPresent(s, xs);
    IdlingGrants(s, xs, x);
    Joined(s, xs, x);
    JoiningCount(s, xs, x);
  }

  lemma {:induction false} SlotsKept(s: State, steps: seq<Step>)
    ensures PortAllocator.Slots(Run(s, steps).provider.pool) == PortAllocator.Slots(s.provider.pool)
    decreases |steps|
  {
    hide Apply;
    if steps == [] {
    } else {
      SlotsKeptStep(s, steps[0]);
      SlotsKept(Apply(s, steps[0]), steps[1..]);
    }
  }

  lemma SlotsKeptStep(s: State, step: Step)
    ensures PortAllocator.Slots(Apply(s, step).provider.pool) == PortAllocator.Slots(s.provider.pool)
  {
    hide TablesAfter, CanCreate, AfterCreate, AfterClose, AfterStreamPort, PortAllocator.Search;
  }

  lemma OneMore(start: State, pre: seq<Step>, xs: set<Serial>, x: Serial)
    requires Inv(Run(start, pre)) && Idling(Run(start, pre), xs) && x !in xs && AtMost(start, pre, |xs|)
    requires |xs| < PortAllocator.Slots(start.provider.pool)
    ensures Idling(Run(start, pre + Joining(x)), xs + {x}) && AtMost(start, pre + Joining(x), |xs| + 1)
  {
    hide Inv, Run, AtMost, Idling, Joining, Present, PortAllocator.Slots;
    SlotsKept(start, pre);
    JoiningFacts(Run(start, pre), xs, x);
    RunConcat(start, pre, Joining(x));
    AtMostMore(start, pre, |xs|, |xs| + 1);
    AtMostConcat(start, pre, Joining(x), |xs| + 1);
  }

  /** As many devices as there are blocks can be connected and get a port each. */
  lemma {:induction false} FillingFacts(minPort: int, maxPort: int, n: nat)
    requires n <= PortAllocator.Slots(PortAllocator.Fresh(minPort, maxPort))
    ensures Idling(Run(Start(minPort, maxPort), Filling(n)), Names(n))
    ensures AtMost(Start(minPort, maxPort), Filling(n), n)
  {
    hide Run, AtMost, Start, Inv, Idling, Joining, PortAllocator.Slots, PortAllocator.Name;
    if n == 0 {
      StartIdles(minPort, maxPort);
    } else {
      FillingFacts(minPort, maxPort, n - 1);
      var x := NewName(n - 1);
      RunInv(minPort, maxPort, Filling(n - 1));
      StartSlots(minPort, maxPort);
      OneMore(Start(minPort, maxPort), Filling(n - 1), Names(n - 1), x);
    }
  }

  lemma NewName(n: nat) returns (x: Serial)
    ensures x == PortAllocator.Name(n) && x !in Names(n) && |Names(n)| == n
  {
    x := PortAllocator.Name(n);
    assert |x| == n;
    NamesSize(n);
  }

  lemma StartSlots(minPort: int, maxPort: int)
    ensures PortAllocator.Slots(Start(minPort, maxPort).provider.pool)
            == PortAllocator.Slots(PortAllocator.Fresh(minPort, maxPort))
  {
  }

  lemma StartIdles(minPort: int, maxPort: int)
    ensures Idling(Run(Start(minPort, maxPort), Filling(0)), Names(0))
    ensures AtMost(Start(minPort, maxPort), Filling(0), 0)
  {
    assert Present(Start(minPort, maxPort).provider) == {};
  }

  lemma {:induction false} AtMostMore(s: State, steps: seq<Step>, m: nat, n: nat)
    requires m <= n && AtMost(s, steps, m)
    ensures AtMost(s, steps, n)
    decreases |steps|
  {
    hide Apply, Present;
    if steps == [] {
    } else {
      AtMostMore(Apply(s, steps[0]), steps[1..], m, n);
    }
  }

  function Replugging(x: Serial): seq<Step> {
    [OfDevice(Disconnect(x))] + [OfDevice(Connect(x))]
  }

  /** A held device without a port that is unplugged and plugged in again is idle, still captured. */
  lemma Replugged(s: State, x: Serial)
    requires s.provider.SupervisorOf(x) == Up(DeviceSupervisor.GaveUp, Held(false))
    ensures var t := Run(s, Replugging(x));
            && t == s.(provider := s.provider.Move(x, Up(DeviceSupervisor.Starting, Free)))
            && (forall n: nat :: |Present(s.provider)| <= n ==> AtMost(s, Replugging(x), n))
  {
    var p := s.provider;
    var s1 := Apply(s, OfDevice(Disconnect(x)));
    var s2 := Apply(s1, OfDevice(Connect(x)));
    RunFirst(s, OfDevice(Disconnect(x)), [OfDevice(Connect(x))]);
    RunOne(s1, OfDevice(Connect(x)));
    assert s1.provider == p.Move(x, Absent);
    assert p.supervisors[x := Absent][x := Up(DeviceSupervisor.Starting, Free)]
        == p.supervisors[x := Up(DeviceSupervisor.Starting, Free)];
    assert Present(s1.provider) == Present(p) - {x};
    assert Present(s2.provider) == Present(p);
    hide Apply, Run, Present;
    forall n: nat | |Present(p)| <= n
      ensures AtMost(s, Replugging(x), n)
    {
      AtMostKept(s2, [], n);
      AtMostFirst(s1, OfDevice(Connect(x)), [], n);
      assert [OfDevice(Connect(x))] + [] == [OfDevice(Connect(x))];
      AtMostFirst(s, OfDevice(Disconnect(x)), [OfDevice(Connect(x))], n);
    }
  }

  /** The device without a port is claimed, unplugged, plugged in again and claimed again. */
  function Twice(x: Serial): seq<Step> {
    ClaimSteps(0, x, 0) + (Replugging(x) + ClaimSteps(1, x, 1))
  }

  lemma TwiceClaimed(s: State, x: Serial)
    requires Inv(s) && s.actions == map[] && s.tables.sessions == map[] && s.provider.trace == []
    requires s.provider.SupervisorOf(x) == Up(DeviceSupervisor.GaveUp, Free)
    ensures var t := Run(s, Twice(x));
            && t.actions == map[0 := ClaimSucceeded(x), 1 := ClaimSucceeded(x)]
            && |t.provider.trace| == 2
            && ClaimFor(t.provider.trace[0], 0, x) && ClaimFor(t.provider.trace[1], 1, x)
    ensures AtMost(s, Twice(x), |Present(s.provider)|)
  {
    hide Run, ActionInv, ProviderInv, AtMost, Present, ClaimSteps, Replugging;
    var n := |Present(s.provider)|;
    assert Ready(s, 0, x, 0);
    var s1 := Run(s, ClaimSteps(0, x, 0));
    ClaimSucceeds(s, 0, x, 0);
    RunFromInv(s, ClaimSteps(0, x, 0));
    ClaimCounted(s, 0, x, 0);
    var s2 := Run(s1, Replugging(x));
    Replugged(s1, x);
    RunFromInv(s1, Replugging(x));
    assert Ready(s2, 1, x, 1);
    ClaimSucceeds(s2, 1, x, 1);
    ClaimCounted(s2, 1, x, 1);
    RunConcat(s, ClaimSteps(0, x, 0), Replugging(x) + ClaimSteps(1, x, 1));
    RunConcat(s1, Replugging(x), ClaimSteps(1, x, 1));
    assert Present(s2.provider) == Present(s1.provider) by {
      PresentMoved(s1.provider, x, Up(DeviceSupervisor.Starting, Free));
    }
    AtMostConcat(s1, Replugging(x), ClaimSteps(1, x, 1), n);
    AtMostConcat(s, ClaimSteps(0, x, 0), Replugging(x) + ClaimSteps(1, x, 1), n);
  }

  lemma PresentMoved(p: Provider, x: Serial, next: Supervisor)
    requires !p.SupervisorOf(x).Absent? && !next.Absent?
    ensures Present(p.Move(x, next)) == Present(p)
  {
  }

  lemma ClaimCounted(s: State, a: ActionId, x: Serial, id: SessionId)
    requires Ready(s, a, x, id)
    ensures Present(Run(s, ClaimSteps(a, x, id)).provider) == Present(s.provider)
    ensures AtMost(s, ClaimSteps(a, x, id), |Present(s.provider)|)
  {
    var steps := ClaimSteps(a, x, id);
    assert forall i :: 0 <= i < |steps| ==> !steps[i].OfDevice?;
    hide Run, AtMost, Present, ClaimSteps;
    AtMostKept(s, steps, |Present(s.provider)|);
    ClaimSucceeds(s, a, x, id);
    PresentMoved(s.provider, x, Up(s.provider.SupervisorOf(x).phase, Held(false)));
    PresentSame(s.provider.Claim(a, x), s.provider.Move(x, Up(s.provider.SupervisorOf(x).phase, Held(false))));
  }

  lemma PresentSame(p: Provider, q: Provider)
    requires p.supervisors == q.supervisors
    ensures Present(p) == Present(q)
  {
  }

  /** The failing run: fill the pool, then connect one more device and claim it twice. */
  function Overfilling(slots: nat): seq<Step> {
    Filling(slots) + (Joining(PortAllocator.Name(slots)) + Twice(PortAllocator.Name(slots)))
  }

  /**
    On a provider with any range of ports, one device more than there are blocks can be
    claimed twice, both claims succeeding, with no release and no teardown in between.
   */
  lemma OneTooMany(minPort: int, maxPort: int)
    ensures var slots := PortAllocator.Slots(PortAllocator.Fresh(minPort, maxPort));
            var s := Run(Start(minPort, maxPort), Overfilling(slots));
            var x := PortAllocator.Name(slots);
            && AtMost(Start(minPort, maxPort), Overfilling(slots), slots + 1)
            && s.actions == map[0 := ClaimSucceeded(x), 1 := ClaimSucceeded(x)]
            && |s.provider.trace| == 2
            && ClaimFor(s.provider.trace[0], 0, x) && ClaimFor(s.provider.trace[1], 1, x)
  {
    hide Start, Inv, Run, AtMost, Present, Filling, Joining, Twice, PortAllocator.Slots, PortAllocator.Name;
    var slots := PortAllocator.Slots(PortAllocator.Fresh(minPort, maxPort));
    var start := Start(minPort, maxPort);
    var x := NewName(slots);
    StartSlots(minPort, maxPort);
    FillingFacts(minPort, maxPort, slots);
    var s := Run(start, Filling(slots));
    RunInv(minPort, maxPort, Filling(slots));
    SlotsKept(start, Filling(slots));
    JoiningFacts(s, Names(slots), x);
    var t := Run(s, Joining(x));
    MovedTo(s.provider, x, Up(DeviceSupervisor.GaveUp, Free));
    TwiceClaimed(t, x);
    hide Idling, Names;
    RunConcat(start, Filling(slots), Joining(x) + Twice(x));
    RunConcat(s, Joining(x), Twice(x));
    AtMostConcat(s, Joining(x), Twice(x), slots + 1);
    AtMostMore(start, Filling(slots), slots, slots + 1);
    AtMostConcat(start, Filling(slots), Joining(x) + Twice(x), slots + 1);
  }

  lemma MovedTo(p: Provider, x: Serial, next: Supervisor)
    ensures p.Move(x, next).SupervisorOf(x) == next && p.Move(x, next).trace == p.trace
  {
  }

  /**
    Every run with at most `n` devices supervised at a time keeps provider claims
    separated exactly if the port range holds `n` blocks.
   */
  lemma EnoughPortsExact(minPort: int, maxPort: int, n: nat)
    ensures (forall steps :: AtMost(Start(minPort, maxPort), steps, n)
                             ==> Separated(Run(Start(minPort, maxPort), steps).provider.trace))
            <==> n <= PortAllocator.Slots(PortAllocator.Fresh(minPort, maxPort))
  {
    hide Start, Run, AtMost, Separated, PortAllocator.Slots, Overfilling;
    var slots := PortAllocator.Slots(PortAllocator.Fresh(minPort, maxPort));
    if n <= slots {
      forall steps | AtMost(Start(minPort, maxPort), steps, n)
        ensures Separated(Run(Start(minPort, maxPort), steps).provider.trace)
      {
        AtMostMore(Start(minPort, maxPort), steps, n, slots);
        RoomKeepsSafe(minPort, maxPort, steps);
      }
    } else {
      OneTooMany(minPort, maxPort);
      AtMostMore(Start(minPort, maxPort), Overfilling(slots), slots + 1, n);
      TwoClaimsAlone(Run(Start(minPort, maxPort), Overfilling(slots)).provider.trace, PortAllocator.Name(slots));
    }
  }

  lemma TwoClaimsAlone(trace: seq<Event>, x: Serial)
    requires |trace| == 2 && IsClaim(trace[0], x) && IsClaim(trace[1], x)
    ensures !Separated(trace)
  {
  }

  /** With a block of ports for every supervised device nothing is ever stranded. */
  lemma RoomKeepsSafe(minPort: int, maxPort: int, steps: seq<Step>)
    requires AtMost(Start(minPort, maxPort), steps, PortAllocator.Slots(PortAllocator.Fresh(minPort, maxPort)))
    ensures var p := Run(Start(minPort, maxPort), steps).provider;
            Separated(p.trace) && NoneStranded(p)
  {
    hide Run, AtMost, Separated, NoneResumed, Stranded, Holding, ActionsInv, ClaimedHasSession,
         PortAllocator.Slots, PortAllocator.Valid;
    StartSlots(minPort, maxPort);
    StartInv(minPort, maxPort);
    StartSafe(minPort, maxPort);
    RoomSupplies(Start(minPort, maxPort), steps);
    SafeRun(Start(minPort, maxPort), steps);
    SeparatedExact(Run(Start(minPort, maxPort), steps).provider.trace);
  }

  lemma StartSafe(minPort: int, maxPort: int)
    ensures Safe(Start(minPort, maxPort).provider) && NoneGaveUp(Start(minPort, maxPort).provider)
  {
  }
}
