/**
  The provider's supervisors behave like the per-device state machine that the supervisor
  object is proved against: what the provider shows of a device is a state of that machine,
  and every step of the provider is one of its operations or none.
 */
module Simulation {
  import opened Common
  import opened ProviderDaemon
  import opened ClaimProtocol
  import DeviceSupervisor
  import PortAllocator

  type Device = DeviceSupervisor.Device

  function UseOf(state: DeviceSupervisor.DeviceState): Use {
    match state
    case Claimed => Held(false)
    case Busy => Held(true)
    case _ => Free
  }

  /** The provider's view of a device agrees with the machine in state, phase, capture and port. */
  ghost predicate Shows(p: Provider, x: Serial, d: Device) {
    && d.state != DeviceSupervisor.Releasing
    && p.SupervisorOf(x) == (if d.stopped then Absent else Up(d.phase, UseOf(d.state)))
    && (d.capturing <==> x in p.capturing)
    && (d.portHeld <==> x in p.pool.bySerial)
  }

  // ---------------------------------------------------------------- step by step

  /** A provider claim succeeds exactly where the machine's does, with the same effect. */
  lemma ClaimShows(p: Provider, x: Serial, d: Device, a: ActionId, session: string, captures: bool)
    requires Shows(p, x, d) && !d.stopped && session != ""
    ensures var d' := DeviceSupervisor.Apply(d, DeviceSupervisor.Claim(session, captures));
            && (p.Claimable(x, captures) <==> d' != d)
            && Shows(if p.Claimable(x, captures) then p.Claim(a, x) else p, x, d')
  {
    assert |d.events + [DeviceSupervisor.Transition(d.state, DeviceSupervisor.Claimed, session)]| == |d.events| + 1;
  }

  lemma ReleaseShows(p: Provider, x: Serial, d: Device)
    requires Shows(p, x, d) && !d.stopped
    ensures Shows(p.Release(x), x, DeviceSupervisor.Apply(d, DeviceSupervisor.Release))
  {
  }

  lemma ActivateShows(p: Provider, x: Serial, d: Device)
    requires Shows(p, x, d) && !d.stopped
    ensures Shows(After(p, Activate(x)), x, DeviceSupervisor.Apply(d, DeviceSupervisor.Activate))
  {
  }

  lemma PortShows(p: Provider, x: Serial, d: Device)
    requires ProviderInv(p) && Shows(p, x, d) && !d.stopped
    ensures Shows(After(p, TakePort(x)), x, DeviceSupervisor.Apply(d, DeviceSupervisor.AskPort(p.Grants(x))))
  {
    hide Holding, Marked;
    AllocateKeys(p.pool, x);
    hide PortAllocator.Valid, PortAllocator.AfterAllocate;
  }

  /**
    Disconnecting and, where there is one, the teardown are the machine's `Stop`; before the
    port was asked for, the pending request comes in between.
   */
  lemma StopShows(p: Provider, x: Serial, d: Device)
    requires ProviderInv(p) && Shows(p, x, d) && !d.stopped
    ensures var q := After(p, Disconnect(x));
            && (d.phase != DeviceSupervisor.Starting ==>
                  Shows(After(q, TearDown(x)), x, DeviceSupervisor.Apply(d, DeviceSupervisor.Stop)))
            && (d.phase == DeviceSupervisor.Starting ==>
                  Shows(After(After(q, TakePort(x)), TearDown(x)), x,
                        DeviceSupervisor.Apply(DeviceSupervisor.Apply(d, DeviceSupervisor.AskPort(p.Grants(x))),
                                               DeviceSupervisor.Stop)))
  {
    hide Holding, Marked;
    AllocateKeys(p.pool, x);
    FreeKeys(p.pool, x);
    FreeKeys(PortAllocator.AfterAllocate(p.pool, x), x);
    hide PortAllocator.Valid, PortAllocator.AfterAllocate, PortAllocator.AfterFree;
  }

  lemma ConnectShows(p: Provider, x: Serial)
    requires ProviderInv(p) && p.SupervisorOf(x).Absent?
    ensures Shows(After(p, Connect(x)), x, DeviceSupervisor.Connected(x in p.capturing))
  {
    hide Holding, Marked, PortAllocator.Valid;
  }

  // ---------------------------------------------------------------- every run

  /** The device is in a state that the machine reaches from a connection. */
  ghost predicate Reached(p: Provider, x: Serial) {
    exists leftover, ops :: Shows(p, x, DeviceSupervisor.Run(DeviceSupervisor.Connected(leftover), ops))
  }

  ghost predicate AllReached(p: Provider) {
    forall x: Serial :: p.SupervisorOf(x).Up? ==> Reached(p, x)
  }

  lemma ReachedNext(q: Provider, x: Serial, leftover: bool, ops: seq<DeviceSupervisor.Op>, op: DeviceSupervisor.Op)
    requires var d := DeviceSupervisor.Run(DeviceSupervisor.Connected(leftover), ops);
             Shows(q, x, DeviceSupervisor.Apply(d, op))
    ensures Reached(q, x)
  {
    var next := ops + [op];
    assert next[..|ops|] == ops;
    assert DeviceSupervisor.Run(DeviceSupervisor.Connected(leftover), next)
        == DeviceSupervisor.Apply(DeviceSupervisor.Run(DeviceSupervisor.Connected(leftover), ops), op);
  }

  /** What the provider shows of other devices is left alone. */
  ghost predicate SameElsewhere(p: Provider, q: Provider, x: Serial) {
    forall y: Serial :: y != x ==>
      && q.SupervisorOf(y) == p.SupervisorOf(y)
      && (y in q.capturing <==> y in p.capturing)
      && (y in q.pool.bySerial <==> y in p.pool.bySerial)
  }

  lemma ReachedElsewhere(p: Provider, q: Provider, x: Serial)
    requires AllReached(p) && SameElsewhere(p, q, x) && (q.SupervisorOf(x).Up? ==> Reached(q, x))
    ensures AllReached(q)
  {
    hide DeviceSupervisor.Run;
    forall y: Serial | q.SupervisorOf(y).Up?
      ensures Reached(q, y)
    {
      if y != x {
        var leftover, ops :| Shows(p, y, DeviceSupervisor.Run(DeviceSupervisor.Connected(leftover), ops));
        assert Shows(q, y, DeviceSupervisor.Run(DeviceSupervisor.Connected(leftover), ops));
      }
    }
  }

  lemma AfterElsewhere(p: Provider, step: DeviceStep)
    requires ProviderInv(p)
    ensures SameElsewhere(p, After(p, step), step.serial)
  {
    hide Holding, Marked, PortAllocator.Valid, PortAllocator.AfterAllocate, PortAllocator.AfterFree;
    AllocateKeys(p.pool, step.serial);
    FreeKeys(p.pool, step.serial);
    hide ProviderInv;
    var q := After(p, step);
    forall y: Serial | y != step.serial
      ensures q.SupervisorOf(y) == p.SupervisorOf(y)
    {
    }
  }

  lemma AfterReached(p: Provider, step: DeviceStep)
    requires ProviderInv(p) && AllReached(p)
    ensures AllReached(After(p, step))
  {
    hide ProviderInv, DeviceSupervisor.Run, DeviceSupervisor.Apply;
    var x := step.serial;
    var q := After(p, step);
    AfterElsewhere(p, step);
    if q.SupervisorOf(x).Up? {
      if p.SupervisorOf(x).Absent? {
        ConnectShows(p, x);
        ConnectedReached(q, x, x in p.capturing);
      } else {
        hide Shows;
        assert Reached(p, x);
        var leftover, ops :| Shows(p, x, DeviceSupervisor.Run(DeviceSupervisor.Connected(leftover), ops));
        var d := DeviceSupervisor.Run(DeviceSupervisor.Connected(leftover), ops);
        NotStopped(p, x, d);
        if step.TakePort? {
          PortShows(p, x, d);
          ReachedNext(q, x, leftover, ops, DeviceSupervisor.AskPort(p.Grants(x)));
        } else if step.Activate? {
          ActivateShows(p, x, d);
          ReachedNext(q, x, leftover, ops, DeviceSupervisor.Activate);
        }
      }
    }
    hide After;
    ReachedElsewhere(p, q, x);
  }

  lemma NotStopped(p: Provider, x: Serial, d: Device)
    requires Shows(p, x, d) && p.SupervisorOf(x).Up?
    ensures !d.stopped
  {
  }

  lemma ConnectedReached(q: Provider, x: Serial, leftover: bool)
    requires Shows(q, x, DeviceSupervisor.Connected(leftover))
    ensures Reached(q, x)
  {
    assert DeviceSupervisor.Run(DeviceSupervisor.Connected(leftover), []) == DeviceSupervisor.Connected(leftover);
  }

  lemma ClaimReached(p: Provider, a: ActionId, x: Serial, captures: bool)
    requires AllReached(p) && p.Claimable(x, captures)
    ensures AllReached(p.Claim(a, x))
  {
    hide DeviceSupervisor.Run, DeviceSupervisor.Apply;
    var q := p.Claim(a, x);
    assert Reached(p, x);
    var leftover, ops :| Shows(p, x, DeviceSupervisor.Run(DeviceSupervisor.Connected(leftover), ops));
    ClaimShows(p, x, DeviceSupervisor.Run(DeviceSupervisor.Connected(leftover), ops), a, "session", captures);
    ReachedNext(q, x, leftover, ops, DeviceSupervisor.Claim("session", captures));
    ReachedElsewhere(p, q, x);
  }

  lemma ReleaseReached(p: Provider, x: Serial)
    requires AllReached(p)
    ensures AllReached(p.Release(x))
  {
    hide DeviceSupervisor.Run, DeviceSupervisor.Apply;
    var q := p.Release(x);
    if p.SupervisorOf(x).Up? {
      assert Reached(p, x);
      var leftover, ops :| Shows(p, x, DeviceSupervisor.Run(DeviceSupervisor.Connected(leftover), ops));
      ReleaseShows(p, x, DeviceSupervisor.Run(DeviceSupervisor.Connected(leftover), ops));
      ReachedNext(q, x, leftover, ops, DeviceSupervisor.Release);
    }
    ReachedElsewhere(p, q, x);
  }

  lemma StepReached(s: State, step: Step)
    requires Inv(s) && AllReached(s.provider)
    ensures AllReached(Apply(s, step).provider)
  {
    hide ProviderInv, ActionsInv, AllReached, After, TablesAfter;
    match step
    case OfDevice(d) => AfterReached(s.provider, d);
    case OfClaim(c) =>
      if c.ArriveClaim? && c.action in s.wire.claims && s.provider.Claimable(s.wire.claims[c.action], c.captures) {
        ClaimReached(s.provider, c.action, s.wire.claims[c.action], c.captures);
      }
    case OfRelease(r) =>
      if r.ArriveRelease? && r.action in s.wire.releases {
        ReleaseReached(s.provider, s.wire.releases[r.action]);
      }
    case OfStatus(_) =>
  }

  lemma {:induction false} RunFromReached(s: State, steps: seq<Step>)
    requires Inv(s) && AllReached(s.provider)
    ensures AllReached(Run(s, steps).provider)
    decreases |steps|
  {
    hide Inv, AllReached, Apply;
    if steps == [] {
    } else {
      StepInv(s, steps[0]);
      StepReached(s, steps[0]);
      RunFromReached(Apply(s, steps[0]), steps[1..]);
    }
  }

  /**
    In every run of the claim protocol, every supervisor is in a state of the machine: so
    what holds in every run of the machine holds of every supervisor in the protocol.
   */
  lemma SupervisorsAreMachines(minPort: int, maxPort: int, steps: seq<Step>, x: Serial)
    requires Run(Start(minPort, maxPort), steps).provider.SupervisorOf(x).Up?
    ensures Reached(Run(Start(minPort, maxPort), steps).provider, x)
  {
    hide Inv, Run, Reached;
    var start := Start(minPort, maxPort);
    StartInv(minPort, maxPort);
    RunFromReached(start, steps);
  }
}
