/**
  The per-device state machine of internal/supervisor/device_supervisor.go, together with
  the entries it owns in the provider's stream manager and port allocator.
 */
module DeviceSupervisor {
  import opened Common
  import PortAllocator

  datatype DeviceState = Idle | Claimed | Busy | Releasing

  /**
    How far `Run` has come: it asks for a port first, and returns for good when there is
    none, although the supervisor stays in the map and can still be claimed.
   */
  datatype Phase = Starting | Running | GaveUp

  /** An event sent on a change of state (telemetry events repeat the state and are not kept). */
  datatype Transition = Transition(before: DeviceState, after: DeviceState, session: string)

  /** One device: supervisor fields, its capture and port entries, and the events sent. */
  datatype Device = Device(state: DeviceState, session: string, capturing: bool, portHeld: bool,
                           phase: Phase, stopped: bool, events: seq<Transition>)

  /** `captures`: whether the screen capture starts. Session ids are never empty. */
  datatype Op =
    | AskPort(granted: bool)
    | Claim(session: string, captures: bool)
    | Activate
    | Release
    | Stop

  function Emit(d: Device, next: DeviceState, session: string): Device {
    d.(state := next, session := session, events := d.events + [Transition(d.state, next, session)])
  }

  /**
    One locked operation; nothing is called on a supervisor that was stopped. `Stop` waits
    for `Run`, so it comes once the port was granted or refused; it tears down only a
    supervisor whose `Run` has not returned before.
   */
  function Apply(d: Device, op: Op): Device {
    if d.stopped then d else
    match op
    case AskPort(granted) =>
      if d.phase != Starting then d
      else if granted then d.(phase := Running, portHeld := true) else d.(phase := GaveUp)
    case Claim(session, captures) =>
      if d.state == Idle && (captures || d.capturing) && session != ""
      then Emit(d, Claimed, session).(capturing := true) else d
    case Activate => if d.state == Claimed then Emit(d, Busy, d.session) else d
    case Release => if d.state == Idle || d.state == Releasing then d else Emit(d, Idle, "").(capturing := false)
    case Stop =>
      match d.phase
      case Starting => d
      case Running => d.(session := "", capturing := false, portHeld := false, stopped := true)
      case GaveUp => d.(stopped := true)
  }

  function Run(d: Device, ops: seq<Op>): Device
    decreases |ops|
  {
    if ops == [] then d else Apply(Run(d, ops[..|ops| - 1]), ops[|ops| - 1])
  }

  /** A new supervisor; `leftover`: a capture of the device is still in the stream manager. */
  function Connected(leftover: bool): Device {
    Device(Idle, "", leftover, false, Starting, false, [])
  }

  // ---------------------------------------------------------------- every run

  /** The arrows of the diagram in internal/supervisor/state.go. */
  predicate Arrow(before: DeviceState, after: DeviceState) {
    (before, after) in {(Idle, Claimed), (Claimed, Busy), (Claimed, Idle), (Busy, Idle)}
  }

  /** The events lead from Idle to `state` along the arrows, each from where the last ended. */
  ghost predicate Chain(events: seq<Transition>, state: DeviceState)
    decreases |events|
  {
    if events == [] then state == Idle
    else
      var e := events[|events| - 1];
      && e.after == state && Arrow(e.before, e.after)
      && (e.session != "" <==> e.after != Idle)
      && Chain(events[..|events| - 1], e.before)
  }

  predicate InUse(d: Device) {
    d.state == Claimed || d.state == Busy
  }

  /**
    While the supervisor lives, or after it left without a port: a session is set exactly
    in use, and a capture exists exactly in use, or if it was there before the supervisor
    and no claim was made. After a teardown nothing is held.
   */
  ghost predicate Inv(d: Device, leftover: bool) {
    && Chain(d.events, d.state)
    && d.state != Releasing
    && (d.stopped ==> d.phase != Starting)
    && (d.stopped && d.phase == Running ==> !d.capturing && d.session == "" && !d.portHeld)
    && (!(d.stopped && d.phase == Running) ==>
          && (d.session != "" <==> InUse(d))
          && (d.capturing <==> InUse(d) || (leftover && d.events == []))
          && (d.portHeld <==> d.phase == Running))
  }

  lemma EmitChain(d: Device, next: DeviceState, session: string)
    requires Chain(d.events, d.state) && Arrow(d.state, next) && (session != "" <==> next != Idle)
    ensures Chain(Emit(d, next, session).events, next)
  {
    assert Emit(d, next, session).events[..|d.events|] == d.events;
  }

  lemma ApplyInv(d: Device, op: Op, leftover: bool)
    requires Inv(d, leftover)
    ensures Inv(Apply(d, op), leftover)
  {
    if !d.stopped {
      match op
      case Claim(session, captures) =>
        if d.state == Idle && session != "" {
          EmitChain(d, Claimed, session);
        }
      case Activate =>
        if d.state == Claimed {
          EmitChain(d, Busy, d.session);
        }
      case Release =>
        if InUse(d) {
          EmitChain(d, Idle, "");
        }
      case _ =>
    }
  }

  /** `Inv` in every run: Releasing is never seen and the events follow the diagram. */
  lemma {:induction false} RunInv(leftover: bool, ops: seq<Op>)
    ensures Inv(Run(Connected(leftover), ops), leftover)
  {
    hide Inv, Apply;
    if ops == [] {
      StartInv(leftover);
    } else {
      RunInv(leftover, ops[..|ops| - 1]);
      ApplyInv(Run(Connected(leftover), ops[..|ops| - 1]), ops[|ops| - 1], leftover);
    }
  }

  lemma StartInv(leftover: bool)
    ensures Inv(Connected(leftover), leftover)
  {
  }

  /**
    A stopped supervisor leaves its capture behind exactly when it never got a port and
    was in use, or had not been claimed at all and found the capture when it started.
   */
  lemma LeftBehindExact(leftover: bool, ops: seq<Op>)
    requires Run(Connected(leftover), ops).stopped
    ensures var d := Run(Connected(leftover), ops);
            d.capturing <==> d.phase == GaveUp && (InUse(d) || (leftover && d.events == []))
  {
    hide Apply, Chain;
    RunInv(leftover, ops);
  }

  /** A claim succeeds exactly on an idle device whose capture starts or is left over. */
  lemma ClaimSucceedsWhenIdle(leftover: bool, ops: seq<Op>, session: string, captures: bool)
    requires session != ""
    ensures var d := Run(Connected(leftover), ops);
            Apply(d, Claim(session, captures)) != d
            <==> !d.stopped && d.state == Idle && (captures || (leftover && d.events == []))
  {
    hide Apply;
    RunInv(leftover, ops);
    ClaimEffect(Run(Connected(leftover), ops), session, captures, leftover);
  }

  lemma ClaimEffect(d: Device, session: string, captures: bool, leftover: bool)
    requires Inv(d, leftover) && session != ""
    ensures Apply(d, Claim(session, captures)) != d
            <==> !d.stopped && d.state == Idle && (captures || (leftover && d.events == []))
  {
  }

  /**
    A release right after a claim gives back the device, up to the two events, exactly
    unless the claim took over a leftover capture, which the release then ends.
   */
  lemma ReleaseUndoesClaim(leftover: bool, ops: seq<Op>, session: string, captures: bool)
    requires session != ""
    ensures var d := Run(Connected(leftover), ops);
            var d' := Apply(Apply(d, Claim(session, captures)), Release);
            d.state == Idle && !d.stopped ==> (d'.(events := d.events) == d <==> !(leftover && d.events == []))
  {
    hide Inv, Apply;
    RunInv(leftover, ops);
    ReleaseEffect(Run(Connected(leftover), ops), session, captures, leftover);
  }

  lemma ReleaseEffect(d: Device, session: string, captures: bool, leftover: bool)
    requires Inv(d, leftover) && session != ""
    ensures var d' := Apply(Apply(d, Claim(session, captures)), Release);
            d.state == Idle && !d.stopped ==> (d'.(events := d.events) == d <==> !(leftover && d.events == []))
  {
  }

  /** What each operation does in every run, field by field, where it does anything. */
  lemma OperationEffects(leftover: bool, ops: seq<Op>, session: string, captures: bool)
    requires session != "" && !Run(Connected(leftover), ops).stopped
    ensures var d := Run(Connected(leftover), ops);
            var activated, released, stopped := Apply(d, Activate), Apply(d, Release), Apply(d, Stop);
            && (d.state == Claimed ==>
                  && activated.state == Busy && activated.session == d.session && activated.capturing
                  && activated.events == d.events + [Transition(Claimed, Busy, d.session)])
            && (d.state != Claimed ==> activated == d)
            && (InUse(d) ==>
                  && released.state == Idle && released.session == "" && !released.capturing
                  && released.phase == d.phase && released.portHeld == d.portHeld
                  && released.events == d.events + [Transition(d.state, Idle, "")])
            && (d.state == Idle ==> released == d)
            && (d.phase == Running ==>
                  stopped.stopped && stopped.session == "" && !stopped.capturing && !stopped.portHeld)
            && (d.phase == GaveUp ==> stopped == d.(stopped := true))
    ensures var d := Run(Connected(leftover), ops);
            var claimed := Apply(d, Claim(session, captures));
            d.state == Idle && (captures || (leftover && d.events == [])) ==>
              && claimed.state == Claimed && claimed.session == session && claimed.capturing
              && claimed.phase == d.phase && claimed.portHeld == d.portHeld
              && claimed.events == d.events + [Transition(Idle, Claimed, session)]
    ensures var d := Run(Connected(leftover), ops);
            d.phase == Starting ==>
              && Apply(d, AskPort(true)) == d.(phase := Running, portHeld := true)
              && Apply(d, AskPort(false)) == d.(phase := GaveUp)
  {
    RunInv(leftover, ops);
    hide Run, Chain;
  }

  // ---------------------------------------------------------------- the objects

  /** The `streams` map of the stream manager: captures by serial. */
  class StreamManager {
    var streams: map<Serial, int>

    constructor ()
      ensures streams == map[]
    {
      streams := map[];
    }

    /** `StartCapture`: an active capture counts as success; otherwise it may fail to start. */
    method StartCapture(serial: Serial, port: int, starts: bool) returns (ok: bool)
      modifies this
      ensures ok <==> starts || serial in old(streams)
      ensures streams == if starts && serial !in old(streams) then old(streams)[serial := port] else old(streams)
    {
      if serial in streams {
        return true;
      }
      if !starts {
        return false;
      }
      streams := streams[serial := port];
      return true;
    }

    method StopCapture(serial: Serial)
      modifies this
      ensures streams == old(streams) - {serial}
    {
      streams := streams - {serial};
    }
  }

  class DeviceSupervisor {
    const serial: Serial
    const streams: StreamManager
    const ports: PortAllocator.PortAllocator
    var state: DeviceState
    var sessionID: string
    var port: int
    var phase: Phase
    ghost var events: seq<Transition>
    ghost var stopped: bool

    ghost function View(): Device
      reads this, streams, ports
    {
      Device(state, sessionID, serial in streams.streams, serial in ports.bySerial, phase, stopped, events)
    }

    /** An absent supervisor has no port entry (`ProviderDaemon.ProviderInv`); a capture may be left over. */
    constructor (serial: Serial, streams: StreamManager, ports: PortAllocator.PortAllocator)
      requires serial !in ports.bySerial
      ensures this.serial == serial && this.streams == streams && this.ports == ports
      ensures View() == Connected(serial in streams.streams)
    {
      this.serial, this.streams, this.ports := serial, streams, ports;
      state, sessionID, port, phase := Idle, "", 0, Starting;
      events, stopped := [], false;
    }

    /** The start of `Run`: without a port it returns and nothing is torn down later. */
    method AllocatePort() returns (granted: bool)
      requires !stopped && phase == Starting
      modifies this, ports
      ensures View() == Apply(old(View()), AskPort(granted))
      ensures granted <==>
              || serial in old(ports.bySerial)
              || exists q :: PortAllocator.Slot(old(ports.View()), q) && q !in old(ports.used)
      ensures port == if granted then ports.bySerial[serial] else old(port)
    {
      var p := ports.Allocate(serial);
      if p.None? {
        phase := GaveUp;
        return false;
      }
      port := p.value;
      phase := Running;
      return true;
    }

    /** `captures` tells whether the capture starts; `session` is the new id. */
    method Claim(session: string, captures: bool) returns (id: Option<string>)
      requires !stopped && session != ""
      modifies this, streams
      ensures View() == Apply(old(View()), Op.Claim(session, captures))
      ensures id == (if old(state) == Idle && (captures || serial in old(streams.streams)) then Some(session) else None)
      ensures forall x :: x != serial ==> (x in streams.streams <==> x in old(streams.streams))
    {
      if state != Idle {
        return None;
      }
      var ok := streams.StartCapture(serial, port, captures);
      if !ok {
        return None;
      }
      events := events + [Transition(state, Claimed, session)];
      state, sessionID := Claimed, session;
      return Some(session);
    }

    method Activate() returns (ok: bool)
      requires !stopped
      modifies this
      ensures View() == Apply(old(View()), Op.Activate)
      ensures ok <==> old(state) == Claimed
    {
      if state != Claimed {
        return false;
      }
      events := events + [Transition(state, Busy, sessionID)];
      state := Busy;
      return true;
    }

    method Release()
      requires !stopped
      modifies this, streams
      ensures View() == Apply(old(View()), Op.Release)
      ensures forall x :: x != serial ==> (x in streams.streams <==> x in old(streams.streams))
    {
      if state == Idle || state == Releasing {
        return;
      }
      ghost var before := state;
      state := Releasing;
      sessionID := "";
      streams.StopCapture(serial);
      state := Idle;
      events := events + [Transition(before, Idle, "")];
    }

    method Teardown()
      requires !stopped && phase == Running
      modifies this, streams, ports
      ensures View() == Apply(old(View()), Op.Stop)
      ensures forall x :: x != serial ==> (x in streams.streams <==> x in old(streams.streams))
      ensures ports.View() == PortAllocator.AfterFree(old(ports.View()), serial)
    {
      sessionID := "";
      streams.StopCapture(serial);
      ports.Free(serial);
      stopped := true;
    }

    /** `Stop` once `Run` has asked for its port: it waits for the teardown, if `Run` is still there to do it. */
    method Stop()
      requires !stopped && phase != Starting
      modifies this, streams, ports
      ensures View() == Apply(old(View()), Op.Stop)
      ensures old(phase) == GaveUp ==> streams.streams == old(streams.streams) && ports.View() == old(ports.View())
    {
      if phase == Running {
        Teardown();
      } else {
        stopped := true;
      }
    }
  }
}
