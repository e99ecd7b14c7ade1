/**
  The provider daemon as claims and releases see it: the supervisors of
  internal/supervisor/supervisor.go with the phase of their `Run`, the port pool and the
  captures they share, and a trace of what was claimed and what was ended.

  A supervisor whose `Run` found no port stays in the map and can be claimed, but nothing
  is torn down when its device disconnects (internal/supervisor/device_supervisor.go:81-86):
  its capture is left over, and the next claim of the device resumes it.
 */
module ProviderDaemon {
  import opened Common
  import opened DeviceSupervisor
  import PortAllocator

  type ActionId = nat

  datatype Use = Free | Held(busy: bool)

  /** `Stopping` is out of the map, but its `Run` has not returned. */
  datatype Supervisor = Absent | Up(phase: Phase, use: Use) | Stopping(phase: Phase)

  /** What happened, in order; `resumed`: the claim found a capture already active. */
  datatype Event =
    | ProviderClaimed(action: ActionId, serial: Serial, resumed: bool)
    | ProviderReleased(serial: Serial)
    | TornDown(serial: Serial)

  datatype DeviceStep =
    | Connect(serial: Serial)
    | TakePort(serial: Serial)
    | Activate(serial: Serial)
    | Disconnect(serial: Serial)
    | TearDown(serial: Serial)

  datatype Provider = Provider(supervisors: map<Serial, Supervisor>, pool: PortAllocator.Pool,
                               capturing: set<Serial>, trace: seq<Event>)
  {
    function SupervisorOf(x: Serial): Supervisor {
      if x in supervisors then supervisors[x] else Absent
    }

    function Move(x: Serial, next: Supervisor): Provider {
      this.(supervisors := supervisors[x := next])
    }

    /** Whether `Supervisor.Claim` succeeds; `captures`: a new capture would start. */
    predicate Claimable(x: Serial, captures: bool) {
      SupervisorOf(x).Up? && SupervisorOf(x).use.Free? && (captures || x in capturing)
    }

    function Claim(a: ActionId, x: Serial): Provider
      requires SupervisorOf(x).Up?
    {
      Move(x, Up(SupervisorOf(x).phase, Held(false)))
      .(capturing := capturing + {x}, trace := trace + [ProviderClaimed(a, x, x in capturing)])
    }

    /** `Supervisor.Release`: nothing to do unless the device is claimed or busy. */
    function Release(x: Serial): Provider {
      if SupervisorOf(x).Up? && SupervisorOf(x).use.Held?
      then Move(x, Up(SupervisorOf(x).phase, Free))
           .(capturing := capturing - {x}, trace := trace + [ProviderReleased(x)])
      else this
    }

    /** Whether the pool has a port for the device. */
    predicate Grants(x: Serial) {
      x in PortAllocator.AfterAllocate(pool, x).bySerial
    }
  }

  /** A step that is not possible changes nothing. */
  function After(p: Provider, step: DeviceStep): Provider {
    var x := step.serial;
    var sup := p.SupervisorOf(x);
    match step
    case Connect(_) => if sup.Absent? then p.Move(x, Up(Starting, Free)) else p
    case TakePort(_) =>
      if sup.Absent? || sup.phase != Starting then p
      else if p.Grants(x)
      then p.Move(x, sup.(phase := Running)).(pool := PortAllocator.AfterAllocate(p.pool, x))
      else p.Move(x, if sup.Up? then Up(GaveUp, sup.use) else Absent)
    case Activate(_) => if sup.Up? && sup.use == Held(false) then p.Move(x, Up(sup.phase, Held(true))) else p
    case Disconnect(_) =>
      if !sup.Up? then p else p.Move(x, if sup.phase == GaveUp then Absent else Stopping(sup.phase))
    case TearDown(_) =>
      if sup != Stopping(Running) then p
      else p.Move(x, Absent).(pool := PortAllocator.AfterFree(p.pool, x), capturing := p.capturing - {x},
                              trace := p.trace + [TornDown(x)])
  }

  // ---------------------------------------------------------------- traces

  predicate IsClaim(e: Event, x: Serial) {
    e.ProviderClaimed? && e.serial == x
  }

  predicate Ends(e: Event, x: Serial) {
    e == ProviderReleased(x) || e == TornDown(x)
  }

  /** Whether the last event about the device is a claim. */
  predicate Holding(trace: seq<Event>, x: Serial)
    decreases |trace|
  {
    trace != [] &&
    var e := trace[|trace| - 1];
    if e.serial == x then e.ProviderClaimed? else Holding(trace[..|trace| - 1], x)
  }

  /** Between any two provider claims of one device the first was ended. */
  ghost predicate Separated(trace: seq<Event>) {
    forall i, j, x {:trigger IsClaim(trace[i], x), IsClaim(trace[j], x)} ::
      0 <= i < j < |trace| && IsClaim(trace[i], x) && IsClaim(trace[j], x)
      ==> exists k :: i < k < j && Ends(trace[k], x)
  }

  /** A claim resumes a capture exactly if the claim before it was not ended. */
  ghost predicate Marked(trace: seq<Event>) {
    forall k :: 0 <= k < |trace| && trace[k].ProviderClaimed?
                ==> (trace[k].resumed <==> Holding(trace[..k], trace[k].serial))
  }

  ghost predicate NoneResumed(trace: seq<Event>) {
    forall k :: 0 <= k < |trace| && trace[k].ProviderClaimed? ==> !trace[k].resumed
  }

  lemma HoldingAppend(trace: seq<Event>, e: Event, x: Serial)
    ensures Holding(trace + [e], x) <==> if e.serial == x then e.ProviderClaimed? else Holding(trace, x)
  {
    assert (trace + [e])[..|trace|] == trace;
  }

  lemma MarkedAppend(trace: seq<Event>, e: Event)
    requires Marked(trace)
    requires e.ProviderClaimed? ==> (e.resumed <==> Holding(trace, e.serial))
    ensures Marked(trace + [e])
  {
    hide Holding;
    forall k | 0 <= k <= |trace|
      ensures (trace + [e])[..k] == trace[..k]
    {
    }
    assert trace[..|trace|] == trace;
  }

  /** A device not held has been ended since any claim of it. */
  lemma {:induction false} EndedSince(trace: seq<Event>, x: Serial, i: nat) returns (k: nat)
    requires i < |trace| && IsClaim(trace[i], x) && !Holding(trace, x)
    ensures i < k < |trace| && Ends(trace[k], x)
    decreases |trace|
  {
    var n := |trace| - 1;
    if trace[n].serial == x {
      k := n;
    } else {
      k := EndedSince(trace[..n], x, i);
    }
  }

  /** The claim by which a device is held. */
  lemma {:induction false} HeldSince(trace: seq<Event>, x: Serial) returns (i: nat)
    requires Holding(trace, x)
    ensures i < |trace| && IsClaim(trace[i], x)
    ensures forall k :: i < k < |trace| ==> !Ends(trace[k], x)
    decreases |trace|
  {
    var n := |trace| - 1;
    if trace[n].serial == x {
      i := n;
    } else {
      i := HeldSince(trace[..n], x);
      assert forall k :: i < k < n ==> trace[k] == trace[..n][k];
    }
  }

  /**
    Two claims of a device have an end between them exactly when, after the first and up to
    the second, some claim of it started a capture of its own.
   */
  lemma {:induction false} EndBetweenExact(trace: seq<Event>, i: nat, j: nat, x: Serial)
    requires Marked(trace) && i < j < |trace| && IsClaim(trace[i], x) && IsClaim(trace[j], x)
    ensures (exists k :: i < k < j && Ends(trace[k], x))
            <==> exists k :: i < k <= j && IsClaim(trace[k], x) && !trace[k].resumed
  {
    hide Holding;
    if k :| i < k < j && Ends(trace[k], x) {
      var m := OwnCaptureAfter(trace, k, j, x);
    }
    if k :| i < k <= j && IsClaim(trace[k], x) && !trace[k].resumed {
      var m := EndedSince(trace[..k], x, i);
      assert Ends(trace[m], x);
    }
  }

  /** The first claim after an end starts its own capture. */
  lemma {:induction false} OwnCaptureAfter(trace: seq<Event>, k: nat, j: nat, x: Serial) returns (m: nat)
    requires Marked(trace) && k < j < |trace| && Ends(trace[k], x) && IsClaim(trace[j], x)
    ensures k < m <= j && IsClaim(trace[m], x) && !trace[m].resumed
    decreases j
  {
    hide Holding;
    if Holding(trace[..j], x) {
      var i := HeldSince(trace[..j], x);
      assert trace[..j][i] == trace[i];
      assert trace[..j][k] == trace[k];
      m := OwnCaptureAfter(trace, k, i, x);
    } else {
      m := j;
    }
  }

  /** All claims are separated exactly when none resumed a capture left over by another. */
  lemma SeparatedExact(trace: seq<Event>)
    requires Marked(trace)
    ensures Separated(trace) <==> NoneResumed(trace)
  {
    hide Holding;
    if NoneResumed(trace) {
      forall i, j, x | 0 <= i < j < |trace| && IsClaim(trace[i], x) && IsClaim(trace[j], x)
        ensures exists k :: i < k < j && Ends(trace[k], x)
      {
        var k := EndedSince(trace[..j], x, i);
        assert Ends(trace[k], x);
      }
    } else {
      var j :| 0 <= j < |trace| && trace[j].ProviderClaimed? && trace[j].resumed;
      var x := trace[j].serial;
      var i := HeldSince(trace[..j], x);
      assert IsClaim(trace[i], x) && IsClaim(trace[j], x);
      assert forall k :: i < k < j ==> trace[..j][k] == trace[k];
    }
  }

  // ---------------------------------------------------------------- every run

  /**
    The provider captures a device exactly while the last claim of it has not ended, a held
    device is captured, and ports are taken exactly by the supervisors whose `Run` goes on.
   */
  ghost predicate ProviderInv(p: Provider) {
    && Marked(p.trace)
    && (forall x: Serial :: x in p.capturing <==> Holding(p.trace, x))
    && (forall x: Serial :: p.SupervisorOf(x).Up? && p.SupervisorOf(x).use.Held? ==> x in p.capturing)
    && (forall x: Serial :: p.SupervisorOf(x) != Stopping(GaveUp))
    && PortAllocator.Valid(p.pool)
    && (forall x: Serial :: x in p.pool.bySerial <==> !p.SupervisorOf(x).Absent? && p.SupervisorOf(x).phase == Running)
  }

  lemma InvEvent(p: Provider, q: Provider, e: Event, next: Supervisor)
    requires ProviderInv(p)
    requires q.trace == p.trace + [e] && q.supervisors == p.supervisors[e.serial := next]
    requires q.capturing == if e.ProviderClaimed? then p.capturing + {e.serial} else p.capturing - {e.serial}
    requires e.ProviderClaimed? ==> (e.resumed <==> e.serial in p.capturing)
    requires next.Up? && next.use.Held? ==> e.ProviderClaimed?
    requires next != Stopping(GaveUp)
    requires PortAllocator.Valid(q.pool)
    requires forall x: Serial :: x in q.pool.bySerial <==>
               if x == e.serial then !next.Absent? && next.phase == Running else x in p.pool.bySerial
    ensures ProviderInv(q)
  {
    hide PortAllocator.Valid;
    MarkedAppend(p.trace, e);
    forall x: Serial
      ensures Holding(q.trace, x) <==> if e.serial == x then e.ProviderClaimed? else Holding(p.trace, x)
    {
      HoldingAppend(p.trace, e, x);
    }
    hide Holding, Marked;
    assert forall x: Serial :: q.SupervisorOf(x) == if x == e.serial then next else p.SupervisorOf(x);
  }

  lemma InvMove(p: Provider, q: Provider, x: Serial, next: Supervisor)
    requires ProviderInv(p)
    requires q.trace == p.trace && q.capturing == p.capturing && q.supervisors == p.supervisors[x := next]
    requires next.Up? && next.use.Held? ==> x in p.capturing
    requires next != Stopping(GaveUp)
    requires PortAllocator.Valid(q.pool)
    requires forall y: Serial :: y in q.pool.bySerial <==>
               if y == x then !next.Absent? && next.phase == Running else y in p.pool.bySerial
    ensures ProviderInv(q)
  {
    hide PortAllocator.Valid, Holding, Marked;
    assert forall y: Serial :: q.SupervisorOf(y) == if y == x then next else p.SupervisorOf(y);
  }

  lemma AllocateKeys(pool: PortAllocator.Pool, x: Serial)
    requires PortAllocator.Valid(pool)
    ensures var q := PortAllocator.AfterAllocate(pool, x);
            && PortAllocator.Valid(q)
            && (forall y: Serial :: y != x ==> (y in q.bySerial <==> y in pool.bySerial))
            && (x !in q.bySerial ==> q == pool)
            && q.minPort == pool.minPort && q.maxPort == pool.maxPort
  {
    hide PortAllocator.Search, PortAllocator.Valid;
    PortAllocator.ApplyValid(pool, PortAllocator.Take(x));
  }

  lemma FreeKeys(pool: PortAllocator.Pool, x: Serial)
    requires PortAllocator.Valid(pool)
    ensures var q := PortAllocator.AfterFree(pool, x);
            PortAllocator.Valid(q) && q.bySerial.Keys == pool.bySerial.Keys - {x}
            && q.minPort == pool.minPort && q.maxPort == pool.maxPort
  {
    hide PortAllocator.Valid;
    PortAllocator.ApplyValid(pool, PortAllocator.Return(x));
  }

  lemma AfterInv(p: Provider, step: DeviceStep)
    requires ProviderInv(p)
    ensures ProviderInv(After(p, step))
  {
    hide Holding, Marked, PortAllocator.Valid, PortAllocator.AfterAllocate, PortAllocator.AfterFree;
    var x := step.serial;
    var sup := p.SupervisorOf(x);
    var q := After(p, step);
    AllocateKeys(p.pool, x);
    FreeKeys(p.pool, x);
    if q != p {
      hide ProviderInv;
      if step.TearDown? {
        InvEvent(p, q, TornDown(x), Absent);
      } else {
        InvMove(p, q, x, q.SupervisorOf(x));
      }
    }
  }

  lemma ClaimInv(p: Provider, a: ActionId, x: Serial)
    requires ProviderInv(p) && p.SupervisorOf(x).Up?
    ensures ProviderInv(p.Claim(a, x))
  {
    hide Holding, Marked, PortAllocator.Valid;
    InvEvent(p, p.Claim(a, x), ProviderClaimed(a, x, x in p.capturing), Up(p.SupervisorOf(x).phase, Held(false)));
  }

  lemma ReleaseInv(p: Provider, x: Serial)
    requires ProviderInv(p)
    ensures ProviderInv(p.Release(x))
  {
    hide Holding, Marked, PortAllocator.Valid;
    if p.SupervisorOf(x).Up? && p.SupervisorOf(x).use.Held? {
      InvEvent(p, p.Release(x), ProviderReleased(x), Up(p.SupervisorOf(x).phase, Free));
    }
  }

  // ---------------------------------------------------------------- captures without a supervisor to end them

  /** Captured, and no supervisor holds the device that will release it or be torn down. */
  predicate Stranded(p: Provider, x: Serial) {
    x in p.capturing &&
    match p.SupervisorOf(x)
    case Absent => true
    case Up(phase, use) => use.Free? || phase == GaveUp
    case Stopping(_) => false
  }

  ghost predicate NoneStranded(p: Provider) {
    forall x: Serial :: !Stranded(p, x)
  }

  /** `Run` gives up on a device in use: no port is left for it. */
  predicate RefusesPort(p: Provider, step: DeviceStep) {
    var sup := p.SupervisorOf(step.serial);
    && step.TakePort? && !sup.Absent? && sup.phase == Starting
    && step.serial in p.capturing && !p.Grants(step.serial)
  }

  lemma AfterStrandsNone(p: Provider, step: DeviceStep)
    requires ProviderInv(p) && NoneStranded(p) && !RefusesPort(p, step)
    ensures NoneStranded(After(p, step))
    ensures After(p, step).trace == p.trace || After(p, step).trace == p.trace + [TornDown(step.serial)]
  {
    hide Holding, Marked, PortAllocator.Valid, PortAllocator.AfterAllocate, PortAllocator.AfterFree;
    var q := After(p, step);
    forall y: Serial
      ensures !Stranded(q, y)
    {
      assert !Stranded(p, y);
    }
  }

  lemma ClaimStrandsNone(p: Provider, a: ActionId, x: Serial)
    requires NoneStranded(p)
    requires p.SupervisorOf(x).Up? && p.SupervisorOf(x).use.Free? && p.SupervisorOf(x).phase != GaveUp
    ensures NoneStranded(p.Claim(a, x)) && x !in p.capturing
  {
    var q := p.Claim(a, x);
    assert !Stranded(p, x);
    forall y: Serial
      ensures !Stranded(q, y)
    {
      assert !Stranded(p, y);
    }
  }

  lemma ReleaseStrandsNone(p: Provider, x: Serial)
    requires NoneStranded(p)
    ensures NoneStranded(p.Release(x))
  {
    var q := p.Release(x);
    forall y: Serial
      ensures !Stranded(q, y)
    {
      assert !Stranded(p, y);
    }
  }

  // ---------------------------------------------------------------- enough ports

  ghost function Present(p: Provider): set<Serial> {
    set x | x in p.supervisors && !p.supervisors[x].Absent?
  }

  /** With room in the pool for every supervised device, no supervisor is refused a port. */
  lemma RoomGrants(p: Provider, x: Serial)
    requires ProviderInv(p) && |Present(p)| <= PortAllocator.Slots(p.pool)
    requires !p.SupervisorOf(x).Absent? && p.SupervisorOf(x).phase == Starting
    ensures p.Grants(x)
  {
    hide Holding, Marked, PortAllocator.Valid, PortAllocator.Search;
    assert p.pool.bySerial.Keys <= Present(p) - {x};
    PortAllocator.SizeOfSubset(p.pool.bySerial.Keys, Present(p) - {x});
    assert x in Present(p);
    PortAllocator.ExhaustedExact(p.pool);
  }
}
