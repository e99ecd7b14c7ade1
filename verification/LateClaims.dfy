/**
  Claims that the coordinator gave up on. The request may still reach the provider: the
  claim has failed, its session is closed, and yet the provider holds the device, so that
  later claims of it fail as well.
 */
module LateClaims {
  import opened Common
  import opened SessionTables
  import opened ProviderDaemon
  import opened ClaimProtocol
  import opened ClaimCleanup
  import PortAllocator

  // ---------------------------------------------------------------- held without a session

  /** Giving up on a request, rolling back, and the request arriving after that. */
  function LateArrival(a: ActionId): seq<Step> {
    [OfClaim(GiveUp(a))] + ([OfClaim(RollBack(a, true))] + [OfClaim(ArriveClaim(a, true, 0))])
  }

  /**
    From any state in which a request for an idle device is on its way, the claim can end as
    failed, with the provider holding and capturing the device and no active session.
   */
  lemma HeldWithoutSession(s: State, a: ActionId)
    requires a in s.actions && s.actions[a].ClaimWaiting?
    requires a in s.wire.claims && s.wire.claims[a] == s.actions[a].serial
    requires s.provider.Claimable(s.actions[a].serial, true)
    ensures var serial := s.actions[a].serial;
            var t := Run(s, LateArrival(a));
            && a in t.actions && t.actions[a] == ClaimFailed(serial)
            && Quiet(t.tables, serial)
            && ClaimCleanup.Held(t.provider, serial) && serial in t.provider.capturing
            && t.provider == s.provider.Claim(a, serial) && Holding(t.provider.trace, serial)
  {
    hide Run, Holding, AfterClose, ActiveIds, AfterCreate, CanCreate, AfterStreamPort;
    var serial := s.actions[a].serial;
    var s1 := Apply(s, OfClaim(GiveUp(a)));
    var s2 := Apply(s1, OfClaim(RollBack(a, true)));
    RunFirst(s, OfClaim(GiveUp(a)), [OfClaim(RollBack(a, true))] + [OfClaim(ArriveClaim(a, true, 0))]);
    RunFirst(s1, OfClaim(RollBack(a, true)), [OfClaim(ArriveClaim(a, true, 0))]);
    RunOne(s2, OfClaim(ArriveClaim(a, true, 0)));
    CloseEndsSessions(s.tables, serial);
    HoldingAppend(s.provider.trace, ProviderClaimed(a, serial, serial in s.provider.capturing), serial);
  }

  // ---------------------------------------------------------------- later claims

  lemma TraceGrowsStep(s: State, step: Step)
    ensures s.provider.trace <= Apply(s, step).provider.trace
  {
    hide TablesAfter, AfterClose, AfterCreate, CanCreate, AfterStreamPort;
  }

  lemma {:induction false} TraceGrows(s: State, steps: seq<Step>)
    ensures s.provider.trace <= Run(s, steps).provider.trace
    decreases |steps|
  {
    hide Apply;
    if steps == [] {
    } else {
      TraceGrowsStep(s, steps[0]);
      TraceGrows(Apply(s, steps[0]), steps[1..]);
    }
  }

  /** After a claim that holds at `n`, a claim at `j` follows an end behind `n` or resumes a capture. */
  lemma ClaimAfterHolding(trace: seq<Event>, n: nat, j: nat, x: Serial)
    requires Marked(trace) && n <= j < |trace| && Holding(trace[..n], x) && IsClaim(trace[j], x)
    ensures trace[j].resumed || exists k :: n <= k < j && Ends(trace[k], x)
  {
    hide Holding;
    var i := HeldSince(trace[..n], x);
    assert IsClaim(trace[i], x);
    assert forall k :: 0 <= k < n ==> trace[..n][k] == trace[k];
    if !trace[j].resumed {
      var k := EndedSince(trace[..j], x, i);
      assert Ends(trace[k], x);
    }
  }

  /**
    From any reachable state in which the last claim of a device has not ended, a claim that
    was not answered yet succeeds only after a release or teardown of the device, unless its
    request finds the device idle with the capture left over.
   */
  lemma LaterClaimsFail(s: State, steps: seq<Step>, b: ActionId, x: Serial) returns (j: nat)
    requires Inv(s) && Holding(s.provider.trace, x) && b !in s.wire.replies
    requires b in Run(s, steps).actions && Run(s, steps).actions[b] == ClaimSucceeded(x)
    ensures var trace := Run(s, steps).provider.trace;
            && |s.provider.trace| <= j < |trace| && ClaimFor(trace[j], b, x)
            && (trace[j].resumed || exists k :: |s.provider.trace| <= k < j && Ends(trace[k], x))
  {
    hide Run, Holding, Marked, PortAllocator.Valid, ClaimedHasSession;
    var t := Run(s, steps);
    var trace := t.provider.trace;
    RunFromInv(s, steps);
    TraceGrows(s, steps);
    assert ActionInv(t, b);
    j :| 0 <= j < |trace| && ClaimFor(trace[j], b, x);
    NotAnswered(s, b);
    var n := |s.provider.trace|;
    assert forall k :: 0 <= k < n ==> trace[k] == s.provider.trace[k];
    assert trace[..n] == s.provider.trace;
    ClaimAfterHolding(trace, n, j, x);
  }

  lemma NotAnswered(s: State, b: ActionId)
    requires ActionsInv(s) && b !in s.wire.replies
    ensures forall i :: 0 <= i < |s.provider.trace| ==> !ClaimedBy(s.provider.trace[i], b)
  {
    hide ActionInv;
  }

  // ---------------------------------------------------------------- only a claim given up on ends so

  /** A claim that fails has no request on its way and was not accepted. */
  ghost predicate CleanFailure(s: State, a: ActionId) {
    a in s.actions && (s.actions[a].ClaimRollback? || s.actions[a].ClaimFailed?) ==>
      a !in s.wire.claims && (a in s.wire.replies ==> s.wire.replies[a].None?)
  }

  lemma CleanFailureStep(s: State, step: Step, a: ActionId)
    requires ActionsInv(s) && CleanFailure(s, a) && step != OfClaim(GiveUp(a))
    ensures CleanFailure(Apply(s, step), a)
  {
    hide TablesAfter, After, AfterClose, AfterCreate, CanCreate, AfterStreamPort;
    if a in s.actions {
      assert ActionInv(s, a);
    }
  }

  lemma {:induction false} CleanFailureRun(s: State, steps: seq<Step>, a: ActionId)
    requires Inv(s) && CleanFailure(s, a) && OfClaim(GiveUp(a)) !in steps
    ensures CleanFailure(Run(s, steps), a)
    decreases |steps|
  {
    hide ProviderInv, ActionsInv, ClaimedHasSession, CleanFailure, Apply;
    if steps == [] {
    } else {
      assert steps[0] in steps;
      assert forall step :: step in steps[1..] ==> step in steps;
      StepInv(s, steps[0]);
      CleanFailureStep(s, steps[0], a);
      CleanFailureRun(Apply(s, steps[0]), steps[1..], a);
    }
  }

  /** In every run a failed claim whose request the provider accepted is one that was given up on. */
  lemma {:induction false} OnlyGivenUp(minPort: int, maxPort: int, steps: seq<Step>, a: ActionId, i: nat)
    requires var s := Run(Start(minPort, maxPort), steps);
             && a in s.actions && s.actions[a].ClaimFailed?
             && i < |s.provider.trace| && ClaimedBy(s.provider.trace[i], a)
    ensures OfClaim(GiveUp(a)) in steps
  {
    hide Run, ProviderInv, ClaimedHasSession;
    var start := Start(minPort, maxPort);
    var s := Run(start, steps);
    RunInv(minPort, maxPort, steps);
    assert ActionInv(s, a);
    if OfClaim(GiveUp(a)) !in steps {
      StartInv(minPort, maxPort);
      CleanFailureRun(start, steps, a);
    }
  }
}
