/**
  How claims and releases end: what each of them does when it runs undisturbed, and, in every
  run, that a claim that failed after creating its session row was rolled back.
 */
module ClaimOutcomes {
  import opened Common
  import opened SessionTables
  import opened ProviderDaemon
  import opened ClaimProtocol

  // ---------------------------------------------------------------- the tables, field by field

  /** What each status update does to the row of a device, and that it leaves the others alone. */
  lemma StatusUpdates(t: Tables, provider: string, x: Serial, y: Serial, port: int)
    requires x in t.devices && y in t.devices && y != x
    ensures var r := t.devices[x];
            var revived := if r.status == Offline then Idle else r.status;
            && AfterRegister(t, provider, x).devices[x] == DeviceRow(provider, revived, r.streamPort)
            && AfterHeartbeat(t, x).devices[x] == DeviceRow(r.provider, revived, r.streamPort)
            && AfterRelease(t, x).devices[x] == DeviceRow(r.provider, Offline, r.streamPort)
            && AfterStreamPort(t, x, port).devices[x] == DeviceRow(r.provider, r.status, port)
            && AfterLoss(t, provider).devices[x]
               == (if r.provider == provider then DeviceRow(provider, Offline, r.streamPort) else r)
            && AfterClose(t, x).devices[x]
               == DeviceRow(r.provider, if r.status == Offline then Offline else Idle, 0)
    ensures forall u :: u in {AfterRegister(t, provider, x), AfterHeartbeat(t, x), AfterRelease(t, x),
                              AfterStreamPort(t, x, port), AfterClose(t, x)} ==>
              u.devices.Keys == t.devices.Keys && u.devices[y] == t.devices[y]
  {
  }

  /** A device seen for the first time is idle, without a stream port. */
  lemma NewDevice(t: Tables, provider: string, x: Serial)
    requires x !in t.devices
    ensures AfterRegister(t, provider, x) == t.(devices := t.devices[x := DeviceRow(provider, Idle, 0)])
  {
  }

  // ---------------------------------------------------------------- one claim, undisturbed

  /** An id and a session id that were not used before. */
  predicate Unused(s: State, a: ActionId, id: SessionId) {
    a !in s.actions && a !in s.wire.claims && a !in s.wire.replies && a !in s.wire.releases && id !in s.tables.sessions
  }

  /** Nothing happens to a device that is unknown or claimed; the claim fails at once. */
  lemma ClaimRefused(s: State, a: ActionId, x: Serial, id: SessionId, commits: bool)
    requires a !in s.actions && !(commits && CanCreate(s.tables, id, x))
    ensures Apply(s, OfClaim(BeginClaim(a, x, id, commits))) == s.(actions := s.actions[a := ClaimFailed(x)])
  {
  }

  function Begun(s: State, a: ActionId, x: Serial, id: SessionId, connected: bool): State {
    Apply(Apply(s, OfClaim(BeginClaim(a, x, id, true))), OfClaim(LookUp(a, connected)))
  }

  /** The row of the claim is there and active, the device is claimed, and nothing else changed. */
  lemma BegunFacts(s: State, a: ActionId, x: Serial, id: SessionId, connected: bool)
    requires Unused(s, a, id) && CanCreate(s.tables, id, x)
    ensures var t := Begun(s, a, x, id, connected);
            && t.actions == s.actions[a := if connected then ClaimReady(x) else ClaimRollback(x)]
            && t.wire == s.wire && t.provider == s.provider
            && t.tables.devices == s.tables.devices[x := DeviceRow(s.tables.devices[x].provider, Claimed,
                                                                   s.tables.devices[x].streamPort)]
            && t.tables.sessions == s.tables.sessions[id := SessionRow(x, true)]
  {
    var u := Apply(s, OfClaim(BeginClaim(a, x, id, true)));
    assert u.actions[a] == ClaimLookup(x);
    assert u.actions[a := ClaimReady(x)] == s.actions[a := ClaimReady(x)];
    assert u.actions[a := ClaimRollback(x)] == s.actions[a := ClaimRollback(x)];
  }

  function Asked(s: State, a: ActionId, captures: bool, port: int): State {
    Apply(Apply(Apply(s, OfClaim(SendClaim(a))), OfClaim(ArriveClaim(a, captures, port))), OfClaim(ReceiveReply(a)))
  }

  /** The provider is asked once, and what it did decides how the claim goes on. */
  lemma AskedFacts(s: State, a: ActionId, x: Serial, captures: bool, port: int)
    requires a in s.actions && s.actions[a] == ClaimReady(x) && a !in s.wire.claims
    ensures var t := Asked(s, a, captures, port);
            var ok := s.provider.Claimable(x, captures);
            && t.actions == s.actions[a := if ok then ClaimAccepted(x, port) else ClaimRollback(x)]
            && t.tables == s.tables
            && t.wire.claims == s.wire.claims
            && t.provider == if ok then s.provider.Claim(a, x) else s.provider
  {
    var u := Apply(s, OfClaim(SendClaim(a)));
    assert u.actions == s.actions[a := ClaimWaiting(x)] && u.wire.claims[a] == x && u.provider == s.provider;
    var v := Apply(u, OfClaim(ArriveClaim(a, captures, port)));
    assert v.actions == u.actions && v.wire.claims == s.wire.claims;
    assert v.wire.replies[a] == if s.provider.Claimable(x, captures) then Some(port) else None;
  }

  /** Rolling back closes the sessions of the device, claims it no longer, and touches nothing else. */
  lemma RolledBackFacts(s: State, a: ActionId, x: Serial)
    requires a in s.actions && s.actions[a] == ClaimRollback(x) && x in s.tables.devices
    ensures var t := Apply(s, OfClaim(RollBack(a, true)));
            && t.actions == s.actions[a := ClaimFailed(x)] && t.wire == s.wire && t.provider == s.provider
            && t.tables.devices ==
               s.tables.devices[x := DeviceRow(s.tables.devices[x].provider,
                                               if s.tables.devices[x].status == Offline then Offline else Idle, 0)]
            && t.tables.sessions.Keys == s.tables.sessions.Keys
            && forall i :: i in s.tables.sessions ==>
                 t.tables.sessions[i] == ClosedRow(s.tables.sessions[i], x)
  {
  }

  /** A session row after the sessions of the device were closed. */
  function ClosedRow(row: SessionRow, x: Serial): SessionRow {
    if row.serial == x then SessionRow(x, false) else row
  }

  /** A rollback or a stored port that does not commit still ends the claim, and leaves the tables alone. */
  lemma NotCommitted(s: State, a: ActionId, x: Serial, port: int)
    requires a in s.actions
    ensures s.actions[a] == ClaimRollback(x) ==>
              Apply(s, OfClaim(RollBack(a, false))) == s.(actions := s.actions[a := ClaimFailed(x)])
    ensures s.actions[a] == ClaimAccepted(x, port) ==>
              Apply(s, OfClaim(StorePort(a, false))) == s.(actions := s.actions[a := ClaimSucceeded(x)])
  {
  }

  /** Where a rolled-back claim leaves the tables: the device idle, port 0, none of its sessions active. */
  ghost predicate ClosedAgain(s: State, t: State, a: ActionId, x: Serial, id: SessionId)
    requires x in s.tables.devices
  {
    && t.actions == s.actions[a := ClaimFailed(x)]
    && t.provider == s.provider
    && t.tables.devices == s.tables.devices[x := DeviceRow(s.tables.devices[x].provider, Idle, 0)]
    && t.tables.sessions.Keys == s.tables.sessions.Keys + {id}
    && t.tables.sessions[id] == SessionRow(x, false)
    && forall i :: i in s.tables.sessions ==>
         t.tables.sessions[i] == ClosedRow(s.tables.sessions[i], x)
  }

  lemma RollBackEnds(s: State, b: State, a: ActionId, x: Serial, id: SessionId)
    requires x in s.tables.devices && id !in s.tables.sessions
    requires b.actions == s.actions[a := ClaimRollback(x)] && b.provider == s.provider
    requires x in b.tables.devices && b.tables.devices == s.tables.devices[x := b.tables.devices[x]]
    requires b.tables.devices[x].provider == s.tables.devices[x].provider && b.tables.devices[x].status == Claimed
    requires b.tables.sessions == s.tables.sessions[id := SessionRow(x, true)]
    ensures ClosedAgain(s, Apply(b, OfClaim(RollBack(a, true))), a, x, id)
  {
    RolledBackFacts(b, a, x);
    hide Apply;
    assert b.actions[a := ClaimFailed(x)] == s.actions[a := ClaimFailed(x)];
    var row := DeviceRow(s.tables.devices[x].provider, Idle, 0);
    assert b.tables.devices[x := row] == s.tables.devices[x := row];
  }

  /** A claim whose provider cannot be reached fails and is rolled back. */
  lemma ClaimUnreachable(s: State, a: ActionId, x: Serial, id: SessionId)
    requires Unused(s, a, id) && CanCreate(s.tables, id, x)
    ensures x in s.tables.devices
    ensures ClosedAgain(s, Apply(Begun(s, a, x, id, false), OfClaim(RollBack(a, true))), a, x, id)
  {
    KnownDevice(s, x, id);
    hide Apply, CanCreate, Begun, ClosedAgain;
    BegunFacts(s, a, x, id, false);
    RollBackEnds(s, Begun(s, a, x, id, false), a, x, id);
  }

  lemma KnownDevice(s: State, x: Serial, id: SessionId)
    requires CanCreate(s.tables, id, x)
    ensures x in s.tables.devices
  {
  }

  /** A claim that the provider rejects fails and is rolled back, and the provider is as before. */
  lemma ClaimRejected(s: State, a: ActionId, x: Serial, id: SessionId, captures: bool, port: int)
    requires Unused(s, a, id) && CanCreate(s.tables, id, x) && !s.provider.Claimable(x, captures)
    ensures x in s.tables.devices
    ensures var asked := Asked(Begun(s, a, x, id, true), a, captures, port);
            ClosedAgain(s, Apply(asked, OfClaim(RollBack(a, true))), a, x, id)
  {
    KnownDevice(s, x, id);
    hide Apply, CanCreate, Begun, Asked, ClosedAgain;
    var begun := Begun(s, a, x, id, true);
    BegunFacts(s, a, x, id, true);
    AskedFacts(begun, a, x, captures, port);
    var asked := Asked(begun, a, captures, port);
    assert asked.actions == s.actions[a := ClaimRollback(x)];
    RollBackEnds(s, asked, a, x, id);
  }

  /**
    A claim that the provider accepts succeeds: its session row is active, the device claimed
    with the port the provider replied, and the provider holds and captures the device.
   */
  lemma ClaimTaken(s: State, a: ActionId, x: Serial, id: SessionId, captures: bool, port: int)
    requires Unused(s, a, id) && CanCreate(s.tables, id, x) && s.provider.Claimable(x, captures)
    ensures var t := Apply(Asked(Begun(s, a, x, id, true), a, captures, port), OfClaim(StorePort(a, true)));
            && t.actions == s.actions[a := ClaimSucceeded(x)]
            && x in s.tables.devices
            && t.tables.devices == s.tables.devices[x := DeviceRow(s.tables.devices[x].provider, Claimed, port)]
            && t.tables.sessions == s.tables.sessions[id := SessionRow(x, true)]
            && t.provider.SupervisorOf(x) == Up(s.provider.SupervisorOf(x).phase, Held(false))
            && t.provider.capturing == s.provider.capturing + {x} && t.provider.pool == s.provider.pool
            && t.provider.trace == s.provider.trace + [ProviderClaimed(a, x, x in s.provider.capturing)]
  {
    hide CanCreate, Begun, Asked;
    KnownDevice(s, x, id);
    var begun := Begun(s, a, x, id, true);
    BegunFacts(s, a, x, id, true);
    AskedFacts(begun, a, x, captures, port);
    var asked := Asked(begun, a, captures, port);
    assert s.actions[a := ClaimReady(x)][a := ClaimAccepted(x, port)][a := ClaimSucceeded(x)]
        == s.actions[a := ClaimSucceeded(x)];
    assert asked.tables.devices[x := DeviceRow(s.tables.devices[x].provider, Claimed, port)]
        == s.tables.devices[x := DeviceRow(s.tables.devices[x].provider, Claimed, port)];
  }

  // ---------------------------------------------------------------- one release, undisturbed

  function Released(s: State, r: ActionId, x: Serial): State {
    var closed := Apply(Apply(s, OfRelease(BeginRelease(r, x))), OfRelease(CloseForRelease(r, true)));
    var arrived := Apply(Apply(closed, OfRelease(SendRelease(r, true))), OfRelease(ArriveRelease(r)));
    Apply(arrived, OfRelease(FinishRelease(r)))
  }

  /** A release closes the sessions, and the provider lets go of a device it holds. */
  lemma ReleaseAlone(s: State, r: ActionId, x: Serial)
    requires r !in s.actions && r !in s.wire.releases && x in s.tables.devices
    ensures var t := Released(s, r, x);
            var p, q := s.provider, t.provider;
            && t.actions == s.actions[r := ReleaseDone(x)]
            && t.tables == AfterClose(s.tables, x)
            && if p.SupervisorOf(x).Up? && p.SupervisorOf(x).use.Held?
               then
                 && q.SupervisorOf(x) == Up(p.SupervisorOf(x).phase, Free)
                 && q.capturing == p.capturing - {x} && q.trace == p.trace + [ProviderReleased(x)] && q.pool == p.pool
               else q == p
  {
    hide AfterClose;
    var s2 := Apply(Apply(s, OfRelease(BeginRelease(r, x))), OfRelease(CloseForRelease(r, true)));
    ReleaseCloses(s, r, x);
    ReleaseSent(s2, r, x);
    hide Apply;
    assert s.actions[r := ReleaseReady(x)][r := ReleaseDone(x)] == s.actions[r := ReleaseDone(x)];
  }

  lemma ReleaseCloses(s: State, r: ActionId, x: Serial)
    requires r !in s.actions && x in s.tables.devices
    ensures var t := Apply(Apply(s, OfRelease(BeginRelease(r, x))), OfRelease(CloseForRelease(r, true)));
            t == s.(actions := s.actions[r := ReleaseReady(x)], tables := AfterClose(s.tables, x))
  {
    hide AfterClose;
    var begun := Apply(s, OfRelease(BeginRelease(r, x)));
    assert begun.actions == s.actions[r := ReleaseLooked(x, true)];
    assert begun.actions[r := ReleaseReady(x)] == s.actions[r := ReleaseReady(x)];
  }

  lemma ReleaseSent(s: State, r: ActionId, x: Serial)
    requires r in s.actions && s.actions[r] == ReleaseReady(x)
    ensures var arrived := Apply(Apply(s, OfRelease(SendRelease(r, true))), OfRelease(ArriveRelease(r)));
            var t := Apply(arrived, OfRelease(FinishRelease(r)));
            && t.actions == s.actions[r := ReleaseDone(x)] && t.tables == s.tables
            && t.provider == s.provider.Release(x)
  {
    var sent := Apply(s, OfRelease(SendRelease(r, true)));
    assert sent.actions == s.actions[r := ReleaseWaiting(x)] && sent.wire.releases[r] == x;
    var arrived := Apply(sent, OfRelease(ArriveRelease(r)));
    assert arrived.actions == sent.actions && arrived.provider == s.provider.Release(x);
    assert sent.actions[r := ReleaseDone(x)] == s.actions[r := ReleaseDone(x)];
  }

  /** Without a row the provider is not told; without a commit nothing changes; a lost connection ends it. */
  lemma ReleaseCutShort(s: State, r: ActionId, x: Serial)
    requires r !in s.actions && r !in s.wire.releases
    ensures var begun := Apply(s, OfRelease(BeginRelease(r, x)));
            && Apply(begun, OfRelease(CloseForRelease(r, false))) == s.(actions := s.actions[r := ReleaseDone(x)])
            && (x !in s.tables.devices ==>
                  Apply(begun, OfRelease(CloseForRelease(r, true)))
                  == s.(actions := s.actions[r := ReleaseDone(x)], tables := AfterClose(s.tables, x)))
            && (x in s.tables.devices ==>
                  Apply(Apply(begun, OfRelease(CloseForRelease(r, true))), OfRelease(SendRelease(r, false)))
                  == s.(actions := s.actions[r := ReleaseDone(x)], tables := AfterClose(s.tables, x)))
  {
    hide AfterClose;
    var begun := Apply(s, OfRelease(BeginRelease(r, x)));
    assert begun.actions == s.actions[r := ReleaseLooked(x, x in s.tables.devices)];
    assert begun.actions[r := ReleaseDone(x)] == s.actions[r := ReleaseDone(x)];
    assert begun.actions[r := ReleaseReady(x)] == s.actions[r := ReleaseReady(x)];
    assert s.actions[r := ReleaseReady(x)][r := ReleaseDone(x)] == s.actions[r := ReleaseDone(x)];
  }

  // ---------------------------------------------------------------- every failed claim was rolled back

  /** Step `i` begins the claim and creates its session row. */
  ghost predicate BeganAt(s: State, steps: seq<Step>, i: nat, a: ActionId, x: Serial, id: SessionId) {
    && i < |steps| && steps[i] == OfClaim(BeginClaim(a, x, id, true))
    && a !in Run(s, steps[..i]).actions && CanCreate(Run(s, steps[..i]).tables, id, x)
  }

  /** Step `j` is the rollback of the claim. */
  ghost predicate RolledBackAt(s: State, steps: seq<Step>, j: nat, a: ActionId, commits: bool) {
    && j < |steps| && steps[j] == OfClaim(RollBack(a, commits))
    && a in Run(s, steps[..j]).actions && Run(s, steps[..j]).actions[a].ClaimRollback?
  }

  predicate Inactive(t: Tables, id: SessionId) {
    id in t.sessions && !t.sessions[id].active
  }

  lemma RunSnoc(s: State, steps: seq<Step>, step: Step)
    ensures Run(s, steps + [step]) == Apply(Run(s, steps), step)
    ensures (steps + [step])[..|steps|] == steps
  {
    hide Apply, Run;
    RunConcat(s, steps, [step]);
    RunOne(Run(s, steps), step);
  }

  /** The row of a claim stays in the table as that of its device, and never becomes active again. */
  lemma RowStays(s: State, step: Step, id: SessionId)
    requires id in s.tables.sessions
    ensures var t := Apply(s, step).tables;
            && id in t.sessions && t.sessions[id].serial == s.tables.sessions[id].serial
            && (!s.tables.sessions[id].active ==> !t.sessions[id].active)
  {
  }

  /** Where a claim that created a row can be. */
  ghost predicate OnTrack(s: State, steps: seq<Step>, i: nat, a: ActionId, x: Serial, id: SessionId) {
    var t := Run(s, steps);
    && a in t.actions && t.actions[a].serial == x
    && id in t.tables.sessions && t.tables.sessions[id].serial == x
    && match t.actions[a]
       case ClaimFailed(_) =>
         exists j: nat, commits: bool ::
           i < j && RolledBackAt(s, steps, j, a, commits) && (commits ==> Inactive(t.tables, id))
       case _ =>
         t.actions[a].ClaimLookup? || t.actions[a].ClaimReady? || t.actions[a].ClaimWaiting?
         || t.actions[a].ClaimRollback? || t.actions[a].ClaimAccepted? || t.actions[a].ClaimSucceeded?
  }

  lemma BeganOnTrack(s: State, steps: seq<Step>, a: ActionId, x: Serial, id: SessionId)
    requires BeganAt(s, steps + [OfClaim(BeginClaim(a, x, id, true))], |steps|, a, x, id)
    ensures OnTrack(s, steps + [OfClaim(BeginClaim(a, x, id, true))], |steps|, a, x, id)
  {
    var step := OfClaim(BeginClaim(a, x, id, true));
    RunSnoc(s, steps, step);
    hide Run;
  }

  lemma RolledBackLater(s: State, steps: seq<Step>, step: Step, j: nat, a: ActionId, commits: bool)
    requires RolledBackAt(s, steps, j, a, commits)
    ensures RolledBackAt(s, steps + [step], j, a, commits)
  {
    hide Run;
    assert (steps + [step])[..j] == steps[..j];
  }

  lemma StageMoves(t: State, step: Step, a: ActionId)
    requires a in t.actions
    ensures var u := Apply(t, step);
            && a in u.actions && u.actions[a].serial == t.actions[a].serial
            && (t.actions[a].ClaimFailed? ==> u.actions[a] == t.actions[a])
            && (u.actions[a].ClaimFailed? && !t.actions[a].ClaimFailed? ==>
                  t.actions[a].ClaimRollback? && step.OfClaim? && step.claim.RollBack? && step.claim.action == a)
            && ((t.actions[a].ClaimLookup? || t.actions[a].ClaimReady? || t.actions[a].ClaimWaiting?
                 || t.actions[a].ClaimRollback? || t.actions[a].ClaimAccepted? || t.actions[a].ClaimSucceeded?) ==>
                  u.actions[a].ClaimLookup? || u.actions[a].ClaimReady? || u.actions[a].ClaimWaiting?
                  || u.actions[a].ClaimRollback? || u.actions[a].ClaimAccepted? || u.actions[a].ClaimSucceeded?
                  || u.actions[a].ClaimFailed?)
  {
    hide TablesAfter, After, AfterClose, AfterCreate, CanCreate, AfterStreamPort;
  }

  lemma OnTrackStep(s: State, steps: seq<Step>, step: Step, i: nat, a: ActionId, x: Serial, id: SessionId)
    requires OnTrack(s, steps, i, a, x, id) && i < |steps|
    ensures OnTrack(s, steps + [step], i, a, x, id)
  {
    var t := Run(s, steps);
    var after := steps + [step];
    RunSnoc(s, steps, step);
    RowStays(t, step, id);
    StageMoves(t, step, a);
    var u := Run(s, after);
    if t.actions[a].ClaimFailed? {
      var j: nat, commits: bool :|
        i < j && RolledBackAt(s, steps, j, a, commits) && (commits ==> Inactive(t.tables, id));
      RolledBackLater(s, steps, step, j, a, commits);
    } else if u.actions[a].ClaimFailed? {
      assert RolledBackAt(s, after, |steps|, a, step.claim.commits);
      RollBackCloses(t, a, x, id, step.claim.commits);
    }
  }

  lemma RollBackCloses(t: State, a: ActionId, x: Serial, id: SessionId, commits: bool)
    requires a in t.actions && t.actions[a] == ClaimRollback(x)
    requires id in t.tables.sessions && t.tables.sessions[id].serial == x
    ensures commits ==> Inactive(Apply(t, OfClaim(RollBack(a, commits))).tables, id)
  {
  }

  lemma {:induction false} AlwaysOnTrack(s: State, steps: seq<Step>, i: nat, a: ActionId, x: Serial, id: SessionId)
    requires BeganAt(s, steps, i, a, x, id)
    ensures OnTrack(s, steps, i, a, x, id)
    decreases |steps|
  {
    hide OnTrack;
    var pre, last := steps[..|steps| - 1], steps[|steps| - 1];
    assert steps == pre + [last];
    if i == |steps| - 1 {
      BeganOnTrack(s, pre, a, x, id);
    } else {
      assert pre[..i] == steps[..i];
      AlwaysOnTrack(s, pre, i, a, x, id);
      OnTrackStep(s, pre, last, i, a, x, id);
    }
  }

  /**
    In every run, a claim that has failed although it created its session row was rolled back
    after it began; if that rollback committed, the row is inactive from then on.
   */
  lemma FailedWasRolledBack(minPort: int, maxPort: int, steps: seq<Step>, i: nat, a: ActionId, x: Serial, id: SessionId)
    returns (j: nat, commits: bool)
    requires BeganAt(Start(minPort, maxPort), steps, i, a, x, id)
    requires a in Run(Start(minPort, maxPort), steps).actions
    requires Run(Start(minPort, maxPort), steps).actions[a].ClaimFailed?
    ensures i < j && RolledBackAt(Start(minPort, maxPort), steps, j, a, commits)
    ensures commits ==>
              forall n: nat :: j < n <= |steps| ==> Inactive(Run(Start(minPort, maxPort), steps[..n]).tables, id)
  {
    hide Run, Start, BeganAt;
    var s := Start(minPort, maxPort);
    AlwaysOnTrack(s, steps, i, a, x, id);
    j, commits :| i < j && RolledBackAt(s, steps, j, a, commits) && (commits ==> Inactive(Run(s, steps).tables, id));
    if commits {
      forall n: nat | j < n <= |steps|
        ensures Inactive(Run(s, steps[..n]).tables, id)
      {
        ClosedFrom(s, steps, i, j, n, a, x, id);
      }
    }
  }

  lemma {:induction false} ClosedFrom(s: State, steps: seq<Step>, i: nat, j: nat, n: nat,
                                      a: ActionId, x: Serial, id: SessionId)
    requires BeganAt(s, steps, i, a, x, id) && i < j < n <= |steps| && RolledBackAt(s, steps, j, a, true)
    ensures Inactive(Run(s, steps[..n]).tables, id)
    decreases n
  {
    hide Run;
    var pre := steps[..n - 1];
    assert steps[..n] == pre + [steps[n - 1]];
    RunSnoc(s, pre, steps[n - 1]);
    if n == j + 1 {
      assert BeganAt(s, pre, i, a, x, id) by {
        assert pre[..i] == steps[..i];
      }
      AlwaysOnTrack(s, pre, i, a, x, id);
      RollBackCloses(Run(s, pre), a, x, id, true);
    } else {
      ClosedFrom(s, steps, i, j, n - 1, a, x, id);
      RowStays(Run(s, pre), steps[n - 1], id);
    }
  }
}
