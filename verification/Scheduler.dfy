/**
  `RunParallel` of internal/automation/scheduler.go: any number of calls, each with one
  goroutine per task, share the `activeRuns` map. The locked sections and the writes of
  results are the steps; the steps of all goroutines interleave.
 */
module Scheduler {
  import opened Common

  type CallId = nat

  /** A goroutine: the call it belongs to and the index of its task. */
  type Worker = (CallId, nat)

  datatype Stage = Waiting | Refused | Running | Releasing | Finished

  datatype TaskResult = Busy(serial: Serial) | Report(serial: Serial, report: nat)

  /** `writes` counts the stores to this task's slot of the results. */
  datatype Task = Task(serial: Serial, stage: Stage, result: Option<TaskResult>, writes: nat)

  datatype State = State(active: set<Serial>, calls: map<CallId, seq<Serial>>, workers: map<Worker, Task>,
                         returned: set<CallId>)

  datatype Step =
    | Call(call: CallId, tasks: seq<Serial>)
    | Check(worker: Worker)
    | WriteBusy(worker: Worker)
    | Execute(worker: Worker, report: nat)
    | Unlock(worker: Worker)
    | Return(call: CallId)

  predicate Executing(t: Task) {
    t.stage == Running || t.stage == Releasing
  }

  function At(s: State, w: Worker, t: Task): State {
    s.(workers := s.workers[w := t])
  }

  function Written(t: Task, r: TaskResult, next: Stage): Task {
    t.(stage := next, result := Some(r), writes := t.writes + 1)
  }

  function NewWorkers(call: CallId, tasks: seq<Serial>): (m: map<Worker, Task>)
    ensures forall w :: w in m <==> w.0 == call && w.1 < |tasks|
    ensures forall w :: w in m ==> m[w] == Task(tasks[w.1], Waiting, None, 0)
  {
    var m := map i: nat | i < |tasks| :: (call, i) := Task(tasks[i], Waiting, None, 0);
    assert forall w: Worker :: w.0 == call && w.1 < |tasks| ==> w == (call, w.1);
    m
  }

  predicate AllFinished(s: State, call: CallId)
    requires call in s.calls
  {
    forall i :: 0 <= i < |s.calls[call]| ==> (call, i) in s.workers && s.workers[(call, i)].stage == Finished
  }

  /** One step; a step that is not possible in `s` changes nothing. */
  function Apply(s: State, step: Step): State {
    match step
    case Call(call, tasks) =>
      if call in s.calls then s
      else s.(calls := s.calls[call := tasks],
              workers := s.workers + NewWorkers(call, tasks))
    case Check(w) =>
      if w !in s.workers || s.workers[w].stage != Waiting then s
      else
        var t := s.workers[w];
        if t.serial in s.active then At(s, w, t.(stage := Refused))
        else At(s.(active := s.active + {t.serial}), w, t.(stage := Running))
    case WriteBusy(w) =>
      if w !in s.workers || s.workers[w].stage != Refused then s
      else At(s, w, Written(s.workers[w], Busy(s.workers[w].serial), Finished))
    case Execute(w, report) =>
      if w !in s.workers || s.workers[w].stage != Running then s
      else At(s, w, Written(s.workers[w], Report(s.workers[w].serial, report), Releasing))
    case Unlock(w) =>
      if w !in s.workers || s.workers[w].stage != Releasing then s
      else At(s.(active := s.active - {s.workers[w].serial}), w, s.workers[w].(stage := Finished))
    case Return(call) =>
      if call in s.calls && AllFinished(s, call) then s.(returned := s.returned + {call}) else s
  }

  function Run(s: State, steps: seq<Step>): State
    decreases |steps|
  {
    if steps == [] then s else Apply(Run(s, steps[..|steps| - 1]), steps[|steps| - 1])
  }

  const NEW: State := State({}, map[], map[], {})

  // ---------------------------------------------------------------- every run

  predicate TaskInv(t: Task) {
    && (t.result.Some? <==> t.stage == Releasing || t.stage == Finished)
    && t.writes == (if t.result.Some? then 1 else 0)
    && (t.result.Some? ==> t.result.value.serial == t.serial)
  }

  /** Workers and calls belong together, and results are complete where they should be. */
  ghost predicate Shape(s: State) {
    && (forall w :: w in s.workers ==> TaskInv(s.workers[w]))
    && (forall w :: w in s.workers ==>
          w.0 in s.calls && w.1 < |s.calls[w.0]| && s.workers[w].serial == s.calls[w.0][w.1])
    && (forall c, i :: c in s.calls && 0 <= i < |s.calls[c]| ==> (c, i) in s.workers)
    && (forall c :: c in s.returned ==> c in s.calls && AllFinished(s, c))
  }

  ghost predicate Runs(workers: map<Worker, Task>, w: Worker, x: Serial) {
    w in workers && Executing(workers[w]) && workers[w].serial == x
  }

  /** The active serials are those being run, each by one worker. */
  ghost predicate Exclusive(active: set<Serial>, workers: map<Worker, Task>) {
    && (forall w, x :: Runs(workers, w, x) ==> x in active)
    && (forall x :: x in active ==> exists w :: Runs(workers, w, x))
    && (forall v, w, x :: Runs(workers, v, x) && Runs(workers, w, x) ==> v == w)
  }

  ghost predicate Inv(s: State) {
    Shape(s) && Exclusive(s.active, s.workers)
  }

  lemma CallShape(s: State, s': State, call: CallId, tasks: seq<Serial>)
    requires Shape(s) && call !in s.calls
    requires s'.calls == s.calls[call := tasks] && s'.returned == s.returned
    requires s'.workers == s.workers + NewWorkers(call, tasks)
    ensures Shape(s')
  {
    hide NewWorkers;
    assert forall w :: w in s.workers ==> w.0 != call && s'.workers[w] == s.workers[w];
    forall c, i | c in s'.calls && 0 <= i < |s'.calls[c]|
      ensures (c, i) in s'.workers
    {
      if c == call {
        assert (c, i) in NewWorkers(call, tasks);
      }
    }
  }

  lemma CallInv(s: State, call: CallId, tasks: seq<Serial>)
    requires Inv(s) && call !in s.calls
    ensures Inv(Apply(s, Call(call, tasks)))
  {
    var s' := Apply(s, Call(call, tasks));
    hide NewWorkers;
    CallShape(s, s', call, tasks);
    forall w, x
      ensures Runs(s'.workers, w, x) <==> Runs(s.workers, w, x)
    {
    }
    hide Runs, Shape;
  }

  lemma MoveShape(s: State, s': State, w: Worker)
    requires Shape(s) && w in s.workers && s.workers[w].stage != Finished
    requires w in s'.workers && s'.workers == s.workers[w := s'.workers[w]]
    requires s'.calls == s.calls && s'.returned == s.returned
    requires TaskInv(s'.workers[w]) && s'.workers[w].serial == s.workers[w].serial
    ensures Shape(s')
  {
    hide TaskInv;
  }

  /** One worker starts or stops running and `active` follows. */
  lemma MoveExclusive(active: set<Serial>, active': set<Serial>, ws: map<Worker, Task>, ws': map<Worker, Task>,
                      w: Worker)
    requires Exclusive(active, ws) && w in ws && w in ws' && ws' == ws[w := ws'[w]] && ws'[w].serial == ws[w].serial
    requires Executing(ws'[w]) == Executing(ws[w]) ==> active' == active
    requires Executing(ws'[w]) && !Executing(ws[w]) ==> ws[w].serial !in active && active' == active + {ws[w].serial}
    requires !Executing(ws'[w]) && Executing(ws[w]) ==> active' == active - {ws[w].serial}
    ensures Exclusive(active', ws')
  {
    var x0 := ws[w].serial;
    forall v, x
      ensures Runs(ws', v, x) <==> if v == w then x == x0 && Executing(ws'[w]) else Runs(ws, v, x)
    {
    }
    assert Runs(ws, w, x0) <==> Executing(ws[w]);
    hide Runs;
    forall x | x in active'
      ensures exists v :: Runs(ws', v, x)
    {
      if x in active {
        var v :| Runs(ws, v, x);
        assert v != w || Executing(ws'[w]) ==> Runs(ws', v, x);
      } else {
        assert Runs(ws', w, x);
      }
    }
  }

  lemma MoveInv(s: State, s': State, w: Worker)
    requires Inv(s) && w in s.workers && s.workers[w].stage != Finished
    requires w in s'.workers && s'.workers == s.workers[w := s'.workers[w]]
    requires s'.calls == s.calls && s'.returned == s.returned
    requires TaskInv(s'.workers[w]) && s'.workers[w].serial == s.workers[w].serial
    requires Executing(s'.workers[w]) == Executing(s.workers[w]) ==> s'.active == s.active
    requires Executing(s'.workers[w]) && !Executing(s.workers[w]) ==>
               s.workers[w].serial !in s.active && s'.active == s.active + {s.workers[w].serial}
    requires !Executing(s'.workers[w]) && Executing(s.workers[w]) ==> s'.active == s.active - {s.workers[w].serial}
    ensures Inv(s')
  {
    hide Shape, Exclusive, TaskInv, Executing;
    MoveShape(s, s', w);
    MoveExclusive(s.active, s'.active, s.workers, s'.workers, w);
  }

  lemma StepInv(s: State, step: Step)
    requires Inv(s)
    ensures Inv(Apply(s, step))
  {
    var s' := Apply(s, step);
    if s' != s {
      match step
      case Call(call, tasks) => CallInv(s, call, tasks);
      case Return(call) => ReturnInv(s, call);
      case Check(w) => CheckTask(s, w); MoveInv(s, s', w);
      case WriteBusy(w) => CheckTask(s, w); MoveInv(s, s', w);
      case Execute(w, report) => CheckTask(s, w); MoveInv(s, s', w);
      case Unlock(w) => CheckTask(s, w); MoveInv(s, s', w);
    }
  }

  lemma CheckTask(s: State, w: Worker)
    requires Inv(s) && w in s.workers
    ensures TaskInv(s.workers[w])
    ensures Executing(s.workers[w]) ==> s.workers[w].serial in s.active
  {
    assert Executing(s.workers[w]) ==> Runs(s.workers, w, s.workers[w].serial);
  }

  lemma ReturnInv(s: State, call: CallId)
    requires Inv(s) && call in s.calls && AllFinished(s, call)
    ensures Inv(s.(returned := s.returned + {call}))
  {
  }

  /** Every interleaving of any number of calls keeps the invariant. */
  lemma {:induction false} RunInv(steps: seq<Step>)
    ensures Inv(Run(NEW, steps))
  {
    hide Inv, Apply;
    if steps == [] {
      NewInv();
    } else {
      RunInv(steps[..|steps| - 1]);
      StepInv(Run(NEW, steps[..|steps| - 1]), steps[|steps| - 1]);
    }
  }

  lemma NewInv()
    ensures Inv(NEW)
  {
  }

  /** The active runs are exactly the serials being executed, and no serial is executed twice at once. */
  lemma ActiveIsExecuting(steps: seq<Step>)
    ensures var s := Run(NEW, steps);
            && (forall x :: x in s.active <==> exists w :: Runs(s.workers, w, x))
            && (forall v, w, x :: Runs(s.workers, v, x) && Runs(s.workers, w, x) ==> v == w)
  {
    hide Apply, Runs;
    RunInv(steps);
  }

  /** A call that returned has one result for every task, written once, with the task's own serial. */
  lemma ReturnedHasResults(steps: seq<Step>, call: CallId, i: nat)
    requires var s := Run(NEW, steps); call in s.returned && call in s.calls && i < |s.calls[call]|
    ensures var s := Run(NEW, steps);
            && (call, i) in s.workers
            && var t := s.workers[(call, i)];
               t.result.Some? && t.writes == 1 && t.result.value.serial == s.calls[call][i]
  {
    hide Apply, Exclusive;
    RunInv(steps);
    assert AllFinished(Run(NEW, steps), call);
  }

  /** Once every call has returned, no run is active. */
  lemma NothingActiveAfterReturns(steps: seq<Step>)
    requires var s := Run(NEW, steps); s.calls.Keys <= s.returned
    ensures Run(NEW, steps).active == {}
  {
    hide Apply;
    RunInv(steps);
    var s := Run(NEW, steps);
    forall w | w in s.workers
      ensures !Executing(s.workers[w])
    {
      assert w == (w.0, w.1);
      assert AllFinished(s, w.0);
    }
  }

  // ---------------------------------------------------------------- refused, or executed and reported

  /** Some goroutine is executing the script of the serial after the first `k` steps. */
  ghost predicate BusyAt(steps: seq<Step>, k: nat, x: Serial) {
    k <= |steps| && exists v :: Runs(Run(NEW, steps[..k]).workers, v, x)
  }

  /** The task was still waiting when step `k` checked it. */
  ghost predicate CheckedAt(steps: seq<Step>, k: nat, w: Worker, x: Serial) {
    && k < |steps| && steps[k] == Check(w)
    && var s := Run(NEW, steps[..k]);
       w in s.workers && s.workers[w].stage == Waiting && s.workers[w].serial == x
  }

  /** Step `j` executed the script of the task, with this report. */
  ghost predicate ExecutedAt(steps: seq<Step>, j: nat, w: Worker, x: Serial, report: nat) {
    j < |steps| && steps[j] == Execute(w, report) && Runs(Run(NEW, steps[..j]).workers, w, x)
  }

  /** How a task got where it is. */
  ghost predicate Justified(steps: seq<Step>, w: Worker, t: Task) {
    match t.stage
    case Waiting => t.result.None?
    case Refused => t.result.None? && exists k: nat :: CheckedAt(steps, k, w, t.serial) && BusyAt(steps, k, t.serial)
    case Running => t.result.None? && exists k: nat :: CheckedAt(steps, k, w, t.serial) && !BusyAt(steps, k, t.serial)
    case _ =>
      t.result.Some? &&
      match t.result.value
      case Busy(x) =>
        x == t.serial && t.stage == Finished
        && exists k: nat :: CheckedAt(steps, k, w, x) && BusyAt(steps, k, x)
      case Report(x, report) =>
        x == t.serial
        && exists k: nat, j: nat ::
             k < j && CheckedAt(steps, k, w, x) && !BusyAt(steps, k, x) && ExecutedAt(steps, j, w, x, report)
  }

  lemma CheckedLater(steps: seq<Step>, step: Step, k: nat, w: Worker, x: Serial)
    requires CheckedAt(steps, k, w, x)
    ensures CheckedAt(steps + [step], k, w, x)
    ensures BusyAt(steps + [step], k, x) <==> BusyAt(steps, k, x)
  {
    hide Run, Runs;
    assert (steps + [step])[..k] == steps[..k];
  }

  lemma ExecutedLater(steps: seq<Step>, step: Step, j: nat, w: Worker, x: Serial, report: nat)
    requires ExecutedAt(steps, j, w, x, report)
    ensures ExecutedAt(steps + [step], j, w, x, report)
  {
    hide Run, Runs;
    assert (steps + [step])[..j] == steps[..j];
  }

  lemma JustifiedLater(steps: seq<Step>, step: Step, w: Worker, t: Task)
    requires Justified(steps, w, t)
    ensures Justified(steps + [step], w, t)
  {
    hide CheckedAt, BusyAt, ExecutedAt;
    forall k: nat, x: Serial | CheckedAt(steps, k, w, x)
      ensures CheckedAt(steps + [step], k, w, x)
      ensures BusyAt(steps + [step], k, x) <==> BusyAt(steps, k, x)
    {
      CheckedInRange(steps, k, w, x);
      CheckedLater(steps, step, k, w, x);
    }
    forall j: nat, x: Serial, report: nat | ExecutedAt(steps, j, w, x, report)
      ensures ExecutedAt(steps + [step], j, w, x, report)
    {
      ExecutedLater(steps, step, j, w, x, report);
    }
  }

  lemma CheckedInRange(steps: seq<Step>, k: nat, w: Worker, x: Serial)
    requires CheckedAt(steps, k, w, x)
    ensures k < |steps|
  {
  }

  lemma RunSnoc(steps: seq<Step>, step: Step)
    ensures Run(NEW, steps + [step]) == Apply(Run(NEW, steps), step)
    ensures (steps + [step])[..|steps|] == steps
  {
    assert (steps + [step])[..|steps|] == steps;
  }

  lemma BusyIsActive(steps: seq<Step>, step: Step, x: Serial)
    requires Inv(Run(NEW, steps))
    ensures BusyAt(steps + [step], |steps|, x) <==> x in Run(NEW, steps).active
  {
    hide Apply, Run, Runs, Shape;
    RunSnoc(steps, step);
  }

  lemma CheckedJustified(steps: seq<Step>, w: Worker)
    requires Inv(Run(NEW, steps)) && w in Run(NEW, steps).workers && Run(NEW, steps).workers[w].stage == Waiting
    requires Justified(steps, w, Run(NEW, steps).workers[w])
    ensures Justified(steps + [Check(w)], w, Run(NEW, steps + [Check(w)]).workers[w])
  {
    hide Run, Inv, BusyAt;
    var s := Run(NEW, steps);
    var after := steps + [Check(w)];
    RunSnoc(steps, Check(w));
    BusyIsActive(steps, Check(w), s.workers[w].serial);
    assert CheckedAt(after, |steps|, w, s.workers[w].serial);
  }

  lemma ExecutedJustified(steps: seq<Step>, w: Worker, report: nat)
    requires w in Run(NEW, steps).workers && Run(NEW, steps).workers[w].stage == Running
    requires Justified(steps, w, Run(NEW, steps).workers[w])
    ensures Justified(steps + [Execute(w, report)], w, Run(NEW, steps + [Execute(w, report)]).workers[w])
  {
    hide Run, BusyAt, CheckedAt;
    var step := Execute(w, report);
    var t := Run(NEW, steps).workers[w];
    RunSnoc(steps, step);
    var k: nat :| CheckedAt(steps, k, w, t.serial) && !BusyAt(steps, k, t.serial);
    CheckedInRange(steps, k, w, t.serial);
    CheckedLater(steps, step, k, w, t.serial);
    assert ExecutedAt(steps + [step], |steps|, w, t.serial, report);
    assert Run(NEW, steps + [step]).workers[w] == Written(t, Report(t.serial, report), Releasing);
  }

  /** Writing the refusal and giving the device back add no new reasons. */
  lemma MovedJustified(steps: seq<Step>, step: Step, w: Worker)
    requires step == WriteBusy(w) || step == Unlock(w)
    requires w in Run(NEW, steps).workers
    requires Justified(steps, w, Run(NEW, steps).workers[w])
    ensures w in Run(NEW, steps + [step]).workers && Justified(steps + [step], w, Run(NEW, steps + [step]).workers[w])
  {
    var t := Run(NEW, steps).workers[w];
    RunSnoc(steps, step);
    hide Run, BusyAt, CheckedAt, ExecutedAt;
    JustifiedLater(steps, step, w, t);
  }

  lemma StepJustified(steps: seq<Step>, step: Step, w: Worker)
    requires Inv(Run(NEW, steps)) && w in Run(NEW, steps + [step]).workers
    requires w in Run(NEW, steps).workers ==> Justified(steps, w, Run(NEW, steps).workers[w])
    ensures Justified(steps + [step], w, Run(NEW, steps + [step]).workers[w])
  {
    var s := Run(NEW, steps);
    RunSnoc(steps, step);
    var s' := Run(NEW, steps + [step]);
    hide Run, Inv, Justified;
    if w in s.workers && s'.workers[w] == s.workers[w] {
      JustifiedLater(steps, step, w, s.workers[w]);
    } else if step.Call? {
      WaitingJustified(steps + [step], w, s'.workers[w]);
    } else if step == Check(w) {
      CheckedJustified(steps, w);
    } else if step.Execute? {
      ExecutedJustified(steps, w, step.report);
    } else {
      MovedJustified(steps, step, w);
    }
  }

  lemma WaitingJustified(steps: seq<Step>, w: Worker, t: Task)
    requires t.stage == Waiting && t.result.None?
    ensures Justified(steps, w, t)
  {
  }

  /**
    In every run: a task was refused, and its result says busy, only because another was
    executing the script of its serial when it was checked; and a result is a report only
    because none was, and the task was executed then and gave that report.
   */
  lemma {:induction false} EveryTaskJustified(steps: seq<Step>, w: Worker)
    requires w in Run(NEW, steps).workers
    ensures Justified(steps, w, Run(NEW, steps).workers[w])
    decreases |steps|
  {
    hide Justified, Inv, Apply;
    if steps == [] {
    } else {
      var pre, last := steps[..|steps| - 1], steps[|steps| - 1];
      assert steps == pre + [last];
      RunInv(pre);
      if w in Run(NEW, pre).workers {
        EveryTaskJustified(pre, w);
      }
      hide Run;
      StepJustified(pre, last, w);
    }
  }

  // ---------------------------------------------------------------- a free device is used

  lemma {:induction false} CheckedOnce(steps: seq<Step>, k: nat, w: Worker, x: Serial)
    requires CheckedAt(steps, k, w, x)
    ensures w in Run(NEW, steps).workers && Run(NEW, steps).workers[w].stage != Waiting
    ensures Run(NEW, steps).workers[w].serial == x
    decreases |steps|
  {
    hide Apply;
    var pre, last := steps[..|steps| - 1], steps[|steps| - 1];
    if k == |steps| - 1 {
      assert steps[..k] == pre;
      CheckMoves(Run(NEW, pre), w);
    } else {
      assert steps[..k] == pre[..k];
      CheckedOnce(pre, k, w, x);
      RunInv(pre);
      MovedStays(Run(NEW, pre), last, w);
    }
  }

  lemma CheckMoves(s: State, w: Worker)
    requires w in s.workers && s.workers[w].stage == Waiting
    ensures var s' := Apply(s, Check(w));
            w in s'.workers && s'.workers[w].stage != Waiting && s'.workers[w].serial == s.workers[w].serial
  {
  }

  lemma MovedStays(s: State, step: Step, w: Worker)
    requires w in s.workers && s.workers[w].stage != Waiting
    requires step.Call? && step.call !in s.calls ==> step.call != w.0
    ensures var s' := Apply(s, step);
            w in s'.workers && s'.workers[w].stage != Waiting && s'.workers[w].serial == s.workers[w].serial
  {
  }

  lemma SameCheck(steps: seq<Step>, j: nat, k: nat, w: Worker, x: Serial)
    requires CheckedAt(steps, j, w, x) && CheckedAt(steps, k, w, x)
    ensures j == k
  {
    hide Run;
    var m, n := if j < k then j else k, if j < k then k else j;
    if m < n {
      assert steps[..n][..m] == steps[..m];
      CheckedOnce(steps[..n], m, w, x);
    }
  }

  /**
    A task that was checked while nobody executed its serial is never refused: it is being
    executed, or its result is the report of its execution.
   */
  lemma FreeTaskExecuted(steps: seq<Step>, k: nat, w: Worker, x: Serial)
    requires CheckedAt(steps, k, w, x) && !BusyAt(steps, k, x)
    ensures w in Run(NEW, steps).workers
    ensures var t := Run(NEW, steps).workers[w];
            || (t.stage == Running && t.result.None?)
            || ((t.stage == Releasing || t.stage == Finished)
                && t.result.Some? && t.result.value.Report? && t.result.value.serial == x
                && exists j: nat :: k < j && ExecutedAt(steps, j, w, x, t.result.value.report))
  {
    hide Run, CheckedAt, BusyAt, ExecutedAt;
    CheckedOnce(steps, k, w, x);
    EveryTaskJustified(steps, w);
    var t := Run(NEW, steps).workers[w];
    forall j: nat | CheckedAt(steps, j, w, x)
      ensures j == k
    {
      SameCheck(steps, j, k, w, x);
    }
  }

  /** A task that was checked while another executed its serial is refused. */
  lemma BusyTaskRefused(steps: seq<Step>, k: nat, w: Worker, x: Serial)
    requires CheckedAt(steps, k, w, x) && BusyAt(steps, k, x)
    ensures w in Run(NEW, steps).workers
    ensures var t := Run(NEW, steps).workers[w];
            || (t.stage == Refused && t.result.None?)
            || (t.stage == Finished && t.result == Some(Busy(x)))
  {
    hide Run, CheckedAt, BusyAt, ExecutedAt;
    CheckedOnce(steps, k, w, x);
    EveryTaskJustified(steps, w);
    forall j: nat | CheckedAt(steps, j, w, x)
      ensures j == k
    {
      SameCheck(steps, j, k, w, x);
    }
  }

  // ---------------------------------------------------------------- no call is stuck

  /** The step that brings a task on. */
  function NextStep(w: Worker, t: Task): Step {
    match t.stage
    case Waiting => Check(w)
    case Refused => WriteBusy(w)
    case Running => Execute(w, 0)
    case _ => Unlock(w)
  }

  function Ahead(t: Task): nat {
    match t.stage
    case Waiting => 3
    case Refused => 1
    case Running => 2
    case Releasing => 1
    case Finished => 0
  }

  function RunOn(s: State, steps: seq<Step>): State
    decreases |steps|
  {
    if steps == [] then s else RunOn(Apply(s, steps[0]), steps[1..])
  }

  lemma {:induction false} RunOnConcat(s: State, a: seq<Step>, b: seq<Step>)
    ensures RunOn(s, a + b) == RunOn(RunOn(s, a), b)
    decreases |a|
  {
    hide Apply;
    if a == [] {
      assert a + b == b;
    } else {
      assert (a + b)[1..] == a[1..] + b;
      RunOnConcat(Apply(s, a[0]), a[1..], b);
    }
  }

  lemma StepAhead(s: State, w: Worker)
    requires w in s.workers && s.workers[w].stage != Finished
    ensures var s' := Apply(s, NextStep(w, s.workers[w]));
            && s'.calls == s.calls && s'.returned == s.returned && s'.workers.Keys == s.workers.Keys
            && Ahead(s'.workers[w]) < Ahead(s.workers[w])
            && forall v :: v in s.workers && v != w ==> s'.workers[v] == s.workers[v]
  {
  }

  /** One task can be brought to its end without touching the others. */
  lemma {:induction false} FinishTask(s: State, w: Worker) returns (more: seq<Step>)
    requires w in s.workers
    ensures var s' := RunOn(s, more);
            && s'.calls == s.calls && s'.returned == s.returned && s'.workers.Keys == s.workers.Keys
            && s'.workers[w].stage == Finished
            && forall v :: v in s.workers && v != w ==> s'.workers[v] == s.workers[v]
    decreases Ahead(s.workers[w])
  {
    hide Apply;
    if s.workers[w].stage == Finished {
      more := [];
    } else {
      var step := NextStep(w, s.workers[w]);
      StepAhead(s, w);
      var rest := FinishTask(Apply(s, step), w);
      more := [step] + rest;
      assert more[1..] == rest;
    }
  }

  /** The first `n` tasks of a call can be brought to their end. */
  lemma {:induction false} FinishTasks(s: State, call: CallId, n: nat) returns (more: seq<Step>)
    requires call in s.calls && n <= |s.calls[call]|
    requires forall i :: 0 <= i < |s.calls[call]| ==> (call, i) in s.workers
    ensures var s' := RunOn(s, more);
            && s'.calls == s.calls && s'.returned == s.returned && s'.workers.Keys == s.workers.Keys
            && forall i :: 0 <= i < n ==> s'.workers[(call, i)].stage == Finished
  {
    hide RunOn;
    if n == 0 {
      more := [];
      NoSteps(s);
    } else {
      var front := FinishTasks(s, call, n - 1);
      var s1 := RunOn(s, front);
      var last := FinishTask(s1, (call, n - 1));
      more := front + last;
      RunOnConcat(s, front, last);
    }
  }

  lemma NoSteps(s: State)
    ensures RunOn(s, []) == s
  {
  }

  /**
    From every reachable state every call can be brought to return: none of its goroutines
    waits for another.
   */
  lemma CallCanReturn(steps: seq<Step>, call: CallId) returns (more: seq<Step>)
    requires call in Run(NEW, steps).calls
    ensures call in RunOn(Run(NEW, steps), more).returned
  {
    hide Apply, Exclusive;
    RunInv(steps);
    hide Run, RunOn;
    var s := Run(NEW, steps);
    var rest := FinishTasks(s, call, |s.calls[call]|);
    more := rest + [Return(call)];
    RunOnConcat(s, rest, [Return(call)]);
    ReturnWorks(RunOn(s, rest), call);
  }

  lemma ReturnWorks(s: State, call: CallId)
    requires call in s.calls && AllFinished(s, call)
    ensures call in RunOn(s, [Return(call)]).returned
  {
    assert RunOn(s, [Return(call)]) == RunOn(Apply(s, Return(call)), []);
  }

  /** A new call starts one waiting goroutine for each of its tasks. */
  lemma CallStarts(s: State, call: CallId, tasks: seq<Serial>, i: nat)
    requires call !in s.calls && i < |tasks|
    ensures var s' := Apply(s, Call(call, tasks));
            && call in s'.calls && s'.calls[call] == tasks
            && (call, i) in s'.workers && s'.workers[(call, i)].serial == tasks[i]
            && s'.workers[(call, i)].stage == Waiting
  {
  }
}
