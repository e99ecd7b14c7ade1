/**
  The recording compiler of internal/automation/compiler.go: recorded events become script
  steps, and `optimizeSteps` merges runs of inputs and drops repeated clicks.
 */
module Compiler {
  import opened Common

  const EDIT_TEXT: string := "android.widget.EditText"

  /** The fields of a recorded element that the optimizer looks at. */
  datatype Target = Target(resourceId: string, cls: string)

  datatype Locator = Locator(strategy: string, value: string)

  datatype ClickParams = ClickParams(target: Option<Target>, locators: seq<Locator>, resourceId: string,
                                     cls: string, x: Option<real>, y: Option<real>)

  datatype InputParams = InputParams(text: string, target: Option<Target>, variable: string, resourceId: string,
                                     contentDesc: string, cls: string, xpath: string,
                                     x: Option<real>, y: Option<real>)

  datatype Step =
    | Launch(package: string)
    | Terminate(package: string)
    | Wait(cls: string, condition: string, timeoutMs: nat)
    | Assert(text: string, condition: string)
    | Swipe(startX: real, startY: real, endX: real, endY: real, durationMs: int)
    | Click(click: ClickParams)
    | Input(input: InputParams)

  // ---------------------------------------------------------------- the optimizer

  /** Same resource id, same non-coordinate first locator, or closer than 0.01 on the screen. */
  predicate Duplicate(curr: ClickParams, prev: ClickParams) {
    || (if curr.target.Some? && prev.target.Some?
        then curr.target.value.resourceId != "" && curr.target.value.resourceId == prev.target.value.resourceId
        else curr.locators != [] && prev.locators != []
             && curr.locators[0] == prev.locators[0] && curr.locators[0].strategy != "coordinates")
    || (curr.x.Some? && prev.x.Some? && curr.y.Some? && prev.y.Some?
        && var dx, dy := curr.x.value - prev.x.value, curr.y.value - prev.y.value;
           dx * dx + dy * dy < 0.0001)
  }

  /** A new pending input: its own fields, or those of the edit field clicked just before. */
  function Begin(out: seq<Step>, p: InputParams): InputParams {
    var q := p.(variable := "");
    if out != [] && out[|out| - 1].Click?
       && out[|out| - 1].click.target.Some? && out[|out| - 1].click.target.value.cls == EDIT_TEXT
    then
      var prev := out[|out| - 1].click;
      q.(target := prev.target, resourceId := prev.resourceId, cls := prev.cls)
    else q
  }

  datatype Progress = Progress(out: seq<Step>, pending: Option<InputParams>)
  {
    function Flushed(): seq<Step> {
      if pending.Some? then out + [Input(pending.value)] else out
    }
  }

  predicate Repeats(out: seq<Step>, step: Step) {
    step.Click? && out != [] && out[|out| - 1].Click? && Duplicate(step.click, out[|out| - 1].click)
  }

  function Push(st: Progress, step: Step): Progress {
    if step.Input? then
      if st.pending.Some?
      then st.(pending := Some(st.pending.value.(text := st.pending.value.text + step.input.text)))
      else st.(pending := Some(Begin(st.out, step.input)))
    else
      var out := st.Flushed();
      Progress(if Repeats(out, step) then out else out + [step], None)
  }

  function Fold(steps: seq<Step>): Progress
    decreases |steps|
  {
    if steps == [] then Progress([], None) else Push(Fold(steps[..|steps| - 1]), steps[|steps| - 1])
  }

  function Optimized(steps: seq<Step>): seq<Step> {
    Fold(steps).Flushed()
  }

  /** `optimizeSteps`. */
  method OptimizeSteps(steps: seq<Step>) returns (optimized: seq<Step>)
    ensures optimized == Optimized(steps)
  {
    hide Begin, Duplicate;
    if |steps| == 0 {
      return steps;
    }
    optimized := [];
    var pending: Option<InputParams> := None;
    for i := 0 to |steps|
      invariant Progress(optimized, pending) == Fold(steps[..i])
    {
      var step := steps[i];
      assert steps[..i + 1][..i] == steps[..i];
      if step.Input? {
        if pending.None? {
          pending := Some(Begin(optimized, step.input));
        } else {
          pending := Some(pending.value.(text := pending.value.text + step.input.text));
        }
        continue;
      }
      if pending.Some? {
        optimized := optimized + [Input(pending.value)];
        pending := None;
      }
      if step.Click? && |optimized| > 0 && optimized[|optimized| - 1].Click? {
        if Duplicate(step.click, optimized[|optimized| - 1].click) {
          continue;
        }
      }
      optimized := optimized + [step];
    }
    assert steps[..|steps|] == steps;
    if pending.Some? {
      optimized := optimized + [Input(pending.value)];
    }
  }

  // ---------------------------------------------------------------- what is kept

  function TypedText(steps: seq<Step>): string
    decreases |steps|
  {
    if steps == [] then ""
    else TypedText(steps[..|steps| - 1]) + (if steps[|steps| - 1].Input? then steps[|steps| - 1].input.text else "")
  }

  /** The steps other than inputs and clicks. */
  function Others(steps: seq<Step>): seq<Step>
    decreases |steps|
  {
    if steps == [] then []
    else
      var last := steps[|steps| - 1];
      Others(steps[..|steps| - 1]) + (if last.Input? || last.Click? then [] else [last])
  }

  lemma SnocText(steps: seq<Step>, s: Step)
    ensures TypedText(steps + [s]) == TypedText(steps) + (if s.Input? then s.input.text else "")
    ensures Others(steps + [s]) == Others(steps) + (if s.Input? || s.Click? then [] else [s])
  {
    assert (steps + [s])[..|steps|] == steps;
  }

  /** The text typed and all other steps survive optimization, in order. */
  lemma {:induction false} KeepsTextAndOthers(steps: seq<Step>)
    ensures TypedText(Optimized(steps)) == TypedText(steps)
    ensures Others(Optimized(steps)) == Others(steps)
    decreases |steps|
  {
    hide TypedText, Others, Begin, Duplicate;
    if steps == [] {
      EmptyText();
    } else {
      var init, last := steps[..|steps| - 1], steps[|steps| - 1];
      assert steps == init + [last];
      KeepsTextAndOthers(init);
      SnocText(init, last);
      PushKeeps(Fold(init), last);
    }
  }

  lemma EmptyText()
    ensures TypedText([]) == "" && Others([]) == []
  {
  }

  lemma BeginKeepsText(out: seq<Step>, p: InputParams)
    ensures Begin(out, p).text == p.text
  {
  }

  lemma PushKeeps(st: Progress, step: Step)
    ensures TypedText(Push(st, step).Flushed())
            == TypedText(st.Flushed()) + (if step.Input? then step.input.text else "")
    ensures Others(Push(st, step).Flushed())
            == Others(st.Flushed()) + (if step.Input? || step.Click? then [] else [step])
  {
    hide TypedText, Others, Begin, Duplicate;
    var st' := Push(st, step);
    if step.Input? {
      SnocText(st.out, Input(st'.pending.value));
      if st.pending.Some? {
        SnocText(st.out, Input(st.pending.value));
      } else {
        BeginKeepsText(st.out, step.input);
      }
    } else {
      SnocText(st.Flushed(), step);
    }
  }

  // ---------------------------------------------------------------- where every step goes

  /** The position in the output that each step was merged into or kept at. */
  function Places(steps: seq<Step>): seq<nat>
    decreases |steps|
  {
    if steps == [] then []
    else
      var out := Fold(steps).Flushed();
      Places(steps[..|steps| - 1]) + [if out == [] then 0 else |out| - 1]
  }

  /** `s` is kept at `t`, is part of the input `t`, or is a click that `t` already is. */
  ghost predicate Represents(t: Step, s: Step) {
    if s.Input? then t.Input?
    else t == s || (s.Click? && t.Click? && Duplicate(s.click, t.click))
  }

  ghost predicate KeptAt(out: seq<Step>, place: nat, s: Step) {
    place < |out| && (s.Input? || out[place] == s)
  }

  /** From one step to the next: the next place of the output, or the same one again. */
  ghost predicate Advances(out: seq<Step>, place: nat, next: nat, s: Step) {
    || (next == place + 1 && KeptAt(out, next, s))
    || (next == place && (s.Input? || s.Click?))
  }

  ghost predicate PlacedWell(steps: seq<Step>, out: seq<Step>, places: seq<nat>) {
    && |places| == |steps|
    && (steps == [] <==> out == [])
    && (steps != [] ==> places[0] == 0 && KeptAt(out, 0, steps[0]) && places[|steps| - 1] == |out| - 1)
    && (forall i :: 0 <= i < |steps| ==> places[i] < |out| && Represents(out[places[i]], steps[i]))
    && (forall i :: 0 <= i < |steps| - 1 ==> Advances(out, places[i], places[i + 1], steps[i + 1]))
  }

  lemma PushShape(st: Progress, step: Step)
    ensures var before, after := st.Flushed(), Push(st, step).Flushed();
            && after != [] && Represents(after[|after| - 1], step)
            && (|after| == |before| || |after| == |before| + 1)
            && (|after| == |before| + 1 ==>
                  after[..|before|] == before && (!step.Input? ==> after[|before|] == step))
            && (|after| == |before| ==>
                  && (step.Input? || step.Click?)
                  && after[..|before| - 1] == before[..|before| - 1]
                  && (after == before || (step.Input? && before[|before| - 1].Input? && after[|before| - 1].Input?)))
  {
    hide Begin, Duplicate;
  }

  /**
    Every step lands, in order, on a step of the output that represents it; two steps land
    on the same one only as adjacent inputs or as a click and its duplicates; and every
    output step is landed on.
   */
  lemma {:induction false} EveryStepPlaced(steps: seq<Step>)
    ensures PlacedWell(steps, Optimized(steps), Places(steps))
    decreases |steps|
  {
    hide Push, Duplicate, PlacedWell;
    if steps == [] {
      PlacedNone();
    } else {
      var init, last := steps[..|steps| - 1], steps[|steps| - 1];
      EveryStepPlaced(init);
      PushShape(Fold(init), last);
      assert steps == init + [last];
      PlacedSnoc(init, Optimized(init), Places(init), last, Optimized(steps));
    }
  }

  lemma PlacedNone()
    ensures PlacedWell([], Optimized([]), Places([]))
  {
  }

  lemma PlacedSnoc(steps: seq<Step>, before: seq<Step>, places: seq<nat>, step: Step, after: seq<Step>)
    requires PlacedWell(steps, before, places)
    requires after != [] && Represents(after[|after| - 1], step)
    requires |after| == |before| || |after| == |before| + 1
    requires |after| == |before| + 1 ==> after[..|before|] == before && (!step.Input? ==> after[|before|] == step)
    requires |after| == |before| ==>
               && (step.Input? || step.Click?)
               && after[..|before| - 1] == before[..|before| - 1]
               && (after == before || (step.Input? && before[|before| - 1].Input? && after[|before| - 1].Input?))
    ensures PlacedWell(steps + [step], after, places + [|after| - 1])
  {
    hide Duplicate;
    var ss, ps := steps + [step], places + [|after| - 1];
    assert forall i :: 0 <= i < |steps| ==> ss[i] == steps[i] && ps[i] == places[i];
    forall p: nat, s: Step | p < |before|
      ensures Represents(before[p], s) ==> Represents(after[p], s)
      ensures KeptAt(before, p, s) ==> KeptAt(after, p, s)
    {
      assert p < |before| - 1 || |after| == |before| + 1 ==> after[p] == before[p];
    }
    forall i | 0 <= i < |ss| - 1
      ensures Advances(after, ps[i], ps[i + 1], ss[i + 1])
    {
      if i < |steps| - 1 {
        assert Advances(before, places[i], places[i + 1], steps[i + 1]);
      }
    }
  }

  // ---------------------------------------------------------------- normal form

  /** No two adjacent inputs and no click repeated by the next step. */
  ghost predicate Normal(out: seq<Step>) {
    forall k :: 0 < k < |out| ==> !(out[k - 1].Input? && out[k].Input?) && !Repeats(out[..k], out[k])
  }

  /** Every input already carries what the step before it would give it. */
  ghost predicate Settled(out: seq<Step>) {
    forall k :: 0 <= k < |out| && out[k].Input? ==> Begin(out[..k], out[k].input) == out[k].input
  }

  ghost predicate Tidy(st: Progress) {
    && Normal(st.out) && Settled(st.out)
    && (st.out == [] || !st.out[|st.out| - 1].Input?)
    && (st.pending.Some? ==> Begin(st.out, st.pending.value) == st.pending.value)
  }

  lemma SnocTidy(out: seq<Step>, step: Step)
    requires Normal(out) && Settled(out)
    requires out != [] ==> !(out[|out| - 1].Input? && step.Input?) && !Repeats(out, step)
    requires step.Input? ==> Begin(out, step.input) == step.input
    ensures Normal(out + [step]) && Settled(out + [step])
  {
    hide Begin, Repeats;
    var t := out + [step];
    forall k | 0 <= k < |t|
      ensures t[..k] == if k < |out| then out[..k] else out
    {
    }
  }

  lemma BeginAgain(out: seq<Step>, p: InputParams, more: string)
    ensures Begin(out, Begin(out, p)) == Begin(out, p)
    ensures Begin(out, p) == p ==> Begin(out, p.(text := p.text + more)) == p.(text := p.text + more)
  {
  }

  lemma PushTidy(st: Progress, step: Step)
    requires Tidy(st)
    ensures Tidy(Push(st, step))
  {
    hide Begin, Duplicate, Normal, Settled;
    if step.Input? {
      if st.pending.Some? {
        BeginAgain(st.out, st.pending.value, step.input.text);
      } else {
        BeginAgain(st.out, step.input, "");
      }
    } else {
      if st.pending.Some? {
        SnocTidy(st.out, Input(st.pending.value));
      }
      var out := st.Flushed();
      if !Repeats(out, step) {
        SnocTidy(out, step);
      }
    }
  }

  lemma {:induction false} FoldTidy(steps: seq<Step>)
    ensures Tidy(Fold(steps))
    decreases |steps|
  {
    hide Push, Begin, Duplicate;
    if steps == [] {
    } else {
      hide Tidy;
      FoldTidy(steps[..|steps| - 1]);
      PushTidy(Fold(steps[..|steps| - 1]), steps[|steps| - 1]);
    }
  }

  /** The output is in normal form and settled. */
  lemma OutputNormal(steps: seq<Step>)
    ensures Normal(Optimized(steps)) && Settled(Optimized(steps))
  {
    hide Fold, Normal, Settled, Begin;
    FoldTidy(steps);
    var st := Fold(steps);
    if st.pending.Some? {
      SnocTidy(st.out, Input(st.pending.value));
    }
  }

  lemma InitTidy(out: seq<Step>)
    requires out != [] && Normal(out) && Settled(out)
    ensures Normal(out[..|out| - 1]) && Settled(out[..|out| - 1])
  {
    hide Begin, Repeats;
    var t := out[..|out| - 1];
    forall k | 0 <= k < |t|
      ensures t[..k] == out[..k] && t[k] == out[k]
    {
    }
  }

  /** What folding a settled normal form gives. */
  function Resting(out: seq<Step>): Progress {
    if out != [] && out[|out| - 1].Input?
    then Progress(out[..|out| - 1], Some(out[|out| - 1].input)) else Progress(out, None)
  }

  lemma PushResting(init: seq<Step>, last: Step)
    requires init != [] ==> !(init[|init| - 1].Input? && last.Input?) && !Repeats(init, last)
    requires last.Input? ==> Begin(init, last.input) == last.input
    ensures Push(Resting(init), last) == Resting(init + [last])
  {
    hide Begin, Duplicate;
    assert (init + [last])[..|init|] == init;
    assert Resting(init).Flushed() == init;
  }

  lemma {:induction false} FoldOfTidy(out: seq<Step>)
    requires Normal(out) && Settled(out)
    ensures Fold(out) == Resting(out)
    decreases |out|
  {
    hide Begin, Duplicate, Push, Repeats;
    if out == [] {
    } else {
      var init, last := out[..|out| - 1], out[|out| - 1];
      InitTidy(out);
      FoldOfTidy(init);
      assert out == init + [last];
      if init != [] {
        assert out[|out| - 1 - 1] == init[|init| - 1];
      }
      PushResting(init, last);
    }
  }

  /** The optimizer changes nothing exactly on settled normal forms. */
  lemma FixedPoints(steps: seq<Step>)
    ensures Optimized(steps) == steps <==> Normal(steps) && Settled(steps)
  {
    hide Fold, Normal, Settled;
    OutputNormal(steps);
    if Normal(steps) && Settled(steps) {
      FoldOfTidy(steps);
    }
  }

  lemma Idempotent(steps: seq<Step>)
    ensures Optimized(Optimized(steps)) == Optimized(steps)
  {
    hide Optimized, Normal, Settled;
    OutputNormal(steps);
    FixedPoints(Optimized(steps));
  }

  /** Tapping the same spot again adds nothing to the script. */
  lemma RepeatedTapDropped(steps: seq<Step>, c: ClickParams)
    requires c.x.Some? && c.y.Some?
    ensures Optimized(steps + [Click(c), Click(c)]) == Optimized(steps + [Click(c)])
  {
    var once := steps + [Click(c)];
    var twice := steps + [Click(c), Click(c)];
    assert twice[..|once|] == once && once[..|steps|] == steps;
  }

  // ---------------------------------------------------------------- step by step, on the fields

  /** Two screen positions less than 0.01 apart. */
  predicate Close(x: real, y: real, x': real, y': real) {
    (x - x') * (x - x') + (y - y') * (y - y') < 0.01 * 0.01
  }

  /**
    A click is dropped exactly if the script so far ends in a click and: both have a recorded
    target, with the same non-empty resource id; or not both have one and their first
    locators agree and are not coordinates; or the two are less than 0.01 apart.
   */
  lemma ClickDroppedExact(steps: seq<Step>, c: ClickParams)
    ensures var out := Optimized(steps);
            var next := Optimized(steps + [Click(c)]);
            && (next == out || next == out + [Click(c)])
            && (next == out <==>
                  && out != [] && out[|out| - 1].Click?
                  && var p := out[|out| - 1].click;
                     || (c.target.Some? && p.target.Some?
                         && c.target.value.resourceId == p.target.value.resourceId != "")
                     || ((c.target.None? || p.target.None?) && c.locators != [] && p.locators != []
                         && c.locators[0].strategy == p.locators[0].strategy != "coordinates"
                         && c.locators[0].value == p.locators[0].value)
                     || (c.x.Some? && c.y.Some? && p.x.Some? && p.y.Some?
                         && Close(c.x.value, c.y.value, p.x.value, p.y.value)))
  {
    var after := steps + [Click(c)];
    assert after[..|steps|] == steps;
    hide Begin;
    assert |Optimized(steps) + [Click(c)]| == |Optimized(steps)| + 1;
  }

  /**
    An input becomes part of the input before it; otherwise it stands on its own, with its own
    fields, or with target, resource id and class of the edit field clicked just before.
   */
  lemma InputPlacedExact(steps: seq<Step>, p: InputParams)
    ensures var out := Optimized(steps);
            var next := Optimized(steps + [Input(p)]);
            var n := |out| - 1;
            if steps != [] && steps[|steps| - 1].Input?
            then
              && out != [] && out[n].Input?
              && next == out[..n] + [Input(out[n].input.(text := out[n].input.text + p.text))]
            else
              && |next| == |out| + 1 && next[..|out|] == out && next[|out|].Input?
              && var q := next[|out|].input;
                 && q.text == p.text && q.variable == "" && q.contentDesc == p.contentDesc && q.xpath == p.xpath
                 && q.x == p.x && q.y == p.y
                 && if out != [] && out[n].Click? && out[n].click.target.Some?
                       && out[n].click.target.value.cls == "android.widget.EditText"
                    then
                      && q.target == out[n].click.target && q.resourceId == out[n].click.resourceId
                      && q.cls == out[n].click.cls
                    else q.target == p.target && q.resourceId == p.resourceId && q.cls == p.cls
  {
    var after := steps + [Input(p)];
    assert after[..|steps|] == steps;
    PendingExact(steps);
    var st := Fold(steps);
    if st.pending.Some? {
      assert st.Flushed()[..|st.out|] == st.out;
    }
  }

  /** An input is pending exactly behind an input. */
  lemma PendingExact(steps: seq<Step>)
    ensures Fold(steps).pending.Some? <==> steps != [] && steps[|steps| - 1].Input?
  {
    hide Begin, Repeats;
  }

  /** Any other step is added as it is. */
  lemma OtherKept(steps: seq<Step>, s: Step)
    requires !s.Input? && !s.Click?
    ensures Optimized(steps + [s]) == Optimized(steps) + [s]
  {
    assert (steps + [s])[..|steps|] == steps;
    hide Begin;
  }

  // ---------------------------------------------------------------- whole scripts

  /** Recorded events; a click carries what `compileClickEvent` makes of it. */
  datatype RawEvent =
    | LaunchEvent(package: string)
    | ClickEvent(click: ClickParams)
    | InputEvent(text: string)
    | SwipeEvent(startX: real, startY: real, endX: real, endY: real, durationMs: int)
    | UnknownEvent

  function TypedInput(text: string): InputParams {
    InputParams(text, None, "", "", "", "", "", None, None)
  }

  /** The steps of one event; `expected` is the text to expect after a launch. */
  function StepsOf(e: RawEvent, expected: string -> string): seq<Step> {
    match e
    case LaunchEvent(p) =>
      [Launch(p), Wait("android.widget.TextView", "visible", 3000), Assert(expected(p), "contains")]
    case ClickEvent(c) => [Click(c)]
    case InputEvent(t) => [Input(TypedInput(t))]
    case SwipeEvent(a, b, c, d, ms) => [Swipe(a, b, c, d, ms)]
    case UnknownEvent => []
  }

  function AllSteps(events: seq<RawEvent>, expected: string -> string): seq<Step>
    decreases |events|
  {
    if events == [] then [] else AllSteps(events[..|events| - 1], expected) + StepsOf(events[|events| - 1], expected)
  }

  function LastPackage(events: seq<RawEvent>): string
    decreases |events|
  {
    if events == [] then ""
    else if events[|events| - 1].LaunchEvent? then events[|events| - 1].package
    else LastPackage(events[..|events| - 1])
  }

  function Ending(package: string): seq<Step> {
    if package == "" then [] else [Terminate(package), Wait("android.widget.TextView", "hidden", 3000)]
  }

  /** `CompileScript`. */
  method CompileScript(events: seq<RawEvent>, expected: string -> string) returns (script: seq<Step>)
    ensures script == Optimized(AllSteps(events, expected)) + Ending(LastPackage(events))
  {
    hide Optimized;
    var steps: seq<Step> := [];
    var launchPackage := "";
    for i := 0 to |events|
      invariant steps == AllSteps(events[..i], expected)
      invariant launchPackage == LastPackage(events[..i])
    {
      assert events[..i + 1][..i] == events[..i];
      if events[i].LaunchEvent? {
        launchPackage := events[i].package;
      }
      steps := steps + StepsOf(events[i], expected);
    }
    assert events[..|events|] == events;
    script := OptimizeSteps(steps);
    if launchPackage != "" {
      script := script + [Terminate(launchPackage)];
      script := script + [Wait("android.widget.TextView", "hidden", 3000)];
    }
  }

  function RecordedText(events: seq<RawEvent>): string
    decreases |events|
  {
    if events == [] then ""
    else RecordedText(events[..|events| - 1])
         + (if events[|events| - 1].InputEvent? then events[|events| - 1].text else "")
  }

  lemma {:induction false} AppendText(a: seq<Step>, b: seq<Step>)
    ensures TypedText(a + b) == TypedText(a) + TypedText(b)
    decreases |b|
  {
    if b == [] {
      assert a + b == a;
    } else {
      var init, last := b[..|b| - 1], b[|b| - 1];
      assert a + b == (a + init) + [last];
      AppendText(a, init);
      SnocText(a + init, last);
    }
  }

  lemma StepsText(e: RawEvent, expected: string -> string)
    ensures TypedText(StepsOf(e, expected)) == if e.InputEvent? then e.text else ""
  {
    var steps := StepsOf(e, expected);
    assert steps == [] + steps;
    if e.LaunchEvent? {
      assert steps == (([] + [steps[0]]) + [steps[1]]) + [steps[2]];
      SnocText([] + [steps[0]], steps[1]);
      SnocText(([] + [steps[0]]) + [steps[1]], steps[2]);
      SnocText([], steps[0]);
    } else if steps != [] {
      SnocText([], steps[0]);
    }
  }

  lemma {:induction false} AllStepsText(events: seq<RawEvent>, expected: string -> string)
    ensures TypedText(AllSteps(events, expected)) == RecordedText(events)
    decreases |events|
  {
    hide StepsOf;
    if events == [] {
    } else {
      var init := events[..|events| - 1];
      AllStepsText(init, expected);
      StepsText(events[|events| - 1], expected);
      AppendText(AllSteps(init, expected), StepsOf(events[|events| - 1], expected));
    }
  }

  /** A compiled script types exactly the recorded text. */
  lemma ScriptTypesRecording(events: seq<RawEvent>, expected: string -> string)
    ensures TypedText(Optimized(AllSteps(events, expected)) + Ending(LastPackage(events))) == RecordedText(events)
  {
    hide Optimized, AllSteps, RecordedText;
    AllStepsText(events, expected);
    KeepsTextAndOthers(AllSteps(events, expected));
    var ending := Ending(LastPackage(events));
    AppendText(Optimized(AllSteps(events, expected)), ending);
    EndingText(LastPackage(events));
  }

  lemma EndingText(package: string)
    ensures TypedText(Ending(package)) == ""
  {
    var ending := Ending(package);
    if ending != [] {
      assert ending == ([] + [ending[0]]) + [ending[1]];
      SnocText([], ending[0]);
      SnocText([] + [ending[0]], ending[1]);
    }
  }

  // ---------------------------------------------------------------- what a script is made of

  /** The script without its end. */
  function Recorded(events: seq<RawEvent>, expected: string -> string): seq<Step> {
    Optimized(AllSteps(events, expected))
  }

  lemma {:induction false} AppendOthers(steps: seq<Step>, more: seq<Step>)
    requires forall k :: 0 <= k < |more| ==> !more[k].Input? && !more[k].Click?
    ensures Optimized(steps + more) == Optimized(steps) + more
    decreases |more|
  {
    hide Optimized;
    if more == [] {
      assert steps + more == steps;
    } else {
      var n := |more| - 1;
      AppendOthers(steps, more[..n]);
      OtherKept(steps + more[..n], more[n]);
      assert steps + more == (steps + more[..n]) + [more[n]];
      assert more == more[..n] + [more[n]];
    }
  }

  /** A launch adds the launch itself, a wait for a visible text view and a check of the expected text. */
  lemma LaunchCompiled(events: seq<RawEvent>, package: string, expected: string -> string)
    ensures Recorded(events + [LaunchEvent(package)], expected) ==
            Recorded(events, expected)
            + [Launch(package), Wait("android.widget.TextView", "visible", 3000), Assert(expected(package), "contains")]
  {
    var e := LaunchEvent(package);
    assert (events + [e])[..|events|] == events;
    hide Optimized;
    AppendOthers(AllSteps(events, expected), StepsOf(e, expected));
  }

  /** A swipe adds one swipe from its start to its end, with its duration. */
  lemma SwipeCompiled(events: seq<RawEvent>, startX: real, startY: real, endX: real, endY: real, ms: int,
                      expected: string -> string)
    ensures var script := Recorded(events + [SwipeEvent(startX, startY, endX, endY, ms)], expected);
            && script != [] && script[..|script| - 1] == Recorded(events, expected)
            && var last := script[|script| - 1];
               && last.Swipe? && last.startX == startX && last.startY == startY
               && last.endX == endX && last.endY == endY && last.durationMs == ms
  {
    var e := SwipeEvent(startX, startY, endX, endY, ms);
    assert (events + [e])[..|events|] == events;
    hide Optimized;
    AppendOthers(AllSteps(events, expected), StepsOf(e, expected));
  }

  /** A click or a typed text goes to the optimizer as it was recorded; an unknown event adds nothing. */
  lemma ClickCompiled(events: seq<RawEvent>, c: ClickParams, text: string, expected: string -> string)
    ensures Recorded(events + [ClickEvent(c)], expected) == Optimized(AllSteps(events, expected) + [Click(c)])
    ensures exists p: InputParams ::
              && p.text == text && p.target == None && p.resourceId == "" && p.cls == "" && p.x == None && p.y == None
              && Recorded(events + [InputEvent(text)], expected) == Optimized(AllSteps(events, expected) + [Input(p)])
    ensures Recorded(events + [UnknownEvent], expected) == Recorded(events, expected)
  {
    hide Optimized;
    assert (events + [ClickEvent(c)])[..|events|] == events;
    assert (events + [InputEvent(text)])[..|events|] == events;
    assert (events + [UnknownEvent])[..|events|] == events;
    assert AllSteps(events, expected) + [] == AllSteps(events, expected);
    assert Recorded(events + [InputEvent(text)], expected)
        == Optimized(AllSteps(events, expected) + [Input(TypedInput(text))]);
  }

  /**
    A script ends by terminating a package exactly if the last launch names one: that package,
    and then a wait for the text view to be hidden.
   */
  lemma EndingExact(events: seq<RawEvent>, k: nat)
    requires k < |events| && events[k].LaunchEvent? && forall j :: k < j < |events| ==> !events[j].LaunchEvent?
    ensures Ending(LastPackage(events)) ==
            if events[k].package == "" then []
            else [Terminate(events[k].package), Wait("android.widget.TextView", "hidden", 3000)]
    decreases |events|
  {
    if k < |events| - 1 {
      EndingExact(events[..|events| - 1], k);
    }
  }

  lemma {:induction false} NoLaunchNoEnding(events: seq<RawEvent>)
    requires forall j :: 0 <= j < |events| ==> !events[j].LaunchEvent?
    ensures Ending(LastPackage(events)) == []
    decreases |events|
  {
    if events == [] {
    } else {
      NoLaunchNoEnding(events[..|events| - 1]);
    }
  }
}
