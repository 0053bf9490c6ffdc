/**
 * The step result state machine of newStepExecutor and the positional ids
 * of CompositeExecutor (pkg/runner/run_context.go), as functions of what the
 * step's collaborators report.
 */
module Steps {
  import opened Wrappers
  import opened WorkflowModel

  /** The expression evaluator built for a step (opaque here). */
  datatype Evaluator = Evaluator(id: nat)

  /**
   * What a step run observes from outside, in the order the source asks:
   * sc.isEnabled, sc.setupEnv, the step's executor, and the read-back of the
   * output command file (UpdateFromEnv).
   */
  datatype StepEffects = StepEffects(
    enabled: Result<bool, string>,
    setup: Result<Evaluator, string>,
    body: Option<string>,
    outputRead: Result<map<string, string>, string>)

  /** The step's recorded result and the error returned to the caller. */
  datatype StepRun = StepRun(result: StepResult, err: Option<string>)

  /** The optimistic result a step starts with. */
  const Initial := StepResult(Success, Success, map[])

  /** The result after the body ran, before outputs are published. */
  function AfterBody(step: Step, body: Option<string>): StepResult {
    if body.None? then Initial
    else if step.continueOnError then Initial.(outcome := Failure, conclusion := Success)
    else Initial.(outcome := Failure, conclusion := Failure)
  }

  /** newStepExecutor's effect on the step's result and its returned error. */
  function StepOutcome(step: Step, eff: StepEffects): StepRun {
    match eff.enabled
    case Err(e) => StepRun(Initial.(conclusion := Failure, outcome := Failure), Some(e))
    case Ok(runStep) =>
      if !runStep then StepRun(Initial.(conclusion := Skipped, outcome := Skipped), None)
      else if eff.setup.Err? then StepRun(Initial, Some(eff.setup.error))
      else
        var r := AfterBody(step, eff.body);
        var orgerr := if eff.body.Some? && !step.continueOnError then eff.body else None;
        match eff.outputRead
        case Err(e) => StepRun(r, Some(e))
        case Ok(output) => StepRun(r.(outputs := output), orgerr)
  }

  /** An isEnabled error fails the step, publishes nothing, and is returned. */
  lemma EnabledErrorFailsStep(step: Step, eff: StepEffects)
    requires eff.enabled.Err?
    ensures StepOutcome(step, eff) == StepRun(StepResult(Failure, Failure, map[]), Some(eff.enabled.error))
  {
  }

  /** A false condition skips the step without an error. */
  lemma FalseConditionSkips(step: Step, eff: StepEffects)
    requires eff.enabled == Ok(false)
    ensures StepOutcome(step, eff) == StepRun(StepResult(Skipped, Skipped, map[]), None)
  {
  }

  /** A setupEnv error is returned and leaves the optimistic success in place. */
  lemma SetupErrorKeepsInitial(step: Step, eff: StepEffects)
    requires eff.enabled == Ok(true) && eff.setup.Err?
    ensures StepOutcome(step, eff) == StepRun(StepResult(Success, Success, map[]), Some(eff.setup.error))
  {
  }

  /**
   * A failing body: outcome is Failure; with continue-on-error the
   * conclusion is Success and no error is returned, otherwise the conclusion
   * is Failure and the body's error is returned (when the outputs read back).
   */
  lemma BodyFailure(step: Step, eff: StepEffects)
    requires eff.enabled == Ok(true) && eff.setup.Ok? && eff.body.Some? && eff.outputRead.Ok?
    ensures StepOutcome(step, eff).result.outcome == Failure
    ensures step.continueOnError ==>
              StepOutcome(step, eff).result.conclusion == Success && StepOutcome(step, eff).err == None
    ensures !step.continueOnError ==>
              StepOutcome(step, eff).result.conclusion == Failure && StepOutcome(step, eff).err == eff.body
  {
  }

  /** A run step publishes every output read back, whether its body failed or not. */
  lemma OutputsPublishedRegardless(step: Step, eff: StepEffects)
    requires eff.enabled == Ok(true) && eff.setup.Ok? && eff.outputRead.Ok?
    ensures StepOutcome(step, eff).result.outputs == eff.outputRead.value
    ensures StepOutcome(step, eff).result.outcome == (if eff.body.Some? then Failure else Success)
  {
  }

  /** A failure to read the output file is returned in preference to the body's error. */
  lemma ReadErrorWins(step: Step, eff: StepEffects)
    requires eff.enabled == Ok(true) && eff.setup.Ok? && eff.outputRead.Err?
    ensures StepOutcome(step, eff).err == Some(eff.outputRead.error)
    ensures StepOutcome(step, eff).result.outputs == map[]
  {
  }

  /** A step whose conclusion is Failure always reports an error to its caller. */
  lemma FailedConclusionReportsError(step: Step, eff: StepEffects)
    ensures StepOutcome(step, eff).result.conclusion == Failure ==> StepOutcome(step, eff).err.Some?
  {
  }

  /** A successful body and output read give Success/Success with the outputs. */
  lemma CleanRunSucceeds(step: Step, eff: StepEffects)
    requires eff.enabled == Ok(true) && eff.setup.Ok? && eff.body.None? && eff.outputRead.Ok?
    ensures StepOutcome(step, eff) == StepRun(StepResult(Success, Success, eff.outputRead.value), None)
  {
  }

  // ---- Positional step ids ----

  function DigitChar(d: nat): char
    requires d < 10
  {
    "0123456789"[d]
  }

  /** fmt.Sprintf("%d", n) for a non-negative n. */
  function DecimalString(n: nat): (r: string)
    ensures |r| > 0
    decreases n
  {
    if n < 10 then [DigitChar(n)] else DecimalString(n / 10) + [DigitChar(n % 10)]
  }

  lemma DigitCharInjective(a: nat, b: nat)
    requires a < 10 && b < 10 && DigitChar(a) == DigitChar(b)
    ensures a == b
  {
  }

  /** Different indices get different positional ids. */
  lemma {:induction false} DecimalStringInjective(a: nat, b: nat)
    requires DecimalString(a) == DecimalString(b)
    ensures a == b
    decreases a
  {
    var sa, sb := DecimalString(a), DecimalString(b);
    if a < 10 && b < 10 {
      DigitCharInjective(a, b);
    } else if a >= 10 && b >= 10 {
      assert sa[|sa| - 1] == DigitChar(a % 10) && sb[|sb| - 1] == DigitChar(b % 10);
      DigitCharInjective(a % 10, b % 10);
      assert sa[..|sa| - 1] == DecimalString(a / 10);
      assert sb[..|sb| - 1] == DecimalString(b / 10);
      DecimalStringInjective(a / 10, b / 10);
    } else {
      // one has a single digit and the other at least two
      assert false;
    }
  }

  /** The id CompositeExecutor runs step i under: its own, or its index when it has none. */
  function PositionalId(steps: seq<Step>, i: nat): string
    requires i < |steps|
  {
    if steps[i].id == "" then DecimalString(i) else steps[i].id
  }

  /** Steps without an id never share one. */
  lemma PositionalIdsDistinct(steps: seq<Step>, i: nat, j: nat)
    requires i < j < |steps| && steps[i].id == "" && steps[j].id == ""
    ensures PositionalId(steps, i) != PositionalId(steps, j)
  {
    if PositionalId(steps, i) == PositionalId(steps, j) {
      DecimalStringInjective(i, j);
    }
  }

  /** Every step ends up with a non-empty id. */
  lemma PositionalIdNonEmpty(steps: seq<Step>, i: nat)
    requires i < |steps|
    ensures PositionalId(steps, i) != ""
  {
  }
}
