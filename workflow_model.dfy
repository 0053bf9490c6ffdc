/**
 * The parts of the workflow document and of step results that the job
 * orchestrator reads and writes (model.Job, model.Step, model.StepResult).
 */
module WorkflowModel {
  import opened Wrappers

  /** A job's `container:` block; credentials is nil when the key is absent. */
  datatype ContainerSpec = ContainerSpec(
    image: string,
    credentials: Option<map<string, string>>,
    options: string)

  /** A job: its name, `if:` expression, container, `runs-on:` labels and env. */
  datatype Job = Job(
    name: string,
    ifExpr: string,
    container: Option<ContainerSpec>,
    runsOn: seq<string>,
    env: map<string, string>)

  datatype Workflow = Workflow(name: string, env: map<string, string>)

  /** model.Run: the workflow and the job of this run. */
  datatype Run = Run(workflow: Workflow, job: Job)

  /** A step as the orchestrator sees it: its id and continue-on-error. */
  datatype Step = Step(id: string, continueOnError: bool)

  datatype StepStatus = Success | Failure | Skipped

  /** Outcome is the raw result, conclusion the result after continue-on-error. */
  datatype StepResult = StepResult(
    outcome: StepStatus,
    conclusion: StepStatus,
    outputs: map<string, string>)

  /** A Go map read: a missing key reads as "". */
  function Get(m: map<string, string>, k: string): string {
    if k in m then m[k] else ""
  }
}
