/**
 * The job orchestrator's state (RunContext and the part of Config it reads
 * and writes) and the operations of pkg/runner/run_context.go that update it
 * step by step: Clone, GetActPath, GetEnv, GetBindsAndMounts, the step
 * executor, CompositeExecutor and getJobContext.
 */
module Jobs {
  import opened Wrappers
  import opened WorkflowModel
  import opened Values
  import Naming
  import EnvLayers
  import Steps

  const DefaultActPath := "/var/run/act"
  const DockerSocket := "/var/run/docker.sock"

  // ---- Specification functions ----

  /** What rc.Env holds after GetEnv, given what it held before and the three env layers. */
  function EnvAfterGetEnv(stored: Option<map<string, string>>, layers: seq<map<string, string>>): (e: map<string, string>)
    ensures "ACT" in e && e["ACT"] == "true"
    ensures stored.Some? ==> e.Keys == stored.value.Keys + {"ACT"}
  {
    (if stored.Some? then stored.value else EnvLayers.MergeAll(layers))["ACT" := "true"]
  }

  /** A second GetEnv changes nothing: the memoised map is kept and ACT is already set. */
  lemma GetEnvStable(stored: Option<map<string, string>>, layers: seq<map<string, string>>)
    ensures EnvAfterGetEnv(Some(EnvAfterGetEnv(stored, layers)), layers) == EnvAfterGetEnv(stored, layers)
  {
  }

  /**
   * A first GetEnv holds exactly the keys of the layers plus ACT; any other
   * key takes the value of the last layer that has it.
   */
  lemma GetEnvLayering(layers: seq<map<string, string>>, k: string, i: nat)
    requires k != "ACT"
    ensures k in EnvAfterGetEnv(None, layers) <==> exists j | 0 <= j < |layers| :: k in layers[j]
    ensures i < |layers| && k in layers[i] && (forall j | i < j < |layers| :: k !in layers[j]) ==>
              k in EnvAfterGetEnv(None, layers) && EnvAfterGetEnv(None, layers)[k] == layers[i][k]
  {
    EnvLayers.MergeAllKeys(layers, k);
    if i < |layers| && k in layers[i] && (forall j | i < j < |layers| :: k !in layers[j]) {
      EnvLayers.MergeAllLaterWins(layers, k, i);
    }
  }

  /** Job env overrides workflow env, which overrides the global config env; ACT is forced to "true". */
  lemma GetEnvExample()
    ensures EnvAfterGetEnv(None, [map["A" := "1"], map[], map["A" := "2", "B" := "3"]])
         == map["A" := "2", "B" := "3", "ACT" := "true"]
  {
    var layers := [map["A" := "1"], map[], map["A" := "2", "B" := "3"]];
    assert layers[..2][..1][..0] == [];
    assert EnvLayers.MergeAll(layers[..2][..1]) == map["A" := "1"];
    assert EnvLayers.MergeAll(layers[..2]) == map["A" := "1"];
    assert EnvLayers.MergeAll(layers) == map["A" := "2", "B" := "3"];
  }

  /** Clone's context data: nil stays nil, otherwise only the "github" entry (nil when missing) is kept. */
  function ReducedContext(cd: Option<map<string, Value>>): (r: Option<map<string, Value>>)
    ensures r.None? <==> cd.None?
    ensures r.Some? ==> r.value.Keys == {"github"} && r.value["github"] == NestedMapLookup(cd.value, ["github"])
  {
    if cd.None? then None
    else Some(map["github" := if "github" in cd.value then cd.value["github"] else Null])
  }

  /** The bind modifier for the workdir bind: SELinux relabelling wins over darwin's delegated mode. */
  function BindModifiers(goos: string, selinuxEnabled: bool): (m: string)
    ensures selinuxEnabled ==> m == ":z"
    ensures !selinuxEnabled && goos == "darwin" ==> m == ":delegated"
    ensures !selinuxEnabled && goos != "darwin" ==> m == ""
  {
    var m := if goos == "darwin" then ":delegated" else "";
    if selinuxEnabled then ":z" else m
  }

  /** The steps of a composite action, each carrying its own id or, without one, its index. */
  function Numbered(steps: seq<Step>): (r: seq<Step>)
    ensures |r| == |steps|
    ensures forall i | 0 <= i < |steps| ::
              r[i].id == Steps.PositionalId(steps, i) && r[i].continueOnError == steps[i].continueOnError
  {
    seq(|steps|, i requires 0 <= i < |steps| => steps[i].(id := Steps.PositionalId(steps, i)))
  }

  /** The step results after running the steps in order, each recording under its id. */
  function RecordAll(sr: map<string, StepResult>, steps: seq<Step>, effects: seq<Steps.StepEffects>): map<string, StepResult>
    requires |steps| == |effects|
  {
    if steps == [] then sr
    else
      var n := |steps| - 1;
      RecordAll(sr, steps[..n], effects[..n])[steps[n].id := Steps.StepOutcome(steps[n], effects[n]).result]
  }

  /** Every step is recorded, whatever happened to the others: a failure never stops its siblings. */
  lemma {:induction false} RecordAllKeys(sr: map<string, StepResult>, steps: seq<Step>, effects: seq<Steps.StepEffects>, k: string)
    requires |steps| == |effects|
    ensures k in RecordAll(sr, steps, effects) <==> k in sr || exists i | 0 <= i < |steps| :: steps[i].id == k
  {
    if steps != [] {
      var n := |steps| - 1;
      RecordAllKeys(sr, steps[..n], effects[..n], k);
      if exists i | 0 <= i < n :: steps[..n][i].id == k {
        var i :| 0 <= i < n && steps[..n][i].id == k;
        assert steps[i].id == k;
      }
      if exists i | 0 <= i < |steps| :: steps[i].id == k {
        var i :| 0 <= i < |steps| && steps[i].id == k;
        if i < n {
          assert steps[..n][i].id == k;
        }
      }
    }
  }

  /** The result kept under an id is that of the last step with that id. */
  lemma {:induction false} RecordAllLastWins(sr: map<string, StepResult>, steps: seq<Step>, effects: seq<Steps.StepEffects>, i: nat)
    requires |steps| == |effects| && i < |steps|
    requires forall j | i < j < |steps| :: steps[j].id != steps[i].id
    ensures steps[i].id in RecordAll(sr, steps, effects)
    ensures RecordAll(sr, steps, effects)[steps[i].id] == Steps.StepOutcome(steps[i], effects[i]).result
  {
    var n := |steps| - 1;
    if i < n {
      assert steps[n].id != steps[i].id;
      RecordAllLastWins(sr, steps[..n], effects[..n], i);
    }
  }

  /** The error each wrapped composite step reports as the job error: its own, else the context's. */
  function StepErrors(steps: seq<Step>, effects: seq<Steps.StepEffects>, ctxErrs: seq<Option<string>>): (r: seq<Option<string>>)
    requires |steps| == |effects| == |ctxErrs|
    ensures |r| == |steps|
    ensures forall i | 0 <= i < |r| ::
              r[i].None? <==> Steps.StepOutcome(steps[i], effects[i]).err.None? && ctxErrs[i].None?
  {
    seq(|steps|, i requires 0 <= i < |steps| =>
      var e := Steps.StepOutcome(steps[i], effects[i]).err;
      if e.Some? then e else ctxErrs[i])
  }

  /** The job error after the calls to SetJobError: the last error set, or none. */
  function LastError(errs: seq<Option<string>>): Option<string> {
    if errs == [] then None
    else if errs[|errs| - 1].Some? then errs[|errs| - 1]
    else LastError(errs[..|errs| - 1])
  }

  /** The job error is clear exactly when no step set one; when set, it is the last one set. */
  lemma {:induction false} LastErrorSpec(errs: seq<Option<string>>)
    ensures LastError(errs).None? <==> forall i | 0 <= i < |errs| :: errs[i].None?
    ensures LastError(errs).Some? ==>
              exists i | 0 <= i < |errs| :: errs[i] == LastError(errs) && forall j | i < j < |errs| :: errs[j].None?
  {
    if errs != [] {
      var n := |errs| - 1;
      var front := errs[..n];
      LastErrorSpec(front);
      if errs[n].None? {
        assert forall i | 0 <= i < n :: front[i] == errs[i];
        if LastError(errs).Some? {
          var i :| 0 <= i < n && front[i] == LastError(front) && forall j | i < j < n :: front[j].None?;
          assert errs[i] == LastError(errs);
        }
      }
    }
  }

  /** A composite run ends without a job error exactly when no step failed and the context was never cancelled. */
  lemma CompositeErrorClearIff(steps: seq<Step>, effects: seq<Steps.StepEffects>, ctxErrs: seq<Option<string>>)
    requires |steps| == |effects| == |ctxErrs|
    ensures LastError(StepErrors(steps, effects, ctxErrs)).None? <==>
              forall i | 0 <= i < |steps| :: Steps.StepOutcome(steps[i], effects[i]).err.None? && ctxErrs[i].None?
  {
    var errs := StepErrors(steps, effects, ctxErrs);
    LastErrorSpec(errs);
    assert forall i | 0 <= i < |steps| ::
      errs[i].None? <==> Steps.StepOutcome(steps[i], effects[i]).err.None? && ctxErrs[i].None?;
  }

  /** Whether a step gets as far as installing its evaluator (isEnabled true and setupEnv clean). */
  predicate InstallsEvaluator(eff: Steps.StepEffects) {
    eff.enabled == Ok(true) && eff.setup.Ok?
  }

  /** rc.ExprEval after the steps ran: the evaluator of the last step that installed one, else the initial one. */
  function LastEvaluator(effects: seq<Steps.StepEffects>, init: Steps.Evaluator): Steps.Evaluator {
    if effects == [] then init
    else if InstallsEvaluator(effects[|effects| - 1]) then effects[|effects| - 1].setup.value
    else LastEvaluator(effects[..|effects| - 1], init)
  }

  /** With no step installing an evaluator, the initial one is left behind. */
  lemma {:induction false} LastEvaluatorNone(effects: seq<Steps.StepEffects>, init: Steps.Evaluator)
    requires forall i | 0 <= i < |effects| :: !InstallsEvaluator(effects[i])
    ensures LastEvaluator(effects, init) == init
  {
    if effects != [] {
      var n := |effects| - 1;
      assert forall i | 0 <= i < n :: effects[..n][i] == effects[i];
      LastEvaluatorNone(effects[..n], init);
    }
  }

  /** Otherwise the evaluator of the last step that installed one is left behind. */
  lemma {:induction false} LastEvaluatorLastWins(effects: seq<Steps.StepEffects>, init: Steps.Evaluator, i: nat)
    requires i < |effects| && InstallsEvaluator(effects[i])
    requires forall j | i < j < |effects| :: !InstallsEvaluator(effects[j])
    ensures LastEvaluator(effects, init) == effects[i].setup.value
  {
    var n := |effects| - 1;
    if i < n {
      assert !InstallsEvaluator(effects[n]);
      assert forall j | i < j < n :: effects[..n][j] == effects[j];
      LastEvaluatorLastWins(effects[..n], init, i);
    }
  }

  /** How the composite run's specification functions grow by one step. */
  lemma CompositePrefixStep(sr: map<string, StepResult>, steps: seq<Step>, effects: seq<Steps.StepEffects>,
                            errs: seq<Option<string>>, init: Steps.Evaluator, i: nat)
    requires |steps| == |effects| == |errs| && i < |steps|
    ensures RecordAll(sr, steps[..i + 1], effects[..i + 1])
         == RecordAll(sr, steps[..i], effects[..i])[steps[i].id := Steps.StepOutcome(steps[i], effects[i]).result]
    ensures LastError(errs[..i + 1]) == (if errs[i].Some? then errs[i] else LastError(errs[..i]))
    ensures LastEvaluator(effects[..i + 1], init)
         == (if InstallsEvaluator(effects[i]) then effects[i].setup.value else LastEvaluator(effects[..i], init))
  {
    assert steps[..i + 1][..i] == steps[..i];
    assert effects[..i + 1][..i] == effects[..i];
    assert errs[..i + 1][..i] == errs[..i];
  }

  // ---- State ----

  /** The part of the run configuration the orchestrator reads; only the daemon socket is written. */
  class Config {
    var containerDaemonSocket: string
    const env: map<string, string>
    const secrets: map<string, string>
    const platforms: map<string, string>
    const bindWorkdir: bool
    const workdir: string
    const reuseContainers: bool
    const autoRemove: bool

    /** The configuration the runner builds outside run_context.go, as a struct literal. */
    constructor (containerDaemonSocket: string, env: map<string, string>, secrets: map<string, string>,
                 platforms: map<string, string>, bindWorkdir: bool, workdir: string,
                 reuseContainers: bool, autoRemove: bool)
      ensures this.containerDaemonSocket == containerDaemonSocket && this.env == env
      ensures this.secrets == secrets && this.platforms == platforms
      ensures this.bindWorkdir == bindWorkdir && this.workdir == workdir
      ensures this.reuseContainers == reuseContainers && this.autoRemove == autoRemove
    {
      this.containerDaemonSocket := containerDaemonSocket;
      this.env := env;
      this.secrets := secrets;
      this.platforms := platforms;
      this.bindWorkdir := bindWorkdir;
      this.workdir := workdir;
      this.reuseContainers := reuseContainers;
      this.autoRemove := autoRemove;
    }
  }

  /** A job's run scope. Option fields are Go's nil-able maps and pointers. */
  class RunContext {
    var config: Config
    var name: string
    var matrix: map<string, Value>
    var run: Run
    var eventJson: string
    var env: Option<map<string, string>>
    var extraPath: seq<string>
    var currentStep: string
    var stepResults: map<string, StepResult>
    var exprEval: Steps.Evaluator
    var jobName: string
    var actPath: string
    var local: bool
    var actionPath: string
    var actionRef: string
    var actionRepository: string
    var composite: Option<seq<Step>>
    var inputs: Option<map<string, Value>>
    var parent: RunContext?
    var contextData: Option<map<string, Value>>

    /**
     * A top-level job scope, as the runner's struct literal outside
     * run_context.go builds it: the configuration, the scope name and the run
     * are set; every other field holds Go's zero value.
     */
    constructor (config: Config, name: string, run: Run)
      ensures this.config == config && this.name == name && this.run == run
      ensures env == None && currentStep == "" && stepResults == map[] && actPath == ""
      ensures composite == None && inputs == None && parent == null && contextData == None
    {
      this.config := config;
      this.name := name;
      this.run := run;
      matrix := map[];
      eventJson := "";
      env := None;
      extraPath := [];
      currentStep := "";
      stepResults := map[];
      exprEval := Steps.Evaluator(0);
      jobName := "";
      actPath := "";
      local := false;
      actionPath := "";
      actionRef := "";
      actionRepository := "";
      composite := None;
      inputs := None;
      parent := null;
      contextData := None;
    }

    /** `clone := *rc` followed by the resets of Clone. */
    constructor ChildOf(rc: RunContext)
      ensures KeptFields(this, rc)
      ensures currentStep == "" && composite == None && inputs == None
      ensures stepResults == map[] && parent == rc
      ensures contextData == ReducedContext(rc.contextData)
    {
      config := rc.config;
      name := rc.name;
      matrix := rc.matrix;
      run := rc.run;
      eventJson := rc.eventJson;
      env := rc.env;
      extraPath := rc.extraPath;
      exprEval := rc.exprEval;
      jobName := rc.jobName;
      actPath := rc.actPath;
      local := rc.local;
      actionPath := rc.actionPath;
      actionRef := rc.actionRef;
      actionRepository := rc.actionRepository;
      currentStep := "";
      composite := None;
      inputs := None;
      stepResults := map[];
      parent := rc;
      contextData := if rc.contextData.Some?
        then Some(map["github" := if "github" in rc.contextData.value then rc.contextData.value["github"] else Null])
        else None;
    }

    /** The fields Clone does not reset are equal in a and b. */
    ghost predicate KeptFields(a: RunContext, b: RunContext)
      reads a, b
    {
      a.config == b.config && a.name == b.name && a.matrix == b.matrix && a.run == b.run &&
      a.eventJson == b.eventJson && a.env == b.env && a.extraPath == b.extraPath &&
      a.exprEval == b.exprEval && a.jobName == b.jobName && a.actPath == b.actPath &&
      a.local == b.local && a.actionPath == b.actionPath && a.actionRef == b.actionRef &&
      a.actionRepository == b.actionRepository
    }

    /**
     * Clone: a child scope sharing this one's configuration and environment,
     * with no current step, no composite action or inputs, no step results,
     * this scope as parent and only the "github" context data.
     */
    method Clone() returns (c: RunContext)
      ensures fresh(c)
      ensures KeptFields(c, this)
      ensures c.currentStep == "" && c.composite == None && c.inputs == None
      ensures c.stepResults == map[] && c.parent == this
      ensures c.contextData == ReducedContext(contextData)
    {
      c := new RunContext.ChildOf(this);
    }

    method SetActPath(p: string)
      modifies this`actPath
      ensures actPath == p
      ensures p != "" ==> GetActPath() == p
    {
      actPath := p;
    }

    /** The in-container directory for act's files: the configured one, or /var/run/act. */
    function GetActPath(): (p: string)
      reads this
      ensures p != ""
      ensures actPath != "" ==> p == actPath
      ensures actPath == "" ==> p == DefaultActPath
    {
      if |actPath| > 0 then actPath else DefaultActPath
    }

    /** The three env layers, lowest precedence first: config, workflow, job. */
    function EnvLayerMaps(): seq<map<string, string>>
      reads this, config
    {
      [config.env, run.workflow.env, run.job.env]
    }

    /** GetEnv: merge the layers into rc.Env once, then force ACT=true. */
    method GetEnv() returns (e: map<string, string>)
      modifies this`env
      ensures env == Some(e)
      ensures e == EnvAfterGetEnv(old(env), EnvLayerMaps())
    {
      if env.None? {
        var merged := EnvLayers.MergeMaps(EnvLayerMaps());
        env := Some(merged);
      }
      env := Some(env.value["ACT" := "true"]);
      e := env.value;
    }

    /** The job container's name: createContainerName("act", "<workflow>/<job>"). */
    function JobContainerName(): string
      reads this
    {
      Naming.ContainerName(["act", run.workflow.name + "/" + name])
    }

    /**
     * GetBindsAndMounts with the host OS and SELinux state as parameters:
     * defaults the daemon socket, binds it, mounts the tool cache and the
     * env volume, and either binds the workdir or mounts the job volume on it.
     */
    method GetBindsAndMounts(goos: string, selinuxEnabled: bool, containerWorkdir: string)
      returns (binds: seq<string>, mounts: map<string, string>)
      modifies config`containerDaemonSocket
      ensures config.containerDaemonSocket ==
                (if old(config.containerDaemonSocket) == "" then DockerSocket else old(config.containerDaemonSocket))
      ensures |binds| == (if config.bindWorkdir then 2 else 1)
      ensures binds[0] == config.containerDaemonSocket + ":" + DockerSocket
      ensures config.bindWorkdir ==> binds[1] == config.workdir + ":" + containerWorkdir + BindModifiers(goos, selinuxEnabled)
      ensures mounts.Keys == {"act-toolcache", JobContainerName() + "-env"} +
                             (if config.bindWorkdir then {} else {JobContainerName()})
      ensures mounts[JobContainerName() + "-env"] == GetActPath()
      ensures !config.bindWorkdir ==> mounts[JobContainerName()] == containerWorkdir
      ensures config.bindWorkdir || JobContainerName() != "act-toolcache" ==> mounts["act-toolcache"] == "/toolcache"
    {
      var n := Naming.CreateContainerName(["act", run.workflow.name + "/" + name]);
      if config.containerDaemonSocket == "" {
        config.containerDaemonSocket := DockerSocket;
      }
      binds := [config.containerDaemonSocket + ":" + DockerSocket];
      assert "act-toolcache"[|"act-toolcache"| - 1] == 'e';
      assert (n + "-env")[|n + "-env"| - 1] == 'v';
      mounts := map["act-toolcache" := "/toolcache", n + "-env" := GetActPath()];
      if config.bindWorkdir {
        var bindModifiers := "";
        if goos == "darwin" {
          bindModifiers := ":delegated";
        }
        if selinuxEnabled {
          bindModifiers := ":z";
        }
        binds := binds + [config.workdir + ":" + containerWorkdir + bindModifiers];
      } else {
        assert |n + "-env"| > |n|;
        mounts := mounts[n := containerWorkdir];
      }
    }

    /** The loop over the output file's entries: setOutput of each one on the current step. */
    method PublishOutputs(output: map<string, string>)
      requires currentStep in stepResults
      modifies this`stepResults
      ensures stepResults == old(stepResults)[currentStep :=
                old(stepResults)[currentStep].(outputs := old(stepResults)[currentStep].outputs + output)]
    {
      ghost var r := stepResults[currentStep];
      var rest := output.Keys;
      assert r.outputs + (map k | k in output && k !in rest :: output[k]) == r.outputs;
      assert r.(outputs := r.outputs) == r;
      while rest != {}
        invariant rest <= output.Keys
        invariant stepResults == old(stepResults)[currentStep :=
                    r.(outputs := r.outputs + map k | k in output && k !in rest :: output[k])]
        decreases rest
      {
        var k :| k in rest;
        // setOutput(name = k): the current step's output k becomes output[k]
        var cur := stepResults[currentStep];
        stepResults := stepResults[currentStep := cur.(outputs := cur.outputs[k := output[k]])];
        assert r.outputs + (map k' | k' in output && k' !in rest - {k} :: output[k'])
            == (r.outputs + map k' | k' in output && k' !in rest :: output[k'])[k := output[k]];
        rest := rest - {k};
      }
      assert (map k | k in output && k !in rest :: output[k]) == output;
    }

    /**
     * newStepExecutor for one step: record the optimistic Success/Success,
     * then follow isEnabled, setupEnv, the body and the read-back of the
     * output file as the collaborators report them.
     */
    method RunStep(step: Step, eff: Steps.StepEffects) returns (err: Option<string>)
      modifies this`currentStep, this`stepResults, this`exprEval
      ensures currentStep == step.id
      ensures stepResults == old(stepResults)[step.id := Steps.StepOutcome(step, eff).result]
      ensures err == Steps.StepOutcome(step, eff).err
      ensures exprEval == (if InstallsEvaluator(eff) then eff.setup.value else old(exprEval))
    {
      currentStep := step.id;
      stepResults := stepResults[currentStep := Steps.Initial];

      if eff.enabled.Err? {
        stepResults := stepResults[currentStep := stepResults[currentStep].(conclusion := Failure)];
        stepResults := stepResults[currentStep := stepResults[currentStep].(outcome := Failure)];
        return Some(eff.enabled.error);
      }
      if !eff.enabled.value {
        stepResults := stepResults[currentStep := stepResults[currentStep].(conclusion := Skipped)];
        stepResults := stepResults[currentStep := stepResults[currentStep].(outcome := Skipped)];
        return None;
      }
      if eff.setup.Err? {
        return Some(eff.setup.error);
      }
      exprEval := eff.setup.value;

      var bodyErr := eff.body;
      if bodyErr.Some? {
        stepResults := stepResults[currentStep := stepResults[currentStep].(outcome := Failure)];
        if step.continueOnError {
          bodyErr := None;
          stepResults := stepResults[currentStep := stepResults[currentStep].(conclusion := Success)];
        } else {
          stepResults := stepResults[currentStep := stepResults[currentStep].(conclusion := Failure)];
        }
      }

      var orgerr := bodyErr;
      if eff.outputRead.Err? {
        return Some(eff.outputRead.error);
      }
      PublishOutputs(eff.outputRead.value);
      assert Steps.Initial.outputs + eff.outputRead.value == eff.outputRead.value;
      err := orgerr;
    }

    /**
     * CompositeExecutor run to its end: every step of the composite action
     * runs under its positional id, a step's error or a cancelled context is
     * recorded as the job error and never stops the following steps, and the
     * job error is what the pipeline finally returns.
     */
    method CompositeExecutor(effects: seq<Steps.StepEffects>, ctxErrs: seq<Option<string>>)
      returns (jobErr: Option<string>)
      requires composite.Some? && |effects| == |composite.value| && |ctxErrs| == |composite.value|
      modifies this`currentStep, this`stepResults, this`exprEval
      ensures stepResults == RecordAll(old(stepResults), Numbered(composite.value), effects)
      ensures jobErr == LastError(StepErrors(Numbered(composite.value), effects, ctxErrs))
      ensures currentStep == (if |composite.value| == 0 then old(currentStep)
                              else Steps.PositionalId(composite.value, |composite.value| - 1))
      ensures exprEval == LastEvaluator(effects, old(exprEval))
    {
      var steps := Numbered(composite.value);
      var errs := StepErrors(steps, effects, ctxErrs);
      jobErr := None;
      for i := 0 to |steps|
        invariant composite == old(composite)
        invariant stepResults == RecordAll(old(stepResults), steps[..i], effects[..i])
        invariant jobErr == LastError(errs[..i])
        invariant currentStep == (if i == 0 then old(currentStep) else steps[i - 1].id)
        invariant exprEval == LastEvaluator(effects[..i], old(exprEval))
      {
        var err := RunStep(steps[i], effects[i]);
        if err.Some? {
          jobErr := err;
        } else if ctxErrs[i].Some? {
          jobErr := ctxErrs[i];
        }
        CompositePrefixStep(old(stepResults), steps, effects, errs, old(exprEval), i);
      }
      assert steps[..|steps|] == steps;
      assert effects[..|effects|] == effects;
      assert errs[..|errs|] == errs;
    }

    /** getJobContext: the job status is "failure" exactly when some step concluded Failure. */
    method JobContext() returns (status: string)
      ensures status == "failure" || status == "success"
      ensures status == "failure" <==> exists k | k in stepResults :: stepResults[k].conclusion == Failure
    {
      status := "success";
      var rest := stepResults.Keys;
      ghost var failed: Option<string> := None;
      while rest != {}
        invariant rest <= stepResults.Keys
        invariant forall k | k in stepResults && k !in rest :: stepResults[k].conclusion != Failure
        decreases rest
      {
        var k :| k in rest;
        if stepResults[k].conclusion == Failure {
          status := "failure";
          failed := Some(k);
          break;
        }
        rest := rest - {k};
      }
      if failed.Some? {
        assert failed.value in stepResults && stepResults[failed.value].conclusion == Failure;
      }
    }
  }
}
