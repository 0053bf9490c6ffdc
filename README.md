# act job orchestrator — a Dafny model

This project models the job orchestrator of act, the tool that runs GitHub
Actions workflows locally: `RunContext` in `pkg/runner/run_context.go`, and
the small `getEnvListFromMap` conversion in `pkg/container/container_misc.go`.
It covers these parts:

- **Deterministic container names.** `createContainerName` and `trimToLen`.
- **Environment layering.** `mergeMaps` and the memoised `GetEnv`.
- **Step result state machine.** `newStepExecutor` and `CompositeExecutor`,
  including positional step ids.
- **Scope cloning.** `Clone`.
- **Job setup rules.**
  - Platform image resolution (`platformImage`) and job enablement (`isEnabled`).
  - Registry credentials (`handleCredentials`).
  - The job status (`getJobContext`).
  - Loosely typed lookups (`nestedMapLookup`, `asString`).
  - Context defaults (`applyDefaults`) and the `ImageOS` hint of `withGithubEnv`.
- **Teardown and mount plumbing as decision logic.** `GetBindsAndMounts`,
  `stopJobContainer` and the cleanup stage of `Executor`.

The outside world is abstract:

- The expression evaluator's `Interpolate` and `EvalBool` are function parameters.
- What a step's collaborators report becomes a `StepEffects` value: `isEnabled`,
  `setupEnv`, the step body and the read-back of the output file.
- The outcomes of container and volume calls are parameters.
- The host OS, the SELinux state and the container workdir (`rc.ContainerWorkdir()`, used at pkg/runner/run_context.go:129 and 131 and defined outside that file) are parameters of `GetBindsAndMounts`.
- The result of the git repository lookup and of JSON decoding are parameters.

Go's `nil` maps and pointers are `Option` values. Go map iteration is modelled
as an arbitrary choice of the next key, so no order is assumed. Pointers to step
results become values in a `map<string, StepResult>`; nothing in the core
aliases them. The env, matrix and extra-path fields are values too, so the
sharing of these between a clone and its parent is not modelled (see
"## Left out").

Modules group the core by concern:

| module | contents |
|---|---|
| `Naming` | container names |
| `EnvLayers` | merging env maps |
| `Values` | JSON-like values and their lookups |
| `ContainerMisc` | `getEnvListFromMap` |
| `WorkflowModel` | the workflow records the orchestrator reads |
| `JobSetup` | platform, enablement and credentials |
| `GithubEnv` | context defaults and `ImageOS` |
| `Steps` | the step state machine as functions |
| `Teardown` | stop and cleanup decisions |
| `Jobs` | the `Config` and `RunContext` classes with their imperative operations |

The unnamed constructors of `Config` and of `RunContext` stand for the struct
literals the runner builds outside run_context.go; `RunContext.ChildOf` is the
copy `Clone` makes.

The model follows the code as written in three places:

- **Double hyphens can survive in a container name.** `createContainerName` collapses
  `--` with one pass of `strings.ReplaceAll`, so a name can still contain `--`:
  `a---b` becomes `a--b`. `Naming.DoubleHyphenCanSurvive` proves that
  `["a--", "b"]` names to `a--b`. No "no double hyphen" property is claimed.
- **`createContainerName` needs at least one part.** Go computes `30/len(parts)`,
  which panics with no parts. The model requires at least one part.
- **A serialized base context is overlaid, not substituted.** `json.Unmarshal` of
  `GithubContextBase` (pkg/runner/run_context.go:647-653) decodes into the
  context already filled from the configuration. Fields absent from the base
  keep those values; only `applyDefaults` is skipped. The event payload is
  likewise decoded over the existing event map, and `GithubEnv.ApplyDefaults`
  models that as a map union.

The combinators of `pkg/common` are not part of this model: `Then`, `Finally`,
`If`, `NewPipelineExecutor`, `SetJobError` and `JobError`. The model assumes
this sequencing:

- `Then` runs its second unit only after the first succeeds.
- `Finally` always runs its cleanup, and the first unit's error wins.
- `If` runs its unit only when its condition holds.
- A pipeline runs its units in order.
- `SetJobError` keeps the last error set.

## Model

| member | source | states |
|---|---|---|
| Naming.TrimToLen | pkg/runner/run_context.go:599-607 | the result is the prefix of `s` of length `min(len(s), max(l, 0))`; a negative budget counts as zero |
| Naming.Sanitize | pkg/runner/run_context.go:578-592 | replacing `[^a-zA-Z0-9]` keeps the length of the part |
| Naming.SanitizeSpec | pkg/runner/run_context.go:578-592 | letters and digits are kept in place and every other character becomes `-`, so the result uses only `[A-Za-z0-9-]` |
| Naming.TrailingDigits | pkg/runner/run_context.go:586-587 | the count of trailing digits is at most the part's length |
| Naming.TrailingDigitsSpec | pkg/runner/run_context.go:586-587 | the count is exactly the maximal run of digits that ends the part |
| Naming.MatrixSuffixIsRegexMatch | pkg/runner/run_context.go:586-587 | the matrix suffix found is exactly the match of `-[0-9]+$`, in both directions |
| Naming.MatrixSuffixSafe | pkg/runner/run_context.go:586-587 | a matrix suffix uses only the safe alphabet |
| Naming.NonLastPartBudget | pkg/runner/run_context.go:579-594 | a non-final part is cut to `partLen` characters, or to `partLen - len(suffix)` followed by the suffix verbatim when it ends in `-<digits>` |
| Naming.LastPartUncut | pkg/runner/run_context.go:581-582 | the last part is only character-replaced and keeps its full length |
| Naming.CutPartKeepsSuffix | pkg/runner/run_context.go:586-590 | a part `abcdefghijklm-7` under budget 14 becomes `abcdefghijkl` followed by `-7` |
| Naming.TwoPartJoin | pkg/runner/run_context.go:579-596 | the joined name of two parts before trimming and collapsing, written out from the first part's budget pieces and the sanitized last part |
| Naming.PartPiecesSafe | pkg/runner/run_context.go:581-593 | every piece a part contributes uses only the safe alphabet |
| Naming.NamePiecesSafe | pkg/runner/run_context.go:580-594 | all pieces of all parts use only the safe alphabet |
| Naming.JoinSafe | pkg/runner/run_context.go:596 | joining safe pieces with `-` is safe |
| Naming.TrimLeft | pkg/runner/run_context.go:596 | trimming leading hyphens never lengthens the string |
| Naming.TrimLeftSpec | pkg/runner/run_context.go:596 | the result is the input without exactly its leading hyphens |
| Naming.TrimRight | pkg/runner/run_context.go:596 | trimming trailing hyphens never lengthens the string |
| Naming.TrimRightSpec | pkg/runner/run_context.go:596 | the result is the input without exactly its trailing hyphens |
| Naming.CollapseKeepsChars | pkg/runner/run_context.go:596 | `ReplaceAll("--", "-")` introduces no new character |
| Naming.CollapseKeepsLast | pkg/runner/run_context.go:596 | a last character that is not a hyphen survives the collapse |
| Naming.ContainerNameWellFormed | pkg/runner/run_context.go:576-597 | a container name uses only `[A-Za-z0-9-]` and never starts or ends with `-` |
| Naming.CreateContainerName | pkg/runner/run_context.go:576-597 | the loop over the parts computes exactly the specified name (`ContainerName`) |
| Naming.DoubleHyphenCanSurvive | pkg/runner/run_context.go:596 | the parts `["a--", "b"]` give the name `a--b`, so a double hyphen survives |
| Naming.DoubleHyphenPieces | pkg/runner/run_context.go:580-596 | the joined pieces of `["a--", "b"]` are `a---b` |
| Naming.DoubleHyphenCollapse | pkg/runner/run_context.go:596 | trimming and one collapse pass turn `a---b` into `a--b` |
| EnvLayers.MergeAllKeys | pkg/runner/run_context.go:566-574 | a key is in the merge exactly when some input map has it |
| EnvLayers.MergeAllLaterWins | pkg/runner/run_context.go:566-574 | a duplicate key takes the value of the last map that has it |
| EnvLayers.MergeMaps | pkg/runner/run_context.go:566-574 | the nested loop copying every entry computes the left-to-right merge |
| Jobs.EnvAfterGetEnv | pkg/runner/run_context.go:92-98 | after GetEnv the env always has `ACT` = `true`; a memoised env keeps its keys and gains only `ACT` |
| Jobs.GetEnvStable | pkg/runner/run_context.go:92-98 | a second GetEnv leaves the env unchanged |
| Jobs.GetEnvLayering | pkg/runner/run_context.go:92-98 | a first GetEnv holds exactly the keys of config, workflow and job env (plus `ACT`), and job overrides workflow overrides config |
| Jobs.GetEnvExample | pkg/runner/run_context.go:92-98 | the layers `{A:1}`, `{}`, `{A:2,B:3}` give `{A:2,B:3,ACT:true}` |
| Jobs.RunContext.GetEnv | pkg/runner/run_context.go:92-98 | merges into `rc.Env` only when it is nil, then sets `ACT`; the stored and the returned env are the specified one |
| Jobs.RunContext.GetActPath | pkg/runner/run_context.go:75-80 | the act path is the configured one when set and `/var/run/act` otherwise, never empty |
| Jobs.RunContext.SetActPath | pkg/runner/run_context.go:71-73 | a non-empty path set is the one GetActPath returns |
| Jobs.ReducedContext | pkg/runner/run_context.go:64-68 | nil context data stays nil; otherwise only the key `github` is kept, holding the original's value or nil |
| Jobs.RunContext.Clone | pkg/runner/run_context.go:56-69 | a fresh scope: current step `""`, no composite action or inputs, fresh empty step results, parent = the original, context data reduced to `github`, every other field equal to the original's |
| Jobs.BindModifiers | pkg/runner/run_context.go:121-128 | `:z` under SELinux, otherwise `:delegated` on darwin, otherwise nothing |
| Jobs.RunContext.GetBindsAndMounts | pkg/runner/run_context.go:105-135 | see "Binds and mounts" below |
| Jobs.RunContext.PublishOutputs | pkg/runner/run_context.go:482-485 | the loop over the output file's entries adds each of them to the current step's outputs and changes no other step |
| Jobs.RunContext.RunStep | pkg/runner/run_context.go:412-491 | sets the current step, replaces only this step's result with the specified one (`Steps.StepOutcome`), returns the specified error, and installs the evaluator only when setup ran |
| Steps.EnabledErrorFailsStep | pkg/runner/run_context.go:418-429 | an isEnabled error gives Failure/Failure with no outputs and is returned |
| Steps.FalseConditionSkips | pkg/runner/run_context.go:418-436 | a false condition gives Skipped/Skipped and no error |
| Steps.SetupErrorKeepsInitial | pkg/runner/run_context.go:418-442 | a setupEnv error is returned and the optimistic Success/Success stays |
| Steps.BodyFailure | pkg/runner/run_context.go:461-473 | a body error sets outcome Failure; continue-on-error turns the conclusion to Success and drops the error, otherwise the conclusion is Failure and the error is returned |
| Steps.OutputsPublishedRegardless | pkg/runner/run_context.go:477-485 | the outputs read back are published whether or not the body failed |
| Steps.ReadErrorWins | pkg/runner/run_context.go:477-481 | an error reading the output file is returned in preference to the body's error |
| Steps.FailedConclusionReportsError | pkg/runner/run_context.go:412-491 | a step concluded Failure always returns an error |
| Steps.CleanRunSucceeds | pkg/runner/run_context.go:412-491 | a clean run gives Success/Success with the outputs read back and no error |
| Steps.DecimalString | pkg/runner/run_context.go:389 | a positional id is never empty |
| Steps.DigitCharInjective | pkg/runner/run_context.go:389 | distinct digits print differently |
| Steps.DecimalStringInjective | pkg/runner/run_context.go:389 | distinct indices print differently |
| Steps.PositionalIdsDistinct | pkg/runner/run_context.go:388-390 | two steps without an id never get the same id |
| Steps.PositionalIdNonEmpty | pkg/runner/run_context.go:388-390 | every composite step runs under a non-empty id |
| Jobs.Numbered | pkg/runner/run_context.go:387-391 | each step keeps its id, or gets its index when it has none, and nothing else changes |
| Jobs.RecordAllKeys | pkg/runner/run_context.go:384-410 | after a composite run every step's id is recorded, whatever the other steps did |
| Jobs.RecordAllLastWins | pkg/runner/run_context.go:384-410 | the result under an id is that of the last step run under it |
| Jobs.StepErrors | pkg/runner/run_context.go:394-401 | a wrapped step reports no job error exactly when its own run and the context were both error-free |
| Jobs.LastErrorSpec | pkg/runner/run_context.go:394-408 | the job error is clear exactly when no step set one, and otherwise it is the last one set |
| Jobs.CompositeErrorClearIff | pkg/runner/run_context.go:384-410 | a composite run ends without error exactly when no step failed and the context was never cancelled |
| Jobs.RunContext.CompositeExecutor | pkg/runner/run_context.go:384-410 | runs every step under its positional id, records results as specified (`RecordAll`), returns the last error set (`LastError`), leaves the current step at the last step's positional id and the evaluator at the last one installed (`LastEvaluator`) |
| Jobs.RecordAll | pkg/runner/run_context.go:384-410 | defines the step results after a composite run: each step in order records its result under its id |
| Jobs.LastError | pkg/runner/run_context.go:394-408 | defines the job error after the calls to SetJobError: the last error set, or none |
| Jobs.LastEvaluator | pkg/runner/run_context.go:439-443 | defines `rc.ExprEval` after a sequence of steps: the evaluator of the last step whose isEnabled was true and whose setupEnv was clean |
| Jobs.LastEvaluatorNone | pkg/runner/run_context.go:439-443 | the evaluator left behind is the initial one when no step installed one |
| Jobs.LastEvaluatorLastWins | pkg/runner/run_context.go:439-443 | otherwise it is the evaluator of the last step that installed one |
| Jobs.RunContext.JobContainerName | pkg/runner/run_context.go:100-102 | defines the job container's name as `createContainerName("act", rc.String())`, with `String` (lines 87-89) inlined as `"<workflow>/<job>"` |
| Jobs.RunContext.JobContext | pkg/runner/run_context.go:609-620 | the status is `failure` exactly when some step concluded Failure, and `success` otherwise |
| JobSetup.ToLower | pkg/runner/run_context.go:507 | lower-casing keeps the length |
| JobSetup.ToLowerHasNoUpper | pkg/runner/run_context.go:506-507 | a lower-cased runner label holds no upper-case ASCII letter |
| JobSetup.UpperCaseKeysNeverFound | pkg/runner/run_context.go:506-507 | only the label is lower-cased, so a platform key holding an upper-case letter is never found: the lookup equals the one over the keys without upper-case letters |
| JobSetup.ToLowerIdempotent | pkg/runner/run_context.go:507 | lower-casing twice is lower-casing once |
| JobSetup.LabelLookupIgnoresCase | pkg/runner/run_context.go:506-508 | labels that interpolate to names differing only in letter case find the same image |
| JobSetup.FirstImage | pkg/runner/run_context.go:505-513 | the scan finds `""` exactly when no label maps to an image, and otherwise the image of the first label that does |
| JobSetup.PlatformImageCases | pkg/runner/run_context.go:493-514 | a declared container wins with its interpolated image; otherwise the first mapped label; otherwise `""` |
| JobSetup.IsEnabled | pkg/runner/run_context.go:538-564 | a job is enabled exactly when its `if:` evaluates without error to true and its platform image is not `""` |
| JobSetup.CredentialsFallBackToSecrets | pkg/runner/run_context.go:862-870 | with no container or no credentials map, the `DOCKER_USERNAME`/`DOCKER_PASSWORD` secrets are returned with no error |
| JobSetup.CredentialsCountChecked | pkg/runner/run_context.go:872-875 | a credentials map without exactly two entries is refused |
| JobSetup.CredentialsAccepted | pkg/runner/run_context.go:862-893 | credentials are accepted exactly when the map has two entries, both interpolated values are non-empty and both raw values are non-empty; the map's keys are then exactly `username` and `password` |
| JobSetup.TwoKeysExactly | pkg/runner/run_context.go:872-891 | a two-element key set holding `username` and `password` has no other key |
| JobSetup.CredentialErrorOrder | pkg/runner/run_context.go:877-891 | the errors are checked in order: empty interpolated username, then empty interpolated password, then an empty raw value |
| Values.AsString | pkg/runner/run_context.go:737-744 | a string value gives its string; nil or any other type gives `""` |
| Values.LookupFollowsPath | pkg/runner/run_context.go:746-761 | a non-nil lookup result is exactly the value at the end of a path of nested objects, in both directions |
| Values.LookupComposes | pkg/runner/run_context.go:746-761 | looking up `ks1 + ks2` is looking up `ks2` in the object found at `ks1`, or nil |
| Values.MissingReadsEmpty | pkg/runner/run_context.go:737-761 | a missing key or a non-object part-way reads as `""` |
| GithubEnv.DefaultsFillOnlyBlanks | pkg/runner/run_context.go:656-681 | every defaulted field is non-empty afterwards, and a field already set is kept |
| GithubEnv.FirstSegment | pkg/runner/run_context.go:690 | the owner segment is no longer than the repository name |
| GithubEnv.FirstSegmentSpec | pkg/runner/run_context.go:690 | the owner segment is the longest prefix without `/` |
| GithubEnv.RepositoryFromGit | pkg/runner/run_context.go:683-692 | a successful git lookup sets the repository and, when the owner is empty, the owner from its first segment; a failed lookup changes neither |
| GithubEnv.PullRequestRefs | pkg/runner/run_context.go:701-704 | for `pull_request` events the base and head refs come from the payload, and are `""` when missing or not strings |
| GithubEnv.ApplyDefaultsIdempotent | pkg/runner/run_context.go:656-709 | applying the defaults twice with the same inputs equals applying them once |
| GithubEnv.BeforeDotHasNoDot | pkg/runner/run_context.go:825 | the text before the first `.` holds no `.` |
| GithubEnv.ImageOSHasNoDot | pkg/runner/run_context.go:820-826 | an ImageOS value never holds a `.` |
| GithubEnv.WithImageOS | pkg/runner/run_context.go:816-830 | the last label that interpolates to a non-empty name sets ImageOS (`ubuntu-latest` gives `ubuntu20`, otherwise the name without its first hyphen, cut at the first `.`); with no such label the env is unchanged |
| ContainerMisc.EntryStrings | pkg/container/container_misc.go:15-17 | one `k=v` string per key, in the order of the keys |
| ContainerMisc.EnumerationSize | pkg/container/container_misc.go:15 | a duplicate-free enumeration of the keys is as long as the map |
| ContainerMisc.EntryListFacts | pkg/container/container_misc.go:13-19 | the list has one entry per map entry, contains `k=v` for every key, and nothing else |
| ContainerMisc.GetEnvListFromMap | pkg/container/container_misc.go:13-19 | the result is the `k=v` strings over some enumeration of the keys, in any order; its length is the map's size, every entry appears and nothing else does |
| JobSetup.PlatformImage | pkg/runner/run_context.go:493-514 | defines platform resolution: the interpolated container image when a container is declared, otherwise the first label image |
| JobSetup.HandleCredentials | pkg/runner/run_context.go:862-893 | defines the credentials result with the source's early returns in order |
| GithubEnv.ApplyDefaults | pkg/runner/run_context.go:656-709 | defines the defaults applied to the context: the six fixed defaults, the git repository and owner, the event overlay and the pull-request refs |
| GithubEnv.ImageOSOf | pkg/runner/run_context.go:820-827 | defines the ImageOS value of one label: `ubuntu20` for `ubuntu-latest`, otherwise the name without its first hyphen, cut at the first `.` |
| Steps.StepOutcome | pkg/runner/run_context.go:412-491 | defines a step's recorded result and returned error from what isEnabled, setupEnv, the body and the output read report |
| Values.NestedMapLookup | pkg/runner/run_context.go:746-761 | defines the lookup: nil for no keys, a missing key or a non-object part-way, otherwise the value at the end |
| Naming.ContainerName | pkg/runner/run_context.go:576-597 | defines the container name: the budgeted pieces joined with `-`, trimmed of `-`, then one pass replacing `--` with `-` |
| Naming.MatrixSuffix | pkg/runner/run_context.go:586-587 | defines the match of `-[0-9]+$`: a hyphen followed by the maximal run of trailing digits |
| Naming.CollapseOnce | pkg/runner/run_context.go:596 | defines `strings.ReplaceAll(s, "--", "-")`: one left-to-right pass over non-overlapping matches |
| EnvLayers.MergeAll | pkg/runner/run_context.go:566-574 | defines the merge of maps left to right, a later map overriding an earlier one |
| Teardown.FinallyErr | pkg/runner/run_context.go:301 | the combined error is clear exactly when both are, and the first unit's error wins |
| Teardown.StopDoesNothingIff | pkg/runner/run_context.go:297-305 | nothing is removed, and nothing fails, exactly when there is no job container or containers are reused |
| Teardown.VolumesRemovedIff | pkg/runner/run_context.go:297-305 | both volumes are removed exactly when the container was removed cleanly outside local mode; the `-env` volume is removed even when removing the main volume failed |
| Teardown.StopErrorIff | pkg/runner/run_context.go:297-305 | the stop reports no error exactly when every removal it attempted succeeded |
| Teardown.TeardownRegardlessOfSteps | pkg/runner/run_context.go:367-381 | the container is stopped and closed the same way whether the steps succeeded or failed |
| Teardown.CleanupStopNeverMasks | pkg/runner/run_context.go:367-381 | a failing stop during cleanup is only logged and never changes the job's result, and a step error is never masked |
| Teardown.StopJobContainer | pkg/runner/run_context.go:297-305 | defines what a stop removes, in order, and the error it returns |
| Teardown.JobExecutor | pkg/runner/run_context.go:367-381 | defines what the job executor does: run the steps, stop the container when auto-removal is set, close it, all guarded by isEnabled |
| Teardown.CleanupRunsStop | pkg/runner/run_context.go:367-381 | with auto-removal, the cleanup runs the actual stop: the container is removed first, the `-env` volume exactly outside local mode after a clean removal, whether the steps failed or not, and the job's error is the steps' error, else Close's |
| Teardown.DisabledJobDoesNothing | pkg/runner/run_context.go:367-381 | a disabled job runs no step and tears nothing down |

### Binds and mounts

`Jobs.RunContext.GetBindsAndMounts` states the following (pkg/runner/run_context.go:105-135):

- An empty daemon socket in the shared config is set to `/var/run/docker.sock`.
- The first bind maps the socket onto `/var/run/docker.sock`.
- With `BindWorkdir`, a second bind maps the workdir onto the container workdir, with the bind modifiers.
- The mounts are the tool cache, the job's `-env` volume on the act path and, without `BindWorkdir`, the job volume on the container workdir.
- The tool cache mount keeps `/toolcache` unless the job volume, named `act-toolcache`, replaced it.

## Left out

- Jobs.RunContext.Clone: `clone := *rc` is a shallow copy, so a clone and its parent share one `Env` map, one `Matrix` map and one `ExtraPath` slice, and a write through either (for example `GetEnv` setting `ACT` in a shared non-nil env) is seen by both. The model copies these fields as values; only `Config` is a shared reference. That sharing is not captured.
- Values.Number: Go decodes JSON numbers as `float64`; the model carries an `int`, since no modelled lookup inspects a number.
- The body of `startJobContainer`: image pull, create, start, copy. It is container I/O; only the name and binds it uses are modelled.
- `execJobContainer` and `closeContainer`: container calls. `Close`'s outcome is a parameter of `Teardown.JobExecutor`.
- `pkg/container/docker_volume.go` and `docker_volume_stub.go` are not part of this model. Volume removal outcomes are parameters of `Teardown.StopJobContainer`.
- The `Container` interface and the global `containerAllocateTerminal` (terminal detection): not logic of the orchestrator.
- `ActionCacheDir`: process environment and home directory lookup.
- `setActionRuntimeVars`: process environment and network lookup.
- Every entry `withGithubEnv` writes except `ImageOS`: the copies of context fields, the paths built from the act path and the server URLs. Only the ImageOS derivation is modelled.
- `interpolateOutputs`: its effect depends entirely on the opaque `Interpolate`.
- `hostname`: it needs a shell-word splitter and a flag parser.
- `getGithubContext`: JSON decoding of the base context; see the overlay note above.
- `isLocalCheckout` and `localCheckoutPath`: they depend on action classification code that is not part of this model.
- `SetRefAndSha` and `common.FindGithubRepo`: the git lookup's result is the `repo` parameter of `GithubEnv.ApplyDefaults`; `SetRefAndSha` is not part of this model.
- `String`, `matrix`, `result`, `steps`, `getStepsContext`, `startContainer` and `stopContainer`: one-line accessors or forwarders. `String` is inlined in `Jobs.RunContext.JobContainerName`.
- Logging.
- The `JobContainer.Copy` of the runner file commands in the step executor: container I/O whose error the source ignores.
- The `GITHUB_OUTPUT`/`GITHUB_STATE` entries of the step env: the step context is outside this model.
- `setOutput` is not shown in the core file. It is modelled as writing the current step's output; its `OutputMappings` redirection and set-output commands issued during the body are left out.
- Jobs.RunContext.CompositeExecutor: a cancelled context is modelled only as the error each step reads back. Whether the pipeline skips later steps on cancellation depends on `pkg/common`; the model runs them all.
- JobSetup.ToLower: ASCII letters only; `strings.ToLower` also folds non-ASCII letters.
- `JobContainer` is not a field of the model: whether it is nil is the `hasContainer` parameter of `Teardown.StopJobContainer` and `Teardown.JobExecutor`, and the outcomes of its calls are `RemovalResults`, `closeErr` and `StepEffects.outputRead`. The fields `OutputMappings` and `GithubContextBase` are not modelled: only the parts left out above use them. `Matrix`, `ExtraPath` and `EventJSON` are carried (Clone copies them) but their uses are outside this model.
- The `nil` `runs-on` branches of `platformImage` and `isEnabled` only log: a missing `runs-on` is an empty label list.
