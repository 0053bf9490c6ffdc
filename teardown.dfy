/**
 * Container teardown as decision logic: stopJobContainer and the cleanup
 * stage of Executor in pkg/runner/run_context.go. The container and volume
 * calls are abstract: their outcomes are parameters. The sequencing assumed
 * for the combinators of pkg/common (not part of this model): Then runs its
 * second unit only after the first succeeded; Finally always runs its
 * cleanup, and the first unit's error wins over the cleanup's; If runs its
 * unit only when the condition holds.
 */
module Teardown {
  import opened Wrappers

  datatype Removal = RemoveContainer | RemoveVolume(name: string)

  /** The outcomes of Remove() and of the two volume-removal executors (a missing volume counts as success). */
  datatype RemovalResults = RemovalResults(
    container: Option<string>,
    volume: Option<string>,
    envVolume: Option<string>)

  /** What a stop did, in order, and the error it returned. */
  datatype StopRun = StopRun(performed: seq<Removal>, err: Option<string>)

  /** Finally(u, c) once both ran: u's error wins, otherwise c's. */
  function FinallyErr(u: Option<string>, c: Option<string>): (r: Option<string>)
    ensures r.None? <==> u.None? && c.None?
    ensures u.Some? ==> r == u
  {
    if u.Some? then u else c
  }

  /**
   * stopJobContainer: Remove().Then(removeVolume(name).Finally(removeVolume(name-env)).If(!local)),
   * all of it only when there is a container and containers are not reused.
   */
  function StopJobContainer(hasContainer: bool, reuse: bool, local: bool, name: string,
                            res: RemovalResults): StopRun
  {
    if !hasContainer || reuse then StopRun([], None)
    else if res.container.Some? then StopRun([RemoveContainer], res.container)
    else if local then StopRun([RemoveContainer], None)
    else StopRun([RemoveContainer, RemoveVolume(name), RemoveVolume(name + "-env")],
                 FinallyErr(res.volume, res.envVolume))
  }

  /** Nothing is removed exactly when there is no container or containers are reused. */
  lemma StopDoesNothingIff(hasContainer: bool, reuse: bool, local: bool, name: string, res: RemovalResults)
    ensures StopJobContainer(hasContainer, reuse, local, name, res).performed == [] <==> !hasContainer || reuse
    ensures !hasContainer || reuse ==> StopJobContainer(hasContainer, reuse, local, name, res).err == None
  {
  }

  /**
   * The volumes are removed exactly when the container was removed without
   * error in container (non-local) mode; the "-env" volume is removed even
   * when removing the main volume failed.
   */
  lemma VolumesRemovedIff(hasContainer: bool, reuse: bool, local: bool, name: string, res: RemovalResults)
    ensures var s := StopJobContainer(hasContainer, reuse, local, name, res);
            (RemoveVolume(name) in s.performed && RemoveVolume(name + "-env") in s.performed)
            <==> hasContainer && !reuse && !local && res.container.None?
    ensures var s := StopJobContainer(hasContainer, reuse, local, name, res);
            RemoveVolume(name + "-env") in s.performed ==> RemoveVolume(name) in s.performed
  {
    var s := StopJobContainer(hasContainer, reuse, local, name, res);
    if RemoveVolume(name + "-env") in s.performed {
      assert s.performed[1] == RemoveVolume(name);
    }
  }

  /** A stop reports no error exactly when every removal it attempted succeeded. */
  lemma StopErrorIff(hasContainer: bool, reuse: bool, local: bool, name: string, res: RemovalResults)
    ensures var s := StopJobContainer(hasContainer, reuse, local, name, res);
            s.err.None? <==>
              (RemoveContainer in s.performed ==> res.container.None?) &&
              (RemoveVolume(name) in s.performed ==> res.volume.None? && res.envVolume.None?)
  {
    var s := StopJobContainer(hasContainer, reuse, local, name, res);
    if hasContainer && !reuse && res.container.Some? {
      assert s.performed == [RemoveContainer];
    }
  }

  /** What the job executor did: whether the steps ran, the cleanup stop (if any), whether Close ran, the error. */
  datatype JobRun = JobRun(ran: bool, stopped: Option<StopRun>, closed: bool, err: Option<string>)

  /**
   * Executor: the steps pipeline, then a cleanup that stops the container
   * when auto-removal is set (its error only logged) and closes it, all
   * guarded by isEnabled.
   */
  function JobExecutor(enabled: bool, stepsErr: Option<string>, hasContainer: bool, autoRemove: bool,
                       stop: StopRun, closeErr: Option<string>): JobRun
  {
    if !enabled then JobRun(false, None, false, None)
    else if !hasContainer then JobRun(true, None, false, stepsErr)
    else JobRun(true, if autoRemove then Some(stop) else None, true, FinallyErr(stepsErr, closeErr))
  }

  /** Teardown runs the same way whether the steps succeeded or failed. */
  lemma TeardownRegardlessOfSteps(enabled: bool, e1: Option<string>, e2: Option<string>, hasContainer: bool,
                                  autoRemove: bool, stop: StopRun, closeErr: Option<string>)
    ensures JobExecutor(enabled, e1, hasContainer, autoRemove, stop, closeErr).stopped
         == JobExecutor(enabled, e2, hasContainer, autoRemove, stop, closeErr).stopped
    ensures JobExecutor(enabled, e1, hasContainer, autoRemove, stop, closeErr).closed
         == JobExecutor(enabled, e2, hasContainer, autoRemove, stop, closeErr).closed
  {
  }

  /** A failing stop during cleanup never changes the job's result, and a step error is never masked. */
  lemma CleanupStopNeverMasks(enabled: bool, stepsErr: Option<string>, hasContainer: bool, autoRemove: bool,
                              s1: StopRun, s2: StopRun, closeErr: Option<string>)
    ensures JobExecutor(enabled, stepsErr, hasContainer, autoRemove, s1, closeErr).err
         == JobExecutor(enabled, stepsErr, hasContainer, autoRemove, s2, closeErr).err
    ensures enabled && stepsErr.Some? ==> JobExecutor(enabled, stepsErr, hasContainer, autoRemove, s1, closeErr).err == stepsErr
  {
  }

  /**
   * With auto-removal, an enabled job with a container runs the real stop
   * during cleanup: it removes the container (and, outside local mode and
   * after a clean removal, both volumes) whether the steps failed or not,
   * and the job's error is the steps' error, else Close's, whatever the stop
   * reported.
   */
  lemma CleanupRunsStop(stepsErr: Option<string>, reuse: bool, local: bool, name: string,
                        res: RemovalResults, closeErr: Option<string>)
    requires !reuse
    ensures var j := JobExecutor(true, stepsErr, true, true, StopJobContainer(true, reuse, local, name, res), closeErr);
            && j.ran && j.closed
            && j.stopped.Some? && j.stopped.value.performed != [] && j.stopped.value.performed[0] == RemoveContainer
            && (RemoveVolume(name + "-env") in j.stopped.value.performed <==> !local && res.container.None?)
            && j.err == FinallyErr(stepsErr, closeErr)
  {
    VolumesRemovedIff(true, reuse, local, name, res);
  }

  /** A disabled job runs nothing and tears nothing down. */
  lemma DisabledJobDoesNothing(stepsErr: Option<string>, hasContainer: bool, autoRemove: bool,
                               stop: StopRun, closeErr: Option<string>)
    ensures JobExecutor(false, stepsErr, hasContainer, autoRemove, stop, closeErr) == JobRun(false, None, false, None)
  {
  }
}
