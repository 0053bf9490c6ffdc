/**
 * The github context defaults (applyDefaults) and the ImageOS entry that
 * withGithubEnv derives from the runner labels, in pkg/runner/run_context.go.
 */
module GithubEnv {
  import opened Wrappers
  import opened Values

  /** The fields of model.GithubContext that applyDefaults reads or writes. */
  datatype GithubContext = GithubContext(
    runId: string,
    runNumber: string,
    runAttempt: string,
    retentionDays: string,
    runnerPerflog: string,
    actor: string,
    repository: string,
    repositoryOwner: string,
    eventName: string,
    event: map<string, Value>,
    baseRef: string,
    headRef: string)

  /** The six fields that get a fixed default when empty. */
  function FillDefaults(ghc: GithubContext): GithubContext {
    ghc.(
      runId := if ghc.runId == "" then "1" else ghc.runId,
      runNumber := if ghc.runNumber == "" then "1" else ghc.runNumber,
      runAttempt := if ghc.runAttempt == "" then "1" else ghc.runAttempt,
      retentionDays := if ghc.retentionDays == "" then "0" else ghc.retentionDays,
      runnerPerflog := if ghc.runnerPerflog == "" then "/dev/null" else ghc.runnerPerflog,
      actor := if ghc.actor == "" then "nektos/act" else ghc.actor)
  }

  /** strings.Split(s, "/")[0]: the text before the first '/'. */
  function FirstSegment(s: string): (f: string)
    ensures |f| <= |s|
  {
    if s == [] || s[0] == '/' then [] else [s[0]] + FirstSegment(s[1..])
  }

  /** FirstSegment is the longest prefix without '/'. */
  lemma {:induction false} FirstSegmentSpec(s: string)
    ensures var f := FirstSegment(s);
            && f == s[..|f|]
            && (forall i | 0 <= i < |f| :: f[i] != '/')
            && (|f| < |s| ==> s[|f|] == '/')
  {
    if s != [] && s[0] != '/' {
      FirstSegmentSpec(s[1..]);
      var t := FirstSegment(s[1..]);
      assert FirstSegment(s) == [s[0]] + t;
      assert s[..|t| + 1] == [s[0]] + s[1..][..|t|];
    }
  }

  /**
   * applyDefaults. `repo` is the result of common.FindGithubRepo (None when
   * it fails) and `parsedEvent` that of decoding the event JSON (None when it
   * fails). SetRefAndSha is not part of this model.
   */
  function ApplyDefaults(ghc: GithubContext, repo: Option<string>, eventJson: string,
                         parsedEvent: Option<map<string, Value>>): GithubContext
  {
    var g1 := FillDefaults(ghc);
    var g2 :=
      if repo.None? then g1
      else g1.(repository := repo.value,
               repositoryOwner := if g1.repositoryOwner == "" then FirstSegment(repo.value) else g1.repositoryOwner);
    var g3 :=
      if eventJson != "" && parsedEvent.Some? then g2.(event := g2.event + parsedEvent.value) else g2;
    if g3.eventName == "pull_request" then
      g3.(baseRef := AsString(NestedMapLookup(g3.event, ["pull_request", "base", "ref"])),
          headRef := AsString(NestedMapLookup(g3.event, ["pull_request", "head", "ref"])))
    else g3
  }

  /** Every defaulted field is non-empty afterwards, and a field already set is kept. */
  lemma DefaultsFillOnlyBlanks(ghc: GithubContext, repo: Option<string>, eventJson: string,
                               parsedEvent: Option<map<string, Value>>)
    ensures var r := ApplyDefaults(ghc, repo, eventJson, parsedEvent);
            && r.runId != "" && r.runNumber != "" && r.runAttempt != ""
            && r.retentionDays != "" && r.runnerPerflog != "" && r.actor != ""
            && (ghc.runId != "" ==> r.runId == ghc.runId)
            && (ghc.runNumber != "" ==> r.runNumber == ghc.runNumber)
            && (ghc.runAttempt != "" ==> r.runAttempt == ghc.runAttempt)
            && (ghc.retentionDays != "" ==> r.retentionDays == ghc.retentionDays)
            && (ghc.runnerPerflog != "" ==> r.runnerPerflog == ghc.runnerPerflog)
            && (ghc.actor != "" ==> r.actor == ghc.actor)
            && r.eventName == ghc.eventName
  {
  }

  /** The repository comes from the git lookup when it succeeds; the owner defaults to its first segment. */
  lemma RepositoryFromGit(ghc: GithubContext, repo: Option<string>, eventJson: string,
                          parsedEvent: Option<map<string, Value>>)
    ensures var r := ApplyDefaults(ghc, repo, eventJson, parsedEvent);
            && (repo.None? ==> r.repository == ghc.repository && r.repositoryOwner == ghc.repositoryOwner)
            && (repo.Some? ==> r.repository == repo.value)
            && (repo.Some? && ghc.repositoryOwner == "" ==> r.repositoryOwner == FirstSegment(repo.value))
            && (ghc.repositoryOwner != "" ==> r.repositoryOwner == ghc.repositoryOwner)
  {
  }

  /**
   * For a pull_request event the base and head refs are read from the
   * payload, and are "" when the path is missing or not a string.
   */
  lemma PullRequestRefs(ghc: GithubContext, repo: Option<string>, eventJson: string,
                        parsedEvent: Option<map<string, Value>>)
    requires ghc.eventName == "pull_request"
    ensures var r := ApplyDefaults(ghc, repo, eventJson, parsedEvent);
            && (NestedMapLookup(r.event, ["pull_request", "base", "ref"]).Str? ==>
                  r.baseRef == NestedMapLookup(r.event, ["pull_request", "base", "ref"]).s)
            && (!NestedMapLookup(r.event, ["pull_request", "base", "ref"]).Str? ==> r.baseRef == "")
            && (NestedMapLookup(r.event, ["pull_request", "head", "ref"]).Str? ==>
                  r.headRef == NestedMapLookup(r.event, ["pull_request", "head", "ref"]).s)
            && (!NestedMapLookup(r.event, ["pull_request", "head", "ref"]).Str? ==> r.headRef == "")
  {
  }

  /** Applying the defaults a second time with the same inputs changes nothing. */
  lemma ApplyDefaultsIdempotent(ghc: GithubContext, repo: Option<string>, eventJson: string,
                                parsedEvent: Option<map<string, Value>>)
    ensures var once := ApplyDefaults(ghc, repo, eventJson, parsedEvent);
            ApplyDefaults(once, repo, eventJson, parsedEvent) == once
  {
    var once := ApplyDefaults(ghc, repo, eventJson, parsedEvent);
    if eventJson != "" && parsedEvent.Some? {
      assert once.event + parsedEvent.value == once.event;
    }
  }

  // ---- ImageOS ----

  /** strings.Replace(s, "-", "", 1): drop the first hyphen. */
  function DropFirstHyphen(s: string): string {
    if s == [] then [] else if s[0] == '-' then s[1..] else [s[0]] + DropFirstHyphen(s[1..])
  }

  /** strings.SplitN(s, ".", 2)[0]: the text before the first '.'. */
  function BeforeDot(s: string): string {
    if s == [] || s[0] == '.' then [] else [s[0]] + BeforeDot(s[1..])
  }

  /** The ImageOS value for one interpolated, non-empty runner label. */
  function ImageOSOf(platformName: string): string {
    if platformName == "ubuntu-latest" then "ubuntu20"
    else BeforeDot(DropFirstHyphen(platformName))
  }

  lemma {:induction false} BeforeDotHasNoDot(s: string)
    ensures '.' !in BeforeDot(s)
  {
    if s != [] && s[0] != '.' {
      BeforeDotHasNoDot(s[1..]);
    }
  }

  /** An ImageOS value never holds a '.' (the version's minor part is cut off). */
  lemma ImageOSHasNoDot(platformName: string)
    ensures '.' !in ImageOSOf(platformName)
  {
    if platformName != "ubuntu-latest" {
      BeforeDotHasNoDot(DropFirstHyphen(platformName));
    }
  }

  /**
   * withGithubEnv's ImageOS loop: each label that interpolates to a
   * non-empty name overwrites ImageOS, so the last such label decides; with
   * none, the environment is unchanged.
   */
  method WithImageOS(env: map<string, string>, labels: seq<string>, interp: string -> string)
    returns (r: map<string, string>)
    ensures (forall i | 0 <= i < |labels| :: interp(labels[i]) == "") ==> r == env
    ensures forall i | 0 <= i < |labels| && interp(labels[i]) != "" &&
                       (forall j | i < j < |labels| :: interp(labels[j]) == "") ::
              r == env["ImageOS" := ImageOSOf(interp(labels[i]))]
  {
    r := env;
    ghost var last: int := -1;
    for n := 0 to |labels|
      invariant -1 <= last < n
      invariant last == -1 ==> r == env && forall i | 0 <= i < n :: interp(labels[i]) == ""
      invariant last >= 0 ==> interp(labels[last]) != "" && r == env["ImageOS" := ImageOSOf(interp(labels[last]))]
      invariant forall j | last < j < n :: interp(labels[j]) == ""
    {
      var platformName := interp(labels[n]);
      if platformName != "" {
        if platformName == "ubuntu-latest" {
          r := r["ImageOS" := "ubuntu20"];
        } else {
          r := r["ImageOS" := BeforeDot(DropFirstHyphen(platformName))];
        }
        last := n;
      }
    }
  }
}
