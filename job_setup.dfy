/**
 * Platform resolution, job enablement and registry credentials
 * (platformImage, isEnabled and handleCredentials in
 * pkg/runner/run_context.go). The expression evaluator is a parameter:
 * `interp` is Interpolate and `evalBool` is EvalBool.
 */
module JobSetup {
  import opened Wrappers
  import opened WorkflowModel

  function ToLowerChar(c: char): char {
    if 'A' <= c <= 'Z' then (c as int + 32) as char else c
  }

  /** strings.ToLower over ASCII letters. */
  function ToLower(s: string): (r: string)
    ensures |r| == |s|
  {
    seq(|s|, i requires 0 <= i < |s| => ToLowerChar(s[i]))
  }

  /** The image configured for one runner label, looked up by its lower-cased interpolation. */
  function LabelImage(runnerLabel: string, platforms: map<string, string>, interp: string -> string): string {
    Get(platforms, ToLower(interp(runnerLabel)))
  }

  /** The first non-empty label image, scanning the labels in order. */
  function FirstImage(labels: seq<string>, platforms: map<string, string>, interp: string -> string): (r: string)
    ensures r == "" <==> forall i | 0 <= i < |labels| :: LabelImage(labels[i], platforms, interp) == ""
    ensures r != "" ==> exists i | 0 <= i < |labels| ::
              && r == LabelImage(labels[i], platforms, interp)
              && forall j | 0 <= j < i :: LabelImage(labels[j], platforms, interp) == ""
  {
    if labels == [] then ""
    else
      var img := LabelImage(labels[0], platforms, interp);
      if img != "" then img
      else
        var r := FirstImage(labels[1..], platforms, interp);
        assert forall i | 1 <= i < |labels| :: labels[i] == labels[1..][i - 1];
        r
  }

  /** platformImage: a declared container wins; otherwise the first mapped runner label. */
  function PlatformImage(job: Job, platforms: map<string, string>, interp: string -> string): string {
    if job.container.Some? then interp(job.container.value.image)
    else FirstImage(job.runsOn, platforms, interp)
  }

  /** Labels that differ only in letter case resolve to the same image. */
  lemma LabelLookupIgnoresCase(a: string, b: string, platforms: map<string, string>, interp: string -> string)
    requires ToLower(interp(a)) == ToLower(interp(b))
    ensures LabelImage(a, platforms, interp) == LabelImage(b, platforms, interp)
  {
  }

  /** s holds an upper-case ASCII letter. */
  predicate HasUpper(s: string) {
    exists i | 0 <= i < |s| :: 'A' <= s[i] <= 'Z'
  }

  /** A lower-cased name holds no upper-case ASCII letter. */
  lemma ToLowerHasNoUpper(s: string)
    ensures !HasUpper(ToLower(s))
  {
    var r := ToLower(s);
    forall i | 0 <= i < |r|
      ensures !('A' <= r[i] <= 'Z')
    {
      assert r[i] == ToLowerChar(s[i]);
    }
  }

  /**
   * Only the label is lower-cased, not the configured platform keys: a key
   * holding an upper-case letter is never found, so the lookup behaves as if
   * such keys were absent.
   */
  lemma UpperCaseKeysNeverFound(runnerLabel: string, platforms: map<string, string>, interp: string -> string)
    ensures LabelImage(runnerLabel, platforms, interp)
         == LabelImage(runnerLabel, map k | k in platforms && !HasUpper(k) :: platforms[k], interp)
  {
    ToLowerHasNoUpper(interp(runnerLabel));
  }

  /** Lower-casing twice is lower-casing once. */
  lemma ToLowerIdempotent(s: string)
    ensures ToLower(ToLower(s)) == ToLower(s)
  {
  }

  /** The three ways platformImage can end. */
  lemma PlatformImageCases(job: Job, platforms: map<string, string>, interp: string -> string)
    ensures job.container.Some? ==> PlatformImage(job, platforms, interp) == interp(job.container.value.image)
    ensures job.container.None? && PlatformImage(job, platforms, interp) != "" ==>
              exists i | 0 <= i < |job.runsOn| ::
                && PlatformImage(job, platforms, interp) == LabelImage(job.runsOn[i], platforms, interp)
                && forall j | 0 <= j < i :: LabelImage(job.runsOn[j], platforms, interp) == ""
    ensures job.container.None? ==>
              (PlatformImage(job, platforms, interp) == "" <==>
               forall i | 0 <= i < |job.runsOn| :: LabelImage(job.runsOn[i], platforms, interp) == "")
  {
  }

  /**
   * isEnabled: the job runs only when its `if:` evaluates without error to
   * true and it resolves to a non-empty image.
   */
  function IsEnabled(job: Job, evalBool: string -> Result<bool, string>,
                     platforms: map<string, string>, interp: string -> string): (r: bool)
    ensures r <==> evalBool(job.ifExpr) == Ok(true) && PlatformImage(job, platforms, interp) != ""
  {
    match evalBool(job.ifExpr)
    case Err(_) => false
    case Ok(runJob) =>
      if !runJob then false
      else PlatformImage(job, platforms, interp) != ""
  }

  datatype CredError =
    | InvalidPropertyCount     // "invalid property count for key 'credentials:'"
    | UsernameNotInterpolated  // "failed to interpolate container.credentials.username"
    | PasswordNotInterpolated  // "failed to interpolate container.credentials.password"
    | EmptyCredentials         // "container.credentials cannot be empty"

  /** The (username, password, err) triple of handleCredentials. */
  datatype Credentials = Credentials(username: string, password: string, err: Option<CredError>)

  /** handleCredentials, with its early returns in the order of the source. */
  function HandleCredentials(secrets: map<string, string>, job: Job, interp: string -> string): Credentials {
    var username := Get(secrets, "DOCKER_USERNAME");
    var password := Get(secrets, "DOCKER_PASSWORD");
    if job.container.None? || job.container.value.credentials.None? then
      Credentials(username, password, None)
    else
      var creds := job.container.value.credentials.value;
      if |creds| != 2 then Credentials(username, password, Some(InvalidPropertyCount))
      else
        var u := interp(Get(creds, "username"));
        if u == "" then Credentials(u, password, Some(UsernameNotInterpolated))
        else
          var p := interp(Get(creds, "password"));
          if p == "" then Credentials(u, p, Some(PasswordNotInterpolated))
          else if Get(creds, "username") == "" || Get(creds, "password") == "" then
            Credentials(u, p, Some(EmptyCredentials))
          else Credentials(u, p, None)
  }

  /** Without a container or a credentials map, the deprecated secrets are used. */
  lemma CredentialsFallBackToSecrets(secrets: map<string, string>, job: Job, interp: string -> string)
    requires job.container.None? || job.container.value.credentials.None?
    ensures HandleCredentials(secrets, job, interp)
         == Credentials(Get(secrets, "DOCKER_USERNAME"), Get(secrets, "DOCKER_PASSWORD"), None)
  {
  }

  /** A credentials map of any size but two is refused before anything is interpolated. */
  lemma CredentialsCountChecked(secrets: map<string, string>, job: Job, interp: string -> string)
    requires job.container.Some? && job.container.value.credentials.Some?
    requires |job.container.value.credentials.value| != 2
    ensures HandleCredentials(secrets, job, interp).err == Some(InvalidPropertyCount)
  {
  }

  /**
   * With a credentials map, the result is an error-free pair exactly when the
   * map has two entries, both raw values are non-empty and both interpolate
   * to non-empty strings; the pair is then the interpolated values, and the
   * map's keys are exactly "username" and "password".
   */
  lemma CredentialsAccepted(secrets: map<string, string>, job: Job, interp: string -> string)
    requires job.container.Some? && job.container.value.credentials.Some?
    ensures var creds := job.container.value.credentials.value;
            var r := HandleCredentials(secrets, job, interp);
            r.err.None? <==>
              && |creds| == 2
              && Get(creds, "username") != "" && Get(creds, "password") != ""
              && interp(Get(creds, "username")) != "" && interp(Get(creds, "password")) != ""
    ensures var creds := job.container.value.credentials.value;
            var r := HandleCredentials(secrets, job, interp);
            r.err.None? ==>
              && r.username == interp(creds["username"]) && r.password == interp(creds["password"])
              && creds.Keys == {"username", "password"}
  {
    var creds := job.container.value.credentials.value;
    var r := HandleCredentials(secrets, job, interp);
    if r.err.None? {
      assert "username" in creds && "password" in creds;
      TwoKeysExactly(creds.Keys, "username", "password");
    }
  }

  lemma TwoKeysExactly(keys: set<string>, a: string, b: string)
    requires a != b && a in keys && b in keys && |keys| == 2
    ensures keys == {a, b}
  {
    var both := {a, b};
    assert keys == both + (keys - both);
    assert |keys| == |both| + |keys - both|;
    assert keys - both == {};
  }

  /** The error cases are checked in order: the first failing check names the error. */
  lemma CredentialErrorOrder(secrets: map<string, string>, job: Job, interp: string -> string)
    requires job.container.Some? && job.container.value.credentials.Some?
    requires |job.container.value.credentials.value| == 2
    ensures var creds := job.container.value.credentials.value;
            var r := HandleCredentials(secrets, job, interp);
            && (interp(Get(creds, "username")) == "" ==> r.err == Some(UsernameNotInterpolated))
            && (interp(Get(creds, "username")) != "" && interp(Get(creds, "password")) == "" ==>
                  r.err == Some(PasswordNotInterpolated))
            && (interp(Get(creds, "username")) != "" && interp(Get(creds, "password")) != "" &&
                (Get(creds, "username") == "" || Get(creds, "password") == "") ==>
                  r.err == Some(EmptyCredentials))
  {
  }
}
