/** utils/commands.go: the GitLab environment check and the
    running-container check. */
module Commands {
  import opened Wrappers
  import opened Text
  import opened Host

  /** `os.Getenv`: an unset variable reads as "". */
  function Getenv(env: map<string, string>, key: string): string {
    if key in env then env[key] else ""
  }

  datatype EnvError = MissingVariable(name: string)

  /** A project token, or else both a login and a token, and in every case
      GOPRIVATE. Without a project token the variables are checked in the
      order GITLAB_LOGIN, GITLAB_TOKEN, GOPRIVATE and the first empty one is
      reported. */
  function CheckGitlabEnvVariables(env: map<string, string>): (r: Option<EnvError>)
    ensures r.None? <==>
      && Getenv(env, "GOPRIVATE") != ""
      && (Getenv(env, "PROJECT_GITLAB_TOKEN") != ""
          || (Getenv(env, "GITLAB_LOGIN") != "" && Getenv(env, "GITLAB_TOKEN") != ""))
    ensures Getenv(env, "PROJECT_GITLAB_TOKEN") == "" && Getenv(env, "GITLAB_LOGIN") == "" ==>
      r == Some(MissingVariable("GITLAB_LOGIN"))
    ensures (&& Getenv(env, "PROJECT_GITLAB_TOKEN") == ""
             && Getenv(env, "GITLAB_LOGIN") != ""
             && Getenv(env, "GITLAB_TOKEN") == "") ==>
      r == Some(MissingVariable("GITLAB_TOKEN"))
    ensures r.Some? && r.value.name == "GOPRIVATE" <==>
      && Getenv(env, "GOPRIVATE") == ""
      && (Getenv(env, "PROJECT_GITLAB_TOKEN") != ""
          || (Getenv(env, "GITLAB_LOGIN") != "" && Getenv(env, "GITLAB_TOKEN") != ""))
  {
    var projectGitlabToken := Getenv(env, "PROJECT_GITLAB_TOKEN");
    if projectGitlabToken == "" && Getenv(env, "GITLAB_LOGIN") == "" then
      Some(MissingVariable("GITLAB_LOGIN"))
    else if projectGitlabToken == "" && Getenv(env, "GITLAB_TOKEN") == "" then
      Some(MissingVariable("GITLAB_TOKEN"))
    else if Getenv(env, "GOPRIVATE") == "" then
      Some(MissingVariable("GOPRIVATE"))
    else
      None
  }

  /** An unset variable and an empty one are treated alike. */
  lemma UnsetIsEmpty(env: map<string, string>, key: string)
    ensures CheckGitlabEnvVariables(env - {key}) == CheckGitlabEnvVariables(env[key := ""])
  {
  }

  const DockerPsCommand := Command("docker", ["ps", "--format", "{{.Names}}"])

  /** The lines `docker ps` printed, after trimming white space around the
      whole output. */
  function ContainerLines(output: string): seq<string> {
    Split(TrimSpace(output), '\n')
  }

  /** True when the name equals one line of the trimmed `docker ps` output;
      `psOutput` is the output of `docker ps`, None when it failed. */
  method IsContainerRunning(psOutput: Option<string>, containerName: string) returns (r: Result<bool, Cause>)
    ensures psOutput.None? ==> r == Err(CommandFailed(DockerPsCommand))
    ensures psOutput.Some? ==> r == Ok(containerName in ContainerLines(psOutput.value))
  {
    if psOutput.None? {
      return Err(CommandFailed(DockerPsCommand));
    }
    var containers := ContainerLines(psOutput.value);
    var i := 0;
    while i < |containers|
      invariant 0 <= i <= |containers|
      invariant containerName !in containers[..i]
    {
      if containers[i] == containerName {
        return Ok(true);
      }
      i := i + 1;
    }
    assert containers[..i] == containers;
    return Ok(false);
  }

  /** The output of `docker ps` is one name per line: a name is found exactly
      when it is listed, never by a partial match. */
  lemma RunningIffListed(names: seq<string>, containerName: string)
    requires |names| > 0
    requires forall i :: 0 <= i < |names| ==> '\n' !in names[i]
    requires TrimSpace(Join(names, '\n')) == Join(names, '\n')
    ensures containerName in ContainerLines(Join(names, '\n')) <==> containerName in names
  {
    SplitJoin(names, '\n');
  }

  /** The same holds for the listing as `docker ps` prints it, with a
      newline after the last name: the trim removes it. */
  lemma RunningIffListedWithNewline(names: seq<string>, containerName: string)
    requires |names| > 0
    requires forall i :: 0 <= i < |names| ==> '\n' !in names[i]
    requires TrimSpace(Join(names, '\n')) == Join(names, '\n')
    ensures containerName in ContainerLines(Join(names, '\n') + "\n") <==> containerName in names
  {
    var j := Join(names, '\n');
    TrimSpaceNewline(j);
    assert ContainerLines(j + "\n") == ContainerLines(j);
    RunningIffListed(names, containerName);
  }

  /** Empty output splits into one empty line, so only the empty name is
      found. */
  lemma EmptyOutputMatchesOnlyEmptyName(output: string, containerName: string)
    requires TrimSpace(output) == ""
    ensures containerName in ContainerLines(output) <==> containerName == ""
  {
    assert Split("", '\n') == [""];
  }

  /** A name containing a newline is never found. */
  lemma MultiLineNameNeverFound(output: string, containerName: string)
    requires '\n' in containerName
    ensures containerName !in ContainerLines(output)
  {
  }
}
