/** The machine the installer runs on, seen from the modelled code: the
    platform and architecture Go reports at run time, the contents of the
    os-release file, and an oracle that answers every external command and
    HTTP request. Each interaction is a step of the run's trace; the oracle
    is told the index of the step, so the same command may answer
    differently before and after an install. */
module Host {
  import opened Wrappers

  /** An external process: program name and argument list. */
  datatype Command = Command(name: string, args: seq<string>)

  /** One interaction with the outside world. */
  datatype Step =
    | Exec(cmd: Command)     // RunCommand / RunCommandWithOutput
    | Get(url: string)       // HTTP GET followed by JSON decoding
    | ReadOsRelease          // opening and scanning /etc/os-release
    | RemoveFile(path: string)

  datatype Env = Env(
    goos: string,
    goarch: string,
    /** the lines of /etc/os-release, or None when it cannot be opened or read */
    osRelease: Option<seq<string>>,
    /** the standard output of a command that exits with status 0, or None */
    exec: (nat, Command) -> Option<string>,
    /** the decoded JSON field of a successful request, or None */
    get: (nat, string) -> Option<string>)

  /** The errors the helpers of package utils return, by what failed. */
  datatype Cause =
    | CommandFailed(cmd: Command)
    | RequestFailed(url: string)
    | OsReleaseUnreadable
    | NoDistributionId
    | UnsupportedDistribution(distro: string)
    | UnsupportedArchitecture(arch: string)
    | PlatformNotSupported(platform: string)

  /** What a helper returned, with the steps it performed, in order. */
  datatype Outcome<+T> = Outcome(result: Result<T, Cause>, steps: seq<Step>)

  /** `RunCommandWithOutput` as step `k`: the captured output on success and
      no output at all on failure. */
  function RunCommandWithOutput(env: Env, k: nat, cmd: Command): (o: Outcome<string>)
    ensures o.steps == [Exec(cmd)]
    ensures o.result.Ok? <==> env.exec(k, cmd).Some?
    ensures o.result.Ok? ==> o.result.value == env.exec(k, cmd).value
    ensures o.result.Err? ==> o.result.error == CommandFailed(cmd)
  {
    match env.exec(k, cmd)
    case Some(out) => Outcome(Ok(out), [Exec(cmd)])
    case None => Outcome(Err(CommandFailed(cmd)), [Exec(cmd)])
  }

  /** `RunCommand` as step `k`: the output goes to the terminal, only the
      exit status is returned. */
  function RunCommand(env: Env, k: nat, cmd: Command): (o: Outcome<()>)
    ensures o.steps == [Exec(cmd)]
    ensures o.result.Ok? <==> env.exec(k, cmd).Some?
    ensures o.result.Err? ==> o.result.error == CommandFailed(cmd)
  {
    if env.exec(k, cmd).Some? then Outcome(Ok(()), [Exec(cmd)])
    else Outcome(Err(CommandFailed(cmd)), [Exec(cmd)])
  }

  /** An HTTP GET of `url` as step `k`, with the JSON field it is read for. */
  function HttpGet(env: Env, k: nat, url: string): (o: Outcome<string>)
    ensures o.steps == [Get(url)]
    ensures o.result.Ok? <==> env.get(k, url).Some?
    ensures o.result.Ok? ==> o.result.value == env.get(k, url).value
    ensures o.result.Err? ==> o.result.error == RequestFailed(url)
  {
    match env.get(k, url)
    case Some(body) => Outcome(Ok(body), [Get(url)])
    case None => Outcome(Err(RequestFailed(url)), [Get(url)])
  }
}
