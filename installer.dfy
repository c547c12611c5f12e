/** main.go: devToolsInstall, the reconciliation of the local protoc with
    the stable release. The run is specified by the function Reconcile, over
    the oracle environment of module Host; the method DevToolsInstall
    performs it step by step, as the Go code does, and is proved to produce
    the same error and the same trace. */
module Installer {
  import opened Wrappers
  import opened Text
  import opened Host
  import opened Version

  // ---------------------------------------------------------------------
  // The leftmost match of `\d+\.\d+` (lines 40 and 109)
  // ---------------------------------------------------------------------

  /** The length of the maximal run of digits starting at `i`. */
  function DigitRun(s: string, i: nat): (n: nat)
    requires i <= |s|
    ensures i + n <= |s|
    ensures forall j :: i <= j < i + n ==> IsDigit(s[j])
    ensures i + n == |s| || !IsDigit(s[i + n])
    decreases |s| - i
  {
    if i < |s| && IsDigit(s[i]) then 1 + DigitRun(s, i + 1) else 0
  }

  /** The pattern matches at `i`: greedy digits, a dot, greedy digits. A
      shorter first run cannot help, since it would be followed by a digit. */
  predicate MatchesAt(s: string, i: nat) {
    && i < |s|
    && var d := DigitRun(s, i);
    && d > 0 && i + d < |s| && s[i + d] == '.'
    && DigitRun(s, i + d + 1) > 0
  }

  function MatchAt(s: string, i: nat): (m: string)
    requires MatchesAt(s, i)
    ensures |m| >= 3
  {
    var d := DigitRun(s, i);
    s[i..i + d + 1 + DigitRun(s, i + d + 1)]
  }

  /** The leftmost position at or after `i` where the pattern matches. */
  function FirstMatch(s: string, i: nat): (r: Option<nat>)
    requires i <= |s|
    ensures r.None? ==> forall j :: i <= j < |s| ==> !MatchesAt(s, j)
    ensures r.Some? ==> i <= r.value < |s| && MatchesAt(s, r.value)
    ensures r.Some? ==> forall j :: i <= j < r.value ==> !MatchesAt(s, j)
    decreases |s| - i
  {
    if i == |s| then None
    else if MatchesAt(s, i) then Some(i)
    else FirstMatch(s, i + 1)
  }

  /** `regexp.MustCompile(`\d+\.\d+`).FindString`: the leftmost match, or ""
      when there is none. */
  function FindVersion(output: string): (r: string)
    ensures r == "" <==> forall j :: 0 <= j < |output| ==> !MatchesAt(output, j)
  {
    match FirstMatch(output, 0)
    case None => ""
    case Some(j) => MatchAt(output, j)
  }

  /** A version token: digits, a dot, digits. */
  predicate IsVersionToken(t: string) {
    exists d :: 0 < d < |t| - 1 && t[d] == '.' && AllDigits(t[..d]) && AllDigits(t[d + 1..])
  }

  /** A match is a version token. */
  lemma MatchIsToken(s: string, j: nat)
    requires MatchesAt(s, j)
    ensures IsVersionToken(MatchAt(s, j))
  {
    var t := MatchAt(s, j);
    var d := DigitRun(s, j);
    var e := DigitRun(s, j + d + 1);
    assert t == s[j..j + d + 1 + e];
    var u := t[..d];
    assert forall k :: 0 <= k < |u| ==> u[k] == s[j + k];
    var v := t[d + 1..];
    assert forall k :: 0 <= k < |v| ==> v[k] == s[j + d + 1 + k];
    assert 0 < d < |t| - 1 && t[d] == '.' && AllDigits(u) && AllDigits(v);
  }

  /** A digit just before a match starts a match of its own. */
  lemma MatchExtendsLeft(s: string, i: nat)
    requires MatchesAt(s, i + 1)
    ensures IsDigit(s[i]) ==> MatchesAt(s, i)
  {
    if IsDigit(s[i]) {
      assert DigitRun(s, i) == 1 + DigitRun(s, i + 1);
    }
  }

  /** No digit comes right before the leftmost match. */
  lemma LeftmostStartsRun(s: string, j: nat)
    requires FirstMatch(s, 0) == Some(j)
    ensures MatchesAt(s, j)
    ensures j == 0 || !IsDigit(s[j - 1])
  {
    if j > 0 {
      assert !MatchesAt(s, j - 1);
      MatchExtendsLeft(s, j - 1);
    }
  }

  /** No digit comes right after a match. */
  lemma MatchEndsRun(s: string, j: nat)
    requires MatchesAt(s, j)
    ensures j + |MatchAt(s, j)| <= |s| && s[j..j + |MatchAt(s, j)|] == MatchAt(s, j)
    ensures j + |MatchAt(s, j)| == |s| || !IsDigit(s[j + |MatchAt(s, j)|])
  {
    var d := DigitRun(s, j);
    assert |MatchAt(s, j)| == d + 1 + DigitRun(s, j + d + 1);
  }

  /** What the extraction finds is a version token, cut out of the output
      at the leftmost place where one starts. */
  lemma FoundIsToken(output: string)
    requires FindVersion(output) != ""
    ensures IsVersionToken(FindVersion(output))
    ensures FirstMatch(output, 0).Some?
    ensures var j := FirstMatch(output, 0).value;
      j + |FindVersion(output)| <= |output| && output[j..j + |FindVersion(output)|] == FindVersion(output)
  {
    FoundAtFirstMatch(output);
    var j := FirstMatch(output, 0).value;
    MatchIsToken(output, j);
  }

  lemma FoundAtFirstMatch(output: string)
    requires FindVersion(output) != ""
    ensures FirstMatch(output, 0).Some?
    ensures FindVersion(output) == MatchAt(output, FirstMatch(output, 0).value)
  {
  }

  /** Both digit runs of what the extraction finds are taken whole: no
      digit touches it on either side. */
  lemma FoundIsWhole(output: string)
    requires FindVersion(output) != ""
    ensures FirstMatch(output, 0).Some?
    ensures var j := FirstMatch(output, 0).value;
      var n := |FindVersion(output)|;
      && j + n <= |output|
      && (j == 0 || !IsDigit(output[j - 1]))
      && (j + n == |output| || !IsDigit(output[j + n]))
  {
    FoundAtFirstMatch(output);
    var j := FirstMatch(output, 0).value;
    LeftmostStartsRun(output, j);
    MatchEndsRun(output, j);
  }

  lemma {:induction false} DigitRunExact(s: string, i: nat, n: nat)
    requires i + n <= |s|
    requires forall j :: i <= j < i + n ==> IsDigit(s[j])
    requires i + n == |s| || !IsDigit(s[i + n])
    ensures DigitRun(s, i) == n
    decreases n
  {
    if n > 0 {
      DigitRunExact(s, i + 1, n - 1);
    }
  }

  /** Both digit runs are taken whole: `123.45.6` gives `123.45`. */
  lemma LeadingTokenFound(a: string, b: string, rest: string)
    requires a != [] && b != [] && AllDigits(a) && AllDigits(b)
    requires rest == [] || !IsDigit(rest[0])
    ensures FindVersion(a + "." + b + rest) == a + "." + b
  {
    var s := a + "." + b + rest;
    assert forall j :: 0 <= j < |a| ==> s[j] == a[j];
    assert s[|a|] == '.';
    DigitRunExact(s, 0, |a|);
    assert forall j :: |a| + 1 <= j < |a| + 1 + |b| ==> s[j] == b[j - |a| - 1];
    assert |a| + 1 + |b| == |s| || s[|a| + 1 + |b|] == rest[0];
    DigitRunExact(s, |a| + 1, |b|);
    assert MatchesAt(s, 0);
    assert FirstMatch(s, 0) == Some(0);
    assert s[..|a| + 1 + |b|] == a + "." + b;
  }

  // ---------------------------------------------------------------------
  // devToolsInstall (lines 17-131)
  // ---------------------------------------------------------------------

  const ProbeCommand := Command("protoc", ["--version"])
  const BrewInstallCommand := Command("brew", ["install", "protobuf"])
  const ExportCommand := Command("export", ["PATH=$PATH:/home/user/protoc/bin"])

  /** The errors devToolsInstall returns, by the context it wraps them in. */
  datatype InstallError =
    | InstallFailed(cause: Cause)             // failed to install protobuf on darwin / linux
    | VersionCheckFailed(cause: Cause)        // failed to get protoc version after installation
    | StableVersionFailed(cause: Cause)       // failed to get stable protoc version
    | DetectDistributionFailed(cause: Cause)  // failed to detect linux distribution
    | RemovePackageFailed(cause: Cause)       // failed to remove package manager protobuf
    | AddToPathFailed(cause: Cause)           // failed to add protoc to path
    | UpdateFailed(cause: Cause)              // failed to update protobuf on linux
    | LocalVersionUnparsable(output: string)  // failed to parse local protoc version
    | UnsupportedPlatform(platform: string)

  /** A whole run: the error returned (None for success) and every step. */
  datatype Run = Run(error: Option<InstallError>, trace: seq<Step>)

  /** The reference run of devToolsInstall. */
  function Reconcile(env: Env): (run: Run)
    ensures env.goos == "darwin" ==> [Exec(ProbeCommand)] <= run.trace
    ensures env.goos == "linux" ==> [ReadOsRelease] <= run.trace
    ensures (run.error.Some? && run.error.value.UnsupportedPlatform?) <==> env.goos !in {"darwin", "linux"}
    ensures env.goos !in {"darwin", "linux"} ==> run == Run(Some(UnsupportedPlatform(env.goos)), [])
  {
    if env.goos == "darwin" then DarwinFlow(env)
    else if env.goos == "linux" then LinuxFlow(env)
    else Run(Some(UnsupportedPlatform(env.goos)), [])
  }

  /** Darwin: probe; on failure install with brew and probe again, which
      must succeed. */
  function DarwinFlow(env: Env): (run: Run)
    requires env.goos == "darwin"
    ensures [Exec(ProbeCommand)] <= run.trace
    ensures run.error.Some? ==> !run.error.value.UnsupportedPlatform?
  {
    var probe := RunCommandWithOutput(env, 0, ProbeCommand);
    if probe.result.Ok? then DarwinCompare(env, probe.result.value, probe.steps)
    else
      var brew := RunCommand(env, 1, BrewInstallCommand);
      var t1 := probe.steps + brew.steps;
      if brew.result.Err? then Run(Some(InstallFailed(brew.result.error)), t1)
      else
        var reprobe := RunCommandWithOutput(env, 2, ProbeCommand);
        var t2 := t1 + reprobe.steps;
        if reprobe.result.Err? then Run(Some(VersionCheckFailed(reprobe.result.error)), t2)
        else DarwinCompare(env, reprobe.result.value, t2)
  }

  /** Darwin, after a successful probe with `output`: fetch the stable
      version and, when it differs from the local one as strings, install
      again and check that protoc still runs. */
  function DarwinCompare(env: Env, output: string, done: seq<Step>): (run: Run)
    requires env.goos == "darwin"
    ensures done <= run.trace
    ensures run.error.Some? ==> !run.error.value.UnsupportedPlatform?
  {
    var local := FindVersion(output);
    var stable := GetStableProtocVersion(env, |done|);
    var t1 := done + stable.steps;
    if stable.result.Err? then Run(Some(StableVersionFailed(stable.result.error)), t1)
    else if local == stable.result.value then Run(None, t1)
    else
      var brew := RunCommand(env, |t1|, BrewInstallCommand);
      var t2 := t1 + brew.steps;
      if brew.result.Err? then Run(Some(InstallFailed(brew.result.error)), t2)
      else
        var check := RunCommandWithOutput(env, |t2|, ProbeCommand);
        var t3 := t2 + check.steps;
        if check.result.Err? then Run(Some(VersionCheckFailed(check.result.error)), t3)
        else Run(None, t3)
  }

  /** Linux: detect the distribution, remove its packaged compiler, fetch the
      stable version, then probe and update. */
  function LinuxFlow(env: Env): (run: Run)
    requires env.goos == "linux"
    ensures [ReadOsRelease] <= run.trace
    ensures run.error.Some? ==> !run.error.value.UnsupportedPlatform?
  {
    var detect := DetectLinuxDistribution(env);
    if detect.result.Err? then Run(Some(DetectDistributionFailed(detect.result.error)), detect.steps)
    else
      var remove := RemovePackageManagerProtobuf(env, |detect.steps|, detect.result.value.family);
      var t1 := detect.steps + remove.steps;
      if remove.result.Err? then Run(Some(RemovePackageFailed(remove.result.error)), t1)
      else
        var stable := GetStableProtocVersion(env, |t1|);
        var t2 := t1 + stable.steps;
        if stable.result.Err? then Run(Some(StableVersionFailed(stable.result.error)), t2)
        else
          var run := LinuxProbeAndUpdate(env, stable.result.value, t2);
          KeepsFirstStep(t2, Exec(ProbeCommand), run.trace);
          run
  }

  /** Linux, from the probe on. When the probe fails, the compiler is
      installed from the archive, `export` is run and protoc is probed again,
      but that probe's output is dropped: the version is read from the failed
      probe's output, which is empty. */
  function LinuxProbeAndUpdate(env: Env, stable: string, done: seq<Step>): (run: Run)
    requires env.goos == "linux"
    ensures |run.trace| > |done| && run.trace[..|done| + 1] == done + [Exec(ProbeCommand)]
    ensures run.error.Some? ==> !run.error.value.UnsupportedPlatform?
  {
    var probe := RunCommandWithOutput(env, |done|, ProbeCommand);
    var t1 := done + probe.steps;
    if probe.result.Ok? then LinuxCompare(env, probe.result.value, stable, t1)
    else
      var install := InstallProtoBufLinuxGithub(env, |t1|, stable);
      var t2 := t1 + install.steps;
      if install.result.Err? then Run(Some(InstallFailed(install.result.error)), t2)
      else
        var addPath := RunCommand(env, |t2|, ExportCommand);
        var t3 := t2 + addPath.steps;
        if addPath.result.Err? then Run(Some(AddToPathFailed(addPath.result.error)), t3)
        else
          var reprobe := RunCommandWithOutput(env, |t3|, ProbeCommand);
          var t4 := t3 + reprobe.steps;
          if reprobe.result.Err? then Run(Some(VersionCheckFailed(reprobe.result.error)), t4)
          else LinuxCompare(env, "", stable, t4)
  }

  /** Linux, the comparison: an empty local version is an error; a different
      one triggers one more archive install, which is not checked. */
  function LinuxCompare(env: Env, output: string, stable: string, done: seq<Step>): (run: Run)
    requires env.goos == "linux"
    ensures done <= run.trace
    ensures run.error.Some? ==> !run.error.value.UnsupportedPlatform?
  {
    var local := FindVersion(output);
    if local == "" then Run(Some(LocalVersionUnparsable(output)), done)
    else if local != stable then
      var update := InstallProtoBufLinuxGithub(env, |done|, stable);
      Run(if update.result.Err? then Some(UpdateFailed(update.result.error)) else None, done + update.steps)
    else Run(None, done)
  }

  // ---------------------------------------------------------------------
  // Properties of the reference run
  // ---------------------------------------------------------------------

  /** Darwin, protoc already there: the first probe's output is the one
      compared, with nothing installed first. */
  lemma DarwinComparesFirstProbe(env: Env)
    requires env.goos == "darwin" && env.exec(0, ProbeCommand).Some?
    ensures Reconcile(env) == DarwinCompare(env, env.exec(0, ProbeCommand).value, [Exec(ProbeCommand)])
  {
    assert Reconcile(env) == DarwinFlow(env);
  }

  /** Linux, protoc already there: the probe's output goes straight to the
      comparison, with nothing installed first. */
  lemma LinuxComparesFirstProbe(env: Env, stable: string, done: seq<Step>)
    requires env.goos == "linux" && env.exec(|done|, ProbeCommand).Some?
    ensures LinuxProbeAndUpdate(env, stable, done) ==
      LinuxCompare(env, env.exec(|done|, ProbeCommand).value, stable, done + [Exec(ProbeCommand)])
  {
  }

  /** Darwin, no protoc at first: brew runs once, then a second probe,
      whose failure aborts and whose output is the one compared. */
  lemma DarwinInstallsWhenProbeFails(env: Env)
    requires env.goos == "darwin" && env.exec(0, ProbeCommand).None?
    ensures |Reconcile(env).trace| >= 2
    ensures Reconcile(env).trace[..2] == [Exec(ProbeCommand), Exec(BrewInstallCommand)]
    ensures env.exec(1, BrewInstallCommand).None? ==>
      Reconcile(env) == Run(Some(InstallFailed(CommandFailed(BrewInstallCommand))),
                            [Exec(ProbeCommand), Exec(BrewInstallCommand)])
    ensures env.exec(1, BrewInstallCommand).Some? && env.exec(2, ProbeCommand).None? ==>
      Reconcile(env) == Run(Some(VersionCheckFailed(CommandFailed(ProbeCommand))),
                            [Exec(ProbeCommand), Exec(BrewInstallCommand), Exec(ProbeCommand)])
    ensures env.exec(1, BrewInstallCommand).Some? && env.exec(2, ProbeCommand).Some? ==>
      Reconcile(env) == DarwinCompare(env, env.exec(2, ProbeCommand).value,
                                      [Exec(ProbeCommand), Exec(BrewInstallCommand), Exec(ProbeCommand)])
  {
    assert Reconcile(env) == DarwinFlow(env);
    DarwinFlowWhenProbeFails(env);
  }

  /** The proof of DarwinInstallsWhenProbeFails, on the darwin run itself. */
  lemma DarwinFlowWhenProbeFails(env: Env)
    requires env.goos == "darwin" && env.exec(0, ProbeCommand).None?
    ensures |DarwinFlow(env).trace| >= 2
    ensures DarwinFlow(env).trace[..2] == [Exec(ProbeCommand), Exec(BrewInstallCommand)]
    ensures env.exec(1, BrewInstallCommand).None? ==>
      DarwinFlow(env) == Run(Some(InstallFailed(CommandFailed(BrewInstallCommand))),
                             [Exec(ProbeCommand), Exec(BrewInstallCommand)])
    ensures env.exec(1, BrewInstallCommand).Some? && env.exec(2, ProbeCommand).None? ==>
      DarwinFlow(env) == Run(Some(VersionCheckFailed(CommandFailed(ProbeCommand))),
                             [Exec(ProbeCommand), Exec(BrewInstallCommand), Exec(ProbeCommand)])
    ensures env.exec(1, BrewInstallCommand).Some? && env.exec(2, ProbeCommand).Some? ==>
      DarwinFlow(env) == DarwinCompare(env, env.exec(2, ProbeCommand).value,
                                       [Exec(ProbeCommand), Exec(BrewInstallCommand), Exec(ProbeCommand)])
  {
    var t := [Exec(ProbeCommand), Exec(BrewInstallCommand)];
    var probe := RunCommandWithOutput(env, 0, ProbeCommand);
    var brew := RunCommand(env, 1, BrewInstallCommand);
    assert probe.result.Err? && probe.steps + brew.steps == t;
    if env.exec(1, BrewInstallCommand).None? {
      assert DarwinFlow(env) == Run(Some(InstallFailed(CommandFailed(BrewInstallCommand))), t);
    } else if env.exec(2, ProbeCommand).None? {
      assert DarwinFlow(env) == Run(Some(VersionCheckFailed(CommandFailed(ProbeCommand))), t + [Exec(ProbeCommand)]);
    } else {
      var done := t + [Exec(ProbeCommand)];
      var reprobe := RunCommandWithOutput(env, 2, ProbeCommand);
      assert probe.steps + brew.steps + reprobe.steps == done;
      assert reprobe.result.value == env.exec(2, ProbeCommand).value;
      var run := DarwinCompare(env, env.exec(2, ProbeCommand).value, done);
      assert DarwinFlow(env) == run;
      assert run.trace[..2] == done[..2];
    }
  }

  /** Darwin, after the probe: brew runs again exactly when the stable
      version was fetched and differs, as a string, from the extracted local
      one (an empty local version included); that reinstall is followed by a
      verifying probe whose failure is the only error left. */
  lemma DarwinReinstallsIffMismatch(env: Env, output: string, done: seq<Step>)
    requires env.goos == "darwin"
    ensures var run := DarwinCompare(env, output, done);
      Exec(BrewInstallCommand) in run.trace[|done|..] <==>
        env.get(|done|, BrewFormulaUrl).Some? && FindVersion(output) != env.get(|done|, BrewFormulaUrl).value
    ensures env.get(|done|, BrewFormulaUrl).None? ==>
      DarwinCompare(env, output, done) ==
        Run(Some(StableVersionFailed(RequestFailed(BrewFormulaUrl))), done + [Get(BrewFormulaUrl)])
    ensures env.get(|done|, BrewFormulaUrl) == Some(FindVersion(output)) ==>
      DarwinCompare(env, output, done) == Run(None, done + [Get(BrewFormulaUrl)])
    ensures env.get(|done|, BrewFormulaUrl).Some? && FindVersion(output) != env.get(|done|, BrewFormulaUrl).value
            && env.exec(|done| + 1, BrewInstallCommand).Some? ==>
      && DarwinCompare(env, output, done).trace ==
           done + [Get(BrewFormulaUrl), Exec(BrewInstallCommand), Exec(ProbeCommand)]
      && (DarwinCompare(env, output, done).error.None? <==> env.exec(|done| + 2, ProbeCommand).Some?)
    ensures env.get(|done|, BrewFormulaUrl).Some? && FindVersion(output) != env.get(|done|, BrewFormulaUrl).value
            && env.exec(|done| + 1, BrewInstallCommand).None? ==>
      DarwinCompare(env, output, done) ==
        Run(Some(InstallFailed(CommandFailed(BrewInstallCommand))), done + [Get(BrewFormulaUrl), Exec(BrewInstallCommand)])
  {
    var run := DarwinCompare(env, output, done);
    var tail := run.trace[|done|..];
    assert run.trace == done + tail;
    if env.get(|done|, BrewFormulaUrl).None? || FindVersion(output) == env.get(|done|, BrewFormulaUrl).value {
      assert tail == [Get(BrewFormulaUrl)];
    } else if env.exec(|done| + 1, BrewInstallCommand).None? {
      assert tail == [Get(BrewFormulaUrl), Exec(BrewInstallCommand)];
      assert tail[1] == Exec(BrewInstallCommand);
    } else {
      assert tail == [Get(BrewFormulaUrl), Exec(BrewInstallCommand), Exec(ProbeCommand)];
      assert tail[1] == Exec(BrewInstallCommand);
    }
  }

  /** An empty local version never equals a non-empty stable one, so on
      darwin it always leads to a reinstall. */
  lemma DarwinEmptyLocalReinstalls(env: Env, output: string, done: seq<Step>)
    requires env.goos == "darwin"
    requires FindVersion(output) == ""
    requires env.get(|done|, BrewFormulaUrl).Some? && env.get(|done|, BrewFormulaUrl).value != ""
    ensures Exec(BrewInstallCommand) in DarwinCompare(env, output, done).trace[|done|..]
  {
    DarwinReinstallsIffMismatch(env, output, done);
  }

  /** Linux order: read the os-release file, remove the packaged compiler,
      fetch the latest release, probe. A failure at any of these stops the
      run right there. */
  lemma LinuxStepOrder(env: Env)
    requires env.goos == "linux"
    ensures DetectLinuxDistribution(env).result.Err? ==>
      Reconcile(env) == Run(Some(DetectDistributionFailed(DetectLinuxDistribution(env).result.error)), [ReadOsRelease])
    ensures DetectLinuxDistribution(env).result.Ok? ==>
      var rm := RemovePackageManagerProtobuf(env, 1, DetectLinuxDistribution(env).result.value.family);
      var t1 := [ReadOsRelease] + rm.steps;
      && (rm.result.Err? ==> Reconcile(env) == Run(Some(RemovePackageFailed(rm.result.error)), t1))
      && (rm.result.Ok? && env.get(|t1|, LatestReleaseUrl).None? ==>
            Reconcile(env) == Run(Some(StableVersionFailed(RequestFailed(LatestReleaseUrl))), t1 + [Get(LatestReleaseUrl)]))
      && (rm.result.Ok? && env.get(|t1|, LatestReleaseUrl).Some? ==>
            && Reconcile(env).trace[..|t1| + 2] == t1 + [Get(LatestReleaseUrl), Exec(ProbeCommand)]
            && Reconcile(env) == LinuxProbeAndUpdate(env, TrimTag(env.get(|t1|, LatestReleaseUrl).value),
                                                     t1 + [Get(LatestReleaseUrl)]))
  {
    assert Reconcile(env) == LinuxFlow(env);
    LinuxFlowEarlyExits(env);
    if DetectLinuxDistribution(env).result.Ok? {
      LinuxFlowReachesProbe(env);
      LinuxFlowProbesNext(env);
    }
  }

  /** Linux: the runs that stop before the probe. */
  lemma LinuxFlowEarlyExits(env: Env)
    requires env.goos == "linux"
    ensures DetectLinuxDistribution(env).result.Err? ==>
      LinuxFlow(env) == Run(Some(DetectDistributionFailed(DetectLinuxDistribution(env).result.error)), [ReadOsRelease])
    ensures DetectLinuxDistribution(env).result.Ok? ==>
      var rm := RemovePackageManagerProtobuf(env, 1, DetectLinuxDistribution(env).result.value.family);
      var t1 := [ReadOsRelease] + rm.steps;
      && (rm.result.Err? ==> LinuxFlow(env) == Run(Some(RemovePackageFailed(rm.result.error)), t1))
      && (rm.result.Ok? && env.get(|t1|, LatestReleaseUrl).None? ==>
            LinuxFlow(env) == Run(Some(StableVersionFailed(RequestFailed(LatestReleaseUrl))), t1 + [Get(LatestReleaseUrl)]))
  {
    var detect := DetectLinuxDistribution(env);
    assert detect.steps == [ReadOsRelease];
    if detect.result.Ok? {
      var rm := RemovePackageManagerProtobuf(env, 1, detect.result.value.family);
      var t1 := [ReadOsRelease] + rm.steps;
      if rm.result.Ok? && env.get(|t1|, LatestReleaseUrl).None? {
        assert GetStableProtocVersion(env, |t1|) == Outcome(Err(RequestFailed(LatestReleaseUrl)), [Get(LatestReleaseUrl)]);
      }
    }
  }

  /** Linux: once the stable tag is fetched, the probe is the next step. */
  lemma LinuxFlowProbesNext(env: Env)
    requires env.goos == "linux" && DetectLinuxDistribution(env).result.Ok?
    ensures var rm := RemovePackageManagerProtobuf(env, 1, DetectLinuxDistribution(env).result.value.family);
      var t1 := [ReadOsRelease] + rm.steps;
      rm.result.Ok? && env.get(|t1|, LatestReleaseUrl).Some? ==>
        LinuxFlow(env).trace[..|t1| + 2] == t1 + [Get(LatestReleaseUrl), Exec(ProbeCommand)]
  {
    LinuxFlowReachesProbe(env);
    var rm := RemovePackageManagerProtobuf(env, 1, DetectLinuxDistribution(env).result.value.family);
    var t1 := [ReadOsRelease] + rm.steps;
    if rm.result.Ok? && env.get(|t1|, LatestReleaseUrl).Some? {
      var t2 := t1 + [Get(LatestReleaseUrl)];
      var run := LinuxProbeAndUpdate(env, TrimTag(env.get(|t1|, LatestReleaseUrl).value), t2);
      assert run.trace[..|t2| + 1] == t2 + [Exec(ProbeCommand)];
      AppendPair(t1, Get(LatestReleaseUrl), Exec(ProbeCommand));
    }
  }

  /** A trace that extends `done` by one step starts with `done`'s first
      step. */
  lemma KeepsFirstStep(done: seq<Step>, next: Step, trace: seq<Step>)
    requires done != [] && |trace| > |done| && trace[..|done| + 1] == done + [next]
    ensures [done[0]] <= trace
  {
    assert trace[0] == (done + [next])[0];
  }

  /** Appending two steps is appending one, then the other. */
  lemma AppendPair(t: seq<Step>, a: Step, b: Step)
    ensures t + [a, b] == t + [a] + [b]
  {
  }

  /** Linux, once the distribution is known, the package removal has
      succeeded and the stable tag was fetched: the probe comes next. */
  lemma LinuxFlowReachesProbe(env: Env)
    requires env.goos == "linux" && DetectLinuxDistribution(env).result.Ok?
    ensures var rm := RemovePackageManagerProtobuf(env, 1, DetectLinuxDistribution(env).result.value.family);
      var t1 := [ReadOsRelease] + rm.steps;
      rm.result.Ok? && env.get(|t1|, LatestReleaseUrl).Some? ==>
        LinuxFlow(env) == LinuxProbeAndUpdate(env, TrimTag(env.get(|t1|, LatestReleaseUrl).value),
                                              t1 + [Get(LatestReleaseUrl)])
  {
    var detect := DetectLinuxDistribution(env);
    var rm := RemovePackageManagerProtobuf(env, 1, detect.result.value.family);
    var t1 := [ReadOsRelease] + rm.steps;
    if rm.result.Ok? && env.get(|t1|, LatestReleaseUrl).Some? {
      var stable := GetStableProtocVersion(env, |t1|);
      assert stable == Outcome(Ok(TrimTag(env.get(|t1|, LatestReleaseUrl).value)), [Get(LatestReleaseUrl)]);
    }
  }

  /** Linux, protoc missing: install from the archive, `export`, probe
      again. The second probe's output is dropped and the empty output of
      the failed one is parsed, so the run never succeeds: when all three
      steps work it ends with a parse error on "". */
  lemma LinuxFreshInstallEndsInParseError(env: Env, stable: string, done: seq<Step>)
    requires env.goos == "linux" && env.exec(|done|, ProbeCommand).None?
    ensures LinuxProbeAndUpdate(env, stable, done).error.Some?
    ensures var install := InstallProtoBufLinuxGithub(env, |done| + 1, stable);
      var k := |done| + 1 + |install.steps|;
      install.result.Ok? && env.exec(k, ExportCommand).Some? && env.exec(k + 1, ProbeCommand).Some? ==>
        LinuxProbeAndUpdate(env, stable, done) ==
          Run(Some(LocalVersionUnparsable("")),
              done + [Exec(ProbeCommand)] + install.steps + [Exec(ExportCommand), Exec(ProbeCommand)])
  {
    assert FindVersion("") == "";
  }

  /** Linux comparison: an empty local version is an error and nothing more
      runs; an equal one ends the run; a different one triggers exactly one
      archive install, with no probe after it. */
  lemma LinuxComparePolicy(env: Env, output: string, stable: string, done: seq<Step>)
    requires env.goos == "linux"
    ensures FindVersion(output) == "" ==>
      LinuxCompare(env, output, stable, done) == Run(Some(LocalVersionUnparsable(output)), done)
    ensures FindVersion(output) != "" && FindVersion(output) == stable ==>
      LinuxCompare(env, output, stable, done) == Run(None, done)
    ensures FindVersion(output) != "" && FindVersion(output) != stable ==>
      var update := InstallProtoBufLinuxGithub(env, |done|, stable);
      && LinuxCompare(env, output, stable, done).trace == done + update.steps
      && Exec(ProbeCommand) !in update.steps
      && (LinuxCompare(env, output, stable, done).error.None? <==> update.result.Ok?)
  {
    if FindVersion(output) != "" && FindVersion(output) != stable {
      ArchiveInstallNeverProbes(env, |done|, stable);
    }
  }

  /** The archive install runs only its download, unzip and chmod commands
      and removes the archive; it never probes protoc. */
  lemma ArchiveInstallNeverProbes(env: Env, k: nat, version: string)
    ensures Exec(ProbeCommand) !in InstallProtoBufLinuxGithub(env, k, version).steps
  {
    var o := InstallProtoBufLinuxGithub(env, k, version);
    if ArchLabel(env.goarch).Ok? {
      var curl := DownloadCommand(DownloadUrl(version, ArchLabel(env.goarch).value));
      assert curl.name == "curl";
      assert forall st :: st in o.steps ==> st in [Exec(curl), Exec(UnzipCommand), Exec(ChmodCommand), RemoveFile(ArchiveName)];
    }
  }

  /** devToolsInstall: dispatch on the platform. */
  method DevToolsInstall(env: Env) returns (err: Option<InstallError>, ghost trace: seq<Step>)
    ensures err == Reconcile(env).error
    ensures trace == Reconcile(env).trace
  {
    if env.goos == "darwin" {
      err, trace := InstallOnDarwin(env);
    } else if env.goos == "linux" {
      err, trace := InstallOnLinux(env);
    } else {
      err, trace := Some(UnsupportedPlatform(env.goos)), [];
    }
  }

  /** The darwin branch as the Go code runs it: variables overwritten step
      by step and an early return on every error. `n` counts the
      interactions so far; `trace` records them. */
  method InstallOnDarwin(env: Env) returns (err: Option<InstallError>, ghost trace: seq<Step>)
    requires env.goos == "darwin"
    ensures err == DarwinFlow(env).error
    ensures trace == DarwinFlow(env).trace
  {
    trace := [];
    var n := 0;
    var probe := RunCommandWithOutput(env, n, ProbeCommand);
    trace, n := trace + probe.steps, n + |probe.steps|;
    assert trace == probe.steps;
    var output := if probe.result.Ok? then probe.result.value else "";
    if probe.result.Err? {
      var brew := RunCommand(env, n, BrewInstallCommand);
      trace, n := trace + brew.steps, n + |brew.steps|;
      if brew.result.Err? {
        return Some(InstallFailed(brew.result.error)), trace;
      }
      var reprobe := RunCommandWithOutput(env, n, ProbeCommand);
      trace, n := trace + reprobe.steps, n + |reprobe.steps|;
      if reprobe.result.Err? {
        return Some(VersionCheckFailed(reprobe.result.error)), trace;
      }
      output := reprobe.result.value;
      assert trace == probe.steps + brew.steps + reprobe.steps;
    }
    err, trace := CompareOnDarwin(env, output, n, trace);
  }

  /** The darwin branch from the stable-version fetch on. */
  method CompareOnDarwin(env: Env, output: string, n0: nat, ghost done: seq<Step>)
    returns (err: Option<InstallError>, ghost trace: seq<Step>)
    requires env.goos == "darwin" && n0 == |done|
    ensures err == DarwinCompare(env, output, done).error
    ensures trace == DarwinCompare(env, output, done).trace
  {
    var localProtocVersion: string;
    var stableProtocVersion: string;
    trace := done;
    var n := n0;
    localProtocVersion := FindVersion(output);
    var stable := GetStableProtocVersion(env, n);
    trace, n := trace + stable.steps, n + |stable.steps|;
    if stable.result.Err? {
      return Some(StableVersionFailed(stable.result.error)), trace;
    }
    stableProtocVersion := stable.result.value;
    if localProtocVersion != stableProtocVersion {
      var brew := RunCommand(env, n, BrewInstallCommand);
      trace, n := trace + brew.steps, n + |brew.steps|;
      if brew.result.Err? {
        return Some(InstallFailed(brew.result.error)), trace;
      }
      var check := RunCommandWithOutput(env, n, ProbeCommand);
      trace, n := trace + check.steps, n + |check.steps|;
      if check.result.Err? {
        return Some(VersionCheckFailed(check.result.error)), trace;
      }
    }
    err := None;
  }

  /** The linux branch up to the stable version; the rest is
      ProbeAndUpdateOnLinux. */
  method InstallOnLinux(env: Env) returns (err: Option<InstallError>, ghost trace: seq<Step>)
    requires env.goos == "linux"
    ensures err == LinuxFlow(env).error
    ensures trace == LinuxFlow(env).trace
  {
    trace := [ReadOsRelease];
    var n := 1;
    if env.osRelease.None? {
      return Some(DetectDistributionFailed(OsReleaseUnreadable)), trace;
    }
    var id, versionId, idLike := ParseOsRelease(env.osRelease.value);
    var detected := Classify(id, versionId, idLike);
    if detected.Err? {
      return Some(DetectDistributionFailed(detected.error)), trace;
    }
    ghost var detect := DetectLinuxDistribution(env);
    assert detect == Outcome(detected, trace);
    var distro := detected.value.family;
    var remove := RemovePackageManagerProtobuf(env, n, distro);
    trace, n := trace + remove.steps, n + |remove.steps|;
    assert trace == detect.steps + remove.steps;
    if remove.result.Err? {
      return Some(RemovePackageFailed(remove.result.error)), trace;
    }
    var stable := GetStableProtocVersion(env, n);
    trace, n := trace + stable.steps, n + |stable.steps|;
    assert trace == detect.steps + remove.steps + stable.steps;
    if stable.result.Err? {
      return Some(StableVersionFailed(stable.result.error)), trace;
    }
    err, trace := ProbeAndUpdateOnLinux(env, stable.result.value, n, trace);
  }

  /** The linux branch from the probe on, after the interactions `done`. */
  method ProbeAndUpdateOnLinux(env: Env, stableProtocVersion: string, n0: nat, ghost done: seq<Step>)
    returns (err: Option<InstallError>, ghost trace: seq<Step>)
    requires env.goos == "linux" && n0 == |done|
    ensures err == LinuxProbeAndUpdate(env, stableProtocVersion, done).error
    ensures trace == LinuxProbeAndUpdate(env, stableProtocVersion, done).trace
  {
    trace := done;
    var n := n0;
    var probe := RunCommandWithOutput(env, n, ProbeCommand);
    trace, n := trace + probe.steps, n + |probe.steps|;
    var output := if probe.result.Ok? then probe.result.value else "";
    if probe.result.Err? {
      var install := InstallProtoBufLinuxGithub(env, n, stableProtocVersion);
      trace, n := trace + install.steps, n + |install.steps|;
      if install.result.Err? {
        return Some(InstallFailed(install.result.error)), trace;
      }
      var addPath := RunCommand(env, n, ExportCommand);
      trace, n := trace + addPath.steps, n + |addPath.steps|;
      if addPath.result.Err? {
        return Some(AddToPathFailed(addPath.result.error)), trace;
      }
      var reprobe := RunCommandWithOutput(env, n, ProbeCommand);
      trace, n := trace + reprobe.steps, n + |reprobe.steps|;
      if reprobe.result.Err? {
        return Some(VersionCheckFailed(reprobe.result.error)), trace;
      }
    }
    err, trace := CompareOnLinux(env, output, stableProtocVersion, n, trace);
  }

  /** The linux comparison of the local and the stable version. */
  method CompareOnLinux(env: Env, output: string, stableProtocVersion: string, n0: nat, ghost done: seq<Step>)
    returns (err: Option<InstallError>, ghost trace: seq<Step>)
    requires env.goos == "linux" && n0 == |done|
    ensures err == LinuxCompare(env, output, stableProtocVersion, done).error
    ensures trace == LinuxCompare(env, output, stableProtocVersion, done).trace
  {
    var localProtocVersion := FindVersion(output);
    trace := done;
    if localProtocVersion == "" {
      return Some(LocalVersionUnparsable(output)), trace;
    }
    if localProtocVersion != stableProtocVersion {
      var update := InstallProtoBufLinuxGithub(env, n0, stableProtocVersion);
      trace := trace + update.steps;
      if update.result.Err? {
        return Some(UpdateFailed(update.result.error)), trace;
      }
    }
    err := None;
  }
}
