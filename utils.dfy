/** utils/utils.go: path segments, the module name of a go.mod file and the
    argument list of `docker compose`. */
module Utils {
  import opened Wrappers
  import opened Text
  import opened Host

  /** The text after the last `/`, or the whole string when it has none. */
  function GetLastSegment(ref: string): (r: string)
    ensures '/' !in r
    ensures |r| <= |ref| && ref[|ref| - |r|..] == r
    ensures |r| < |ref| ==> ref[|ref| - |r| - 1] == '/'
  {
    var parts := Split(ref, '/');
    SplitLast(ref, '/');
    parts[|parts| - 1]
  }

  /** A string ending in `/`, including "/" itself, has an empty last segment. */
  lemma TrailingSlashGivesEmpty(ref: string)
    requires ref != [] && ref[|ref| - 1] == '/'
    ensures GetLastSegment(ref) == ""
  {
  }

  /** A string without `/` is its own last segment. */
  lemma NoSlashGivesWhole(ref: string)
    requires '/' !in ref
    ensures GetLastSegment(ref) == ref
  {
  }

  /** An OpenAPI schema reference; None stands for a nil pointer. */
  datatype SchemaRef = SchemaRef(ref: string)

  /** The schema name of a `$ref`: "" for a nil or empty reference, else the
      last `/`-segment of the reference. */
  function GetSchemaName(schemaRef: Option<SchemaRef>): (r: string)
    ensures schemaRef.None? ==> r == ""
    ensures schemaRef.Some? ==> r == GetLastSegment(schemaRef.value.ref)
  {
    if schemaRef.None? || schemaRef.value.ref == "" then ""
    else
      var parts := Split(schemaRef.value.ref, '/');
      parts[|parts| - 1]
  }

  datatype ModuleError = GoModUnreadable | ModuleNameNotFound

  const ModulePrefix := "module "

  /** The scan of go.mod: the trimmed remainder of the first line that starts
      with `module `, or an error when no line does. */
  method GetModuleName(goMod: Option<seq<string>>) returns (r: Result<string, ModuleError>)
    ensures goMod.None? ==> r == Err(GoModUnreadable)
    ensures goMod.Some? ==>
      var lines := goMod.value;
      && (r.Err? <==> forall i :: 0 <= i < |lines| ==> !HasPrefix(lines[i], ModulePrefix))
      && (r.Err? ==> r.error == ModuleNameNotFound)
      && (r.Ok? ==> exists i ::
            && 0 <= i < |lines| && HasPrefix(lines[i], ModulePrefix)
            && (forall j :: 0 <= j < i ==> !HasPrefix(lines[j], ModulePrefix))
            && r.value == TrimSpace(lines[i][|ModulePrefix|..]))
  {
    if goMod.None? {
      return Err(GoModUnreadable);
    }
    var lines := goMod.value;
    var i := 0;
    while i < |lines|
      invariant 0 <= i <= |lines|
      invariant forall j :: 0 <= j < i ==> !HasPrefix(lines[j], ModulePrefix)
    {
      var line := lines[i];
      if HasPrefix(line, ModulePrefix) {
        return Ok(TrimSpace(TrimPrefix(line, ModulePrefix)));
      }
      i := i + 1;
    }
    return Err(ModuleNameNotFound);
  }

  /** The `docker` command of RunDockerCompose: `compose`, a `--env-file`
      pair per env file in order, `-f` and the compose file, then the extra
      arguments unchanged. */
  method RunDockerCompose(envFiles: seq<string>, composeFile: string, args: seq<string>) returns (cmd: Command)
    ensures cmd.name == "docker"
    ensures |cmd.args| == 3 + 2 * |envFiles| + |args|
    ensures cmd.args[0] == "compose"
    ensures forall i :: 0 <= i < |envFiles| ==>
      cmd.args[1 + 2 * i] == "--env-file" && cmd.args[2 + 2 * i] == envFiles[i]
    ensures cmd.args[1 + 2 * |envFiles|] == "-f" && cmd.args[2 + 2 * |envFiles|] == composeFile
    ensures cmd.args[3 + 2 * |envFiles|..] == args
  {
    var cmdArgs := ["compose"];
    var i := 0;
    while i < |envFiles|
      invariant 0 <= i <= |envFiles|
      invariant |cmdArgs| == 1 + 2 * i
      invariant cmdArgs[0] == "compose"
      invariant forall j :: 0 <= j < i ==>
        cmdArgs[1 + 2 * j] == "--env-file" && cmdArgs[2 + 2 * j] == envFiles[j]
    {
      cmdArgs := cmdArgs + ["--env-file", envFiles[i]];
      i := i + 1;
    }
    cmdArgs := cmdArgs + ["-f", composeFile];
    cmdArgs := cmdArgs + args;
    cmd := Command("docker", cmdArgs);
  }
}
