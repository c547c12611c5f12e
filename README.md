# protocInstall, modelled in Dafny

protocInstall is a small Go command-line tool. It brings the local Protocol
Buffers compiler (`protoc`) up to the stable release:

- on macOS it installs or upgrades through Homebrew;
- on Linux it first removes the distribution's packaged compiler, then
  installs the official GitHub release archive.

Its `utils` package also carries helpers used by sibling tools:

- a semantic-version bumper;
- a slug normaliser;
- go.mod, `$ref` and `docker compose` helpers;
- GitLab environment checks;
- a `docker ps` container check.

The model replaces every interaction with the machine by an oracle. Module
`Host` defines it:

- `Env` holds `GOOS`, `GOARCH`, the lines of `/etc/os-release` (or none,
  when it cannot be read), and two answer functions. One is for commands,
  the other for HTTP fetches.
- Each answer function receives the step's position in the run. A command
  can therefore fail before an install and succeed after it.
- Each effectful helper of `utils/version.go` is a function that returns an
  `Outcome`: its result plus the `Step`s it performed, in order.

Modules:

- `Wrappers`: `Option` and `Result`.
- `Text`: the Go `strings` functions the code relies on: `Split`, `Join`,
  `BeforeFirst` (the first piece of `SplitN(s, sep, 2)`), `Trim`,
  `TrimSpace`, `TrimPrefix`, `HasPrefix`, `Contains` and ASCII `ToLower`.
- `Host`: commands, steps, the oracle, `RunCommand`, `RunCommandWithOutput`
  and the HTTP GET.
- `Version` (`utils/version.go`):
  - `BumpVersion` over `Atoi` and `%d`;
  - `Slugify`;
  - the os-release scan (a loop, `ParseOsRelease`) and its classification;
  - the stable-version fetch and the release-tag trim;
  - the architecture table and download URL;
  - the archive install;
  - the distribution → package-command table.
- `Utils` (`utils/utils.go`): `GetLastSegment`, `GetSchemaName`, the go.mod
  scan `GetModuleName` (a loop with an early return) and the argument list
  of `RunDockerCompose` (a loop of appends).
- `Commands` (`utils/commands.go`): `CheckGitlabEnvVariables` over an
  environment map, and `IsContainerRunning` over the `docker ps` output.
- `Installer` (`main.go`): `devToolsInstall`.
  - `Reconcile` is the reference run: the error returned and every step
    taken.
  - `DevToolsInstall` and its per-platform parts are methods that perform
    the run step by step, with the Go code's early returns. They keep a
    ghost trace and are proved to produce exactly `Reconcile`.
  - The properties of the reconciliation are lemmas about `Reconcile`'s
    parts.

On Linux with `protoc` missing, the run never succeeds. The archive
install, the `export` step or the re-probe can each fail and end the run
with its own error (main.go:95-106). When all three succeed, the run still
fails. The re-probe's output is discarded, and the version is extracted
from the output of the failed first probe, which is empty. So the run ends
with "failed to parse local protoc version" (main.go:109-112).
`Installer.LinuxFreshInstallEndsInParseError` states both halves.

## Model

| member | source | states |
|---|---|---|
| Host.RunCommandWithOutput | utils/commands.go:33-45 | one `Exec` step; the output is returned exactly when the command succeeds, and a failure carries no output |
| Host.RunCommand | utils/commands.go:17-29 | one `Exec` step; success exactly when the command succeeds |
| Host.HttpGet | utils/version.go:107-122 | one `Get` step; the fetched field exactly when the fetch succeeds, otherwise an error naming the URL |
| Text.BeforeFirst | utils/version.go:61-62 | the result is the prefix before the first separator: it contains no separator and is followed by one unless it is the whole string |
| Text.Split | utils/version.go:65 | at least one piece, no piece contains the separator, and joining the pieces with it gives the input back |
| Text.SplitJoin | utils/commands.go:77 | splitting a join of separator-free pieces gives the pieces back |
| Text.SplitLast | utils/utils.go:150-152 | the last piece is a suffix of the input, preceded by the separator unless it is the whole input |
| Text.Trim | utils/version.go:48 | the result is the slice of the input left once the cut characters at both ends are dropped: everything before and after it is a cut character, and it neither starts nor ends with one |
| Text.TrimPrefix | utils/version.go:156 | removes exactly one copy of the prefix when present, otherwise changes nothing |
| Text.ToLower | utils/version.go:41 | same length, each character lower-cased, no upper-case ASCII letter remains |
| Version.Atoi | utils/version.go:70-83 | accepted iff the text is non-empty digits, or `+` or `-` followed by non-empty digits; the value is the decimal value, negated after `-`; without `-` it is non-negative |
| Version.NatToDigits | utils/version.go:100 | non-empty decimal digits with no leading zero |
| Version.Itoa | utils/version.go:100 | `%d`: a leading `-` exactly for negative numbers, then the digits of the magnitude without leading zeros |
| Version.Format | utils/version.go:100 | `%d.%d.%d`: splitting the text on `.` gives exactly the three numbers in decimal |
| Version.AtoiItoa | utils/version.go:100 | `Atoi` reads back what `%d` writes, for every integer |
| Version.ParseVersion | utils/version.go:61-83 | the core before the first `-` must split on `.` into exactly three parts, each accepted by `Atoi`; a wrong part count is an error naming the core; otherwise the first part `Atoi` rejects, checked major, minor, patch, is reported with its own error naming that part; the components are the parsed parts and are non-negative |
| Version.Bump | utils/version.go:86-98 | succeeds iff the kind is major, minor or patch; the result follows the input in precedence and has the lower components reset |
| Version.BumpIsNextRelease | utils/version.go:86-98 | the bumped version is the least later version whose lower components are zero (items 6-8 of Semantic Versioning 2.0.0) |
| Version.BumpVersion | utils/version.go:59-101 | succeeds iff the version parses and the kind is valid; parse errors come first, then the unknown kind; the output is the bumped triple formatted as `%d.%d.%d` |
| Version.BuildMetadataRejected | utils/version.go:61-83 | only a `-` suffix is cut off: `M.m.p+build` (with no `-`) does not parse, so it cannot be bumped |
| Version.FormatParses | utils/version.go:100 | a formatted triple parses back to itself, with or without a `-suffix` |
| Version.BumpIgnoresPreRelease | utils/version.go:61-62 | a version with a pre-release suffix bumps exactly as its core does |
| Version.BumpedVersionParses | utils/version.go:59-101 | a successful output is itself a valid input, and it parses to the bumped triple |
| Version.LeadingZerosAccepted | utils/version.go:70-100 | zero-padded components such as `01.02.03` are accepted and the output carries no leading zeros |
| Version.ReplaceInvalidRuns | utils/version.go:44-45 | every character of the result is in `[a-z0-9-]` |
| Version.ReplaceKeepsValidPrefix | utils/version.go:43-45 | characters in `[a-z0-9-]` pass through unchanged and in order |
| Version.ReplaceInvalidRun | utils/version.go:43-45 | a maximal run of characters outside `[a-z0-9-]` becomes exactly one `-` |
| Version.ReplaceAppend | utils/version.go:43-45 | the replacement of a string followed by one that starts inside `[a-z0-9-]` is the two replacements concatenated |
| Version.ReplaceJoinsWords | utils/version.go:43-45 | characters of the class around a run of other characters pass through; only the middle is replaced |
| Version.ReplaceKeepsAlnums | utils/version.go:43-45 | the replacement keeps every letter and digit, in order, and adds none |
| Version.TrimDashesKeepsAlnums | utils/version.go:47-48 | trimming dashes keeps every letter and digit, in order |
| Version.CollapseDashes | utils/version.go:51-52 | no `--` remains, and the first and last characters are kept |
| Version.CollapseDashRun | utils/version.go:50-52 | a maximal run of dashes at the start of the string becomes exactly one `-` |
| Version.CollapseKeepsNonDash | utils/version.go:50-52 | a character other than `-` passes through the collapse unchanged |
| Version.CollapseAppend | utils/version.go:50-52 | a string that does not end in `-` is collapsed independently of what follows it, so runs of dashes inside the string also become one `-` each |
| Version.CollapseJoinsWords | utils/version.go:50-52 | a run of dashes between two dash-free words becomes one `-` |
| Version.CollapseKeepsAlnums | utils/version.go:50-52 | collapsing dashes keeps every letter and digit, in order |
| Version.Slugify | utils/version.go:39-55 | the result uses only `[a-z0-9-]`, never starts or ends with `-`, never contains `--` |
| Version.SlugifyJoinsWords | utils/version.go:39-55 | two words of letters and digits joined by any run of dashes, blanks or punctuation become the two words joined by exactly one `-` |
| Version.SlugifyKeepsLettersAndDigits | utils/version.go:39-55 | the slug's letters and digits are, in order, exactly those of the lower-cased input; the slug is empty iff there are none |
| Version.SlugifyKeepsSlugs | utils/version.go:39-55 | a string that is already a slug is returned unchanged |
| Version.SlugifyIdempotent | utils/version.go:39-55 | slugifying twice is slugifying once |
| Version.TrimTag | utils/version.go:156 | whitespace is trimmed first, then at most one leading `v` is removed |
| Version.TrimTagOfRelease | utils/version.go:156 | `v` followed by a version without outer spaces gives that version |
| Version.ArchLabel | utils/version.go:163-170 | `amd64` → `x86_64`, `arm64` → `aarch_64`, anything else is an unsupported-architecture error |
| Version.DownloadUrlLayout | utils/version.go:162-172 | the URL is the releases prefix, then the version, then the version again before `-linux-`, then the architecture before `.zip` |
| Version.DownloadUrlIdentifiesRelease | utils/version.go:162-172 | two download URLs are equal only when their versions and architectures are |
| Version.LastValue | utils/version.go:196-206 | a non-empty value comes from some line starting with the key, with `"` trimmed |
| Version.LastMatchWins | utils/version.go:198-206 | the value for a key comes from the last line starting with it, with `"` trimmed at both ends |
| Version.NoMatchIsEmpty | utils/version.go:196-206 | a key that no line starts with has the empty value |
| Version.KeysExclusive | utils/version.go:200-206 | no line starts with two of `ID=`, `VERSION_ID=` and `ID_LIKE=` |
| Version.ParseOsRelease | utils/version.go:196-207 | the scanner loop ends with the last value of each of the three keys |
| Version.Classify | utils/version.go:211-220 | an empty ID is an error; otherwise the family is `suse` iff ID or ID_LIKE mentions suse in any case, else the lower-cased ID; VERSION_ID is passed through |
| Version.DetectLinuxDistribution | utils/version.go:189-221 | one read of the file; an unreadable file is an error; otherwise the classification of the last values |
| Version.MissingIdRejected | utils/version.go:211-213 | a file without an `ID=` line is rejected |
| Version.SuseInOpenSuseLeap | utils/version.go:216-217 | `opensuse-leap` counts as a SUSE variant |
| Version.GetStableProtocVersion | utils/version.go:103-158 | darwin fetches the Homebrew formula, linux the latest GitHub release with its tag trimmed, any other platform fails without fetching |
| Version.InstallProtoBufLinuxGithub | utils/version.go:160-187 | a bad architecture fails before any step; a failed curl stops the install; a failed unzip stops it before chmod; each failure reports its own command; once the download succeeded the archive is removed last |
| Version.RemovalFor | utils/version.go:224-263 | exactly ubuntu, debian, centos, fedora, rhel, suse and alpine have a removal entry; each removal runs under sudo, each check without it |
| Version.RemovePackageManagerProtobuf | utils/version.go:223-266 | an unknown family fails before any command; the removal runs only when the check succeeds; an absent package is not an error |
| Utils.GetLastSegment | utils/utils.go:149-156 | the result has no `/`, is a suffix of the input, and is preceded by `/` unless it is the whole input |
| Utils.TrailingSlashGivesEmpty | utils/utils.go:149-156 | an input ending in `/` gives `""` |
| Utils.NoSlashGivesWhole | utils/utils.go:149-156 | an input without `/` is returned whole |
| Utils.GetSchemaName | utils/utils.go:159-168 | a nil ref gives `""`; otherwise the last `/`-segment of the ref, which is `""` for an empty ref |
| Utils.GetModuleName | utils/utils.go:28-45 | an unreadable go.mod is an error; otherwise the trimmed rest of the first line starting with `module `, and an error iff there is none |
| Utils.RunDockerCompose | utils/utils.go:48-62 | `compose`, an `--env-file` pair per env file in order, `-f` and the compose file, then the arguments unchanged; length 3 + 2·files + arguments |
| Commands.CheckGitlabEnvVariables | utils/commands.go:48-65 | success iff GOPRIVATE is set and either PROJECT_GITLAB_TOKEN or both GITLAB_LOGIN and GITLAB_TOKEN are; without the project token the first missing of GITLAB_LOGIN, GITLAB_TOKEN, GOPRIVATE is reported |
| Commands.UnsetIsEmpty | utils/commands.go:49-60 | an unset variable and an empty one give the same verdict |
| Commands.IsContainerRunning | utils/commands.go:68-85 | a failed `docker ps` is an error; otherwise true iff the name equals one line of the trimmed output |
| Commands.RunningIffListed | utils/commands.go:77-84 | for a listing of single-line names, the check is true iff the name is one of them, not merely a substring |
| Commands.RunningIffListedWithNewline | utils/commands.go:77-84 | the same for the listing as `docker ps` prints it, with a newline after the last name |
| Commands.EmptyOutputMatchesOnlyEmptyName | utils/commands.go:77-82 | with blank output only the empty name matches |
| Commands.MultiLineNameNeverFound | utils/commands.go:77-82 | a name containing a newline is never found |
| Installer.DigitRun | main.go:40 | the run of digits is maximal: all digits, followed by the end or a non-digit |
| Installer.FirstMatch | main.go:40 | the leftmost position where `\d+\.\d+` matches, or none when it matches nowhere |
| Installer.FindVersion | main.go:40 | the result is empty iff `\d+\.\d+` matches nowhere |
| Installer.MatchIsToken | main.go:40 | a match is digits, a dot, digits |
| Installer.FoundIsToken | main.go:109 | the extracted version is digits, a dot, digits, cut from the output at the leftmost match |
| Installer.FoundIsWhole | main.go:109 | no digit touches the extracted version on either side: both digit runs are taken whole |
| Installer.LeadingTokenFound | main.go:109 | both digit runs are taken whole: `123.45.6` gives `123.45` |
| Installer.Reconcile | main.go:17-131 | darwin starts with the probe, linux with reading os-release; the unsupported-platform error arises exactly on any other platform, with no step taken |
| Installer.DarwinFlow | main.go:23-38 | the darwin run starts with the probe and never reports an unsupported platform |
| Installer.LinuxFlow | main.go:60-88 | the linux run starts by reading os-release and never reports an unsupported platform |
| Installer.DarwinCompare | main.go:40-59 | the darwin comparison only adds steps after those already taken |
| Installer.LinuxProbeAndUpdate | main.go:90-107 | the first step after detection, removal and fetch is the probe |
| Installer.LinuxCompare | main.go:109-123 | the linux comparison only adds steps after those already taken |
| Installer.DevToolsInstall | main.go:17-131 | the step-by-step run returns the same error and takes the same steps as the reference run |
| Installer.InstallOnDarwin | main.go:23-59 | the darwin branch, with its early returns, equals the reference darwin run |
| Installer.CompareOnDarwin | main.go:40-59 | the darwin comparison performed step by step equals the reference one |
| Installer.InstallOnLinux | main.go:60-88 | detection through the scanner loop, removal and fetch, performed step by step, equal the reference linux run |
| Installer.ProbeAndUpdateOnLinux | main.go:90-107 | the probe and the fresh-install branch performed step by step equal the reference |
| Installer.CompareOnLinux | main.go:109-123 | the linux comparison performed step by step equals the reference one |
| Installer.DarwinComparesFirstProbe | main.go:27-40 | when the first probe succeeds, nothing is installed and its output is the one compared |
| Installer.LinuxComparesFirstProbe | main.go:91-109 | when the probe succeeds, nothing is installed and its output goes straight to the comparison |
| Installer.DarwinInstallsWhenProbeFails | main.go:27-38 | a failed probe is followed by one brew install and one re-probe; either failing aborts with its error; the re-probe's output is the one compared |
| Installer.DarwinReinstallsIffMismatch | main.go:43-58 | brew runs again iff the stable version was fetched and differs as a string from the local one; a failed fetch aborts; a failed reinstall ends the run with the install error right after the brew step; a successful reinstall is followed by a verifying probe whose failure is the only error left |
| Installer.DarwinEmptyLocalReinstalls | main.go:40-53 | an empty local version counts as a mismatch with a non-empty stable one |
| Installer.LinuxStepOrder | main.go:66-91 | read os-release, remove the packaged compiler, fetch the release, probe; a failed detection, removal or fetch ends the whole run right there with its own error; after a successful fetch the probe comes next and the rest is the probe-and-update run on the trimmed tag |
| Installer.LinuxFlowEarlyExits | main.go:60-88 | a failed detection, removal or fetch ends the linux run right there, with its error |
| Installer.LinuxFlowReachesProbe | main.go:60-90 | after detection, removal and fetch succeed, the rest of the run is the probe-and-update run with the trimmed tag |
| Installer.LinuxFlowProbesNext | main.go:60-91 | after detection, removal and fetch succeed, the probe is the next step |
| Installer.LinuxFreshInstallEndsInParseError | main.go:91-112 | after a failed probe the run never succeeds; when install, `export` and re-probe work it ends with a parse error on the empty output |
| Installer.LinuxComparePolicy | main.go:110-123 | an empty local version is an error; an equal one ends the run; a different one triggers exactly one archive install and no probe after it |
| Installer.ArchiveInstallNeverProbes | utils/version.go:160-187 | the archive install never runs `protoc --version` |

## Left out

- Process execution, HTTP requests, JSON decoding and file reads are not
  modelled: they are answers of the oracle `Host.Env`. A failed JSON decode
  or body read shows up as a failed fetch.
- Error message texts, `%w` wrapping and all `log` output are not modelled.
  Errors are datatypes that name their cause.
- `RunCommand`'s streaming of stdout and stderr to the terminal is not
  modelled. `RunDockerCompose` is modelled up to the command it builds; the
  run itself is an oracle answer.
- `GetVersion` is not modelled: it reads the build information of the
  running binary.
- `GenerateUniquePort` and `isPortInUse` are not modelled: they draw random
  numbers, open TCP sockets and loop without bound.
- `GetFieldPackageMapFromFile` is not modelled: it depends on Go's own
  parser and AST, which this model does not include.
- `RunDockerComposeOneService`, `StopDockerComposeOneService`, `IsAlpine`
  and `GetGitBranchName` are not modelled. They only run processes, and the
  first also merges `os.Environ`, whose order is not determined.
- Text.ToLower: lower-cases ASCII letters only, where `strings.ToLower`
  maps all of Unicode.
- Version.BumpVersion and Version.BumpedVersionParses: do not model the
  64-bit wrap-around of `major++`, `minor++` and `patch++`. In Go, a major
  bump of `9223372036854775807.0.0` gives `-9223372036854775808.0.0`, which
  BumpVersion itself then rejects. The model counts with unbounded integers,
  so the bumped triple is always the next release.
- Version.Atoi: does not model the 64-bit range of `strconv.Atoi`. Huge
  components are accepted with their unbounded value, where Go reports a
  range error.
- Version.ParseOsRelease and Utils.GetModuleName: do not model the
  scanner's 64 KiB token limit or read errors. The file arrives as a
  sequence of lines or as unreadable.
- The `export PATH=…` step (main.go:98) is run as a program, as the code
  does. `export` is a shell builtin, so on a real machine starting it as a
  program normally fails, and the run then stops with "failed to add protoc
  to path". The model leaves that answer to the oracle like any other
  command.
- Host.Env: the answers are fixed per step position. State the real machine
  carries from one run to the next is not modelled.
- The cobra command and arguments that `CheckGitlabEnvVariables` receives
  are not modelled: it does not use them.
