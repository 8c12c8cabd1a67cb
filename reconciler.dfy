/**
 * The per-entry reconciler of clone-and-install.js: `cloneOrPull`,
 * `remoteSetUrl` and the exit-code rule of `runCmd`. The filesystem probes are
 * replaced by the `TargetState` they observe, and the external command by the
 * argument vector handed to `git` together with the exit code it reports.
 */
module Reconciler {
  import opened Wrappers
  import opened Text

  /**
   * One catalogue entry. The source's optional fields are modelled by their
   * JavaScript falsy value: `depth == 0`, `branch == ""`, `action == ""` and
   * `remote == ""` stand for an absent field.
   */
  datatype Repo = Repo(
    name: string,
    url: string,
    target: string,
    depth: int,
    branch: string,
    action: string,
    remote: string)

  /**
   * What the filesystem probes find at the target path. `Absent(false)` is a
   * missing target whose parent directory cannot be created (`mkdir` throws);
   * `NotADirectory` is an existing target that is not a directory (`readdir`
   * throws).
   */
  datatype TargetState =
    | Absent(parentCreatable: bool)
    | GitRepo
    | NonGitNonEmptyDir
    | NonGitEmptyDir
    | NotADirectory

  /** The `status` of a result, and so the bucket it goes to. */
  datatype Status = Ok | Fail | Skip

  /** One external command: a program and its argument vector. */
  datatype Command = Command(program: string, args: seq<string>)

  /** What the reconciler decides before any command runs. */
  datatype Plan =
    | Invoke(args: seq<string>)   // run `git` with these arguments
    | SkipEntry                   // run nothing; the entry is skipped
    | Throw                       // a filesystem call throws; the run aborts

  /** What the environment reports for one entry: its absolute path, its state, the exit code `git` closes with. */
  datatype Probe = Probe(abs: string, state: TargetState, exit: Option<int>)

  /** The outcome of reconciling one entry: a status and the commands issued, or an uncaught exception. */
  datatype EntryResult = Done(status: Status, commands: seq<Command>) | Crashed

  const RemoteSetUrlAction := "remoteSetUrl"
  const DefaultRemote := "origin"

  /** `code ?? 1` in `runCmd`: a child that closes without an exit code counts as exit code 1. */
  function ExitCode(code: Option<int>): (c: int)
    ensures c == 0 <==> code == Some(0)
    ensures code.Some? ==> c == code.value
    ensures code.None? ==> c == 1
  {
    code.GetOr(1)
  }

  /** `code === 0 ? 'ok' : 'fail'`. */
  function StatusOf(code: int): (s: Status)
    ensures s != Skip
  {
    if code == 0 then Ok else Fail
  }

  /** The entry succeeds exactly when the child reported exit code 0; a missing code is a failure. */
  lemma ExitCodeStatus(code: Option<int>)
    ensures StatusOf(ExitCode(code)) == Ok <==> code == Some(0)
    ensures code.None? ==> ExitCode(code) == 1 && StatusOf(ExitCode(code)) == Fail
  {
  }

  /**
   * The arguments of the clone command: `clone`, then `-b <branch>` when a branch
   * is set, then `--depth <depth>` when the depth is positive, then the url and
   * the absolute target path.
   */
  function CloneArgs(repo: Repo, abs: string): (args: seq<string>)
    ensures |args| == 3 + (if repo.branch != "" then 2 else 0) + (if repo.depth > 0 then 2 else 0)
    ensures args[0] == "clone" && args[|args| - 2..] == [repo.url, abs]
    ensures repo.branch != "" ==> args[1..3] == ["-b", repo.branch]
    ensures repo.depth > 0 ==> args[|args| - 4..|args| - 2] == ["--depth", NatToDecimal(repo.depth)]
  {
    ["clone"]
    + (if repo.branch != "" then ["-b", repo.branch] else [])
    + (if repo.depth > 0 then ["--depth", NatToDecimal(repo.depth)] else [])
    + [repo.url, abs]
  }

  /** The `cloneArgs.push(...)` sequence, one push at a time. */
  method BuildCloneArgs(repo: Repo, abs: string) returns (cloneArgs: seq<string>)
    ensures cloneArgs == CloneArgs(repo, abs)
  {
    cloneArgs := ["clone"];
    if repo.branch != "" {
      cloneArgs := cloneArgs + ["-b", repo.branch];
    }
    // `repo.depth && Number(repo.depth) > 0`: for an integer the truthiness
    // test is `depth != 0`, kept here as the source writes it.
    if repo.depth != 0 && repo.depth > 0 {
      cloneArgs := cloneArgs + ["--depth", NatToDecimal(repo.depth)];
    }
    cloneArgs := cloneArgs + [repo.url, abs];
  }

  /** `git -C <abs> pull --ff-only`. */
  function PullArgs(abs: string): (args: seq<string>)
    ensures IsPull(args) && args[1] == abs
    ensures !IsClone(args) && !IsSetUrl(args)
  {
    ["-C", abs, "pull", "--ff-only"]
  }

  /** `git -C <abs> remote set-url <remote> <url>`. */
  function SetUrlArgs(abs: string, remote: string, url: string): (args: seq<string>)
    ensures IsSetUrl(args) && args[1] == abs && args[4] == remote && args[5] == url
    ensures !IsClone(args) && !IsPull(args)
  {
    ["-C", abs, "remote", "set-url", remote, url]
  }

  predicate IsClone(args: seq<string>) {
    |args| > 0 && args[0] == "clone"
  }

  predicate IsPull(args: seq<string>) {
    |args| == 4 && args[0] == "-C" && args[2] == "pull" && args[3] == "--ff-only"
  }

  predicate IsSetUrl(args: seq<string>) {
    |args| == 6 && args[0] == "-C" && args[2] == "remote" && args[3] == "set-url"
  }

  /** `repo.remote || 'origin'`. */
  function RemoteName(repo: Repo): (r: string)
    ensures r != ""
    ensures repo.remote != "" ==> r == repo.remote
    ensures repo.remote == "" ==> r == DefaultRemote
  {
    if repo.remote != "" then repo.remote else DefaultRemote
  }

  /**
   * The decision of `cloneOrPull`: clone into a missing target or an empty
   * non-git directory, fast-forward pull an existing git repository, skip a
   * non-empty non-git directory.
   */
  function CloneOrPullPlan(repo: Repo, abs: string, state: TargetState): (p: Plan)
    ensures (p.Invoke? && IsClone(p.args)) <==> state in {Absent(true), NonGitEmptyDir}
    ensures p.Invoke? && IsClone(p.args) ==> p.args == CloneArgs(repo, abs)
    ensures (p.Invoke? && IsPull(p.args)) <==> state == GitRepo
    ensures p.Invoke? && IsPull(p.args) ==> p.args == PullArgs(abs)
    ensures p.Invoke? ==> IsClone(p.args) || IsPull(p.args)
    ensures p == SkipEntry <==> state == NonGitNonEmptyDir
    ensures p == Throw <==> state in {Absent(false), NotADirectory}
  {
    match state
    case Absent(parentCreatable) =>
      if parentCreatable then Invoke(CloneArgs(repo, abs)) else Throw
    case GitRepo => Invoke(PullArgs(abs))
    case NonGitNonEmptyDir => SkipEntry
    case NonGitEmptyDir => Invoke(CloneArgs(repo, abs))
    case NotADirectory => Throw
  }

  /**
   * The decision of `remoteSetUrl`: rewrite the remote of an existing git
   * repository; skip anything else. It never clones and never throws.
   */
  function RemoteSetUrlPlan(repo: Repo, abs: string, state: TargetState): (p: Plan)
    ensures p != Throw
    ensures p.Invoke? <==> state == GitRepo
    ensures p.Invoke? ==> p.args == SetUrlArgs(abs, RemoteName(repo), repo.url) && IsSetUrl(p.args)
  {
    if state.Absent? then SkipEntry
    else if state != GitRepo then SkipEntry
    else Invoke(SetUrlArgs(abs, RemoteName(repo), repo.url))
  }

  /** Running the plan: one `git` command whose exit code decides `ok` or `fail`, or no command at all. */
  function Settle(plan: Plan, exit: Option<int>): (r: EntryResult)
    ensures r.Crashed? <==> plan == Throw
    ensures r.Done? && plan.Invoke? ==>
              r.commands == [Command("git", plan.args)] && (r.status == Ok <==> exit == Some(0))
    ensures r.Done? && !plan.Invoke? ==> r == Done(Skip, [])
  {
    match plan
    case Invoke(args) =>
      ExitCodeStatus(exit);
      Done(StatusOf(ExitCode(exit)), [Command("git", args)])
    case SkipEntry => Done(Skip, [])
    case Throw => Crashed
  }

  /**
   * One iteration of the main loop for one entry: `remoteSetUrl` when the action
   * is `'remoteSetUrl'`, `cloneOrPull` otherwise. At most one command is issued;
   * none exactly when the entry is skipped (or the run aborts); the entry is `ok`
   * exactly when that command exits with 0.
   */
  function ReconcileEntry(repo: Repo, probe: Probe): (r: EntryResult)
    ensures r.Done? ==> |r.commands| <= 1 && (r.commands == [] <==> r.status == Skip)
    ensures r.Done? && r.commands != [] ==>
              r.commands[0].program == "git" && (r.status == Ok <==> probe.exit == Some(0))
    ensures r.Done? && r.commands != [] ==>
              (IsSetUrl(r.commands[0].args) <==> repo.action == RemoteSetUrlAction)
    ensures r.Crashed? <==>
              repo.action != RemoteSetUrlAction && probe.state in {Absent(false), NotADirectory}
  {
    var plan :=
      if repo.action == RemoteSetUrlAction then RemoteSetUrlPlan(repo, probe.abs, probe.state)
      else CloneOrPullPlan(repo, probe.abs, probe.state);
    Settle(plan, probe.exit)
  }
}
