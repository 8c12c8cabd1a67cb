/**
 * The main flow of clone-and-install.js after its preflight checks: the prompt
 * that repeats until the selection is non-empty, the loop that reconciles the
 * selected entries in order and puts each into one of the `ok`, `fail` and
 * `skip` buckets, the single `pnpm i`, and the exit status.
 */
module Orchestrator {
  import opened Wrappers
  import opened Text
  import opened Reconciler
  import opened SelectionParser

  /** The three result lists of `main`, each in processing order. */
  datatype Buckets = Buckets(ok: seq<Repo>, fail: seq<Repo>, skip: seq<Repo>) {

    /** `results[status].push(repo)`. */
    function Add(s: Status, r: Repo): (b: Buckets)
      ensures b.ok == (if s == Ok then ok + [r] else ok)
      ensures b.fail == (if s == Fail then fail + [r] else fail)
      ensures b.skip == (if s == Skip then skip + [r] else skip)
      ensures b.Size() == Size() + 1
    {
      match s
      case Ok => this.(ok := ok + [r])
      case Fail => this.(fail := fail + [r])
      case Skip => this.(skip := skip + [r])
    }

    /** Adding an entry adds it, once, to the entries held. */
    lemma AddHolds(s: Status, r: Repo)
      ensures Add(s, r).Holds() == Holds() + multiset{r}
    {
      var b := Add(s, r);
      match s
      case Ok => assert multiset(b.ok) == multiset(ok) + multiset{r};
      case Fail => assert multiset(b.fail) == multiset(fail) + multiset{r};
      case Skip => assert multiset(b.skip) == multiset(skip) + multiset{r};
    }

    function Size(): nat {
      |ok| + |fail| + |skip|
    }

    /** The entries held, in any bucket. */
    function Holds(): multiset<Repo> {
      multiset(ok) + multiset(fail) + multiset(skip)
    }

    /** Each bucket of `this` is a prefix of the same bucket of `other`. */
    predicate PrefixOf(other: Buckets) {
      ok <= other.ok && fail <= other.fail && skip <= other.skip
    }
  }

  const NoResults := Buckets([], [], [])

  /** The state of `main`'s loop: the buckets, the commands issued so far, and whether an exception escaped. */
  datatype Progress = Progress(buckets: Buckets, trace: seq<Command>, crashed: bool)

  /** Every selected index names a catalogue entry, as `normalizeSelection` guarantees. */
  predicate Selectable(repos: seq<Repo>, indices: seq<nat>) {
    forall k :: 0 <= k < |indices| ==> indices[k] < |repos|
  }

  /** The entries in the order they are processed. */
  function Selected(repos: seq<Repo>, indices: seq<nat>): seq<Repo>
    requires Selectable(repos, indices)
  {
    seq(|indices|, k requires 0 <= k < |indices| && Selectable(repos, indices) => repos[indices[k]])
  }

  /**
   * The outcome of each processed entry, from the probe the environment gives
   * for it: one probe per entry, in processing order. Each outcome issued one
   * `git` command unless it was skipped, and only a `cloneOrPull` entry whose
   * `mkdir` or `readdir` fails throws.
   */
  function Outcomes(entries: seq<Repo>, world: seq<Probe>): (r: seq<EntryResult>)
    requires |world| == |entries|
    ensures |r| == |entries|
    ensures forall k :: 0 <= k < |entries| ==> IssuesGit(r[k])
    ensures forall k :: 0 <= k < |entries| ==>
              (r[k].Crashed? <==>
                 entries[k].action != RemoteSetUrlAction && world[k].state in {Absent(false), NotADirectory})
  {
    seq(|entries|, k requires 0 <= k < |entries| && |world| == |entries| => ReconcileEntry(entries[k], world[k]))
  }

  /** One entry's effect on the loop state: its bucket and its commands, or the end of the run. */
  function Record(prog: Progress, repo: Repo, res: EntryResult): (p: Progress)
    requires !prog.crashed
  {
    match res
    case Crashed => prog.(crashed := true)
    case Done(st, cmds) => Progress(prog.buckets.Add(st, repo), prog.trace + cmds, false)
  }

  /** The loop state after the first `n` entries (or after the one that threw). */
  function Process(entries: seq<Repo>, outcomes: seq<EntryResult>, n: nat): Progress
    requires |outcomes| == |entries| && n <= |entries|
  {
    if n == 0 then Progress(NoResults, [], false)
    else
      var prev := Process(entries, outcomes, n - 1);
      if prev.crashed then prev else Record(prev, entries[n - 1], outcomes[n - 1])
  }

  /**
   * Without an escaped exception every processed entry is in exactly one
   * bucket: the buckets together hold the processed entries, each once.
   */
  lemma {:induction false} ProcessPartitions(entries: seq<Repo>, outcomes: seq<EntryResult>, n: nat)
    requires |outcomes| == |entries| && n <= |entries|
    ensures var p := Process(entries, outcomes, n);
            !p.crashed ==> p.buckets.Size() == n && p.buckets.Holds() == multiset(entries[..n])
    ensures Process(entries, outcomes, n).crashed ==> Process(entries, outcomes, n).buckets.Size() < n
  {
    if n > 0 {
      ProcessPartitions(entries, outcomes, n - 1);
      var prev := Process(entries, outcomes, n - 1);
      if !prev.crashed && outcomes[n - 1].Done? {
        var b := prev.buckets.Add(outcomes[n - 1].status, entries[n - 1]);
        prev.buckets.AddHolds(outcomes[n - 1].status, entries[n - 1]);
        assert Process(entries, outcomes, n).buckets == b;
        PrefixGrows(entries, n);
      }
    }
  }

  /** Taking one more element adds exactly that element to the multiset taken. */
  lemma PrefixGrows<T>(s: seq<T>, n: nat)
    requires 0 < n <= |s|
    ensures multiset(s[..n]) == multiset(s[..n - 1]) + multiset{s[n - 1]}
  {
    assert s[..n] == s[..n - 1] + [s[n - 1]];
  }

  /** The first `n` entries whose outcome has status `s`, in processing order. */
  function WithStatus(entries: seq<Repo>, outcomes: seq<EntryResult>, n: nat, s: Status): seq<Repo>
    requires |outcomes| == |entries| && n <= |entries|
  {
    if n == 0 then []
    else
      WithStatus(entries, outcomes, n - 1, s)
      + (if outcomes[n - 1].Done? && outcomes[n - 1].status == s then [entries[n - 1]] else [])
  }

  /**
   * Without an escaped exception each bucket holds exactly the processed
   * entries of its status, in processing order.
   */
  lemma {:induction false} ProcessBuckets(entries: seq<Repo>, outcomes: seq<EntryResult>, n: nat)
    requires |outcomes| == |entries| && n <= |entries|
    ensures var p := Process(entries, outcomes, n);
            !p.crashed ==>
              p.buckets.ok == WithStatus(entries, outcomes, n, Ok)
              && p.buckets.fail == WithStatus(entries, outcomes, n, Fail)
              && p.buckets.skip == WithStatus(entries, outcomes, n, Skip)
  {
    if n > 0 {
      ProcessBuckets(entries, outcomes, n - 1);
    }
  }

  /**
   * The run is aborted exactly when some processed entry threw; before that
   * point every entry was reconciled.
   */
  lemma {:induction false} ProcessCrash(entries: seq<Repo>, outcomes: seq<EntryResult>, n: nat)
    requires |outcomes| == |entries| && n <= |entries|
    ensures Process(entries, outcomes, n).crashed <==> exists k :: 0 <= k < n && outcomes[k].Crashed?
  {
    if n > 0 {
      ProcessCrash(entries, outcomes, n - 1);
      if !Process(entries, outcomes, n - 1).crashed && outcomes[n - 1].Crashed? {
        assert Process(entries, outcomes, n).crashed;
      }
    }
  }

  /**
   * Entries are processed in order: what the first `n` entries put into the
   * buckets and the trace stays, in the same order, at the front of what the
   * first `m` put there.
   */
  lemma {:induction false} ProcessPrefix(entries: seq<Repo>, outcomes: seq<EntryResult>, n: nat, m: nat)
    requires |outcomes| == |entries| && n <= m <= |entries|
    ensures var p, q := Process(entries, outcomes, n), Process(entries, outcomes, m);
            p.buckets.PrefixOf(q.buckets) && p.trace <= q.trace && (p.crashed ==> q == p)
  {
    if n < m {
      ProcessPrefix(entries, outcomes, n, m - 1);
      var p, q := Process(entries, outcomes, n), Process(entries, outcomes, m - 1);
      if !q.crashed && outcomes[m - 1].Done? {
        var b := q.buckets.Add(outcomes[m - 1].status, entries[m - 1]);
        assert q.buckets.PrefixOf(b);
        assert p.buckets.PrefixOf(b);
      }
    }
  }

  /**
   * The `k`-th entry, once processed without an exception, is the last element
   * of the bucket its status names, and its commands end the trace.
   */
  lemma EntryLandsInItsBucket(entries: seq<Repo>, outcomes: seq<EntryResult>, k: nat)
    requires |outcomes| == |entries| && k < |entries|
    requires !Process(entries, outcomes, k + 1).crashed
    ensures outcomes[k].Done?
    ensures var p := Process(entries, outcomes, k + 1);
            var b := p.buckets;
            (outcomes[k].status == Ok ==> b.ok != [] && b.ok[|b.ok| - 1] == entries[k])
            && (outcomes[k].status == Fail ==> b.fail != [] && b.fail[|b.fail| - 1] == entries[k])
            && (outcomes[k].status == Skip ==> b.skip != [] && b.skip[|b.skip| - 1] == entries[k])
            && p.trace[|p.trace| - |outcomes[k].commands|..] == outcomes[k].commands
  {
  }

  /** An entry that was reconciled issued exactly one `git` command, unless it was skipped. */
  predicate IssuesGit(res: EntryResult) {
    res.Done? ==>
      |res.commands| == (if res.status == Skip then 0 else 1)
      && forall c :: c in res.commands ==> c.program == "git"
  }

  /** Every command of the loop is a `git` command, and exactly the `ok` and `fail` entries issued one. */
  lemma {:induction false} ProcessTrace(entries: seq<Repo>, outcomes: seq<EntryResult>, n: nat)
    requires |outcomes| == |entries| && n <= |entries|
    requires forall k :: 0 <= k < |outcomes| ==> IssuesGit(outcomes[k])
    ensures var p := Process(entries, outcomes, n);
            |p.trace| == |p.buckets.ok| + |p.buckets.fail|
            && forall c :: c in p.trace ==> c.program == "git"
  {
    if n > 0 {
      ProcessTrace(entries, outcomes, n - 1);
      var prev := Process(entries, outcomes, n - 1);
      var res := outcomes[n - 1];
      assert IssuesGit(res);
      if !prev.crashed && res.Done? {
        assert forall c :: c in prev.trace + res.commands ==> c in prev.trace || c in res.commands;
      }
    }
  }

  /**
   * The loop of `main`: for each selected index in order, reconcile the entry
   * (by `remoteSetUrl` or `cloneOrPull` according to its action) and push it
   * into the bucket of its status. An exception leaves the loop at once.
   */
  method RunEntries(repos: seq<Repo>, indices: seq<nat>, world: seq<Probe>) returns (prog: Progress)
    requires Selectable(repos, indices) && |world| == |indices|
    ensures var entries := Selected(repos, indices);
            prog == Process(entries, Outcomes(entries, world), |indices|)
  {
    ghost var entries := Selected(repos, indices);
    ghost var outcomes := Outcomes(entries, world);
    var results := NoResults;
    var trace: seq<Command> := [];
    for i := 0 to |indices|
      invariant Process(entries, outcomes, i) == Progress(results, trace, false)
    {
      var r := repos[indices[i]];
      var res := ReconcileEntry(r, world[i]);
      assert res == outcomes[i];
      if res.Crashed? {
        ProcessPrefix(entries, outcomes, i + 1, |indices|);
        return Progress(results, trace, true);
      }
      results := results.Add(res.status, r);
      trace := trace + res.commands;
    }
    prog := Progress(results, trace, false);
  }

  /** `process.exit(results.fail.length > 0 ? 1 : 0)`, or 1 from the fatal handler. */
  function ExitStatus(p: Progress): (code: int)
    ensures code == 0 || code == 1
    ensures code == 1 <==> p.crashed || p.buckets.fail != []
  {
    if p.crashed then 1 else if |p.buckets.fail| > 0 then 1 else 0
  }

  /** What a run produces: the buckets, every command issued in order, and the exit status. */
  datatype RunReport = RunReport(buckets: Buckets, trace: seq<Command>, exitStatus: int)

  /**
   * The selected entries are reconciled, then `pnpm i` runs once whatever
   * their outcomes; its own exit code is only reported and does not change the
   * exit status, which is 1 exactly when an entry failed or an exception escaped.
   */
  method Execute(repos: seq<Repo>, indices: seq<nat>, world: seq<Probe>, installExit: Option<int>)
    returns (report: RunReport)
    requires Selectable(repos, indices) && |world| == |indices|
    ensures var entries := Selected(repos, indices);
            var p := Process(entries, Outcomes(entries, world), |indices|);
            report.buckets == p.buckets
            && report.trace == (if p.crashed then p.trace else p.trace + [Command("pnpm", ["i"])])
            && (report.exitStatus == 1 <==> p.crashed || p.buckets.fail != [])
            && (report.exitStatus == 0 || report.exitStatus == 1)
  {
    var prog := RunEntries(repos, indices, world);
    if prog.crashed {
      return RunReport(prog.buckets, prog.trace, 1);
    }
    var trace := prog.trace + [Command("pnpm", ["i"])];
    // A non-zero exit code of `pnpm i` is only reported.
    report := RunReport(prog.buckets, trace, ExitStatus(prog));
  }

  /** An answer the prompt does not accept: once trimmed, it selects nothing. */
  predicate Rejected(answer: string, max: int) {
    Selection(Trim(answer), max) == []
  }

  /**
   * The prompt loop: ask again while the selection is empty. `answers` are the
   * lines the operator types, in order; each is trimmed before it is parsed.
   * The first `rejected` answers select nothing; the selection is that of the
   * next one, or `None` when every line is rejected.
   */
  method PromptSelection(answers: seq<string>, max: int) returns (selection: Option<seq<nat>>, rejected: nat)
    ensures rejected <= |answers|
    ensures forall j :: 0 <= j < rejected ==> Rejected(answers[j], max)
    ensures selection.Some? ==>
              rejected < |answers| && selection.value == Selection(Trim(answers[rejected]), max)
              && selection.value != []
    ensures selection.None? ==> rejected == |answers|
  {
    rejected := 0;
    while rejected < |answers|
      invariant rejected <= |answers|
      invariant forall j :: 0 <= j < rejected ==> Rejected(answers[j], max)
    {
      var indices := NormalizeSelection(Trim(answers[rejected]), max);
      if indices != [] {
        return Some(indices), rejected;
      }
      rejected := rejected + 1;
    }
    selection := None;
  }
}
