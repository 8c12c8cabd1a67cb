# clone-and-install.js, modelled in Dafny

`clone-and-install.js` is an interactive Node.js script that sets up a
workspace from a built-in catalogue of git repositories. The operator types
1-based catalogue numbers separated by `|`. The script parses them into a list
of distinct 0-based indices in first-appearance order, and asks again while
that list is empty. It then reconciles each selected entry in order:

- a missing target, or an empty directory that is not a git repository, is
  cloned (`git clone [-b <branch>] [--depth <n>] <url> <abs>`);
- an existing git repository is fast-forward pulled
  (`git -C <abs> pull --ff-only`);
- a non-empty directory that is not a git repository is skipped, with no
  command run;
- an entry whose action is `remoteSetUrl` instead has its remote rewritten
  (`git -C <abs> remote set-url <remote> <url>`) when it is a git repository,
  and is skipped otherwise.

Each entry lands in one of the buckets `ok`, `fail` or `skip`. It is `ok`
exactly when its command exits with 0, and a child that closes without an
exit code counts as 1. After the loop, `pnpm i` runs once, and its result does
not affect the exit status. The process exits with 1 when the `fail` bucket is
non-empty and with 0 otherwise. An exception escaping the loop goes to the
top-level handler, which exits with 1.

Modules:

- `Wrappers` (`wrappers.dfy`): `Option`.
- `Text` (`text.dfy`): the JavaScript string operations the core relies on.
  These are `split` with a one-character separator, `trim` with ECMAScript's
  whitespace set, the `/^\d+$/` test, `Number` on a digit string, and
  `String` on a natural number.
- `SelectionParser` (`selection.dfy`): `normalizeSelection`. It has a
  specification function `Selection`, the imperative loop
  (`NormalizeSelection`, `SelectPieces`, with the `seen` set and the `result`
  list), and lemmas about the specification.
- `Reconciler` (`reconciler.dfy`): `cloneOrPull`, `remoteSetUrl`, the
  push-by-push construction of the clone arguments, and the `code ?? 1` rule
  of `runCmd`. Filesystem probes become a `TargetState` value. Running `git`
  becomes the argument vector plus the exit code that the environment
  reports, which sits in a `Probe`.
- `Orchestrator` (`orchestrator.dfy`): the main loop (`RunEntries`, proved
  against the specification function `Process`), the `pnpm i` step and the
  exit status (`Execute`), and the re-prompt loop (`PromptSelection`).
- `Scenarios` (`scenarios.dfy`): concrete inputs worked through the model.

The code defines two `TargetState` values that a coarser reading would not
need. `Absent(false)` is a missing target whose parent directory cannot be
created, so `mkdir` throws. `NotADirectory` is a target that exists but is not
a directory, so `readdir` throws. In `cloneOrPull` both of these throw. The
exception leaves the main loop, skips `pnpm i`, and ends the run with exit
status 1. In `remoteSetUrl` a non-directory target is simply not a git
repository, so it is skipped. The model follows the code here: an exception is
not a per-entry failure and does abort the remaining entries.

## Model

| member | source | states |
|---|---|---|
| Text.Split | clone-and-install.js:82 | `split('\|')` yields at least one part and no part contains the separator |
| Text.JoinSplit | clone-and-install.js:82 | joining the parts of a split with the separator gives back the input |
| Text.SplitJoin | clone-and-install.js:82 | splitting a join of separator-free parts gives back those parts |
| Text.TrimIsSlice | clone-and-install.js:82 | `trim()` returns a slice of its input with only ECMAScript whitespace around it; the slice neither starts nor ends with whitespace; it is empty exactly when the input is all whitespace |
| Text.TrimStartDropsWhitespace | clone-and-install.js:82 | the leading part that is dropped is all whitespace, and what remains is a suffix of the input |
| Text.TrimEndDropsWhitespace | clone-and-install.js:82 | the trailing part that is dropped is all whitespace, and what remains is a prefix of the input |
| Text.TrimIdempotent | clone-and-install.js:82 | trimming twice equals trimming once |
| Text.TrimPlain | clone-and-install.js:82 | a string with no whitespace at either end is its own trim |
| Text.Trim | clone-and-install.js:82 | `s.trim()`: strip leading then trailing ECMAScript whitespace; pinned down by `TrimIsSlice` |
| Text.NatToDecimal | clone-and-install.js:103 | for a depth below 2^53, `String(depth)` is a digit string without a leading zero that reads back as `depth` |
| Text.IsDigits | clone-and-install.js:86 | `/^\d+$/.test(p)`: at least one character, all of them ASCII digits |
| Text.DecimalValue | clone-and-install.js:87 | `Number(p)` on a digit string: its value in base ten; `NatToDecimal` reads back through it |
| SelectionParser.Pieces | clone-and-install.js:82 | `input.split('\|').map(trim).filter(Boolean)`; described by `PiecesClean` and `PiecesOfJoin` |
| SelectionParser.Dedup | clone-and-install.js:89 | first occurrences only, in input order; described by `DedupMembers`, `DedupDistinct` and `DedupFirstOccurrenceOrder` |
| SelectionParser.Selection | clone-and-install.js:80-92 | the value of `normalizeSelection(input, max)`; described by `SelectionMembers` and `SelectionDistinctAndOrdered` |
| SelectionParser.TrimAll | clone-and-install.js:82 | `.map((s) => s.trim())`; described by `TrimAllAt` |
| SelectionParser.KeepNonEmpty | clone-and-install.js:82 | `.filter(Boolean)`; described by `KeepNonEmptyMembers` and `KeepNonEmptyAll` |
| SelectionParser.SelectFrom | clone-and-install.js:83-91 | the list the loop builds from the pieces; `SelectPieces` is proved equal to it, and `SelectFromInRange` bounds it |
| SelectionParser.OneBased | clone-and-install.js:83-89 | the `seen` set as a function of `result` (each index plus one); described by `OneBasedStep` |
| SelectionParser.TokenIndex | clone-and-install.js:86-88 | a piece is accepted exactly when it is a digit string whose value lies in `[1, max]`; it then denotes that value minus one, which is below `max` |
| SelectionParser.Candidates | clone-and-install.js:85-88 | every accepted index is below `max` |
| SelectionParser.CandidatesMembers | clone-and-install.js:85-88 | a number is a candidate exactly when one of the pieces looked at denotes it |
| SelectionParser.DedupMembers | clone-and-install.js:89 | keeping only first occurrences loses and adds no element |
| SelectionParser.DedupDistinct | clone-and-install.js:89 | keeping only first occurrences leaves no element twice |
| SelectionParser.DedupFirstOccurrenceOrder | clone-and-install.js:89 | kept elements are ordered by their first occurrence in the input |
| SelectionParser.DedupStep | clone-and-install.js:89 | one more element is kept exactly when it has not been kept before |
| SelectionParser.SelectFromInRange | clone-and-install.js:88-89 | every selected index lies in `[0, max)` |
| SelectionParser.SelectionMembers | clone-and-install.js:80-92 | index `x` is selected exactly when `x < max` and some trimmed non-empty piece is a digit string of value `x + 1`; so empty, non-digit and out-of-range pieces contribute nothing |
| SelectionParser.SelectionDistinctAndOrdered | clone-and-install.js:83-91 | the selection has no duplicates and lists indices in the order of their first accepted occurrence |
| SelectionParser.TrimAllAt | clone-and-install.js:82 | `map(trim)` keeps the length and trims each part in place |
| SelectionParser.KeepNonEmptyMembers | clone-and-install.js:82 | `filter(Boolean)` keeps exactly the non-empty strings |
| SelectionParser.TrimKeepsOut | clone-and-install.js:82 | trimming adds no character, so no `\|` appears in a trimmed part |
| SelectionParser.PiecesClean | clone-and-install.js:82 | every piece the loop sees is non-empty, has no `\|`, and has no whitespace at either end |
| SelectionParser.TrimAllTrimmed | clone-and-install.js:82 | trimming strings that are already trimmed changes nothing |
| SelectionParser.PiecesOfJoin | clone-and-install.js:82 | an input joined from trimmed, `\|`-free parts yields those parts less the empty ones |
| SelectionParser.OneBasedStep | clone-and-install.js:89 | `seen` holds `idx` exactly when `result` holds `idx - 1`, and both grow together |
| SelectionParser.NormalizeSelection | clone-and-install.js:80-92 | the result equals the specification `Selection`, every index is below `max`, and no index appears twice |
| SelectionParser.SelectPieces | clone-and-install.js:83-91 | the loop with its `seen` set and `result` list computes the specification `SelectFrom`, within bounds and without duplicates |
| SelectionParser.TakePiece | clone-and-install.js:86-89 | one loop iteration: skipping a non-digit or out-of-range piece, or adding a new index to both `seen` and `result`, keeps `result` equal to the deduplicated candidates of the pieces seen so far and `seen` equal to its one-based image |
| SelectionParser.CandidatesDropped | clone-and-install.js:86-88 | a piece that fails the digit test or lies outside `[1, max]` adds no candidate |
| SelectionParser.CandidatesAccepted | clone-and-install.js:86-89 | a digit piece whose value lies in `[1, max]` adds exactly the candidate `value - 1` |
| SelectionParser.KeepNonEmptyAll | clone-and-install.js:82 | `filter(Boolean)` leaves a list of non-empty strings unchanged |
| Reconciler.StatusOf | clone-and-install.js:106 | a command's status is `ok` or `fail`, never `skip` |
| Reconciler.ExitCodeStatus | clone-and-install.js:62 | an entry is `ok` exactly when the child reports exit code 0; a missing exit code counts as 1, which is `fail` |
| Reconciler.ExitCode | clone-and-install.js:62 | `code ?? 1`: a reported exit code is kept, a missing one becomes 1, so the result is 0 exactly when the child reported 0 |
| Reconciler.CloneArgs | clone-and-install.js:101-104 | the arguments are `clone`, then `-b <branch>` when a branch is set, then `--depth <depth>` when the depth is positive, then the url and the absolute path; the length counts exactly these parts |
| Reconciler.BuildCloneArgs | clone-and-install.js:101-104 | the push-by-push construction yields exactly `CloneArgs` |
| Reconciler.PullArgs | clone-and-install.js:111 | `-C <abs> pull --ff-only`, a pull on the target that is neither a clone nor a set-url |
| Reconciler.SetUrlArgs | clone-and-install.js:144 | `-C <abs> remote set-url <remote> <url>` with the given target, remote and url, neither a clone nor a pull |
| Reconciler.RemoteName | clone-and-install.js:142 | the remote is the configured one, or `origin` when none is set; never empty |
| Reconciler.CloneOrPullPlan | clone-and-install.js:94-129 | a clone happens exactly for a missing target with a creatable parent or an empty non-git directory, with exactly `CloneArgs`; a pull happens exactly for a git repository, with `-C abs pull --ff-only` and never a clone; a skip happens exactly for a non-empty non-git directory; a throw happens exactly when `mkdir` or `readdir` fails |
| Reconciler.RemoteSetUrlPlan | clone-and-install.js:131-146 | it never throws; it issues a command exactly for a git repository, and that command is `-C abs remote set-url <remote> <url>`; anything else is skipped |
| Reconciler.Settle | clone-and-install.js:105-106 | a planned command is issued once as `git`, with status `ok` exactly on exit code 0; a skip issues nothing; a throw crashes |
| Reconciler.ReconcileEntry | clone-and-install.js:201 | at most one `git` command is issued, and none exactly when the entry is skipped; the entry is `ok` exactly on exit code 0; a set-url command is issued only for the `remoteSetUrl` action; the entry crashes exactly when it uses `cloneOrPull` and `mkdir` or `readdir` fails |
| Orchestrator.Buckets.Add | clone-and-install.js:202 | the entry is appended to the bucket its status names, and the other two buckets are unchanged |
| Orchestrator.Buckets.AddHolds | clone-and-install.js:202 | pushing adds the entry once to the contents of the buckets |
| Orchestrator.Outcomes | clone-and-install.js:199-201 | every reconciled entry issued exactly one `git` command unless it was skipped; an entry throws exactly when its action is not `remoteSetUrl` and its `mkdir` or `readdir` fails |
| Orchestrator.ProcessPartitions | clone-and-install.js:198-203 | without an exception the bucket sizes add up to the number of processed entries, and the buckets together hold exactly those entries, each once; after an exception fewer are recorded |
| Orchestrator.ProcessBuckets | clone-and-install.js:198-203 | without an exception each bucket is exactly the list of processed entries whose status it names, in processing order |
| Orchestrator.WithStatus | clone-and-install.js:202 | the processed entries of one status, in processing order: the reference list each bucket is proved equal to |
| Orchestrator.Record | clone-and-install.js:201-202 | one entry either ends the run by throwing, or is pushed into its bucket with its commands appended to the trace |
| Orchestrator.Process | clone-and-install.js:198-203 | the loop state after the first `n` entries, stopping at the first throw; its properties are the `Process` lemmas below |
| Orchestrator.ProcessCrash | clone-and-install.js:199-203 | the run aborts exactly when some processed entry throws |
| Orchestrator.ProcessPrefix | clone-and-install.js:199-203 | entries are processed in order: each bucket and the command trace only grow at the end, and nothing changes after an exception |
| Orchestrator.EntryLandsInItsBucket | clone-and-install.js:201-202 | a processed entry is the last element of the bucket its status names, and its commands end the trace |
| Orchestrator.ProcessTrace | clone-and-install.js:199-203 | every command of the loop is a `git` command, and there are as many as `ok` and `fail` entries together |
| Orchestrator.RunEntries | clone-and-install.js:198-203 | the loop over the selected indices, with its early exit on an exception, computes the specification `Process` |
| Orchestrator.ExitStatus | clone-and-install.js:219-222 | the exit status is 0 or 1, and it is 1 exactly when an exception escaped or the `fail` bucket is non-empty |
| Orchestrator.Execute | clone-and-install.js:198-222 | the buckets are those of `Process`; `pnpm i` is issued once after the loop unless an exception escaped; the exit status is 1 exactly when an exception escaped or an entry failed, whatever `pnpm i` returned |
| Orchestrator.PromptSelection | clone-and-install.js:186-191 | every answer before the accepted one selects nothing once trimmed; the accepted answer's selection is non-empty and equals `Selection` of the trimmed answer; when the answers run out, all of them were rejected |
| Scenarios.EmptyAnswerSelectsNothing | clone-and-install.js:80-92 | an empty answer selects nothing |
| Scenarios.LettersAndTrailingBarDropped | clone-and-install.js:80-92 | `"abc\|2\|"` with 5 entries selects `[1]` |
| Scenarios.RepeatsAndOutOfRangeDropped | clone-and-install.js:80-92 | `"3\|1\|3\|9"` with 5 entries selects `[2, 0]` |
| Scenarios.PullSucceedsThenCloneFails | clone-and-install.js:198-219 | a clean pull then a failing clone gives `ok = [a]`, `fail = [b]`, two `git` commands and exit status 1 |
| Scenarios.FileTargetAbortsRun | clone-and-install.js:116 | a first target that is a plain file aborts the run with nothing recorded and exit status 1 |
| Scenarios.ShallowBranchClone | clone-and-install.js:101-104 | branch `build` with depth 1 clones with `clone -b build --depth 1 <url> <abs>` |
| Scenarios.PlainClone | clone-and-install.js:101-104 | with no branch and a depth of 0 or below, the clone is `clone <url> <abs>` |

## Left out

- `checkNode` and `checkDeps` (lines 148-169): they probe the Node.js version and the installed tools before anything else happens.
- The empty-catalogue check (lines 176-179): the catalogue is a fixed non-empty constant, and the model takes it as an arbitrary sequence.
- The catalogue's contents (lines 26-48): `Repo` is a datatype, and the catalogue is any sequence of repos.
- Reading lines from the terminal (`ask`): the operator's answers are a parameter of `PromptSelection`. When the answers run out, the model returns `None`. While the terminal stays open, the script waits. Once its input ends, the pending question is never answered, and the script exits with status 0 without reconciling anything or running `pnpm i`.
- The y/n confirmation (lines 195-196), including `toLowerCase`: a cancelled run starts no reconciliation.
- The catalogue listing, progress messages, the summary printout and the fatal-error message: these are console output only.
- `path.join`, `path.dirname` and `process.cwd()`: the absolute path is an opaque string inside each entry's `Probe`.
- The filesystem calls (`access`, `mkdir`, `readdir`): they are replaced by the `TargetState` they observe. Errors other than a failing `mkdir` or `readdir` are not modelled.
- `spawn` details: inherited stdio, `shell` on Windows, and a child that fails to start. A command is its argument vector plus the exit code that the environment reports.
- `Number(p)` on digit strings: it is modelled as exact natural-number arithmetic. A double can only round values above 2^53, and those lie above any catalogue size whatever the rounding.
- Reconciler.CloneArgs: `depth` is taken as an integer below 2^53, where JavaScript's `String` prints exactly its decimal digits. A fractional or non-numeric `depth`, a `depth` of 2^53 or more (which `String` prints rounded or in exponent form), and a non-string `branch` are not modelled.
- Text.NatToDecimal: it is `String(n)` for an integer `n` below 2^53 only. From 2^53 on, JavaScript prints the shortest digits that read back as the same double, padded with zeros, and from 10^21 on it uses exponent form (`1e+21`). The contract states the exact digits of the unbounded `n`, which can differ there.
- Orchestrator.Execute: the exit code of `pnpm i` is only reported. The model drops the error message, which is why `installExit` appears in no postcondition.
