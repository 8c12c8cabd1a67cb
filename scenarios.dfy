/**
 * Worked examples of the model, matching the behaviour the script shows its
 * operator: the selection prompt's parsing and a two-entry run.
 */
module Scenarios {
  import opened Wrappers
  import opened Text
  import opened SelectionParser
  import opened Reconciler
  import opened Orchestrator

  /** An empty answer selects nothing, so the prompt asks again. */
  lemma EmptyAnswerSelectsNothing(max: int)
    ensures Selection("", max) == []
  {
    assert Split("", '|') == [""];
    assert Pieces("") == [];
  }

  /** `"abc|2|"` with five entries selects the second entry only. */
  lemma LettersAndTrailingBarDropped()
    ensures Selection("abc|2|", 5) == [1]
  {
    var parts := ["abc", "2", ""];
    assert parts[1..][1..] == [""];
    assert Join(parts[1..], '|') == "2|";
    assert Join(parts, '|') == "abc|2|";
    TrimPlain("abc");
    TrimPlain("2");
    TrimPlain("");
    PiecesOfJoin(parts);
    assert KeepNonEmpty(parts[2..]) == [];
    assert KeepNonEmpty(parts) == ["abc", "2"];
    assert !IsDigits("abc") by { assert !IsDigit("abc"[0]); }
    assert DecimalValue("2") == 2 by { assert "2"[..0] == ""; }
    assert TokenIndex("2", 5) == Index(1);
    assert Candidates(["abc", "2"], 2, 5) == [1];
    assert Dedup([1]) == [1] by { assert [1][..0] == []; }
  }

  /** The values of the one-digit pieces used below. */
  lemma DigitPieces()
    ensures TokenIndex("1", 5) == Index(0)
    ensures TokenIndex("3", 5) == Index(2)
    ensures TokenIndex("9", 5) == Dropped
  {
    assert "1"[..0] == "" && "3"[..0] == "" && "9"[..0] == "";
  }

  lemma JoinOfDigits()
    ensures Join(["3", "1", "3", "9"], '|') == "3|1|3|9"
  {
    var parts := ["3", "1", "3", "9"];
    assert parts[1..] == ["1", "3", "9"] && parts[1..][1..] == ["3", "9"] && parts[1..][1..][1..] == ["9"];
    assert Join(["9"], '|') == "9";
    assert Join(["3", "9"], '|') == "3|9";
    assert Join(["1", "3", "9"], '|') == "1|3|9";
  }

  lemma PiecesOfDigits()
    ensures Pieces("3|1|3|9") == ["3", "1", "3", "9"]
  {
    var parts := ["3", "1", "3", "9"];
    JoinOfDigits();
    TrimPlain("1");
    TrimPlain("3");
    TrimPlain("9");
    PiecesOfJoin(parts);
    KeepNonEmptyAll(parts);
  }

  lemma CandidatesOfDigits()
    ensures Candidates(["3", "1", "3", "9"], 4, 5) == [2, 0, 2]
  {
    var parts := ["3", "1", "3", "9"];
    DigitPieces();
    assert Candidates(parts, 1, 5) == [2];
    assert Candidates(parts, 2, 5) == [2, 0];
    assert Candidates(parts, 3, 5) == [2, 0, 2];
  }

  lemma DedupOfDigits()
    ensures Dedup([2, 0, 2]) == [2, 0]
  {
    DedupStep([], 2);
    DedupStep([2], 0);
    DedupStep([2, 0], 2);
    assert [2, 0, 2] == [2, 0] + [2] && [2, 0] == [2] + [0] && [2] == [] + [2];
  }

  /** `"3|1|3|9"` with five entries: the repeat and the out-of-range 9 are dropped. */
  lemma RepeatsAndOutOfRangeDropped()
    ensures Selection("3|1|3|9", 5) == [2, 0]
  {
    PiecesOfDigits();
    CandidatesOfDigits();
    DedupOfDigits();
  }

  /**
   * Two entries: an existing repository that pulls cleanly, then a missing one
   * whose clone exits with 128. The first lands in `ok`, the second in `fail`,
   * one `git` command is issued for each, and the run exits with status 1.
   */
  lemma PullSucceedsThenCloneFails(a: Repo, b: Repo, absA: string, absB: string)
    requires a.action != RemoteSetUrlAction && b.action != RemoteSetUrlAction
    ensures var entries := [a, b];
            var world := [Probe(absA, GitRepo, Some(0)), Probe(absB, Absent(true), Some(128))];
            var p := Process(entries, Outcomes(entries, world), 2);
            !p.crashed && p.buckets == Buckets([a], [b], [])
            && p.trace == [Command("git", PullArgs(absA)), Command("git", CloneArgs(b, absB))]
            && ExitStatus(p) == 1
  {
    var entries := [a, b];
    var world := [Probe(absA, GitRepo, Some(0)), Probe(absB, Absent(true), Some(128))];
    var outcomes := Outcomes(entries, world);
    assert outcomes[0] == Done(Ok, [Command("git", PullArgs(absA))]);
    assert outcomes[1] == Done(Fail, [Command("git", CloneArgs(b, absB))]);
    var first := Progress(Buckets([a], [], []), [Command("git", PullArgs(absA))], false);
    assert Process(entries, outcomes, 1) == first;
    assert NoResults.Add(Ok, a) == Buckets([a], [], []);
    assert first.buckets.Add(Fail, b) == Buckets([a], [b], []);
    assert Process(entries, outcomes, 2) == Record(first, b, outcomes[1]);
  }

  /**
   * A first entry whose target path is a plain file aborts the run: the second
   * entry is never reconciled, nothing is recorded, and the exit status is 1.
   */
  lemma FileTargetAbortsRun(a: Repo, b: Repo, absA: string, probeB: Probe)
    requires a.action != RemoteSetUrlAction
    ensures var entries := [a, b];
            var p := Process(entries, Outcomes(entries, [Probe(absA, NotADirectory, None), probeB]), 2);
            p.crashed && p.buckets == NoResults && p.trace == [] && ExitStatus(p) == 1
  {
    var entries := [a, b];
    var outcomes := Outcomes(entries, [Probe(absA, NotADirectory, None), probeB]);
    assert outcomes[0] == Crashed;
    assert Process(entries, outcomes, 1) == Progress(NoResults, [], true);
  }

  /** A shallow clone of a named branch: `clone -b build --depth 1 <url> <abs>`. */
  lemma ShallowBranchClone(url: string, abs: string)
    ensures CloneArgs(Repo("YePanel", url, "plugins/YePanel", 1, "build", "", ""), abs)
            == ["clone", "-b", "build", "--depth", "1", url, abs]
  {
    assert NatToDecimal(1) == "1";
  }

  /** Without branch and depth the clone is `clone <url> <abs>`; a depth of 0 or below adds nothing. */
  lemma PlainClone(url: string, abs: string, depth: int)
    requires depth <= 0
    ensures CloneArgs(Repo("ark-plugin", url, "plugins/ark-plugin", depth, "", "", ""), abs)
            == ["clone", url, abs]
  {
  }
}
