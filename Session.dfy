/**
 * `main` (lines 113-119): read the feature branches, build the commit list,
 * then cherry-pick it. The branch answer is the operator's raw line, which
 * `promptUser` trims before line 115 splits it.
 */
module Session {
  import opened Wrappers
  import opened Text
  import opened Shell
  import Sorting
  import CommitList
  import CherryPick

  /** Lines 114-115: the trimmed answer split at commas, each piece trimmed. */
  function Branches(answer: string): seq<string> {
    CommitList.BranchList(Trim(answer))
  }

  /**
   * The branch list has one trimmed entry per comma of the operator's raw
   * answer, plus one: trimming the whole answer first removes no comma.
   */
  lemma BranchesCount(answer: string)
    ensures |Branches(answer)| == multiset(answer)[','] + 1
    ensures forall k :: 0 <= k < |Branches(answer)| ==> IsTrimmed(Branches(answer)[k])
  {
    TrimSpec(answer);
    var i := |answer| - |TrimStart(answer)|;
    var r := Trim(answer);
    assert answer == answer[..i] + r + answer[i + |r|..];
    NoCommaInSpace(answer[..i]);
    NoCommaInSpace(answer[i + |r|..]);
  }

  lemma NoCommaInSpace(w: string)
    requires AllSpace(w)
    ensures multiset(w)[','] == 0
  {
    assert !IsSpace(',');
    assert forall k :: 0 <= k < |w| ==> w[k] != ',';
  }

  /** No branch's `git log` gave any output, so the commit-list file is never created. */
  predicate NothingCollected(branches: seq<string>, log: string -> Option<string>) {
    forall k :: 0 <= k < |branches| ==> !Truthy(CommitList.BranchOutput(log, branches[k]))
  }

  /**
   * What a session does: with nothing collected, reading the missing file
   * throws before any pick; otherwise the driver runs over the sorted list.
   */
  function Expected(answer: string, log: string -> Option<string>, date: string -> int, o: CherryPick.Oracle): CherryPick.Run {
    var branches := Branches(answer);
    if NothingCollected(branches, log) then CherryPick.Run([], CherryPick.Crashed)
    else CherryPick.Drive(CommitList.SortedCommits(branches, log, date), 0, o, 0, 0)
  }

  /** Lines 113-119. */
  method InteractiveCherryPick(answer: string, log: string -> Option<string>, date: string -> int, o: CherryPick.Oracle)
    returns (trace: seq<CherryPick.Event>, outcome: CherryPick.Outcome)
    ensures CherryPick.Run(trace, outcome) == Expected(answer, log, date, o)
    ensures NothingCollected(Branches(answer), log) ==> trace == [] && outcome == CherryPick.Crashed
  {
    var featureBranches := CommitList.BranchList(Trim(answer));
    var commitsFile := CommitList.GetCommitList(featureBranches, log, date);
    if commitsFile.None? {
      return [], CherryPick.Crashed;
    }
    trace, outcome := CherryPick.CherryPickCommits(commitsFile.value, o);
  }

  /**
   * The commits are picked oldest first: the `n`-th pick of a session is the
   * hash of the `n`-th line of the date-sorted list of collected log lines,
   * and a session that completes picks every line of that list.
   */
  lemma PicksOldestFirst(answer: string, log: string -> Option<string>, date: string -> int, o: CherryPick.Oracle)
    requires !NothingCollected(Branches(answer), log)
    ensures var commits := CommitList.SortedCommits(Branches(answer), log, date);
      var r := Expected(answer, log, date, o); var p := CherryPick.Picked(r.events);
      && Sorting.SortedBy(commits, CommitList.CommitKey(date))
      && multiset(commits) == multiset(CommitList.ContributedLines(Branches(answer), log))
      && |p| <= |commits|
      && (forall n :: 0 <= n < |p| ==> p[n] == CommitList.CommitHash(commits[n]))
      && (r.outcome == CherryPick.Completed ==> |p| == |commits|)
  {
    var commits := CommitList.SortedCommits(Branches(answer), log, date);
    CherryPick.DrivePicks(commits, 0, o, 0, 0);
    assert commits[0..] == commits;
    CherryPick.HashesIndex(commits);
  }
}
