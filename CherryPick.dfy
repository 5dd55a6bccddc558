/**
 * `cherryPickCommits` (lines 66-111): the driver that picks every commit of
 * the list in order and, on a conflict, waits for the operator. The git
 * commands and the operator are oracles; the model records the trace of
 * commands and prompts the driver issues.
 */
module CherryPick {
  import opened Wrappers
  import opened Text
  import opened Shell
  import CommitList

  /** What the driver does that the outside world sees. */
  datatype Event =
    | Pick(hash: string)  // `git cherry-pick --no-commit <hash>` (line 74)
    | Status              // `git status` (lines 81 and 91)
    | Prompt              // the question of line 96
    | Abort               // `git cherry-pick --abort` (line 102)

  /** How a run of the driver ends. */
  datatype Outcome =
    | Completed       // the loop over the commits ran to its end
    | Aborted         // the operator answered `abort` (line 103)
    | Crashed         // `git status` gave `null` inside the conflict loop, so line 92 throws
    | AwaitingAnswer  // the operator has not answered a pending prompt

  /**
   * The scripted world: the raw output of the n-th pick, of the n-th
   * `git status`, and the operator's answers in order (each read as one line).
   */
  datatype Oracle = Oracle(pick: nat -> Option<string>, status: nat -> Option<string>, answers: seq<string>)

  const UnmergedPaths: string := "Unmerged paths"

  /** Line 82: a status output that exists and reports unmerged paths. */
  predicate Conflicted(status: Option<string>) {
    status.Some? && Contains(status.value, UnmergedPaths)
  }

  /** A status is conflicted exactly when it exists and "Unmerged paths" occurs in it at some position. */
  lemma ConflictedAt(status: Option<string>)
    ensures Conflicted(status) <==> status.Some? && exists i :: OccursAt(status.value, UnmergedPaths, i)
  {
    if status.Some? {
      ContainsAt(status.value, UnmergedPaths);
    }
  }

  /** An answer (trimmed as `promptUser` does) that is neither `''` nor `'abort'`. */
  predicate Retry(answer: string) {
    Trim(answer) != "" && Trim(answer) != "abort"
  }

  /** How one conflict loop (lines 85-106) ends. */
  datatype LoopExit =
    | Clean         // the status no longer reports unmerged paths (line 93)
    | Acknowledged  // the operator answered `''` (line 99)
    | Cancelled     // the operator answered `abort` (lines 100-103)
    | StatusFailed  // `git status` gave `null` (line 92 throws)
    | NoAnswer      // the operator's answers ran out at a prompt

  /** The events of a conflict loop and the oracle positions it leaves behind. */
  datatype LoopRun = LoopRun(events: seq<Event>, statusCalls: nat, answersUsed: nat, exit: LoopExit)

  function Extend(prefix: seq<Event>, r: LoopRun): LoopRun {
    LoopRun(prefix + r.events, r.statusCalls, r.answersUsed, r.exit)
  }

  /** The conflict loop, from the `s`-th status call and the `a`-th answer on. */
  function ConflictLoop(o: Oracle, s: nat, a: nat): (r: LoopRun)
    requires a <= |o.answers|
    ensures s < r.statusCalls && a <= r.answersUsed <= |o.answers|
    decreases |o.answers| - a
  {
    var status := RunCommand(o.status(s));
    if status.None? then LoopRun([Status], s + 1, a, StatusFailed)
    else if !Contains(status.value, UnmergedPaths) then LoopRun([Status], s + 1, a, Clean)
    else if a == |o.answers| then LoopRun([Status, Prompt], s + 1, a, NoAnswer)
    else
      var input := Trim(o.answers[a]);
      if input == "" then LoopRun([Status, Prompt], s + 1, a + 1, Acknowledged)
      else if input == "abort" then LoopRun([Status, Prompt, Abort], s + 1, a + 1, Cancelled)
      else
        var rest := ConflictLoop(o, s + 1, a + 1);
        LoopRun([Status, Prompt] + rest.events, rest.statusCalls, rest.answersUsed, rest.exit)
  }

  /** `n` rounds of checking the status, finding a conflict and asking again. */
  function Rounds(n: nat): seq<Event> {
    if n == 0 then [] else [Status, Prompt] + Rounds(n - 1)
  }

  /** The events of the last round of a conflict loop. */
  function Ending(exit: LoopExit): seq<Event> {
    match exit
    case Clean => [Status]
    case StatusFailed => [Status]
    case Acknowledged => [Status, Prompt]
    case NoAnswer => [Status, Prompt]
    case Cancelled => [Status, Prompt, Abort]
  }

  /** The number of answers that sent the loop round again. */
  function Retries(r: LoopRun, a: nat): int {
    r.answersUsed - a - (if r.exit == Acknowledged || r.exit == Cancelled then 1 else 0)
  }

  /** `r` is `n` rounds of status and prompt, then the last round, with one status call per round. */
  predicate Shaped(r: LoopRun, s: nat, a: nat) {
    var n := Retries(r, a);
    0 <= n && s + n + 1 == r.statusCalls && r.events == Rounds(n) + Ending(r.exit)
  }

  /**
   * The conflict loop goes round `n` times and then has one last round: its
   * trace is `n` rounds of status and prompt followed by the last round's events.
   */
  lemma {:induction false} ConflictLoopRounds(o: Oracle, s: nat, a: nat)
    requires a <= |o.answers|
    ensures Shaped(ConflictLoop(o, s, a), s, a)
    decreases |o.answers| - a
  {
    if Conflicted(RunCommand(o.status(s))) && a < |o.answers| && Retry(o.answers[a]) {
      ConflictLoopRounds(o, s + 1, a + 1);
      RoundStep(o, s, a);
    } else {
      LastRound(o, s, a);
    }
  }

  /** A round that goes round again adds one round in front of the rest of the loop. */
  lemma RoundStep(o: Oracle, s: nat, a: nat)
    requires a < |o.answers|
    requires Conflicted(RunCommand(o.status(s))) && Retry(o.answers[a])
    requires Shaped(ConflictLoop(o, s + 1, a + 1), s + 1, a + 1)
    ensures Shaped(ConflictLoop(o, s, a), s, a)
  {
    var rest := ConflictLoop(o, s + 1, a + 1);
    RetryAsksAgain(o, s, a);
    var r := Extend([Status, Prompt], rest);
    var m := Retries(rest, a + 1);
    assert Retries(r, a) == m + 1;
    assert r.events == Rounds(m + 1) + Ending(r.exit) by {
      assert Rounds(m + 1) == [Status, Prompt] + Rounds(m);
      assert r.events == [Status, Prompt] + (Rounds(m) + Ending(rest.exit));
    }
    assert Shaped(r, s, a);
  }

  /** A round that does not go round again is the loop's last one. */
  lemma LastRound(o: Oracle, s: nat, a: nat)
    requires a <= |o.answers|
    requires !(Conflicted(RunCommand(o.status(s))) && a < |o.answers| && Retry(o.answers[a]))
    ensures Shaped(ConflictLoop(o, s, a), s, a) && Retries(ConflictLoop(o, s, a), a) == 0
  {
    var r := ConflictLoop(o, s, a);
    assert Rounds(0) == [];
    assert Rounds(0) + Ending(r.exit) == Ending(r.exit);
  }

  /**
   * Each of those `n` rounds read a status that reported unmerged paths and
   * got an answer other than `''` and `'abort'`.
   */
  lemma {:induction false} ConflictLoopRetries(o: Oracle, s: nat, a: nat)
    requires a <= |o.answers|
    ensures var r := ConflictLoop(o, s, a); var n := Retries(r, a);
      && (forall j :: a <= j < a + n ==> Retry(o.answers[j]))
      && (forall j :: s <= j < s + n ==> Conflicted(RunCommand(o.status(j))))
    decreases |o.answers| - a
  {
    var r := ConflictLoop(o, s, a);
    if Conflicted(RunCommand(o.status(s))) && a < |o.answers| && Retry(o.answers[a]) {
      var rest := ConflictLoop(o, s + 1, a + 1);
      assert r == Extend([Status, Prompt], rest);
      ConflictLoopRetries(o, s + 1, a + 1);
      assert Retries(r, a) == Retries(rest, a + 1) + 1;
    } else {
      assert Retries(r, a) == 0;
    }
  }

  /**
   * The last round of the conflict loop ends it in one of five ways, decided
   * by the status it reads and the answer it gets: a clean status, `''`,
   * `'abort'` (the only way out that issues the abort command), a `null`
   * status, or no answer at all.
   */
  lemma {:induction false} ConflictLoopExit(o: Oracle, s: nat, a: nat)
    requires a <= |o.answers|
    ensures ExitDecided(o, ConflictLoop(o, s, a), s, a)
    decreases |o.answers| - a
  {
    if Conflicted(RunCommand(o.status(s))) && a < |o.answers| && Retry(o.answers[a]) {
      ConflictLoopExit(o, s + 1, a + 1);
      ExitStep(o, s, a);
    } else {
      LastExit(o, s, a);
    }
  }

  /** In the last round, the status read and the answer given decide the exit directly. */
  lemma LastExit(o: Oracle, s: nat, a: nat)
    requires a <= |o.answers|
    requires !(Conflicted(RunCommand(o.status(s))) && a < |o.answers| && Retry(o.answers[a]))
    ensures ExitDecided(o, ConflictLoop(o, s, a), s, a)
  {
    var r := ConflictLoop(o, s, a);
    assert Retries(r, a) == 0 by {
      LastRound(o, s, a);
    }
    assert s + Retries(r, a) == s && a + Retries(r, a) == a;
  }

  /** A round that asks again leaves the decision to the rest of the loop. */
  lemma ExitStep(o: Oracle, s: nat, a: nat)
    requires a < |o.answers|
    requires Conflicted(RunCommand(o.status(s))) && Retry(o.answers[a])
    requires ExitDecided(o, ConflictLoop(o, s + 1, a + 1), s + 1, a + 1)
    ensures ExitDecided(o, ConflictLoop(o, s, a), s, a)
  {
    var rest := ConflictLoop(o, s + 1, a + 1);
    RetryAsksAgain(o, s, a);
    var r := Extend([Status, Prompt], rest);
    assert Retries(r, a) == Retries(rest, a + 1) + 1;
    assert s + Retries(r, a) == (s + 1) + Retries(rest, a + 1);
    assert a + Retries(r, a) == (a + 1) + Retries(rest, a + 1);
  }

  /** How the loop `r`, started at status call `s` and answer `a`, ended is decided by its last status and answer. */
  predicate ExitDecided(o: Oracle, r: LoopRun, s: nat, a: nat) {
    var n := Retries(r, a);
    0 <= n &&
    var last := RunCommand(o.status(s + n));
    && (r.exit == StatusFailed <==> last.None?)
    && (r.exit == Clean <==> last.Some? && !Conflicted(last))
    && (r.exit == NoAnswer <==> Conflicted(last) && a + n == |o.answers|)
    && (r.exit == Acknowledged <==> Conflicted(last) && 0 <= a + n < |o.answers| && Trim(o.answers[a + n]) == "")
    && (r.exit == Cancelled <==> Conflicted(last) && 0 <= a + n < |o.answers| && Trim(o.answers[a + n]) == "abort")
  }

  /**
   * The loop asks the operator at all exactly when its first status check
   * reports unmerged paths; a clean or failed first check ends it silently.
   */
  lemma LoopPrompts(o: Oracle, s: nat, a: nat)
    requires a <= |o.answers|
    ensures Prompt in ConflictLoop(o, s, a).events <==> Conflicted(RunCommand(o.status(s)))
  {
    var r := ConflictLoop(o, s, a);
    if Conflicted(RunCommand(o.status(s))) && a < |o.answers| && Retry(o.answers[a]) {
      RetryAsksAgain(o, s, a);
      assert r.events[1] == Prompt;
    }
  }

  /** On a conflict, any answer other than `''` and `'abort'` checks the status and asks again. */
  lemma RetryAsksAgain(o: Oracle, s: nat, a: nat)
    requires a < |o.answers|
    requires Conflicted(RunCommand(o.status(s))) && Retry(o.answers[a])
    ensures var rest := ConflictLoop(o, s + 1, a + 1);
      ConflictLoop(o, s, a) == LoopRun([Status, Prompt] + rest.events, rest.statusCalls, rest.answersUsed, rest.exit)
  {
  }

  /** What handling one commit produced: its events, then where to go on from, or how the run ended. */
  datatype StepRun =
    | Next(events: seq<Event>, statusCalls: nat, answersUsed: nat)
    | Stop(events: seq<Event>, outcome: Outcome)

  /** One iteration of the loop of lines 69-110, for the `i`-th commit line. */
  function PickStep(commit: string, i: nat, o: Oracle, s: nat, a: nat): (r: StepRun)
    requires a <= |o.answers|
    ensures r.Next? ==> a <= r.answersUsed <= |o.answers|
  {
    var pick := [Pick(CommitList.CommitHash(commit))];
    if !Truthy(RunCommand(o.pick(i))) then Next(pick, s, a)
    else if !Conflicted(RunCommand(o.status(s))) then Next(pick + [Status], s + 1, a)
    else
      var loop := ConflictLoop(o, s + 1, a);
      var events := pick + [Status] + loop.events;
      match loop.exit
      case Clean => Next(events, loop.statusCalls, loop.answersUsed)
      case Acknowledged => Next(events, loop.statusCalls, loop.answersUsed)
      case Cancelled => Stop(events, Aborted)
      case StatusFailed => Stop(events, Crashed)
      case NoAnswer => Stop(events, AwaitingAnswer)
  }

  /**
   * What one commit asks of git and of the operator: `git status` is run
   * exactly when the pick gave output, and the operator is asked exactly
   * when that status and the first one of the conflict loop both report
   * unmerged paths. A failed pick uses no status call and no answer, and a
   * clean status uses that one call and no answer.
   */
  lemma StepChecks(commit: string, i: nat, o: Oracle, s: nat, a: nat)
    requires a <= |o.answers|
    ensures var r := PickStep(commit, i, o, s, a); var picked := Truthy(RunCommand(o.pick(i)));
      && (Status in r.events <==> picked)
      && (Prompt in r.events <==> picked && Conflicted(RunCommand(o.status(s))) && Conflicted(RunCommand(o.status(s + 1))))
      && (!picked ==> r.Next? && r.statusCalls == s && r.answersUsed == a)
      && (picked && !Conflicted(RunCommand(o.status(s))) ==> r.Next? && r.statusCalls == s + 1 && r.answersUsed == a)
  {
    var h := CommitList.CommitHash(commit);
    if Truthy(RunCommand(o.pick(i))) && Conflicted(RunCommand(o.status(s))) {
      var loop := ConflictLoop(o, s + 1, a);
      ConflictedStep(commit, i, o, s, a);
      LoopPrompts(o, s + 1, a);
      assert PickStep(commit, i, o, s, a).events == [Pick(h), Status] + loop.events;
    }
  }

  /** The events and outcome of a run. */
  datatype Run = Run(events: seq<Event>, outcome: Outcome)

  function Prepend(prefix: seq<Event>, r: Run): Run {
    Run(prefix + r.events, r.outcome)
  }

  /** The driver from the `i`-th commit on, with `s` status calls and `a` answers already used. */
  function Drive(commits: seq<string>, i: nat, o: Oracle, s: nat, a: nat): Run
    requires i <= |commits| && a <= |o.answers|
    decreases |commits| - i
  {
    if i == |commits| then Run([], Completed)
    else
      match PickStep(commits[i], i, o, s, a)
      case Next(events, s', a') => Prepend(events, Drive(commits, i + 1, o, s', a'))
      case Stop(events, outcome) => Run(events, outcome)
  }

  lemma PrependTwice(x: seq<Event>, y: seq<Event>, r: Run)
    ensures Prepend(x, Prepend(y, r)) == Prepend(x + y, r)
  {
    assert x + (y + r.events) == (x + y) + r.events;
  }

  /** The hashes of the picks in a trace, in order. */
  function Picked(events: seq<Event>): seq<string> {
    if events == [] then []
    else (if events[0].Pick? then [events[0].hash] else []) + Picked(events[1..])
  }

  /** How many times a trace issues the abort command. */
  function AbortCount(events: seq<Event>): nat {
    if events == [] then 0
    else (if events[0] == Abort then 1 else 0) + AbortCount(events[1..])
  }

  /** Line 70 for every line: the first field of each commit line. */
  function Hashes(commits: seq<string>): seq<string> {
    if commits == [] then [] else [CommitList.CommitHash(commits[0])] + Hashes(commits[1..])
  }

  /** `Hashes` has one entry per line, the hash of that line. */
  lemma {:induction false} HashesIndex(commits: seq<string>)
    ensures |Hashes(commits)| == |commits|
    ensures forall n :: 0 <= n < |commits| ==> Hashes(commits)[n] == CommitList.CommitHash(commits[n])
  {
    if commits != [] {
      HashesIndex(commits[1..]);
    }
  }

  lemma {:induction false} TraceAppend(x: seq<Event>, y: seq<Event>)
    ensures Picked(x + y) == Picked(x) + Picked(y)
    ensures AbortCount(x + y) == AbortCount(x) + AbortCount(y)
  {
    if x != [] {
      assert (x + y)[1..] == x[1..] + y;
      TraceAppend(x[1..], y);
    } else {
      assert x + y == y;
    }
  }

  lemma {:induction false} RoundsQuiet(n: nat)
    ensures Picked(Rounds(n)) == [] && AbortCount(Rounds(n)) == 0
  {
    if n > 0 {
      RoundsQuiet(n - 1);
      TraceAppend([Status, Prompt], Rounds(n - 1));
    }
  }

  /** A conflict loop picks nothing and issues the abort command once, as its last event, exactly when cancelled. */
  lemma LoopEvents(o: Oracle, s: nat, a: nat)
    requires a <= |o.answers|
    ensures var r := ConflictLoop(o, s, a);
      && Picked(r.events) == []
      && AbortCount(r.events) == (if r.exit == Cancelled then 1 else 0)
      && (r.exit == Cancelled ==> r.events[|r.events| - 1] == Abort)
  {
    var r := ConflictLoop(o, s, a);
    ConflictLoopRounds(o, s, a);
    ShapeEvents(Retries(r, a), r.exit);
  }

  /** Rounds followed by a last round pick nothing, and abort once, at the end, exactly when cancelled. */
  lemma ShapeEvents(n: nat, e: LoopExit)
    ensures var ev := Rounds(n) + Ending(e);
      && Picked(ev) == []
      && AbortCount(ev) == (if e == Cancelled then 1 else 0)
      && (e == Cancelled ==> ev[|ev| - 1] == Abort)
  {
    RoundsQuiet(n);
    TraceAppend(Rounds(n), Ending(e));
    assert Picked([Status]) == [] && AbortCount([Status]) == 0 by {
      assert [Status][1..] == [];
    }
    assert Picked([Status, Prompt]) == [] && AbortCount([Status, Prompt]) == 0 by {
      assert [Status, Prompt][1..] == [Prompt];
      assert [Prompt][1..] == [];
    }
    assert Picked([Status, Prompt, Abort]) == [] && AbortCount([Status, Prompt, Abort]) == 1 by {
      assert [Status, Prompt, Abort][1..] == [Prompt, Abort];
      assert [Prompt, Abort][1..] == [Abort];
      assert [Abort][1..] == [];
    }
  }

  /**
   * One commit's events pick that commit and nothing else; they issue the
   * abort command only when they stop the run with `Aborted`, and then as
   * their last event. A step that stops the run never completes it.
   */
  lemma StepEvents(commit: string, i: nat, o: Oracle, s: nat, a: nat)
    requires a <= |o.answers|
    ensures var r := PickStep(commit, i, o, s, a);
      && Picked(r.events) == [CommitList.CommitHash(commit)]
      && AbortCount(r.events) == (if r.Stop? && r.outcome == Aborted then 1 else 0)
      && (r.Stop? ==> r.outcome != Completed)
      && (r.Stop? && r.outcome == Aborted ==> r.events[|r.events| - 1] == Abort)
  {
    var h := CommitList.CommitHash(commit);
    var r := PickStep(commit, i, o, s, a);
    assert Picked([Pick(h)]) == [h] && AbortCount([Pick(h)]) == 0 by {
      assert [Pick(h)][1..] == [];
    }
    assert Picked([Status]) == [] && AbortCount([Status]) == 0 by {
      assert [Status][1..] == [];
    }
    TraceAppend([Pick(h)], [Status]);
    if !Truthy(RunCommand(o.pick(i))) {
      assert r == Next([Pick(h)], s, a);
    } else if !Conflicted(RunCommand(o.status(s))) {
      assert r == Next([Pick(h)] + [Status], s + 1, a);
    } else {
      var loop := ConflictLoop(o, s + 1, a);
      ConflictedStep(commit, i, o, s, a);
      LoopEvents(o, s + 1, a);
      TraceAppend([Pick(h)] + [Status], loop.events);
    }
  }

  /** After a pick that reports a conflict, the step is the conflict loop, and stops the run when the loop does. */
  lemma ConflictedStep(commit: string, i: nat, o: Oracle, s: nat, a: nat)
    requires a <= |o.answers|
    requires Truthy(RunCommand(o.pick(i))) && Conflicted(RunCommand(o.status(s)))
    ensures var r := PickStep(commit, i, o, s, a); var loop := ConflictLoop(o, s + 1, a);
      && r.events == [Pick(CommitList.CommitHash(commit))] + [Status] + loop.events
      && (r.Next? <==> loop.exit == Clean || loop.exit == Acknowledged)
      && (r.Stop? ==> r.outcome != Completed && (r.outcome == Aborted <==> loop.exit == Cancelled))
  {
  }

  /** The invariant of a run over the remaining commits with hashes `hashes`. */
  predicate PicksInOrder(r: Run, hashes: seq<string>) {
    && Picked(r.events) <= hashes
    && (r.outcome == Completed ==> Picked(r.events) == hashes)
    && AbortCount(r.events) == (if r.outcome == Aborted then 1 else 0)
    && (r.outcome == Aborted ==> r.events[|r.events| - 1] == Abort)
  }

  /**
   * Commits are picked in list order, each list entry at most once, by the
   * first field of its line; only a complete run picks them all. The abort
   * command is issued only by an aborted run, exactly once, as its last
   * event, so no commit is picked after it.
   */
  lemma {:induction false} DrivePicks(commits: seq<string>, i: nat, o: Oracle, s: nat, a: nat)
    requires i <= |commits| && a <= |o.answers|
    ensures PicksInOrder(Drive(commits, i, o, s, a), Hashes(commits[i..]))
    decreases |commits| - i
  {
    if i < |commits| {
      var h := CommitList.CommitHash(commits[i]);
      var rest := Hashes(commits[i + 1..]);
      assert Hashes(commits[i..]) == [h] + rest by {
        assert commits[i..][1..] == commits[i + 1..];
      }
      var step := PickStep(commits[i], i, o, s, a);
      StepEvents(commits[i], i, o, s, a);
      if step.Next? {
        DrivePicks(commits, i + 1, o, step.statusCalls, step.answersUsed);
        ContinueWith(step.events, h, rest, Drive(commits, i + 1, o, step.statusCalls, step.answersUsed));
      }
    }
  }

  /** One commit's events, free of aborts and picking `h`, followed by the rest of the run. */
  lemma ContinueWith(seg: seq<Event>, h: string, rest: seq<string>, next: Run)
    requires Picked(seg) == [h] && AbortCount(seg) == 0
    requires PicksInOrder(next, rest)
    ensures PicksInOrder(Prepend(seg, next), [h] + rest)
  {
    TraceAppend(seg, next.events);
    var p := Picked(next.events);
    assert rest[..|p|] == p;
    assert ([h] + rest)[..|p| + 1] == [h] + p;
    if next.outcome == Aborted {
      assert (seg + next.events)[|seg + next.events| - 1] == next.events[|next.events| - 1];
    }
  }

  lemma {:induction false} NoConflictStep(commit: string, i: nat, o: Oracle, s: nat, a: nat)
    requires a <= |o.answers|
    requires !Conflicted(RunCommand(o.status(s)))
    ensures var r := PickStep(commit, i, o, s, a);
      r.Next? && r.answersUsed == a && Prompt !in r.events && Abort !in r.events
  {
  }

  /**
   * When no pick gives output, every commit is skipped: the run completes,
   * every commit is tried in order, and `git status` is never run.
   */
  lemma {:induction false} RunWithFailedPicks(commits: seq<string>, i: nat, o: Oracle, s: nat, a: nat)
    requires i <= |commits| && a <= |o.answers|
    requires forall n :: !Truthy(RunCommand(o.pick(n)))
    ensures var r := Drive(commits, i, o, s, a);
      && r.outcome == Completed
      && Picked(r.events) == Hashes(commits[i..])
      && Status !in r.events && Prompt !in r.events
    decreases |commits| - i
  {
    DrivePicks(commits, i, o, s, a);
    if i < |commits| {
      StepChecks(commits[i], i, o, s, a);
      RunWithFailedPicks(commits, i + 1, o, s, a);
    }
  }

  /**
   * When no status ever reports unmerged paths, the run completes: every
   * commit is picked, in order, and the operator is never asked.
   */
  lemma {:induction false} RunWithoutConflicts(commits: seq<string>, i: nat, o: Oracle, s: nat, a: nat)
    requires i <= |commits| && a <= |o.answers|
    requires forall n :: !Conflicted(RunCommand(o.status(n)))
    ensures var r := Drive(commits, i, o, s, a);
      && r.outcome == Completed
      && Picked(r.events) == Hashes(commits[i..])
      && Prompt !in r.events && Abort !in r.events
    decreases |commits| - i
  {
    DrivePicks(commits, i, o, s, a);
    if i < |commits| {
      var step := PickStep(commits[i], i, o, s, a);
      NoConflictStep(commits[i], i, o, s, a);
      RunWithoutConflicts(commits, i + 1, o, step.statusCalls, step.answersUsed);
    }
  }

  /** `Drive` at a commit is that commit's step followed, unless it stops, by the rest of the run. */
  lemma DriveStep(commits: seq<string>, i: nat, o: Oracle, s: nat, a: nat, r: StepRun)
    requires i < |commits| && a <= |o.answers|
    requires r == PickStep(commits[i], i, o, s, a)
    ensures r.Next? ==> Drive(commits, i, o, s, a) == Prepend(r.events, Drive(commits, i + 1, o, r.statusCalls, r.answersUsed))
    ensures r.Stop? ==> Drive(commits, i, o, s, a) == Run(r.events, r.outcome)
  {
  }

  /**
   * The `while` loop of lines 85-106: re-read the status until it no longer
   * reports unmerged paths, asking the operator after each status that does.
   * `Trim` of an answer is what `promptUser` resolves with.
   */
  method ResolveConflict(o: Oracle, s: nat, a: nat) returns (events: seq<Event>, statusCalls: nat, answersRead: nat, exit: LoopExit)
    requires a <= |o.answers|
    ensures LoopRun(events, statusCalls, answersRead, exit) == ConflictLoop(o, s, a)
  {
    events, statusCalls, answersRead := [], s, a;
    var resolved := false;
    exit := Clean;
    while !resolved
      invariant answersRead <= |o.answers|
      invariant !resolved ==> ConflictLoop(o, s, a) == Extend(events, ConflictLoop(o, statusCalls, answersRead))
      invariant resolved ==> ConflictLoop(o, s, a) == LoopRun(events, statusCalls, answersRead, exit)
      decreases |o.answers| - answersRead, if resolved then 0 else 1
    {
      ghost var before, s0, a0 := events, statusCalls, answersRead;
      var cherryPickStatus := RunCommand(o.status(statusCalls));
      statusCalls := statusCalls + 1;
      events := events + [Status];
      if cherryPickStatus.None? {
        exit := StatusFailed;
        LastRoundOf(o, s0, a0, before);
        return;
      }
      if !Contains(cherryPickStatus.value, UnmergedPaths) {
        resolved, exit := true, Clean;
        LastRoundOf(o, s0, a0, before);
      } else {
        events := events + [Prompt];
        if answersRead == |o.answers| {
          exit := NoAnswer;
          LastRoundOf(o, s0, a0, before);
          return;
        }
        var input := Trim(o.answers[answersRead]);
        answersRead := answersRead + 1;
        if input == "" {
          resolved, exit := true, Acknowledged;
          LastRoundOf(o, s0, a0, before);
        } else if input == "abort" {
          events := events + [Abort];
          exit := Cancelled;
          LastRoundOf(o, s0, a0, before);
          return;
        } else {
          NextRoundOf(o, s0, a0, before);
        }
      }
    }
  }

  /** The last round of a conflict loop, after the events `before`, in the order the loop of lines 85-106 issues them. */
  lemma LastRoundOf(o: Oracle, s: nat, a: nat, before: seq<Event>)
    requires a <= |o.answers|
    ensures var status := RunCommand(o.status(s)); var r := Extend(before, ConflictLoop(o, s, a));
      && (status.None? ==> r == LoopRun(before + [Status], s + 1, a, StatusFailed))
      && (status.Some? && !Conflicted(status) ==> r == LoopRun(before + [Status], s + 1, a, Clean))
      && (Conflicted(status) && a == |o.answers| ==> r == LoopRun(before + [Status] + [Prompt], s + 1, a, NoAnswer))
      && (Conflicted(status) && a < |o.answers| && Trim(o.answers[a]) == "" ==>
            r == LoopRun(before + [Status] + [Prompt], s + 1, a + 1, Acknowledged))
      && (Conflicted(status) && a < |o.answers| && Trim(o.answers[a]) == "abort" ==>
            r == LoopRun(before + [Status] + [Prompt] + [Abort], s + 1, a + 1, Cancelled))
  {
    assert before + [Status] + [Prompt] == before + [Status, Prompt];
    assert before + [Status] + [Prompt] + [Abort] == before + [Status, Prompt, Abort];
  }

  /** A round that asks again, after the events `before`. */
  lemma NextRoundOf(o: Oracle, s: nat, a: nat, before: seq<Event>)
    requires a < |o.answers|
    requires Conflicted(RunCommand(o.status(s))) && Retry(o.answers[a])
    ensures Extend(before, ConflictLoop(o, s, a)) == Extend(before + [Status] + [Prompt], ConflictLoop(o, s + 1, a + 1))
  {
    var rest := ConflictLoop(o, s + 1, a + 1);
    RetryAsksAgain(o, s, a);
    assert before + ([Status, Prompt] + rest.events) == before + [Status] + [Prompt] + rest.events;
  }

  /** The body of the loop of lines 69-110 for the `i`-th commit line. */
  method HandleCommit(commit: string, i: nat, o: Oracle, s: nat, a: nat) returns (r: StepRun)
    requires a <= |o.answers|
    ensures r == PickStep(commit, i, o, s, a)
  {
    var commitHash := CommitList.CommitHash(commit);
    var result := RunCommand(o.pick(i));
    if !Truthy(result) {
      return Next([Pick(commitHash)], s, a);
    }
    var cherryPickStatus := RunCommand(o.status(s));
    if !Conflicted(cherryPickStatus) {
      return Next([Pick(commitHash), Status], s + 1, a);
    }
    var events, statusCalls, answersRead, exit := ResolveConflict(o, s + 1, a);
    events := [Pick(commitHash), Status] + events;
    match exit
    case Clean => r := Next(events, statusCalls, answersRead);
    case Acknowledged => r := Next(events, statusCalls, answersRead);
    case Cancelled => r := Stop(events, Aborted);
    case StatusFailed => r := Stop(events, Crashed);
    case NoAnswer => r := Stop(events, AwaitingAnswer);
  }

  /**
   * `cherryPickCommits` (lines 66-111) on the text of the commit-list file:
   * line 67 reads the non-empty lines back, and the loop runs over them.
   */
  method CherryPickCommits(file: string, o: Oracle) returns (trace: seq<Event>, outcome: Outcome)
    ensures Run(trace, outcome) == Drive(Lines(file), 0, o, 0, 0)
  {
    var commits := Lines(file);
    trace, outcome := PickAll(commits, o);
  }

  /**
   * The loop of lines 69-110 over the commit lines. Its trace and outcome are
   * those of `Drive`, so `DrivePicks` describes them.
   */
  method PickAll(commits: seq<string>, o: Oracle) returns (trace: seq<Event>, outcome: Outcome)
    ensures Run(trace, outcome) == Drive(commits, 0, o, 0, 0)
  {
    ghost var whole := Drive(commits, 0, o, 0, 0);
    trace := [];
    var statusCalls: nat, answersRead: nat := 0, 0;
    for i := 0 to |commits|
      invariant answersRead <= |o.answers|
      invariant whole == Prepend(trace, Drive(commits, i, o, statusCalls, answersRead))
    {
      var step := HandleCommit(commits[i], i, o, statusCalls, answersRead);
      DriveStep(commits, i, o, statusCalls, answersRead, step);
      if step.Stop? {
        trace, outcome := trace + step.events, step.outcome;
        return;
      }
      PrependTwice(trace, step.events, Drive(commits, i + 1, o, step.statusCalls, step.answersUsed));
      trace := trace + step.events;
      statusCalls, answersRead := step.statusCalls, step.answersUsed;
    }
    outcome := Completed;
  }
}
