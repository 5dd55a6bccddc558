# Interactive cherry-pick, modelled in Dafny

`interactive_cherry_pick.js` is a Node script with two stages:

- **Commit-list builder.** It asks for a comma-separated list of feature
  branches. For each branch it collects the `git log --grep=<branch>` lines.
  It sorts them all by `new Date` of each line's date and time fields and
  writes them to `commit_list.txt`. The `%ci` timezone offset is not part of
  that text, so the engine reads the date as local time: the order is not
  exactly commit-instant order.
- **Cherry-pick driver.** It reads that file back and replays each commit
  with `git cherry-pick --no-commit`. When `git status` reports
  `Unmerged paths`, it waits for the operator: Enter continues and `abort`
  cancels the whole run.

This project models both stages, plus the wiring in `main`. Each part of
the outside world becomes an oracle: a value passed in, not computed.

- **`git log`**: a function from a branch name to what `spawnSync` reports:
  the raw output, or `None` when it sets `result.error`. That error means
  the shell could not be spawned, or the output overflowed the default
  1 MiB `maxBuffer`, which a broad search such as `--grep=""` can do.
- **`git cherry-pick`**: its raw output for the n-th commit of the list.
- **`git status`**: its raw output at the n-th status call.
- **Date parsing**: an integer-valued function that stands for `new Date(…)`
  applied to the date-and-time text.
- **The operator**: a finite sequence of answer lines.

The modules follow the script's structure:

- `Text`: the JavaScript string operations the script uses. `trim` removes
  ECMAScript white space and line terminators. Also `split` on one
  character, `join`, `filter(Boolean)` and `includes`.
- `Sorting`: a stable sort on an integer key. `Array.prototype.sort` is
  stable, and any two stable sorts by the same key give the same result.
- `Shell`: `runCommand` (line 7). It gives `None` when `spawnSync` reports an
  error and otherwise the trimmed output. Also JavaScript truthiness of its
  result.
- `CommitList`: the branch split of line 115 and `getCommitList`, proved as
  an imperative loop against pure specifications. The file is an in-memory
  buffer.
- `CherryPick`: `cherryPickCommits`, proved as four methods:
  - the entry point, which reads the file back;
  - the commit loop;
  - the body that handles one commit;
  - the conflict `while` loop.

  Each method is tied to a recursive specification over a trace of events
  (`Pick(hash)`, `Status`, `Prompt`, `Abort`) and an outcome.
- `Session`: `main`, from the raw branch answer to the trace.

Some behaviour follows the code rather than the design:

- **No deduplication.** The code never removes duplicate commits. A commit
  that two branch searches both find is listed, and picked, twice.
- **Enter does not re-check the status.** An empty answer ends the conflict
  loop straight away.
- **An empty piece searches everything.** An empty piece of the branch input
  (for example after a trailing comma) is kept as the branch `""`. Its
  `--grep=""` pattern matches every commit.
- **A `null` status crashes the conflict loop.** At line 92 it throws a
  `TypeError`, modelled as the outcome `Crashed`. At line 82 the same `null`
  counts as "no conflict".
- **Nothing collected means a crash.** When no branch yields output,
  `commit_list.txt` is never created and reading it at line 39 throws. The
  session then ends in `Crashed` without picking anything.
- **Running out of answers halts the model.** When the answer sequence runs
  out at a prompt, the model stops with `AwaitingAnswer`. The real script
  would keep waiting.

## Model

All source paths are `interactive_cherry_pick.js`.

| member | source | states |
|---|---|---|
| Text.TrimStartSpec | interactive_cherry_pick.js:18 | removing leading white space leaves a suffix of the text; what was removed is all white space; the rest starts with a non-space |
| Text.TrimEndSpec | interactive_cherry_pick.js:18 | removing trailing white space leaves a prefix of the text; what was removed is all white space; the rest ends with a non-space |
| Text.TrimSpec | interactive_cherry_pick.js:18 | `Trim` (`trim`) leaves no white space at either end; the original is the result with a white-space run in front and one behind |
| Text.TrimTrimmed | interactive_cherry_pick.js:61 | trimming text that has no white space at either end changes nothing |
| Text.ContainsAt | interactive_cherry_pick.js:82 | `Contains` (`includes`) holds exactly when the searched text occurs at some position |
| Text.Split | interactive_cherry_pick.js:115 | `split` gives at least one piece |
| Text.SplitFirst | interactive_cherry_pick.js:70 | the first piece of a split is the text up to, not including, the first separator, or all of it when there is none |
| Text.SplitPieces | interactive_cherry_pick.js:115 | no piece of a split holds the separator |
| Text.SplitCount | interactive_cherry_pick.js:115 | `split` gives one piece more than the number of separators |
| Text.SplitJoin | interactive_cherry_pick.js:115 | joining (`Join`, `join`) the pieces of a split with the same separator gives back the text |
| Text.SplitNoSep | interactive_cherry_pick.js:70 | text without the separator splits into itself alone |
| Text.SplitAt | interactive_cherry_pick.js:40 | splitting at any separator position splits the text into the pieces before it followed by the pieces after it |
| Text.SplitConcat | interactive_cherry_pick.js:40 | splitting `x + sep + y` gives the pieces of `x` followed by the pieces of `y` |
| Text.JoinSplit | interactive_cherry_pick.js:48 | splitting a `Join` of separator-free pieces gives back the pieces |
| Text.JoinSeparators | interactive_cherry_pick.js:48 | a `Join` of separator-free pieces holds one separator fewer than there are pieces |
| Text.NonEmpty | interactive_cherry_pick.js:41 | `filter(Boolean)` yields only non-empty strings and never lengthens the list |
| Text.NonEmptyMembers | interactive_cherry_pick.js:41 | a string survives the filter exactly when it was in the list and is non-empty |
| Text.NonEmptyAppend | interactive_cherry_pick.js:41 | filtering distributes over concatenation, so order is kept |
| Text.NonEmptyAll | interactive_cherry_pick.js:41 | filtering a list with no empty strings changes nothing |
| Text.LinesClean | interactive_cherry_pick.js:39-41 | every line that `Lines` reads back from a file is non-empty and has no newline |
| Text.LinesTrailingNewline | interactive_cherry_pick.js:33 | the newline appended after a branch's output adds no line |
| Text.LinesAfterNewline | interactive_cherry_pick.js:33 | once the file ends in a newline, appended text contributes exactly its own lines |
| Text.LinesJoin | interactive_cherry_pick.js:67 | reading back a newline-joined list of non-empty, newline-free lines gives the list |
| Sorting.Insert | interactive_cherry_pick.js:42-46 | inserting adds exactly the one element (multiset) |
| Sorting.InsertSorted | interactive_cherry_pick.js:42-46 | inserting into a key-ordered list keeps it key-ordered |
| Sorting.SortByKey | interactive_cherry_pick.js:42-46 | the sort is a permutation of its input, of the same length, non-decreasing in the key |
| Sorting.InsertWithKey | interactive_cherry_pick.js:42-46 | inserting places the element ahead of every element with its key and leaves other keys' order alone |
| Sorting.SortByKeyStable | interactive_cherry_pick.js:42-46 | the sort is stable: elements with equal keys keep their input order |
| Sorting.StableSortUnique | interactive_cherry_pick.js:42-46 | two key-ordered lists with the same elements per key, in the same order, are equal |
| Sorting.StableSortIsSortByKey | interactive_cherry_pick.js:42-46 | every stable sort of a list by a key, the engine's included, equals this model's sort |
| Shell.RunCommand | interactive_cherry_pick.js:7-19 | the result is `null` exactly when `spawnSync` reports an error (a failed spawn, or output over `maxBuffer`) |
| Shell.RunCommandTrimmed | interactive_cherry_pick.js:18 | a command's result has no white space at either end |
| CommitList.BranchList | interactive_cherry_pick.js:115 | the branch list has one entry per comma of the input, plus one, and no entry has white space at either end |
| CommitList.BranchListPieces | interactive_cherry_pick.js:115 | each branch is the trimmed comma-free piece at its position, and the pieces rejoin to the input |
| CommitList.BranchListEmptyInput | interactive_cherry_pick.js:115 | example: an empty answer still gives one branch, the empty name |
| CommitList.CommitHash | interactive_cherry_pick.js:70 | the hash is the text of the line up to its first space (all of it without a space), and holds no space |
| CommitList.LogLineFields | interactive_cherry_pick.js:43-44 | for a `%H %ci %s` line, `CommitHash` is the hash and `DateText` (`Field` 1, a space, `Field` 2) is exactly the date and time |
| CommitList.SameDateSameKey | interactive_cherry_pick.js:43-45 | `CommitKey` ignores hash, timezone offset and subject: two lines with the same date and time text get equal keys |
| CommitList.ShortLineDate | interactive_cherry_pick.js:43-45 | a line with no space has no date fields: its `DateText` is "undefined undefined", whatever the line |
| CommitList.BranchLinesMembers | interactive_cherry_pick.js:29-35 | `BranchLines`: a branch contributes a line exactly when its output is non-null and non-empty and the line is a non-empty line of that output |
| CommitList.ContributedLinesAppend | interactive_cherry_pick.js:29-35 | the lines collected for two runs of branches are the lines of the first run followed by those of the second |
| CommitList.ContributedSplit | interactive_cherry_pick.js:29-35 | cutting the branch list at any point cuts the collected lines at the matching point |
| CommitList.ContributedFrom | interactive_cherry_pick.js:29-35 | every collected line is among the lines of some branch |
| CommitList.ContributedTo | interactive_cherry_pick.js:29-35 | every line that any branch of the list contributes is collected |
| CommitList.ContributedMembers | interactive_cherry_pick.js:29-35 | `ContributedLines`: a line is collected exactly when some branch of the list contributes it |
| CommitList.Collected | interactive_cherry_pick.js:29-35 | the file is empty (never created) exactly when no branch's output is truthy; otherwise it ends in a newline |
| CommitList.CollectedLines | interactive_cherry_pick.js:38-41 | reading the collected file gives every contributed line, branch by branch; blank lines never reach the list |
| CommitList.SortedCommits | interactive_cherry_pick.js:38-46 | the sorted list is in date-key order, a permutation of the collected lines, stable on equal keys, made of non-empty, newline-free lines |
| CommitList.CommitLinesClean | interactive_cherry_pick.js:41 | every collected line is non-empty and free of newlines |
| CommitList.CommitListRoundTrip | interactive_cherry_pick.js:48 | writing the sorted list and reading it back gives the same list |
| CommitList.SameLineTwice | interactive_cherry_pick.js:29-35 | a line that any two different branches of the list both contribute is collected at least twice |
| CommitList.NoDeduplication | interactive_cherry_pick.js:29-46 | such a line appears at least twice in the sorted list |
| CommitList.GetCommitList | interactive_cherry_pick.js:21-50 | the loop builds no file exactly when no branch's output is truthy; otherwise the file is the newline-joined sorted list and reads back to it |
| CherryPick.ConflictedAt | interactive_cherry_pick.js:82 | `Conflicted`: a status reports a conflict exactly when it exists and "Unmerged paths" occurs in it at some position |
| CherryPick.ConflictLoop | interactive_cherry_pick.js:85-106 | the conflict loop checks the status at least once and uses no more answers than there are |
| CherryPick.ConflictLoopRounds | interactive_cherry_pick.js:85-106 | the loop's trace is n rounds of status and prompt, then one final round, with one status call per round |
| CherryPick.ConflictLoopRetries | interactive_cherry_pick.js:91-105 | each of those n rounds read a status reporting unmerged paths and got an answer other than `''` and `'abort'` |
| CherryPick.ConflictLoopExit | interactive_cherry_pick.js:91-104 | the last round ends the loop on a clean status, `''`, `'abort'`, a `null` status or no answer, each exactly when its condition holds |
| CherryPick.LoopPrompts | interactive_cherry_pick.js:91-96 | the loop asks the operator at all exactly when its first status check reports unmerged paths |
| CherryPick.LoopEvents | interactive_cherry_pick.js:85-106 | a conflict loop picks nothing; it issues the abort command exactly once, as its last event, when cancelled, and never otherwise |
| CherryPick.PickStep | interactive_cherry_pick.js:69-110 | handling one commit uses answers only forward and within bounds |
| CherryPick.StepChecks | interactive_cherry_pick.js:72-108 | one commit runs `git status` exactly when its pick gave output, and asks the operator exactly when both that status and the loop's first one report unmerged paths; a failed pick goes on with no status call and no answer, a clean status with one call and no answer |
| CherryPick.NoConflictStep | interactive_cherry_pick.js:81-108 | with no conflicted status, a commit is handled without prompt or abort and goes on |
| CherryPick.HashesIndex | interactive_cherry_pick.js:70 | the hash list has one entry per line: the first field of that line |
| CherryPick.StepEvents | interactive_cherry_pick.js:69-110 | one commit's events pick that commit's hash once; they abort only when they stop the run as aborted, and then last; a stop never completes the run |
| CherryPick.DrivePicks | interactive_cherry_pick.js:69-110 | `Drive`: picks are a prefix of the list's hashes, in order; a completed run picks all; the abort command is issued once, last, exactly when the run is aborted |
| CherryPick.RunWithFailedPicks | interactive_cherry_pick.js:69-110 | if no pick gives output, the run completes, tries every commit in order, and never runs `git status` or prompts |
| CherryPick.RunWithoutConflicts | interactive_cherry_pick.js:69-110 | if no status reports unmerged paths, the run completes, picks every commit in order, and never prompts or aborts |
| CherryPick.ResolveConflict | interactive_cherry_pick.js:85-106 | the `while (!resolved)` loop produces exactly the conflict loop's trace, status count, answers used and exit |
| CherryPick.HandleCommit | interactive_cherry_pick.js:70-109 | one iteration of the commit loop produces exactly the step of the specification |
| CherryPick.PickAll | interactive_cherry_pick.js:69-110 | the commit loop's trace and outcome are exactly those of the specification `Drive`, so picks follow list order and an abort comes last and once |
| CherryPick.CherryPickCommits | interactive_cherry_pick.js:66-111 | the driver read back from the file behaves as the specification over the file's non-empty lines |
| Session.BranchesCount | interactive_cherry_pick.js:114-115 | `Branches`: the branch list has one trimmed entry per comma of the raw answer, plus one, because trimming the answer removes no comma |
| Session.InteractiveCherryPick | interactive_cherry_pick.js:113-119 | a session behaves as `Expected`: with nothing collected it crashes before any command; otherwise it drives the sorted commit list |
| Session.PicksOldestFirst | interactive_cherry_pick.js:113-118 | in the `Expected` run, the n-th pick is the hash of the n-th line of the date-sorted collected lines; a completed session picks them all |

## Left out

- `spawnSync`, the shell and command-string construction (lines 8-12, 31, 74, 102). These are process I/O. Each command's raw output is an oracle, and shell quoting of branch names is not modelled.
- What git does: the meaning of `--grep`, `--all` and `--no-merges`, and how a pick changes the working tree. These go into the oracles' values.
- The filesystem calls (lines 25-27, 33, 39, 48, 67). The file is a string buffer, and "not yet created" is an empty buffer. Deleting an old commit list is the buffer starting empty.
- The `readline` interface (lines 52-64). Each answer is a line given in advance, trimmed as `promptUser` trims it.
- The one-second `setTimeout` delay (line 88) and every `console.log`. They have no logical effect.
- CommitList.CommitKey: `new Date(…)` (lines 43-44) is an integer-valued oracle on the text `field1 + " " + field2`. How the engine parses that text, as local time, is in the oracle. Invalid dates (`NaN`) therefore cannot occur, although in JavaScript they make the comparator inconsistent.
- Shell.RunCommand: the size of `spawnSync`'s `maxBuffer` is not modelled. Which commands overflow it is part of the oracles' values.
- Text.Trim: JavaScript strings are UTF-16. The model works on code points, so unpaired surrogates are out of scope.
- Session.InteractiveCherryPick: a run that is waiting for an answer ends the model with `AwaitingAnswer`. The script would block on standard input.
