/**
 * `getCommitList` and the branch-list expression of `main`: from the
 * operator's comma-separated input to the ordered commit-list file.
 */
module CommitList {
  import opened Wrappers
  import opened Text
  import opened Shell
  import Sorting

  /**
   * Line 115: `input.split(',').map(branch => branch.trim())`. One entry per
   * comma-separated piece, each trimmed; empty pieces stay.
   */
  function BranchList(input: string): (r: seq<string>)
    ensures |r| == multiset(input)[','] + 1
    ensures forall k :: 0 <= k < |r| ==> IsTrimmed(r[k])
  {
    var pieces := Split(input, ',');
    SplitCount(input, ',');
    var r := seq(|pieces|, k requires 0 <= k < |pieces| => Trim(pieces[k]));
    assert forall k :: 0 <= k < |r| ==> IsTrimmed(r[k]) by {
      forall k | 0 <= k < |r| ensures IsTrimmed(r[k]) {
        TrimSpec(pieces[k]);
      }
    }
    r
  }

  lemma BranchListPieces(input: string)
    ensures var pieces := Split(input, ','); var r := BranchList(input);
      && |r| == multiset(input)[','] + 1
      && Join(pieces, ',') == input
      && (forall k :: 0 <= k < |pieces| ==> ',' !in pieces[k])
      && (forall k :: 0 <= k < |r| ==> IsTrimmed(r[k]) && r[k] == Trim(pieces[k]))
  {
    SplitCount(input, ',');
    SplitJoin(input, ',');
    SplitPieces(input, ',');
  }

  /** Example: an empty input still names one branch, the empty one. */
  lemma BranchListEmptyInput()
    ensures BranchList("") == [""]
  {
  }

  /** Line 70: `commit.split(' ')[0]`, the text before the first space. */
  function CommitHash(line: string): (h: string)
    ensures ' ' !in h && h <= line && (h == line || line[|h|] == ' ')
  {
    SplitPieces(line, ' ');
    SplitFirst(line, ' ');
    Split(line, ' ')[0]
  }

  /**
   * `line.split(' ')[i]`. JavaScript's string concatenation turns a missing
   * field (`undefined`) into the text "undefined".
   */
  function Field(line: string, i: nat): string
  {
    var fields := Split(line, ' ');
    if i < |fields| then fields[i] else "undefined"
  }

  /** Lines 43-44: the text handed to `new Date`, fields 1 and 2 joined by a space. */
  function DateText(line: string): string
  {
    Field(line, 1) + " " + Field(line, 2)
  }

  /**
   * The sort key of a commit line. `date` stands for `new Date(text)` read as
   * a number (milliseconds), which is what the comparator `dateA - dateB`
   * compares. The text carries the date and time but not the `%ci` offset,
   * so the engine reads it as local time: this is not the commit instant.
   */
  function CommitKey(date: string -> int): string -> int
  {
    line => date(DateText(line))
  }

  /**
   * A line without spaces has no date fields: JavaScript searches the date of
   * the text "undefined undefined", so all such lines share one key.
   */
  lemma ShortLineDate(line: string, date: string -> int)
    requires ' ' !in line
    ensures DateText(line) == "undefined undefined"
    ensures CommitKey(date)(line) == date("undefined undefined")
  {
    SplitNoSep(line, ' ');
  }

  /**
   * For a line in the `%H %ci %s` format (hash, date, time, timezone,
   * subject), the hash is the first field and the date key sees only the date
   * and the time: the timezone and the subject do not affect the order.
   */
  lemma {:induction false} LogLineFields(h: string, d: string, t: string, rest: string)
    requires ' ' !in h && ' ' !in d && ' ' !in t
    ensures var line := h + " " + d + " " + t + " " + rest;
      CommitHash(line) == h && DateText(line) == d + " " + t
  {
    var line := h + " " + d + " " + t + " " + rest;
    var tail2 := t + [' '] + rest;
    var tail1 := d + [' '] + tail2;
    assert line == h + [' '] + tail1;
    SplitConcat(h, tail1, ' ');
    SplitConcat(d, tail2, ' ');
    SplitConcat(t, rest, ' ');
    SplitNoSep(h, ' ');
    SplitNoSep(d, ' ');
    SplitNoSep(t, ' ');
    var fields := Split(line, ' ');
    assert fields == [h] + ([d] + ([t] + Split(rest, ' ')));
    assert fields[0] == h && fields[1] == d && fields[2] == t;
  }

  /**
   * The key is blind to the hash, the timezone offset and the subject: two
   * `%H %ci %s` lines with the same date and time text sort as equals, even
   * when their offsets make them different instants.
   */
  lemma SameDateSameKey(h1: string, h2: string, d: string, t: string, rest1: string, rest2: string, date: string -> int)
    requires ' ' !in h1 && ' ' !in h2 && ' ' !in d && ' ' !in t
    ensures CommitKey(date)(h1 + " " + d + " " + t + " " + rest1) == CommitKey(date)(h2 + " " + d + " " + t + " " + rest2)
  {
    LogLineFields(h1, d, t, rest1);
    LogLineFields(h2, d, t, rest2);
  }

  /** The output `runCommand` gives for the `git log --grep` of one branch (line 31). */
  function BranchOutput(log: string -> Option<string>, branch: string): Option<string>
  {
    RunCommand(log(branch))
  }

  /** The lines one branch contributes: its non-empty output lines, when `if (commits)` lets them through. */
  function BranchLines(log: string -> Option<string>, branch: string): seq<string>
  {
    var out := BranchOutput(log, branch);
    if Truthy(out) then Lines(out.value) else []
  }

  /** The lines of all branches, branch after branch, in collection order; nothing is deduplicated. */
  function ContributedLines(branches: seq<string>, log: string -> Option<string>): seq<string>
    decreases |branches|
  {
    if branches == [] then []
    else ContributedLines(branches[..|branches| - 1], log) + BranchLines(log, branches[|branches| - 1])
  }

  lemma {:induction false} ContributedLinesAppend(a: seq<string>, b: seq<string>, log: string -> Option<string>)
    ensures ContributedLines(a + b, log) == ContributedLines(a, log) + ContributedLines(b, log)
    decreases |b|
  {
    if b == [] {
      assert a + b == a;
    } else {
      var b' := b[..|b| - 1];
      assert (a + b)[..|a + b| - 1] == a + b';
      ContributedLinesAppend(a, b', log);
    }
  }

  /** Cutting the branch list anywhere cuts the collected lines there. */
  lemma ContributedSplit(branches: seq<string>, n: nat, log: string -> Option<string>)
    requires n <= |branches|
    ensures ContributedLines(branches, log)
      == ContributedLines(branches[..n], log) + ContributedLines(branches[n..], log)
  {
    SliceJoin(branches, n);
    ContributedLinesAppend(branches[..n], branches[n..], log);
  }

  lemma SliceJoin(s: seq<string>, n: nat)
    requires n <= |s|
    ensures s[..n] + s[n..] == s
  {
  }

  /** Every collected line comes from some branch that contributed it. */
  lemma {:induction false} ContributedFrom(branches: seq<string>, log: string -> Option<string>, x: string)
    requires x in ContributedLines(branches, log)
    ensures exists k :: 0 <= k < |branches| && x in BranchLines(log, branches[k])
    decreases |branches|
  {
    var n := |branches| - 1;
    var init := branches[..n];
    assert ContributedLines(branches, log) == ContributedLines(init, log) + BranchLines(log, branches[n]);
    if x in BranchLines(log, branches[n]) {
      assert 0 <= n < |branches| && x in BranchLines(log, branches[n]);
    } else {
      ContributedFrom(init, log, x);
      var k :| 0 <= k < |init| && x in BranchLines(log, init[k]);
      assert 0 <= k < |branches| && x in BranchLines(log, branches[k]);
    }
  }

  /**
   * A branch contributes a line exactly when its output is non-null and
   * non-empty and the line is one of the output's non-empty lines.
   */
  lemma BranchLinesMembers(log: string -> Option<string>, branch: string, x: string)
    ensures var out := BranchOutput(log, branch);
      x in BranchLines(log, branch) <==> Truthy(out) && x != [] && x in Split(out.value, '\n')
  {
    var out := BranchOutput(log, branch);
    if Truthy(out) {
      NonEmptyMembers(Split(out.value, '\n'));
    }
  }

  /** The lines of the last branch are collected. */
  lemma ContributedLast(branches: seq<string>, log: string -> Option<string>, b: string, x: string)
    requires |branches| > 0 && branches[|branches| - 1] == b && x in BranchLines(log, b)
    ensures x in ContributedLines(branches, log)
  {
    var n := |branches| - 1;
    InBack(ContributedLines(branches[..n], log), BranchLines(log, b), x);
  }

  /** Every line that a branch `b` of the list contributes is collected. */
  lemma ContributedTo(branches: seq<string>, log: string -> Option<string>, k: nat, b: string, x: string)
    requires k < |branches| && branches[k] == b && x in BranchLines(log, b)
    ensures x in ContributedLines(branches, log)
  {
    var pre := branches[..k + 1];
    ContributedSplit(branches, k + 1, log);
    assert pre[|pre| - 1] == b;
    ContributedLast(pre, log, b, x);
    InFront(ContributedLines(pre, log), ContributedLines(branches[k + 1..], log), x);
  }

  lemma InFront(p: seq<string>, q: seq<string>, x: string)
    requires x in p
    ensures x in p + q
  {
    var i :| 0 <= i < |p| && p[i] == x;
    assert (p + q)[i] == x;
  }

  lemma InBack(p: seq<string>, q: seq<string>, x: string)
    requires x in q
    ensures x in p + q
  {
    var i :| 0 <= i < |q| && q[i] == x;
    assert (p + q)[|p| + i] == x;
  }

  /** A line is collected exactly when some branch contributes it. */
  lemma ContributedMembers(branches: seq<string>, log: string -> Option<string>, x: string)
    ensures x in ContributedLines(branches, log) <==> exists k :: 0 <= k < |branches| && x in BranchLines(log, branches[k])
  {
    if x in ContributedLines(branches, log) {
      ContributedFrom(branches, log, x);
    }
    if exists k :: 0 <= k < |branches| && x in BranchLines(log, branches[k]) {
      var k :| 0 <= k < |branches| && x in BranchLines(log, branches[k]);
      ContributedTo(branches, log, k, branches[k], x);
    }
  }

  /**
   * The commit-list file after the loop of lines 29-35: each branch whose
   * output is truthy appends that output and a newline. It is empty exactly
   * when no branch contributed, and otherwise ends in a newline.
   */
  function Collected(branches: seq<string>, log: string -> Option<string>): (r: string)
    ensures r == [] || r[|r| - 1] == '\n'
    ensures r == [] <==> forall k :: 0 <= k < |branches| ==> !Truthy(BranchOutput(log, branches[k]))
    decreases |branches|
  {
    if branches == [] then []
    else
      var init := branches[..|branches| - 1];
      var out := BranchOutput(log, branches[|branches| - 1]);
      var r := Collected(init, log) + (if Truthy(out) then out.value + "\n" else []);
      assert forall k :: 0 <= k < |init| ==> init[k] == branches[k];
      r
  }

  /** One more branch appends its output and a newline when that output is truthy. */
  lemma CollectedStep(branches: seq<string>, i: nat, log: string -> Option<string>)
    requires i < |branches|
    ensures var out := BranchOutput(log, branches[i]);
      Collected(branches[..i + 1], log)
      == if Truthy(out) then Collected(branches[..i], log) + out.value + "\n" else Collected(branches[..i], log)
  {
    assert branches[..i + 1][..i] == branches[..i];
    var out := BranchOutput(log, branches[i]);
    var c := Collected(branches[..i], log);
    if Truthy(out) {
      assert c + (out.value + "\n") == c + out.value + "\n";
    }
  }

  /** Reading the collected file back (lines 38-41) yields exactly the contributed lines. */
  lemma {:induction false} CollectedLines(branches: seq<string>, log: string -> Option<string>)
    ensures Lines(Collected(branches, log)) == ContributedLines(branches, log)
    decreases |branches|
  {
    if branches == [] {
      assert Lines([]) == [];
    } else {
      var init := branches[..|branches| - 1];
      var out := BranchOutput(log, branches[|branches| - 1]);
      CollectedLines(init, log);
      if Truthy(out) {
        var c := Collected(init, log);
        assert c + (out.value + "\n") == (c + out.value) + "\n";
        LinesTrailingNewline(c + out.value);
        LinesAfterNewline(c, out.value);
      } else {
        assert Collected(branches, log) == Collected(init, log);
      }
    }
  }

  /**
   * The sorted commit list of lines 38-46: ordered by the date key, a
   * permutation of the contributed lines, stable on equal keys, and made of
   * non-empty, newline-free lines.
   */
  function SortedCommits(branches: seq<string>, log: string -> Option<string>, date: string -> int): (r: seq<string>)
    ensures Sorting.SortedBy(r, CommitKey(date))
    ensures multiset(r) == multiset(ContributedLines(branches, log))
    ensures Sorting.Stable(r, ContributedLines(branches, log), CommitKey(date))
    ensures forall k :: 0 <= k < |r| ==> r[k] != [] && '\n' !in r[k]
  {
    var lines := ContributedLines(branches, log);
    var r := Sorting.SortByKey(lines, CommitKey(date));
    Sorting.SortByKeyStable(lines, CommitKey(date));
    assert forall k :: 0 <= k < |r| ==> r[k] != [] && '\n' !in r[k] by {
      CommitLinesClean(branches, log);
      forall k | 0 <= k < |r| ensures r[k] != [] && '\n' !in r[k] {
        assert r[k] in multiset(lines);
        assert r[k] in lines;
      }
    }
    r
  }

  lemma {:induction false} CommitLinesClean(branches: seq<string>, log: string -> Option<string>)
    ensures forall x :: x in ContributedLines(branches, log) ==> x != [] && '\n' !in x
    decreases |branches|
  {
    if branches != [] {
      CommitLinesClean(branches[..|branches| - 1], log);
      var out := BranchOutput(log, branches[|branches| - 1]);
      if Truthy(out) {
        LinesClean(out.value);
      }
    }
  }

  /** Writing the sorted list (line 48) and reading it back (line 67) loses nothing. */
  lemma CommitListRoundTrip(branches: seq<string>, log: string -> Option<string>, date: string -> int)
    ensures Lines(Join(SortedCommits(branches, log, date), '\n')) == SortedCommits(branches, log, date)
  {
    LinesJoin(SortedCommits(branches, log, date));
  }

  /**
   * No deduplication: a line that two different branches both contribute is
   * collected at least twice.
   */
  lemma SameLineTwice(branches: seq<string>, log: string -> Option<string>, i: nat, j: nat, x: string)
    requires i < j < |branches|
    requires x in BranchLines(log, branches[i]) && x in BranchLines(log, branches[j])
    ensures multiset(ContributedLines(branches, log))[x] >= 2
  {
    Twice(branches, log, i, j, branches[i], branches[j], x);
  }

  lemma Twice(branches: seq<string>, log: string -> Option<string>, i: nat, j: nat, bi: string, bj: string, x: string)
    requires i < j < |branches| && branches[i] == bi && branches[j] == bj
    requires x in BranchLines(log, bi) && x in BranchLines(log, bj)
    ensures multiset(ContributedLines(branches, log))[x] >= 2
  {
    var pre, post := branches[..j], branches[j..];
    ContributedSplit(branches, j, log);
    assert pre[i] == bi && post[0] == bj;
    ContributedTo(pre, log, i, bi, x);
    ContributedTo(post, log, 0, bj, x);
    CountBoth(ContributedLines(pre, log), ContributedLines(post, log), x);
  }

  lemma CountBoth(p: seq<string>, q: seq<string>, x: string)
    requires x in p && x in q
    ensures multiset(p + q)[x] >= 2
  {
    assert multiset(p + q) == multiset(p) + multiset(q);
  }

  /** Hence such a line appears at least twice in the sorted list, and is picked twice. */
  lemma NoDeduplication(branches: seq<string>, log: string -> Option<string>, date: string -> int, i: nat, j: nat, x: string)
    requires i < j < |branches|
    requires x in BranchLines(log, branches[i]) && x in BranchLines(log, branches[j])
    ensures multiset(SortedCommits(branches, log, date))[x] >= 2
  {
    SameLineTwice(branches, log, i, j, x);
  }

  /**
   * `getCommitList` (lines 21-50) with the file held in memory. The result is
   * `None` when no branch contributed: the file was then never created, and
   * reading it (line 39) throws. Otherwise it is the text written at line 48.
   */
  method GetCommitList(branches: seq<string>, log: string -> Option<string>, date: string -> int)
    returns (file: Option<string>)
    ensures file.None? <==> forall k :: 0 <= k < |branches| ==> !Truthy(BranchOutput(log, branches[k]))
    ensures file.Some? ==> file.value == Join(SortedCommits(branches, log, date), '\n')
    ensures file.Some? ==> Lines(file.value) == SortedCommits(branches, log, date)
  {
    // Lines 25-27: any old commit list is removed first.
    var buffer: string := [];
    var fileExists := false;
    for i := 0 to |branches|
      invariant buffer == Collected(branches[..i], log)
      invariant fileExists <==> buffer != []
    {
      var commits := RunCommand(log(branches[i]));
      CollectedStep(branches, i, log);
      if Truthy(commits) {
        buffer := buffer + commits.value + "\n";
        fileExists := true;
      }
    }
    assert branches[..|branches|] == branches;
    if !fileExists {
      return None;
    }
    CollectedLines(branches, log);
    var sorted := Sorting.SortByKey(Lines(buffer), CommitKey(date));
    file := Some(Join(sorted, '\n'));
    CommitListRoundTrip(branches, log, date);
  }
}
