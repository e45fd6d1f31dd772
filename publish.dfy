/** Publishing the regenerated site: deciding from the diff whether anything
    besides the volatile modification timestamps changed, and opening a pull
    request through git and the GitHub command line. */
module Publish {

  /** A command line, as the argument list handed to the process runner. */
  type Cmd = seq<string>

  /** The diff the decision is taken on: each changed file compared with diff. */
  const DifftoolCmd: Cmd := ["git", "difftool", "--extcmd=diff", "--no-prompt"]

  /** Front-matter key of the generated pages that changes on every run. */
  const VolatilePrefix: string := "last_modified_at: "

  /** A line of diff's normal output that shows changed content
      ("> " added, "< " removed); hunk headers and "---" separators are not. */
  predicate IsChangeLine(line: string)
  {
    2 <= |line| && (line[0] == '>' || line[0] == '<') && line[1] == ' '
  }

  /** The same test as line.startswith(("> ", "< ")). */
  lemma ChangeLineIsPrefixTest(line: string)
    ensures IsChangeLine(line) <==> "> " <= line || "< " <= line
  {
  }

  /** A changed line that is not just the modification timestamp. */
  predicate IsSignificant(line: string)
  {
    IsChangeLine(line) && !(VolatilePrefix <= line[2..])
  }

  /** The diff shows a change worth publishing. */
  ghost predicate HasSignificantChange(diff: seq<string>)
  {
    exists i :: 0 <= i < |diff| && IsSignificant(diff[i])
  }

  /** Only "> " and "< " lines can count. */
  lemma NonChangeLineExamples()
    ensures !IsSignificant("") && !IsSignificant(">") && !IsSignificant(">x")
    ensures !IsSignificant("3c3") && !IsSignificant("---") && !IsSignificant(" > x")
    ensures IsSignificant("> ") && IsSignificant("> title: Riichi")
  {
  }

  /** A change line is ignored when its content starts with the timestamp
      key exactly. */
  lemma TimestampLinesIgnored(date: string)
    ensures !IsSignificant("< " + VolatilePrefix + date) && !IsSignificant("> " + VolatilePrefix + date)
  {
    assert ("< " + VolatilePrefix + date)[2..] == VolatilePrefix + date;
    assert ("> " + VolatilePrefix + date)[2..] == VolatilePrefix + date;
  }

  /** The key without its space counts as a change. */
  lemma TimestampKeyWithoutSpaceCounts()
    ensures IsSignificant("> last_modified_at:2024")
  {
    assert "> last_modified_at:2024"[2..][17] == '2';
  }

  /** The key after a further space counts as a change. */
  lemma IndentedTimestampKeyCounts()
    ensures IsSignificant("<  last_modified_at: 2024")
  {
    assert "<  last_modified_at: 2024"[2..][0] == ' ';
  }

  /** A diff is significant exactly when one of its parts is. */
  lemma {:induction false} SignificantChangeConcat(a: seq<string>, b: seq<string>)
    ensures HasSignificantChange(a + b) <==> HasSignificantChange(a) || HasSignificantChange(b)
  {
    if HasSignificantChange(a + b) {
      var i :| 0 <= i < |a + b| && IsSignificant((a + b)[i]);
      if i < |a| {
        assert a[i] == (a + b)[i];
      } else {
        assert b[i - |a|] == (a + b)[i];
      }
    }
    if HasSignificantChange(a) {
      var i :| 0 <= i < |a| && IsSignificant(a[i]);
      assert (a + b)[i] == a[i];
    }
    if HasSignificantChange(b) {
      var i :| 0 <= i < |b| && IsSignificant(b[i]);
      assert (a + b)[|a| + i] == b[i];
    }
  }

  /** Inserting timestamp lines or diff headers anywhere changes no decision. */
  lemma InsignificantLinesChangeNothing(a: seq<string>, noise: seq<string>, b: seq<string>)
    requires forall k :: 0 <= k < |noise| ==> !IsSignificant(noise[k])
    ensures HasSignificantChange(a + noise + b) <==> HasSignificantChange(a + b)
  {
    SignificantChangeConcat(a + noise, b);
    SignificantChangeConcat(a, noise);
    SignificantChangeConcat(a, b);
  }

  /** A diff whose only changed lines are timestamps publishes nothing. */
  lemma TimestampOnlyDiffIsInsignificant(diff: seq<string>)
    requires forall k :: 0 <= k < |diff| && IsChangeLine(diff[k]) ==> VolatilePrefix <= diff[k][2..]
    ensures !HasSignificantChange(diff)
  {
  }

  /** The pull request's title, from the clock reading formatted as
      "%Y-%m-%d %H:%M". */
  function PrTitle(stamp: string): string
  {
    "chore: update to " + stamp
  }

  /** The pull request's body, from the full clock reading. */
  function PrBody(nowText: string): string
  {
    "Automatic update of the website posts. Data retrieval timestamp: " + nowText
  }

  /** Commit every tracked change with the title as message. */
  function CommitCmd(title: string): Cmd
  {
    ["git", "commit", "-a", "-m", title]
  }

  /** Push the new branch and track it. */
  function PushCmd(branch: string): Cmd
  {
    ["git", "push", "-u", "origin", branch]
  }

  /** Open the pull request with the GitHub command line. */
  function OpenPrCmd(title: string, body: string): Cmd
  {
    ["gh", "pr", "create", "--title", title, "--body", body]
  }

  /** Commit everything, push the branch, open the pull request. */
  function PrCommands(branch: string, stamp: string, nowText: string): (cmds: seq<Cmd>)
  {
    [CommitCmd(PrTitle(stamp)), PushCmd(branch), OpenPrCmd(PrTitle(stamp), PrBody(nowText))]
  }

  /** Every command create_pr announces, in order: the diff unless forced,
      then the three publishing commands if forced or if the diff shows a
      significant change. */
  ghost function CreatePrLog(diff: seq<string>, branch: string, stamp: string, nowText: string, force: bool): seq<Cmd>
  {
    (if force then [] else [DifftoolCmd])
    + (if force || HasSignificantChange(diff) then PrCommands(branch, stamp, nowText) else [])
  }

  /** The commands create_pr actually runs: the diff is always run, since it
      only reads; the publishing commands are suppressed in a dry run. */
  ghost function CreatePrRuns(diff: seq<string>, branch: string, stamp: string, nowText: string, dryRun: bool, force: bool): seq<Cmd>
  {
    (if force then [] else [DifftoolCmd])
    + (if !dryRun && (force || HasSignificantChange(diff)) then PrCommands(branch, stamp, nowText) else [])
  }

  /** A forced update publishes without looking at the diff. */
  lemma ForcedUpdatePublishes(diff: seq<string>, branch: string, stamp: string, nowText: string)
    ensures CreatePrLog(diff, branch, stamp, nowText, true) == PrCommands(branch, stamp, nowText)
    ensures DifftoolCmd !in CreatePrLog(diff, branch, stamp, nowText, true)
  {
  }

  /** Without force, a diff with no significant line only runs the diff. */
  lemma NoChangeNoPullRequest(diff: seq<string>, branch: string, stamp: string, nowText: string, dryRun: bool)
    requires !HasSignificantChange(diff)
    ensures CreatePrLog(diff, branch, stamp, nowText, false) == [DifftoolCmd]
    ensures CreatePrRuns(diff, branch, stamp, nowText, dryRun, false) == [DifftoolCmd]
  {
  }

  /** A dry run announces the same commands but runs nothing that writes:
      at most the diff. */
  lemma DryRunOnlyReads(diff: seq<string>, branch: string, stamp: string, nowText: string, force: bool)
    ensures CreatePrRuns(diff, branch, stamp, nowText, true, force) == if force then [] else [DifftoolCmd]
    ensures forall c :: c in CreatePrRuns(diff, branch, stamp, nowText, true, force) ==> c == DifftoolCmd
  {
  }

  /** Outside a dry run every announced command is run. */
  lemma RealRunRunsWhatItAnnounces(diff: seq<string>, branch: string, stamp: string, nowText: string, force: bool)
    ensures CreatePrRuns(diff, branch, stamp, nowText, false, force) == CreatePrLog(diff, branch, stamp, nowText, force)
  {
  }

  /** The commit and the pull request carry the same title, which names the
      update time; the push names the new branch; the body names the full
      retrieval time. */
  lemma PullRequestNamesUpdate(branch: string, stamp: string, nowText: string)
    ensures var cmds := PrCommands(branch, stamp, nowText);
      && |cmds| == 3
      && cmds[0][4] == cmds[2][4] == PrTitle(stamp)
      && PrTitle(stamp)[17..] == stamp
      && cmds[1][4] == branch
      && PrBody(nowText)[|PrBody(nowText)| - |nowText|..] == nowText
  {
  }

  /** The repository create_pr works on, seen through the commands run in it. */
  class Repo {
    /** What git difftool prints for the working tree, split into lines. */
    var diffLines: seq<string>
    /** Every command announced, in order. */
    var log: seq<Cmd>
    /** Every command actually run, in order. */
    var executed: seq<Cmd>

    constructor (diffLines: seq<string>)
      ensures this.diffLines == diffLines && log == [] && executed == []
    {
      this.diffLines := diffLines;
      log := [];
      executed := [];
    }

    /** execute_cmd: announce the command, and run it unless this is a dry run. */
    method ExecuteCmd(cmd: Cmd, dryRun: bool)
      modifies this
      ensures log == old(log) + [cmd]
      ensures executed == old(executed) + if dryRun then [] else [cmd]
      ensures diffLines == old(diffLines)
    {
      log := log + [cmd];
      if !dryRun {
        executed := executed + [cmd];
      }
    }

    /** has_new_changes: run the diff, whatever the dry-run setting, and
        report whether some line of it is a significant change. */
    method HasNewChanges() returns (changed: bool)
      modifies this
      ensures changed == HasSignificantChange(diffLines)
      ensures log == old(log) + [DifftoolCmd] && executed == old(executed) + [DifftoolCmd]
      ensures diffLines == old(diffLines)
    {
      log := log + [DifftoolCmd];
      executed := executed + [DifftoolCmd];
      var diff := diffLines;
      var i := 0;
      while i < |diff|
        invariant 0 <= i <= |diff|
        invariant forall k :: 0 <= k < i ==> !IsSignificant(diff[k])
      {
        var line := diff[i];
        i := i + 1;
        if !IsChangeLine(line) {
          continue;
        }
        var strippedLine := line[2..];
        if VolatilePrefix <= strippedLine {
          continue;
        }
        return true;
      }
      return false;
    }

    /** create_pr: unless forced, look at the diff first and stop when it shows
        no significant change; otherwise commit, push and open the pull
        request, each through execute_cmd. */
    method CreatePr(branch: string, stamp: string, nowText: string, dryRun: bool, force: bool)
      modifies this
      ensures log == old(log) + CreatePrLog(old(diffLines), branch, stamp, nowText, force)
      ensures executed == old(executed) + CreatePrRuns(old(diffLines), branch, stamp, nowText, dryRun, force)
      ensures diffLines == old(diffLines)
    {
      var title := PrTitle(stamp);
      var body := PrBody(nowText);
      ghost var cmds := PrCommands(branch, stamp, nowText);
      ghost var checked: seq<Cmd> := if force then [] else [DifftoolCmd];
      ghost var announced, ran := log, executed;
      if !force {
        var changed := HasNewChanges();
        if !changed {
          return;
        }
      }
      assert log == announced + checked && executed == ran + checked;
      ExecuteCmd(CommitCmd(title), dryRun);
      ExecuteCmd(PushCmd(branch), dryRun);
      ExecuteCmd(OpenPrCmd(title, body), dryRun);
      assert log == announced + checked + cmds;
      assert executed == ran + checked + if dryRun then [] else cmds;
    }
  }
}
