/** Confirmation and the deletion batch: `confirmDeletion`,
    `_deleteBranches`, `deleteBranches` and `confirmAndDeleteBranches`.
    Standard input is a sequence of tokens; git is an oracle from argument
    vectors to outcomes. */
module Deletion {
  import opened Wrappers
  import opened Seqs
  import opened Selection

  /** A token that ends the confirmation loop. */
  predicate IsAnswer(token: string)
  {
    token == "yes" || token == "no"
  }

  /** The user's decision: Some(true) for a `yes`, Some(false) for a `no`,
      whichever comes first; None when the input holds neither. */
  function Decision(tokens: seq<string>): Option<bool>
  {
    if tokens == [] then None
    else if tokens[0] == "yes" then Some(true)
    else if tokens[0] == "no" then Some(false)
    else Decision(tokens[1..])
  }

  /** The decision is read off the first `yes` or `no`; every other token is
      ignored, and there is no decision when neither occurs. */
  lemma {:induction false} DecisionIsFirstAnswer(tokens: seq<string>, k: nat)
    ensures Decision(tokens) == None <==> forall j :: 0 <= j < |tokens| ==> !IsAnswer(tokens[j])
    ensures k < |tokens| && IsAnswer(tokens[k]) && (forall j :: 0 <= j < k ==> !IsAnswer(tokens[j]))
            ==> Decision(tokens) == Some(tokens[k] == "yes")
  {
    if tokens != [] {
      var rest := tokens[1..];
      DecisionIsFirstAnswer(rest, if k > 0 then k - 1 else 0);
      assert forall j :: 0 <= j < |rest| ==> rest[j] == tokens[j + 1];
      if forall j :: 0 <= j < |rest| ==> !IsAnswer(rest[j]) {
        assert forall j :: 1 <= j < |tokens| ==> !IsAnswer(tokens[j]);
      }
    }
  }

  /** `confirmDeletion`: prompt and read one token at a time until the token
      is `yes` or `no`. `read` is the number of tokens consumed; when the
      input runs out first, the Go loop would go on prompting for ever,
      which is the `None` answer here. */
  method ConfirmDeletion(tokens: seq<string>) returns (answer: Option<bool>, read: nat)
    ensures answer == Decision(tokens)
    ensures read <= |tokens|
    ensures answer.None? ==> read == |tokens|
    ensures answer.Some? ==> 0 < read && IsAnswer(tokens[read - 1])
                             && answer.value == (tokens[read - 1] == "yes")
    ensures forall j :: 0 <= j < read - 1 ==> !IsAnswer(tokens[j])
  {
    read := 0;
    while read < |tokens|
      invariant read <= |tokens|
      invariant Decision(tokens) == Decision(tokens[read..])
      invariant forall j :: 0 <= j < read ==> !IsAnswer(tokens[j])
    {
      var input := tokens[read];
      assert tokens[read..][1..] == tokens[read + 1..];
      read := read + 1;
      if input == "yes" {
        answer := Some(true);
        return;
      } else if input == "no" {
        answer := Some(false);
        return;
      }
    }
    answer := None;
  }

  /** The argument vector `deleteBranch` hands to git: `-D` when forced,
      `-d` otherwise. */
  function DeleteCommand(branch: string, force: bool): (argv: seq<string>)
    ensures |argv| == 3 && argv[0] == "branch" && argv[2] == branch
    ensures argv[1] == "-D" <==> force
    ensures !force ==> argv[1] == "-d"
  {
    ["branch", if force then "-D" else "-d", branch]
  }

  /** The commands issued for a batch, one per branch, in order. */
  function Commands(branches: seq<string>, force: bool): (cmds: seq<seq<string>>)
    ensures |cmds| == |branches|
  {
    seq(|branches|, i requires 0 <= i < |branches| => DeleteCommand(branches[i], force))
  }

  /** Running git: None when it exits with status 0, Some(output) with its
      combined output when it does not. */
  type Git = seq<string> -> Option<string>

  /** The error text `deleteBranch` builds from git's output. */
  function FailureMessage(branch: string, output: string): (m: string)
    ensures |m| == 24 + |branch| + |output|
    ensures m[..22] == "Error deleting branch "
    ensures m[22..22 + |branch|] == branch
    ensures m[|m| - |output|..] == output
  {
    "Error deleting branch " + branch + ": " + output
  }

  function Fails(git: Git, force: bool): string -> bool
  {
    b => git(DeleteCommand(b, force)).Some?
  }

  function Succeeds(git: Git, force: bool): string -> bool
  {
    b => git(DeleteCommand(b, force)).None?
  }

  /** The map `_deleteBranches` fills: a key for each branch whose deletion
      failed, holding the error text. */
  function Failures(branches: seq<string>, force: bool, git: Git): (failed: map<string, string>)
    ensures forall b :: b in failed <==> b in branches && git(DeleteCommand(b, force)).Some?
    ensures forall b :: b in failed ==> failed[b] == FailureMessage(b, git(DeleteCommand(b, force)).value)
  {
    if branches == [] then map[]
    else
      var b := branches[|branches| - 1];
      var failed := Failures(branches[..|branches| - 1], force, git);
      match git(DeleteCommand(b, force))
      case None => failed
      case Some(output) => failed[b := FailureMessage(b, output)]
  }

  /** `_deleteBranches`: one git call per branch, in order, never stopping
      early; failures are recorded and the batch goes on. */
  method DeleteEach(branches: seq<string>, force: bool, git: Git)
    returns (failed: map<string, string>, attempted: seq<seq<string>>)
    ensures attempted == Commands(branches, force)
    ensures failed == Failures(branches, force, git)
    ensures failed.Keys <= Elements(branches)
  {
    failed := map[];
    attempted := [];
    for i := 0 to |branches|
      invariant attempted == Commands(branches[..i], force)
      invariant failed == Failures(branches[..i], force, git)
    {
      var branch := branches[i];
      assert branches[..i + 1][..i] == branches[..i];
      var cmd := DeleteCommand(branch, force);
      attempted := attempted + [cmd];
      var err := git(cmd);
      if err.Some? {
        failed := failed[branch := FailureMessage(branch, err.value)];
      }
    }
    assert branches[..|branches|] == branches;
  }

  /** Every branch either fails or succeeds. */
  lemma {:induction false} OutcomesPartition(s: seq<string>, git: Git, force: bool)
    ensures |Filter(s, Fails(git, force))| + |Filter(s, Succeeds(git, force))| == |s|
  {
    if s != [] {
      var last := s[|s| - 1];
      OutcomesPartition(s[..|s| - 1], git, force);
      assert Fails(git, force)(last) == git(DeleteCommand(last, force)).Some?;
      assert Succeeds(git, force)(last) == !Fails(git, force)(last);
    }
  }

  /** The failure map has no more keys than there are branches, and when no
      branch repeats (git never lists one twice) it has exactly one key per
      failed deletion. */
  lemma FailureCount(branches: seq<string>, force: bool, git: Git)
    ensures |Failures(branches, force, git)| <= |branches|
    ensures Distinct(branches)
            ==> |Failures(branches, force, git)| == |Filter(branches, Fails(git, force))|
  {
    var failed := Failures(branches, force, git);
    var fs := Filter(branches, Fails(git, force));
    forall b ensures b in failed.Keys <==> b in Elements(fs) {
      FilterMembership(branches, Fails(git, force), b);
    }
    assert failed.Keys == Elements(fs);
    assert |failed| == |failed.Keys|;
    ElementsCard(fs);
    if Distinct(branches) {
      FilterDistinct(branches, Fails(git, force));
    }
  }

  /** What `deleteBranches` reports: the commands it ran, the failures and the
      number of branches deleted. */
  datatype Report = Report(attempted: seq<seq<string>>, failed: map<string, string>, deleted: int)

  /** `deleteBranches`: run the batch, then count. The deleted count is the
      batch size less the number of failures, so it is never negative, and
      with distinct branches it is the number of successful git calls. */
  method DeleteBranches(toDelete: seq<string>, force: bool, git: Git) returns (report: Report)
    ensures report.attempted == Commands(toDelete, force)
    ensures report.failed == Failures(toDelete, force, git)
    ensures report.deleted == |toDelete| - |report.failed|
    ensures 0 <= report.deleted <= |toDelete|
    ensures Distinct(toDelete) ==> report.deleted == |Filter(toDelete, Succeeds(git, force))|
  {
    var failed, attempted := DeleteEach(toDelete, force, git);
    var deletedCount := |toDelete| - |failed|;
    report := Report(attempted, failed, deletedCount);
    FailureCount(toDelete, force, git);
    OutcomesPartition(toDelete, git, force);
  }

  /** How a confirm-then-delete run ends. `Unanswered` stands for input
      running out before a `yes` or `no`. */
  datatype Outcome = NothingToDelete | Cancelled | Unanswered | Deleted(report: Report)

  /** What `confirmAndDeleteBranches` promises for a selection `toDelete`:
      the protection notice appears exactly when the checked-out branch was
      selected; the run stops without asking when nothing else is left, is
      cancelled by a `no`, and only after a `yes` runs the batch, on exactly
      the selection without the checked-out branch. */
  predicate Settles(toDelete: seq<string>, current: string, force: bool, stdin: seq<string>, git: Git,
                    outcome: Outcome, protectedNotice: bool)
  {
    var targets := Filter(toDelete, IsNotCurrent(current));
    && (protectedNotice <==> current in toDelete)
    && (outcome.NothingToDelete? <==> targets == [])
    && (outcome.Cancelled? <==> targets != [] && Decision(stdin) == Some(false))
    && (outcome.Unanswered? <==> targets != [] && Decision(stdin) == None)
    && (outcome.Deleted? <==> targets != [] && Decision(stdin) == Some(true))
    && (outcome.Deleted? ==>
          && outcome.report.attempted == Commands(targets, force)
          && outcome.report.failed == Failures(targets, force, git)
          && outcome.report.deleted == |targets| - |outcome.report.failed|)
  }

  /** `confirmAndDeleteBranches`: protect the checked-out branch, stop when
      nothing is left, otherwise ask, and delete only after a `yes`, only the
      protected list. (The Go function returns true exactly for `Deleted`.) */
  method ConfirmAndDeleteBranches(toDelete: seq<string>, current: string, force: bool,
                                  stdin: seq<string>, git: Git)
    returns (outcome: Outcome, protectedNotice: bool)
    ensures Settles(toDelete, current, force, stdin, git, outcome, protectedNotice)
  {
    var filtered, removed := FilterCurrentBranch(toDelete, current);
    protectedNotice := removed;
    if |filtered| == 0 {
      outcome := NothingToDelete;
      return;
    }
    var yes, _ := ConfirmDeletion(stdin);
    if yes != Some(true) {
      outcome := if yes == Some(false) then Cancelled else Unanswered;
      return;
    }
    var report := DeleteBranches(filtered, force, git);
    outcome := Deleted(report);
  }
}
